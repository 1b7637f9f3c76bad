# TLV8 container codec

A Dafny model of the TLV8 (tag–length–value) container that the HomeKit
Accessory Protocol pairing layer uses as its wire encoding. The model also
proves properties of it.

A container maps one-byte tags to byte values of any length. `Set` stores a
value under a tag and replaces what was there. `GetBytes` reads the value back
and returns the empty value for an unknown tag. On the wire, each stored value
is written as one or more records `tag ‖ length ‖ payload`. The length field is
one byte, so a record carries at most 255 bytes. A longer value is split into
255-byte records followed by one record with the remainder, all with the same
tag. `ReadTLV8` reads records until the input runs out. It concatenates the
payloads of records that share a tag, in stream order.

Files:

- `wrappers.dfy`: module `Wrappers`. The `Option` result the decoder returns.
- `tlv8.dfy`: module `Tlv8`. Bytes (`uint8`), records, the container,
  `Set`/`GetBytes`, and the encoder and decoder as recursive functions. The
  codec is built in layers:
  - `Chunks` turns one value into records.
  - `RecordsFrom`/`ContainerRecords` turn a container into records.
  - `Serialize` turns records into bytes.
  - `ParseRecords` turns bytes into records.
  - `AssembleFrom` turns records into tag values.
  - `Encode` and `Decode` combine these layers.

  The record-level round trip `ParseSerialize` lives here too, because the
  contracts of `Encode` and `Decode` rest on it.
- `tlv8_lemmas.dfy`: module `Tlv8Lemmas`. The laws:
  - record-level round trips in both directions
  - what decoding reassembles
  - the container round trip `Decode(Encode(c)) == Some(c)`
  - encoded sizes and fragment shapes
  - truncation
  - the concrete streams fixed by the tests
- `tlv8_stream.dfy`: module `Tlv8Stream`. The writer and reader loops of the
  encoder and decoder (`WriteValue`, `BytesBuffer`, `ReadTLV8`), rebuilt from
  the fixtures in `tlv8_test.go`. Each loop is proved equal to the recursive
  definition.

The implementation file that defines `ReadTLV8` and `TLV8Container` is not
part of this model. Its behaviour is reconstructed from the API and fixtures
that `tlv8_test.go` exercises. The tests do not fix three choices, so this
model states them:

- **Tag order on encode.** Stored tags are emitted in ascending numeric order
  (`RecordsFrom` scans tags 0–255). If the container keeps a Go map, its
  iteration order is not deterministic; a fixed order makes the encoding a
  function of the container.
- **Truncated input.** Two cases make the whole decode return `None`, with no
  partial container:
  - a lone tag byte with no length byte;
  - a length field larger than the bytes that remain.
- **No zero-length terminator.** The encoder writes 255-byte records while
  more than 255 bytes remain, then one record with the rest. A value whose
  length is a positive multiple of 255 therefore ends in a full record. An
  empty value is written as one zero-length record. Decoding such a record
  stores the tag with the empty value.

## Model

| member | source | states |
|---|---|---|
| `Tlv8.GetBytes` | tlv8_test.go:16 | Reading a tag gives exactly the value stored under it, and the empty value for a tag that was never stored. |
| `Tlv8.Set` | tlv8_test.go:44-48 | After `Set(c, t, v)`, `GetBytes` of `t` is exactly `v`: the old value is replaced, not extended. The tag becomes present, and every other tag's value is unchanged. |
| `Tlv8.Chunks` | tlv8_test.go:35-41 | Fragmenting a value gives at least one record, and every record fits the one-byte length field (at most 255 bytes). |
| `Tlv8Lemmas.ChunksShape` | tlv8_test.go:35-41 | All fragments of a value carry its tag. Their payloads concatenate back to the value. Every fragment but the last is a full 255-byte record. The last is empty only when the value is empty. |
| `Tlv8Lemmas.ChunkCount` | tlv8_test.go:37-38 | A value takes one record per started 255 bytes, and an empty value takes one record. |
| `Tlv8Lemmas.ExactMultipleHasNoTerminator` | tlv8_test.go:37-38 | A value of exactly k·255 bytes (k > 0) is written as exactly k full records, with no zero-length terminator. |
| `Tlv8Lemmas.SerializeLength` | tlv8_test.go:37-41 | A record sequence takes its payload bytes plus two header bytes per record on the wire. |
| `Tlv8Lemmas.EncodedValueSize` | tlv8_test.go:31-41 | A container holding one value of length n encodes to n + 2·max(1, ⌈n/255⌉) bytes. |
| `Tlv8Lemmas.EncodeShortValue` | tlv8_test.go:50-55 | A single value of at most 255 bytes encodes to exactly `tag ‖ len(v) ‖ v`. |
| `Tlv8Lemmas.EncodeTwoBytes` | tlv8_test.go:50-55 | `{1: [AF, FA]}` encodes to `01 02 AF FA`. |
| `Tlv8Lemmas.EncodeValue384` | tlv8_test.go:29-42 | Any 384-byte value under tag t encodes to `(t, FF, v[0..255])` followed by `(t, 81, v[255..384])`. That is 388 bytes in all. |
| `Tlv8Lemmas.EncodePattern384` | tlv8_test.go:31-41 | The test's 384-byte value (00 11 … FF repeated) encodes to the expected stream: the first record ends at byte EE and the second starts at byte FF. |
| `Tlv8.ContainerRecords` | tlv8_test.go:41 | Every record written for a container fits the one-byte length field. |
| `Tlv8Lemmas.RecordsFromStoredTags` | tlv8_test.go:41 | The encoder writes records only for stored tags. |
| `Tlv8Lemmas.RecordsFromAscending` | tlv8_test.go:41 | Records are written in ascending tag order, so all the fragments of one value are adjacent. |
| `Tlv8.ParseRecords` | tlv8_test.go:10-27 | When the record split succeeds, the records fit the length field and serialise back to exactly the input stream. |
| `Tlv8.ParseSerializePrefix` | tlv8_test.go:19-27 | Parsing whole records followed by more bytes gives those records followed by the parse of the rest. It fails exactly when the rest fails. |
| `Tlv8.ParseSerialize` | tlv8_test.go:10-27 | Parsing serialised valid records gives the same records back. |
| `Tlv8Lemmas.ParseExact` | tlv8_test.go:10-27 | A stream parses to `rs` if and only if `rs` are valid records that serialise to it. So a stream has at most one record structure. |
| `Tlv8.Encode` | tlv8_test.go:41 | The encoded bytes split back into exactly the container's records, in ascending tag order. Its laws are `RoundTrip` (decoding gives the container back), `EncodedValueSize` and `RecordsFromAscending`. |
| `Tlv8.Decode` | tlv8_test.go:14-16 | A successful decode means the stream is a sequence of whole records, and the container is what those records fold to. Its laws are `DecodeFailsIffMalformed` (the converse: every whole-record stream decodes), `DecodeConcatenatesSameTag` and `RoundTrip`. |
| `Tlv8Lemmas.AssembleCollects` | tlv8_test.go:19-27 | Folding records extends each tag's value by the payloads of that tag's records, in stream order. A tag is present afterwards if and only if it was present before or some record carries it. |
| `Tlv8Lemmas.DecodeConcatenatesSameTag` | tlv8_test.go:19-27 | For a well-formed stream, each tag's decoded value is the concatenation, in stream order, of the payloads of all records with that tag. Exactly the tags that occur are present. |
| `Tlv8Lemmas.DecodeFailsIffMalformed` | tlv8_test.go:14-15 | Decoding fails if and only if the stream is not a sequence of whole records. |
| `Tlv8Lemmas.AssembleChunks` | tlv8_test.go:19-42 | Reassembling the fragments of one value appends the whole value to its tag. |
| `Tlv8Lemmas.RoundTrip` | tlv8_test.go:10-55 | For every container, `Decode(Encode(c)) == Some(c)`: the same tags, and each value byte for byte, at every length (0, 255, 510, …). |
| `Tlv8Lemmas.RoundTripGetBytes` | tlv8_test.go:44-55 | After encoding and decoding, `GetBytes` returns the original value for every tag. |
| `Tlv8Lemmas.DecodeEmptyStream` | tlv8_test.go:10-17 | The empty stream decodes, without error, to the empty container. |
| `Tlv8Lemmas.TruncatedRecordRejected` | tlv8_test.go:14-15 | A stream of whole records followed by a cut-off record fails to decode. The cut may fall inside the header or inside the payload. |
| `Tlv8Lemmas.DecodeLoneTag` | tlv8_test.go:14-15 | A lone tag byte (truncated header) fails to decode. |
| `Tlv8Lemmas.DecodeShortPayload` | tlv8_test.go:14-15 | A header announcing 5 bytes followed by fewer than 5 fails to decode. |
| `Tlv8Lemmas.DecodeOneRecord` | tlv8_test.go:10-17 | `01 02 AF FA` decodes successfully, and tag 1 holds `[AF, FA]`. |
| `Tlv8Lemmas.DecodeTwoRecords` | tlv8_test.go:19-27 | Two records with the same tag decode to that tag alone, holding both payloads in stream order. |
| `Tlv8Lemmas.DecodeTwoRecordsSameTag` | tlv8_test.go:19-27 | `01 02 AF FA 01 03 BF FB AA` decodes successfully, and tag 1 holds `[AF FA BF FB AA]`. |
| `Tlv8Stream.WriteValue` | tlv8_test.go:35-41 | The writer loop writes 255-byte records while more than 255 bytes remain, then the rest. It produces exactly the serialised `Chunks` of the value. |
| `Tlv8Stream.BytesBuffer` | tlv8_test.go:50-55 | Scanning the tags in ascending order and writing each stored value produces exactly `Encode(c)`. |
| `Tlv8Stream.ReadTLV8` | tlv8_test.go:10-27 | The reader loop produces exactly `Decode(s)`. It appends each record's payload to its tag and fails on a truncated header or payload. Its invariant: the records read so far serialise to the consumed prefix. |

## Left out

- hap/keep_alive.go: a timer loop over channels plus socket writes to live connections. It has no algorithmic content, and its helpers (`NewNotification`, `FixProtocolSpecifier`) are not part of this model.
- The implementation of `ReadTLV8` and `TLV8Container` is not part of this model. Its observable behaviour is taken from the tests in tlv8_test.go; the loops in `Tlv8Stream` are one way to compute it.
- The `io.Reader` and `bytes.Buffer` plumbing: input and output are plain byte sequences.
- Any nondeterministic order in which the container might emit its tags (as a Go map would). The model fixes ascending tag order instead.
- The higher-level pairing or session meaning of particular tags, and any cryptography on payloads.
- Tlv8.Chunks: its own contract states only that there is at least one record and that every record fits the length field. The tag, content, fullness and last-record facts are proved separately in `Tlv8Lemmas.ChunksShape`, which keeps the proofs that mention `Chunks` small.
- Tlv8.ContainerRecords: its own contract states only that every record fits the length field. Order and the stored-tags property are proved in `Tlv8Lemmas.RecordsFromAscending` and `Tlv8Lemmas.RecordsFromStoredTags`.
