/**
  The TLV8 container of the HomeKit Accessory Protocol pairing layer.

  A container maps one-byte tags to byte values of any length. On the wire
  every value becomes one or more records `tag ‖ length ‖ payload`; the
  one-byte length field caps a record at 255 payload bytes, so longer values
  are split into consecutive records that share the tag, and the decoder
  concatenates the payloads of same-tag records in stream order.

  The codec is layered:
    value      --Chunks-->          records of one tag
    container  --ContainerRecords-> records in ascending tag order
    records    --Serialize-->       bytes
    bytes      --ParseRecords-->    records (or None when truncated)
    records    --AssembleFrom-->    tag -> concatenated payloads
*/
module Tlv8 {
  import opened Wrappers

  /** An unsigned 8-bit quantity: a tag, a length field or a payload byte. */
  type uint8 = b: int | 0 <= b < 256

  /** The largest payload one record can carry (the length field is one byte). */
  const MaxChunk: nat := 255

  /** One wire record. `payload` must fit the length field to be serialisable. */
  datatype Record = Record(tag: uint8, payload: seq<uint8>)

  predicate ValidRecord(r: Record) {
    |r.payload| <= MaxChunk
  }

  predicate ValidRecords(rs: seq<Record>) {
    forall i :: 0 <= i < |rs| ==> ValidRecord(rs[i])
  }

  /** The payloads of `rs` concatenated in order. */
  function Payloads(rs: seq<Record>): seq<uint8> {
    if rs == [] then [] else rs[0].payload + Payloads(rs[1..])
  }

  /** The records of `rs` that carry `tag`, in stream order. */
  function Filter(rs: seq<Record>, tag: uint8): seq<Record> {
    if rs == [] then []
    else if rs[0].tag == tag then [rs[0]] + Filter(rs[1..], tag)
    else Filter(rs[1..], tag)
  }

  // ---------------------------------------------------------------------------
  // The container and its accessors

  /** The tag-to-value store; each tag holds exactly one logical value. */
  datatype Container = Container(items: map<uint8, seq<uint8>>)

  const Empty: Container := Container(map[])

  /** The value stored under `tag` in `m`, or the empty value when absent. */
  function Lookup(m: map<uint8, seq<uint8>>, tag: uint8): seq<uint8> {
    if tag in m then m[tag] else []
  }

  /** The whole logical value of `tag`; an unknown tag reads as empty. */
  function GetBytes(c: Container, tag: uint8): (v: seq<uint8>)
    ensures tag in c.items ==> v == c.items[tag]
    ensures tag !in c.items ==> v == []
  {
    Lookup(c.items, tag)
  }

  /** Stores `value` as the complete value of `tag`, replacing (never
      extending) what was there; every other tag is left as it was. */
  function Set(c: Container, tag: uint8, value: seq<uint8>): (r: Container)
    ensures tag in r.items && GetBytes(r, tag) == value
    ensures r.items.Keys == c.items.Keys + {tag}
    ensures forall t :: t != tag ==> GetBytes(r, t) == GetBytes(c, t)
  {
    Container(c.items[tag := value])
  }

  // ---------------------------------------------------------------------------
  // Encoding

  /** Splits `value` into records of `tag`: full 255-byte records while more
      than 255 bytes remain, then one record with the rest. An empty value
      gives one empty record; a length that is a positive multiple of 255
      ends in a full record, with no zero-length terminator. What the
      fragments are is stated in `Tlv8Lemmas.ChunksShape`. */
  function Chunks(tag: uint8, value: seq<uint8>): (rs: seq<Record>)
    decreases |value|
    ensures 1 <= |rs|
    ensures ValidRecords(rs)
  {
    if |value| > MaxChunk then
      [Record(tag, value[..MaxChunk])] + Chunks(tag, value[MaxChunk..])
    else
      [Record(tag, value)]
  }

  /** The records of every stored tag `>= from`, tags in ascending order. */
  function RecordsFrom(c: Container, from: nat): (rs: seq<Record>)
    requires from <= 256
    decreases 256 - from
    ensures ValidRecords(rs)
  {
    if from == 256 then []
    else
      var here := if from in c.items then Chunks(from, c.items[from]) else [];
      here + RecordsFrom(c, from + 1)
  }

  /** All records of the container, in ascending tag order. */
  function ContainerRecords(c: Container): (rs: seq<Record>)
    ensures ValidRecords(rs)
  {
    RecordsFrom(c, 0)
  }

  function RecordBytes(r: Record): seq<uint8>
    requires ValidRecord(r)
  {
    [r.tag, |r.payload|] + r.payload
  }

  /** The wire form of a record sequence. */
  function Serialize(rs: seq<Record>): seq<uint8>
    requires ValidRecords(rs)
  {
    if rs == [] then [] else RecordBytes(rs[0]) + Serialize(rs[1..])
  }

  /** The wire form of a container, as the HAP TLV8 container's
      `BytesBuffer` writes it. The bytes split back into exactly the
      container's records; `Tlv8Lemmas.RoundTrip` states that decoding them
      gives the container back. */
  function Encode(c: Container): (bytes: seq<uint8>)
    ensures ParseRecords(bytes) == Some(ContainerRecords(c))
  {
    ParseSerialize(ContainerRecords(c));
    Serialize(ContainerRecords(c))
  }

  // ---------------------------------------------------------------------------
  // Decoding

  /** Splits a stream into records. An empty stream is zero records; a lone
      tag byte (truncated header) or a length field larger than the bytes
      left (truncated payload) fails the whole parse. Whatever it returns
      serialises back to exactly the input. */
  function ParseRecords(s: seq<uint8>): (r: Option<seq<Record>>)
    decreases |s|
    ensures r.Some? ==> ValidRecords(r.value) && Serialize(r.value) == s
  {
    if |s| == 0 then Some([])
    else if |s| == 1 then None
    else if |s| - 2 < s[1] then None
    else
      var rec := Record(s[0], s[2..2 + s[1]]);
      match ParseRecords(s[2 + s[1]..])
      case None => None
      case Some(rest) =>
        assert s == RecordBytes(rec) + s[2 + s[1]..];
        Some([rec] + rest)
  }

  /** One record in front of a stream parses to that record in front of
      whatever the stream parses to. */
  lemma ParseCons(r: Record, rest: seq<uint8>)
    requires ValidRecord(r)
    ensures ParseRecords(RecordBytes(r) + rest) ==
      match ParseRecords(rest)
      case None => None
      case Some(more) => Some([r] + more)
  {
    var s := RecordBytes(r) + rest;
    assert s[1] == |r.payload| && s[0] == r.tag;
    assert s[2..2 + s[1]] == r.payload;
    assert s[2 + s[1]..] == rest;
  }

  /** Parsing serialised records followed by more bytes yields those records
      followed by whatever the rest parses to. */
  lemma {:induction false} ParseSerializePrefix(rs: seq<Record>, tail: seq<uint8>)
    requires ValidRecords(rs)
    ensures ParseRecords(Serialize(rs) + tail) ==
      match ParseRecords(tail)
      case None => None
      case Some(more) => Some(rs + more)
  {
    if rs == [] {
      assert Serialize(rs) + tail == tail;
      match ParseRecords(tail)
      case None =>
      case Some(more) =>
        assert rs + more == more;
    } else {
      var r := rs[0];
      var rest := Serialize(rs[1..]) + tail;
      assert Serialize(rs) + tail == RecordBytes(r) + rest;
      ParseCons(r, rest);
      ParseSerializePrefix(rs[1..], tail);
      match ParseRecords(tail)
      case None =>
      case Some(more) =>
        ConsAppend(rs, more);
    }
  }

  lemma ConsAppend(rs: seq<Record>, more: seq<Record>)
    requires rs != []
    ensures [rs[0]] + (rs[1..] + more) == rs + more
  {
    assert rs == [rs[0]] + rs[1..];
  }

  /** Record-level round trip: a parse of serialised records gives them back. */
  lemma {:induction false} ParseSerialize(rs: seq<Record>)
    requires ValidRecords(rs)
    ensures ParseRecords(Serialize(rs)) == Some(rs)
  {
    ParseSerializePrefix(rs, []);
    assert Serialize(rs) + [] == Serialize(rs);
    assert rs + [] == rs;
  }

  /** Appends a record's payload to the value accumulated for its tag. */
  function Add(acc: map<uint8, seq<uint8>>, r: Record): map<uint8, seq<uint8>> {
    acc[r.tag := Lookup(acc, r.tag) + r.payload]
  }

  /** Folds records into `acc` left to right (stream order). */
  function AssembleFrom(acc: map<uint8, seq<uint8>>, rs: seq<Record>): map<uint8, seq<uint8>>
    decreases |rs|
  {
    if rs == [] then acc else AssembleFrom(Add(acc, rs[0]), rs[1..])
  }

  /** Parses a whole stream into a container, as the HAP `ReadTLV8` does:
      all-or-nothing, with same-tag payloads concatenated in stream order.
      A successful decode means the stream is whole records and the
      container is what they fold to; `Tlv8Lemmas.DecodeFailsIffMalformed`
      gives the converse. */
  function Decode(s: seq<uint8>): (r: Option<Container>)
    ensures r.Some? ==>
      exists rs :: ValidRecords(rs) && Serialize(rs) == s && r.value.items == AssembleFrom(map[], rs)
  {
    match ParseRecords(s)
    case None => None
    case Some(rs) => Some(Container(AssembleFrom(map[], rs)))
  }
}
