/** The writer and reader loops of the TLV8 encoder and decoder: loops that
    write records into an output buffer and read records off an input stream
    one at a time. Each loop is proved to compute exactly the recursive
    definition in `Tlv8`. */
module Tlv8Stream {
  import opened Wrappers
  import opened Tlv8
  import Tlv8Lemmas

  /** The bytes the writer loop produces for `value`, stated directly on bytes. */
  function ValueBytes(tag: uint8, value: seq<uint8>): seq<uint8>
    decreases |value|
  {
    if |value| > MaxChunk then [tag, MaxChunk] + value[..MaxChunk] + ValueBytes(tag, value[MaxChunk..])
    else [tag, |value|] + value
  }

  lemma {:induction false} ValueBytesIsSerializedChunks(tag: uint8, value: seq<uint8>)
    ensures ValueBytes(tag, value) == Serialize(Chunks(tag, value))
    decreases |value|
  {
    if |value| > MaxChunk {
      var r := Record(tag, value[..MaxChunk]);
      var more := Chunks(tag, value[MaxChunk..]);
      ValueBytesIsSerializedChunks(tag, value[MaxChunk..]);
      assert Chunks(tag, value) == [r] + more;
      assert ([r] + more)[1..] == more;
    } else {
      assert Chunks(tag, value) == [Record(tag, value)];
    }
  }

  /** One pass of the writer loop: a full record, then the rest of the value. */
  lemma ValueBytesStep(tag: uint8, value: seq<uint8>, cursor: nat, out: seq<uint8>)
    requires cursor + MaxChunk < |value|
    ensures out + ValueBytes(tag, value[cursor..]) ==
      (out + ([tag, MaxChunk] + value[cursor..cursor + MaxChunk])) + ValueBytes(tag, value[cursor + MaxChunk..])
  {
    var rest := value[cursor..];
    assert rest[..MaxChunk] == value[cursor..cursor + MaxChunk];
    assert rest[MaxChunk..] == value[cursor + MaxChunk..];
    assert ValueBytes(tag, rest) ==
      ([tag, MaxChunk] + value[cursor..cursor + MaxChunk]) + ValueBytes(tag, value[cursor + MaxChunk..]);
  }

  /** Writes the records of one value: 255-byte records while more than 255
      bytes remain, then one record with what is left. */
  method WriteValue(tag: uint8, value: seq<uint8>) returns (out: seq<uint8>)
    ensures out == Serialize(Chunks(tag, value))
  {
    out := [];
    var cursor := 0;
    var n := |value|;
    while n > MaxChunk
      invariant 0 <= cursor <= |value| && n == |value| - cursor
      invariant out + ValueBytes(tag, value[cursor..]) == ValueBytes(tag, value)
    {
      ValueBytesStep(tag, value, cursor, out);
      out := out + ([tag, MaxChunk] + value[cursor..cursor + MaxChunk]);
      cursor := cursor + MaxChunk;
      n := n - MaxChunk;
    }
    assert ValueBytes(tag, value[cursor..]) == [tag, n] + value[cursor..];
    out := out + ([tag, n] + value[cursor..]);
    ValueBytesIsSerializedChunks(tag, value);
  }

  /** Writing the value of `tag` (if stored) moves the scan on to `tag + 1`. */
  lemma EncodeStep(c: Container, tag: nat, out: seq<uint8>)
    requires tag < 256
    ensures out + Serialize(RecordsFrom(c, tag)) ==
      (out + (if tag in c.items then Serialize(Chunks(tag, c.items[tag])) else []))
      + Serialize(RecordsFrom(c, tag + 1))
  {
    var here := if tag in c.items then Chunks(tag, c.items[tag]) else [];
    assert RecordsFrom(c, tag) == here + RecordsFrom(c, tag + 1);
    Tlv8Lemmas.SerializeAppend(here, RecordsFrom(c, tag + 1));
    if tag !in c.items {
      assert Serialize(here) == [];
    }
  }

  /** Writes every stored value, scanning tags in ascending order: the HAP
      TLV8 container's `BytesBuffer`. */
  method BytesBuffer(c: Container) returns (out: seq<uint8>)
    ensures out == Encode(c)
  {
    out := [];
    var tag: nat := 0;
    while tag < 256
      invariant tag <= 256
      invariant out + Serialize(RecordsFrom(c, tag)) == Encode(c)
    {
      EncodeStep(c, tag, out);
      if tag in c.items {
        var written := WriteValue(tag, c.items[tag]);
        out := out + written;
      } else {
        assert out + [] == out;
      }
      tag := tag + 1;
    }
    assert Serialize(RecordsFrom(c, 256)) == [];
    assert out + [] == out;
  }

  /** Reading the whole record at `pos` extends the records read so far. */
  lemma ReadStep(s: seq<uint8>, pos: nat, done: seq<Record>)
    requires pos + 2 <= |s| && s[pos + 1] <= |s| - (pos + 2)
    requires ValidRecords(done) && Serialize(done) == s[..pos]
    ensures var rec := Record(s[pos], s[pos + 2..pos + 2 + s[pos + 1]]);
      ValidRecords(done + [rec]) &&
      Serialize(done + [rec]) == s[..pos + 2 + s[pos + 1]] &&
      AssembleFrom(map[], done + [rec]) == Add(AssembleFrom(map[], done), rec)
  {
    var rec := Record(s[pos], s[pos + 2..pos + 2 + s[pos + 1]]);
    Tlv8Lemmas.SerializeAppend(done, [rec]);
    assert Serialize([rec]) == RecordBytes(rec) + Serialize([rec][1..]);
    assert s[..pos + 2 + s[pos + 1]] == s[..pos] + RecordBytes(rec);
    Tlv8Lemmas.AssembleAppend(map[], done, [rec]);
    assert AssembleFrom(AssembleFrom(map[], done), [rec]) == AssembleFrom(Add(AssembleFrom(map[], done), rec), []);
  }

  /** A record cut short at `pos`, after whole records `done`, fails the decode. */
  lemma ReadTruncated(s: seq<uint8>, pos: nat, done: seq<Record>)
    requires pos < |s|
    requires pos + 1 == |s| || s[pos + 1] > |s| - (pos + 2)
    requires ValidRecords(done) && Serialize(done) == s[..pos]
    ensures Decode(s) == None
  {
    var rest := s[pos..];
    if pos + 1 < |s| {
      assert rest[1] == s[pos + 1];
    }
    assert ParseRecords(rest) == None;
    assert s == Serialize(done) + rest;
    ParseSerializePrefix(done, rest);
  }

  /** Reads records until the input is exhausted, appending each payload to
      its tag's value; a cut-off header or payload fails the whole read.
      This is the HAP `ReadTLV8`. */
  method ReadTLV8(s: seq<uint8>) returns (r: Option<Container>)
    ensures r == Decode(s)
  {
    var items: map<uint8, seq<uint8>> := map[];
    var pos := 0;
    ghost var done: seq<Record> := [];
    while pos < |s|
      invariant 0 <= pos <= |s|
      invariant ValidRecords(done) && Serialize(done) == s[..pos]
      invariant items == AssembleFrom(map[], done)
      decreases |s| - pos
    {
      if pos + 1 == |s| {
        // truncated header: a tag byte with no length byte
        ReadTruncated(s, pos, done);
        return None;
      }
      var tag := s[pos];
      var length := s[pos + 1];
      if |s| - (pos + 2) < length {
        // truncated payload
        ReadTruncated(s, pos, done);
        return None;
      }
      var payload := s[pos + 2..pos + 2 + length];
      ReadStep(s, pos, done);
      done := done + [Record(tag, payload)];
      items := items[tag := Lookup(items, tag) + payload];
      pos := pos + 2 + length;
    }
    assert s[..pos] == s;
    ParseSerialize(done);
    return Some(Container(items));
  }
}
