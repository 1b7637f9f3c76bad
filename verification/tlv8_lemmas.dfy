/** Laws of the TLV8 codec: record-level round trips in both directions,
    what the decoder reassembles, the container round trip, encoded sizes,
    truncation, and the concrete streams fixed by `tlv8_test.go`. */
module Tlv8Lemmas {
  import opened Wrappers
  import opened Tlv8

  // ---------------------------------------------------------------------------
  // Records <-> bytes

  lemma {:induction false} SerializeAppend(a: seq<Record>, b: seq<Record>)
    requires ValidRecords(a) && ValidRecords(b)
    ensures ValidRecords(a + b)
    ensures Serialize(a + b) == Serialize(a) + Serialize(b)
  {
    ValidAppend(a, b);
    if a == [] {
      assert a + b == b;
    } else {
      var ab := a + b;
      assert ab[0] == a[0];
      assert ab[1..] == a[1..] + b;
      SerializeAppend(a[1..], b);
      assert Serialize(ab) == RecordBytes(a[0]) + Serialize(ab[1..]);
    }
  }

  lemma ValidAppend(a: seq<Record>, b: seq<Record>)
    requires ValidRecords(a) && ValidRecords(b)
    ensures ValidRecords(a + b)
  {
    forall i | 0 <= i < |a + b|
      ensures ValidRecord((a + b)[i])
    {
      if i >= |a| {
        assert (a + b)[i] == b[i - |a|];
      }
    }
  }

  lemma {:induction false} PayloadsAppend(a: seq<Record>, b: seq<Record>)
    ensures Payloads(a + b) == Payloads(a) + Payloads(b)
  {
    if a == [] {
      assert a + b == b;
    } else {
      assert (a + b)[1..] == a[1..] + b;
      PayloadsAppend(a[1..], b);
    }
  }

  /** Every record costs two header bytes on top of its payload. */
  lemma {:induction false} SerializeLength(rs: seq<Record>)
    requires ValidRecords(rs)
    ensures |Serialize(rs)| == |Payloads(rs)| + 2 * |rs|
  {
    if rs != [] {
      SerializeLength(rs[1..]);
    }
  }

  /** Parsing is exact: a stream parses to `rs` if and only if `rs` are valid
      records that serialise to that stream, so every stream has at most one
      record structure. */
  lemma {:induction false} ParseExact(s: seq<uint8>, rs: seq<Record>)
    ensures ParseRecords(s) == Some(rs) <==> ValidRecords(rs) && Serialize(rs) == s
  {
    if ValidRecords(rs) && Serialize(rs) == s {
      ParseSerialize(rs);
    }
  }

  // ---------------------------------------------------------------------------
  // What the decoder reassembles

  lemma {:induction false} AssembleAppend(acc: map<uint8, seq<uint8>>, a: seq<Record>, b: seq<Record>)
    ensures AssembleFrom(acc, a + b) == AssembleFrom(AssembleFrom(acc, a), b)
    decreases |a|
  {
    if a != [] {
      assert (a + b)[1..] == a[1..] + b;
      AssembleAppend(Add(acc, a[0]), a[1..], b);
    } else {
      assert a + b == b;
    }
  }

  /** Folding records into `acc` extends each tag's value by the payloads of
      that tag's records, in order; a tag is present afterwards exactly when
      it was before or some record carries it. */
  lemma {:induction false} AssembleCollects(acc: map<uint8, seq<uint8>>, rs: seq<Record>, tag: uint8)
    ensures Lookup(AssembleFrom(acc, rs), tag) == Lookup(acc, tag) + Payloads(Filter(rs, tag))
    ensures tag in AssembleFrom(acc, rs) <==> tag in acc || exists i :: 0 <= i < |rs| && rs[i].tag == tag
    decreases |rs|
  {
    if rs == [] {
    } else {
      AssembleCollects(Add(acc, rs[0]), rs[1..], tag);
      if rs[0].tag == tag {
        assert Filter(rs, tag) == [rs[0]] + Filter(rs[1..], tag);
        assert Payloads(Filter(rs, tag)) == rs[0].payload + Payloads(Filter(rs[1..], tag));
      }
      if exists i :: 0 <= i < |rs| && rs[i].tag == tag {
        var i :| 0 <= i < |rs| && rs[i].tag == tag;
        if i > 0 {
          assert rs[1..][i - 1].tag == tag;
        }
      }
      if exists i :: 0 <= i < |rs[1..]| && rs[1..][i].tag == tag {
        var i :| 0 <= i < |rs[1..]| && rs[1..][i].tag == tag;
        assert rs[i + 1].tag == tag;
      }
    }
  }

  /** Decoding a well-formed stream gives each tag the concatenation, in
      stream order, of the payloads of every record carrying it; the tags
      present are exactly those that occur in the stream. */
  lemma {:induction false} DecodeConcatenatesSameTag(s: seq<uint8>, tag: uint8)
    requires ParseRecords(s).Some?
    ensures Decode(s).Some?
    ensures GetBytes(Decode(s).value, tag) == Payloads(Filter(ParseRecords(s).value, tag))
    ensures tag in Decode(s).value.items <==>
      exists i :: 0 <= i < |ParseRecords(s).value| && ParseRecords(s).value[i].tag == tag
  {
    AssembleCollects(map[], ParseRecords(s).value, tag);
  }

  /** Decoding fails exactly when the stream is not a sequence of whole records. */
  lemma {:induction false} DecodeFailsIffMalformed(s: seq<uint8>)
    ensures Decode(s).None? <==> !exists rs :: ValidRecords(rs) && Serialize(rs) == s
  {
    if exists rs :: ValidRecords(rs) && Serialize(rs) == s {
      var rs :| ValidRecords(rs) && Serialize(rs) == s;
      ParseSerialize(rs);
    }
  }

  // ---------------------------------------------------------------------------
  // Container round trip

  /** Adding `head` and then `rest` to a tag is adding `head + rest`. */
  lemma AddTwice(acc: map<uint8, seq<uint8>>, tag: uint8, head: seq<uint8>, rest: seq<uint8>)
    ensures var acc1 := Add(acc, Record(tag, head));
      acc1[tag := Lookup(acc1, tag) + rest] == acc[tag := Lookup(acc, tag) + (head + rest)]
  {
    var acc1 := Add(acc, Record(tag, head));
    assert Lookup(acc1, tag) + rest == Lookup(acc, tag) + (head + rest);
  }

  /** Folding the fragments of one value appends the whole value to its tag. */
  lemma {:induction false} AssembleChunks(acc: map<uint8, seq<uint8>>, tag: uint8, value: seq<uint8>)
    ensures AssembleFrom(acc, Chunks(tag, value)) == acc[tag := Lookup(acc, tag) + value]
    decreases |value|
  {
    if |value| > MaxChunk {
      var head := value[..MaxChunk];
      var rest := value[MaxChunk..];
      var rs := Chunks(tag, value);
      assert rs == [Record(tag, head)] + Chunks(tag, rest);
      assert rs[1..] == Chunks(tag, rest);
      AssembleChunks(Add(acc, Record(tag, head)), tag, rest);
      AddTwice(acc, tag, head, rest);
      assert head + rest == value;
    } else {
      assert Chunks(tag, value) == [Record(tag, value)];
      assert Chunks(tag, value)[1..] == [];
    }
  }

  /** The stored entries with tag `>= from`. */
  function Above(c: Container, from: nat): map<uint8, seq<uint8>> {
    map t | t in c.items && from <= t :: c.items[t]
  }

  lemma AboveZero(c: Container)
    ensures map[] + Above(c, 0) == c.items
  {
    assert Above(c, 0) == c.items;
  }

  /** Adding the entry for `from` (if any) to `acc` moves the boundary of
      `Above` down by one. */
  lemma AboveStep(c: Container, from: nat, acc: map<uint8, seq<uint8>>)
    requires from < 256
    ensures (if from in c.items then acc[from := c.items[from]] else acc) + Above(c, from + 1)
      == acc + Above(c, from)
  {
    var lhs := (if from in c.items then acc[from := c.items[from]] else acc) + Above(c, from + 1);
    var rhs := acc + Above(c, from);
    assert lhs.Keys == rhs.Keys;
    forall t | t in lhs
      ensures lhs[t] == rhs[t]
    {
    }
  }

  lemma {:induction false} AssembleRecordsFrom(c: Container, from: nat, acc: map<uint8, seq<uint8>>)
    requires from <= 256
    requires forall t :: t in acc ==> t < from
    ensures AssembleFrom(acc, RecordsFrom(c, from)) == acc + Above(c, from)
    decreases 256 - from
  {
    if from == 256 {
      assert Above(c, from) == map[];
      assert acc + Above(c, from) == acc;
    } else {
      var t: uint8 := from;
      var here := if t in c.items then Chunks(t, c.items[t]) else [];
      assert RecordsFrom(c, from) == here + RecordsFrom(c, from + 1);
      AssembleAppend(acc, here, RecordsFrom(c, from + 1));
      var acc1 := if t in c.items then acc[t := c.items[t]] else acc;
      if t in c.items {
        AssembleChunks(acc, t, c.items[t]);
        assert Lookup(acc, t) + c.items[t] == c.items[t];
      }
      assert AssembleFrom(acc, here) == acc1;
      AssembleRecordsFrom(c, from + 1, acc1);
      AboveStep(c, from, acc);
    }
  }

  /** Decoding the encoding of any container gives the container back: same
      tags, and each tag's value byte for byte, whatever its length. */
  lemma {:induction false} RoundTrip(c: Container)
    ensures Decode(Encode(c)) == Some(c)
  {
    ParseSerialize(ContainerRecords(c));
    AssembleRecordsFrom(c, 0, map[]);
    AboveZero(c);
  }

  /** The round trip observed through the accessors. */
  lemma {:induction false} RoundTripGetBytes(c: Container, tag: uint8)
    ensures Decode(Encode(c)).Some?
    ensures GetBytes(Decode(Encode(c)).value, tag) == GetBytes(c, tag)
  {
    RoundTrip(c);
  }

  // ---------------------------------------------------------------------------
  // Encoded form of one value

  /** Every record in `rs` carries a stored tag of at least `from`. */
  ghost predicate StoredTagsFrom(rs: seq<Record>, c: Container, from: nat) {
    forall i :: 0 <= i < |rs| ==> from <= rs[i].tag && rs[i].tag in c.items
  }

  /** Record tags never decrease along `rs`. */
  ghost predicate Ascending(rs: seq<Record>) {
    forall i, j :: 0 <= i < j < |rs| ==> rs[i].tag <= rs[j].tag
  }

  /** The records of the tag `from` itself, followed by those of the higher tags. */
  lemma RecordsFromUnfold(c: Container, from: nat)
    requires from < 256
    ensures RecordsFrom(c, from) ==
      (if from in c.items then Chunks(from, c.items[from]) else []) + RecordsFrom(c, from + 1)
  {
  }

  /** Encoding emits stored tags only. */
  lemma {:induction false} RecordsFromStoredTags(c: Container, from: nat)
    requires from <= 256
    ensures StoredTagsFrom(RecordsFrom(c, from), c, from)
    decreases 256 - from
  {
    if from < 256 {
      var here := if from in c.items then Chunks(from, c.items[from]) else [];
      var later := RecordsFrom(c, from + 1);
      var rs := RecordsFrom(c, from);
      RecordsFromUnfold(c, from);
      RecordsFromStoredTags(c, from + 1);
      if from in c.items {
        ChunksShape(from, c.items[from]);
      }
      forall i | 0 <= i < |rs|
        ensures from <= rs[i].tag && rs[i].tag in c.items
      {
        if i < |here| {
          assert rs[i] == here[i];
        } else {
          assert rs[i] == later[i - |here|];
        }
      }
    }
  }

  /** Records of one tag `t` followed by ascending records of tags `>= t`
      are ascending. */
  lemma AscendingConcat(a: seq<Record>, b: seq<Record>, t: int)
    requires forall i :: 0 <= i < |a| ==> a[i].tag == t
    requires forall j :: 0 <= j < |b| ==> t <= b[j].tag
    requires Ascending(b)
    ensures Ascending(a + b)
  {
    var ab := a + b;
    forall i, j | 0 <= i < j < |ab|
      ensures ab[i].tag <= ab[j].tag
    {
      if j < |a| {
        assert ab[i] == a[i] && ab[j] == a[j];
      } else if i < |a| {
        assert ab[i] == a[i] && ab[j] == b[j - |a|];
      } else {
        assert ab[i] == b[i - |a|] && ab[j] == b[j - |a|];
      }
    }
  }

  /** Encoding emits tags in ascending order, so all the fragments of one
      value are adjacent. */
  lemma {:induction false} RecordsFromAscending(c: Container, from: nat)
    requires from <= 256
    ensures Ascending(RecordsFrom(c, from))
    decreases 256 - from
  {
    if from < 256 {
      var here := if from in c.items then Chunks(from, c.items[from]) else [];
      var later := RecordsFrom(c, from + 1);
      RecordsFromUnfold(c, from);
      RecordsFromAscending(c, from + 1);
      RecordsFromStoredTags(c, from + 1);
      if from in c.items {
        ChunksShape(from, c.items[from]);
      }
      AscendingConcat(here, later, from);
    }
  }

  /** The encoding of a container holding only `tag`. */
  lemma {:induction false} RecordsFromSingle(tag: uint8, value: seq<uint8>, from: nat)
    requires from <= 256
    ensures RecordsFrom(Set(Empty, tag, value), from) == if from <= tag then Chunks(tag, value) else []
    decreases 256 - from
  {
    var c := Set(Empty, tag, value);
    if from < 256 {
      RecordsFromSingle(tag, value, from + 1);
      if from == tag {
        assert RecordsFrom(c, from) == Chunks(tag, value) + [];
      } else {
        assert from !in c.items;
        assert RecordsFrom(c, from) == [] + RecordsFrom(c, from + 1);
      }
    }
  }

  lemma {:induction false} EncodeSingle(tag: uint8, value: seq<uint8>)
    ensures Encode(Set(Empty, tag, value)) == Serialize(Chunks(tag, value))
  {
    RecordsFromSingle(tag, value, 0);
  }

  /** A value that fits one record is written as `tag ‖ len ‖ value`. */
  lemma EncodeShortValue(tag: uint8, value: seq<uint8>)
    requires |value| <= MaxChunk
    ensures Encode(Set(Empty, tag, value)) == [tag, |value|] + value
  {
    EncodeSingle(tag, value);
    assert Chunks(tag, value) == [Record(tag, value)];
  }

  /** A 384-byte value is written as a full 255-byte record followed by a
      129-byte (0x81) record, both with the same tag: 388 bytes in all. */
  lemma EncodeValue384(tag: uint8, value: seq<uint8>)
    requires |value| == 384
    ensures Encode(Set(Empty, tag, value)) == [tag, 0xFF] + value[..255] + [tag, 0x81] + value[255..]
    ensures |Encode(Set(Empty, tag, value))| == 388
  {
    EncodeSingle(tag, value);
    var r1 := Record(tag, value[..255]);
    var r2 := Record(tag, value[255..]);
    assert Chunks(tag, value[255..]) == [r2];
    assert Chunks(tag, value) == [r1] + [r2];
    SerializeAppend([r1], [r2]);
    assert Serialize([r1]) == RecordBytes(r1);
    assert Serialize([r2]) == RecordBytes(r2);
  }

  /** The encoded size of a value: its length plus two header bytes per
      record, with one record per started 255 bytes (one for an empty value). */
  lemma EncodedValueSize(tag: uint8, value: seq<uint8>)
    ensures |Encode(Set(Empty, tag, value))| ==
      |value| + 2 * (if |value| == 0 then 1 else (|value| + MaxChunk - 1) / MaxChunk)
  {
    EncodeSingle(tag, value);
    SerializeLength(Chunks(tag, value));
    ChunksShape(tag, value);
    ChunkCount(tag, value);
  }

  /** The fragments of a value: all carry its tag, their payloads
      concatenate back to the value, every fragment but the last is full,
      and the last is empty only for the empty value. */
  lemma {:induction false} ChunksShape(tag: uint8, value: seq<uint8>)
    ensures forall i :: 0 <= i < |Chunks(tag, value)| ==> Chunks(tag, value)[i].tag == tag
    ensures Payloads(Chunks(tag, value)) == value
    ensures forall i :: 0 <= i < |Chunks(tag, value)| - 1 ==> |Chunks(tag, value)[i].payload| == MaxChunk
    ensures var rs := Chunks(tag, value); rs[|rs| - 1].payload == [] <==> value == []
    decreases |value|
  {
    var rs := Chunks(tag, value);
    if |value| > MaxChunk {
      var head := Record(tag, value[..MaxChunk]);
      var more := Chunks(tag, value[MaxChunk..]);
      ChunksShape(tag, value[MaxChunk..]);
      assert rs == [head] + more;
      assert rs[1..] == more;
      assert value[..MaxChunk] + value[MaxChunk..] == value;
      forall i | 0 < i < |rs|
        ensures rs[i] == more[i - 1]
      {
      }
    } else {
      assert rs == [Record(tag, value)];
      assert rs[1..] == [];
    }
  }

  /** One record per started 255 bytes of the value, and one for an empty value. */
  lemma {:induction false} ChunkCount(tag: uint8, value: seq<uint8>)
    ensures |Chunks(tag, value)| == if |value| == 0 then 1 else (|value| + MaxChunk - 1) / MaxChunk
    decreases |value|
  {
    if |value| > MaxChunk {
      var rest := value[MaxChunk..];
      ChunkCount(tag, rest);
      assert |Chunks(tag, value)| == 1 + |Chunks(tag, rest)|;
      assert (|value| + MaxChunk - 1) / MaxChunk == 1 + (|rest| + MaxChunk - 1) / MaxChunk;
    }
  }

  /** A value whose length is a positive multiple of 255 is written as that
      many full records and nothing else: no zero-length terminator. */
  lemma ExactMultipleHasNoTerminator(tag: uint8, value: seq<uint8>, k: nat)
    requires k > 0 && |value| == k * MaxChunk
    ensures |Chunks(tag, value)| == k
    ensures forall i :: 0 <= i < k ==> |Chunks(tag, value)[i].payload| == MaxChunk
  {
    var rs := Chunks(tag, value);
    ChunkCount(tag, value);
    CeilOfMultiple(k);
    ChunksShape(tag, value);
    LastFull(rs);
  }

  /** When all records but the last are full and the payloads add up to a
      whole number of records, the last one is full too. */
  lemma LastFull(rs: seq<Record>)
    requires rs != []
    requires forall i :: 0 <= i < |rs| - 1 ==> |rs[i].payload| == MaxChunk
    requires |Payloads(rs)| == |rs| * MaxChunk
    ensures forall i :: 0 <= i < |rs| ==> |rs[i].payload| == MaxChunk
  {
    var init := rs[..|rs| - 1];
    var last := rs[|rs| - 1];
    assert rs == init + [last];
    PayloadsAppend(init, [last]);
    assert Payloads([last]) == last.payload + Payloads([]);
    PayloadsOfFull(init);
  }

  lemma CeilOfMultiple(k: nat)
    requires k > 0
    ensures (k * MaxChunk + MaxChunk - 1) / MaxChunk == k
  {
    assert k * MaxChunk + MaxChunk - 1 == k * MaxChunk + 254;
  }

  lemma {:induction false} PayloadsOfFull(rs: seq<Record>)
    requires forall i :: 0 <= i < |rs| ==> |rs[i].payload| == MaxChunk
    ensures |Payloads(rs)| == |rs| * MaxChunk
  {
    if rs != [] {
      PayloadsOfFull(rs[1..]);
    }
  }

  // ---------------------------------------------------------------------------
  // Truncation and empty input

  /** The empty stream is the empty container. */
  lemma DecodeEmptyStream()
    ensures Decode([]) == Some(Empty)
  {
  }

  /** Cutting a stream inside its last record (after whole records `rs`)
      makes the whole decode fail. */
  lemma TruncatedRecordRejected(rs: seq<Record>, r: Record, k: nat)
    requires ValidRecords(rs) && ValidRecord(r)
    requires 0 < k < 2 + |r.payload|
    ensures Decode(Serialize(rs) + RecordBytes(r)[..k]) == None
  {
    var cut := RecordBytes(r)[..k];
    ParseSerializePrefix(rs, cut);
    if k >= 2 {
      assert cut[1] == |r.payload|;
    }
  }

  /** A lone tag byte is a truncated header. */
  lemma DecodeLoneTag(tag: uint8)
    ensures Decode([tag]) == None
  {
  }

  /** A header announcing 5 bytes followed by fewer is a truncated payload. */
  lemma DecodeShortPayload(tag: uint8, rest: seq<uint8>)
    requires |rest| < 5
    ensures Decode([tag, 5] + rest) == None
  {
    var s := [tag, 5] + rest;
    assert s[1] == 5;
  }

  // ---------------------------------------------------------------------------
  // Streams fixed by `tlv8_test.go`

  lemma DecodeOneRecord()
    ensures Decode([0x01, 0x02, 0xAF, 0xFA]).Some?
    ensures GetBytes(Decode([0x01, 0x02, 0xAF, 0xFA]).value, 1) == [0xAF, 0xFA]
  {
    var s: seq<uint8> := [0x01, 0x02, 0xAF, 0xFA];
    assert s[2..4] == [0xAF, 0xFA];
    assert s[4..] == [];
  }

  /** Two records of one tag decode to that tag holding both payloads, in order. */
  lemma DecodeTwoRecords(tag: uint8, p1: seq<uint8>, p2: seq<uint8>)
    requires |p1| <= MaxChunk && |p2| <= MaxChunk
    ensures Decode(RecordBytes(Record(tag, p1)) + RecordBytes(Record(tag, p2)))
      == Some(Container(map[tag := p1 + p2]))
  {
    var r1 := Record(tag, p1);
    var r2 := Record(tag, p2);
    assert RecordBytes(r2) + [] == RecordBytes(r2);
    ParseCons(r2, []);
    assert [r2] + [] == [r2];
    ParseCons(r1, RecordBytes(r2));
    var rs := [r1] + [r2];
    assert ParseRecords(RecordBytes(r1) + RecordBytes(r2)) == Some(rs);
    assert rs[1..] == [r2] && rs[0] == r1;
    assert [r2][1..] == [];
    var m1 := Add(map[], r1);
    assert Lookup(map[], tag) + p1 == p1;
    assert m1 == map[tag := p1];
    assert Lookup(m1, tag) == p1;
    var m2 := Add(m1, r2);
    assert m2 == map[tag := p1 + p2];
    assert AssembleFrom(m1, [r2]) == AssembleFrom(m2, []);
    assert AssembleFrom(map[], rs) == AssembleFrom(m1, [r2]);
  }

  lemma DecodeTwoRecordsSameTag()
    ensures Decode([0x01, 0x02, 0xAF, 0xFA, 0x01, 0x03, 0xBF, 0xFB, 0xAA]).Some?
    ensures GetBytes(Decode([0x01, 0x02, 0xAF, 0xFA, 0x01, 0x03, 0xBF, 0xFB, 0xAA]).value, 1)
      == [0xAF, 0xFA, 0xBF, 0xFB, 0xAA]
  {
    var p1: seq<uint8> := [0xAF, 0xFA];
    var p2: seq<uint8> := [0xBF, 0xFB, 0xAA];
    DecodeTwoRecords(1, p1, p2);
    assert RecordBytes(Record(1, p1)) + RecordBytes(Record(1, p2))
      == [0x01, 0x02, 0xAF, 0xFA, 0x01, 0x03, 0xBF, 0xFB, 0xAA];
    assert p1 + p2 == [0xAF, 0xFA, 0xBF, 0xFB, 0xAA];
  }

  lemma EncodeTwoBytes()
    ensures Encode(Set(Empty, 1, [0xAF, 0xFA])) == [0x01, 0x02, 0xAF, 0xFA]
  {
    EncodeShortValue(1, [0xAF, 0xFA]);
  }

  /** The 384-byte test value: the 16 bytes 00 11 22 … FF repeated 24 times. */
  function Pattern384(): seq<uint8> {
    seq(384, i requires 0 <= i < 384 => (i % 16) * 17)
  }

  lemma EncodePattern384()
    ensures Encode(Set(Empty, 1, Pattern384())) ==
      [0x01, 0xFF] + Pattern384()[..255] + [0x01, 0x81] + Pattern384()[255..]
    ensures Pattern384()[254] == 0xEE && Pattern384()[255] == 0xFF
  {
    EncodeValue384(1, Pattern384());
  }
}
