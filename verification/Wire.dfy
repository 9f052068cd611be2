/** Protocol Buffers records: tag, wire type and payload, encoded to bytes and parsed back. */
module Wire {
  import opened Bytes
  import opened Wrappers
  import opened Varint

  const INT_MAX := 0x7FFF_FFFF

  /** Fields longer than this are refused by the C++ parser (INT_MAX less its slop region). */
  const MAX_LENGTH := INT_MAX - 16

  datatype Payload =
    | Scalar(value: Uint64)
    | Blob(bytes: seq<Byte>)
    | Fixed(raw: seq<Byte>)

  datatype Record = Record(field: nat, payload: Payload)

  // ---------------------------------------------------------------- writing

  const VARINT := 0
  const FIXED64 := 1
  const LEN := 2
  const FIXED32 := 5

  function Tag(field: nat, wireType: nat): nat { 8 * field + wireType }

  predicate Writable(r: Record) {
    && 1 <= r.field < 0x2000_0000
    && match r.payload
       case Scalar(_) => true
       case Blob(bytes) => |bytes| < MAX_LENGTH
       case Fixed(raw) => |raw| == 4 || |raw| == 8
  }

  predicate AllWritable(rs: seq<Record>) { forall i :: 0 <= i < |rs| ==> Writable(rs[i]) }

  function WireType(p: Payload): nat {
    match p
    case Scalar(_) => VARINT
    case Blob(_) => LEN
    case Fixed(raw) => if |raw| == 8 then FIXED64 else FIXED32
  }

  function EncodePayload(p: Payload): seq<Byte> {
    match p
    case Scalar(v) => WriteVarint(v)
    case Blob(b) => WriteVarint(|b|) + b
    case Fixed(raw) => raw
  }

  function EncodeRecord(r: Record): (s: seq<Byte>)
    ensures s != []
  {
    WriteVarint(Tag(r.field, WireType(r.payload))) + EncodePayload(r.payload)
  }

  function Encode(rs: seq<Record>): seq<Byte> {
    if rs == [] then [] else EncodeRecord(rs[0]) + Encode(rs[1..])
  }

  // ---------------------------------------------------------------- reading

  datatype Content = Content(payload: Payload, used: nat)

  function ReadFixed(s: seq<Byte>, width: nat): Option<Content> {
    if width <= |s| then Some(Content(Fixed(s[..width]), width)) else None
  }

  function ReadScalar(s: seq<Byte>): Option<Content> {
    match ReadVarint(s, MAX_VARINT_BYTES)
    case None => None
    case Some(v) => Some(Content(Scalar(v.value % 0x1_0000_0000_0000_0000), v.used))
  }

  function ReadBlob(s: seq<Byte>): Option<Content> {
    match ReadVarint(s, MAX_VARINT32_BYTES)
    case None => None
    case Some(len) =>
      var end := len.used + len.value;
      if len.value < MAX_LENGTH && end <= |s| then Some(Content(Blob(s[len.used..end]), end)) else None
  }

  /** What follows a tag; groups and the unassigned wire types are refused. */
  function ReadPayload(s: seq<Byte>, wireType: nat): (r: Option<Content>)
    ensures r.Some? ==> r.value.used <= |s|
  {
    if wireType == VARINT then ReadScalar(s)
    else if wireType == LEN then ReadBlob(s)
    else if wireType == FIXED64 then ReadFixed(s, 8)
    else if wireType == FIXED32 then ReadFixed(s, 4)
    else None
  }

  datatype Parsed = Parsed(rec: Record, used: nat)

  /** One field; field number 0 is refused. */
  function ReadRecord(s: seq<Byte>): (r: Option<Parsed>)
    ensures r.Some? ==> 0 < r.value.used <= |s|
  {
    match ReadVarint(s, MAX_VARINT32_BYTES)
    case None => None
    case Some(t) =>
      var tag := t.value % 0x1_0000_0000;
      if tag / 8 == 0 then None
      else match ReadPayload(s[t.used..], tag % 8)
        case None => None
        case Some(c) => Some(Parsed(Record(tag / 8, c.payload), t.used + c.used))
  }

  function ParseRecords(s: seq<Byte>): Option<seq<Record>>
    decreases |s|
  {
    if s == [] then Some([])
    else match ReadRecord(s)
      case None => None
      case Some(first) =>
        match ParseRecords(s[first.used..])
        case None => None
        case Some(rest) => Some([first.rec] + rest)
  }

  // ---------------------------------------------------------------- reading undoes writing

  lemma PayloadRoundTrip(p: Payload, rest: seq<Byte>)
    requires Writable(Record(1, p))
    ensures ReadPayload(EncodePayload(p) + rest, WireType(p)) == Some(Content(p, |EncodePayload(p)|))
  {
    hide WriteVarint, ReadVarint;
    match p
    case Scalar(v) => Varint64RoundTrip(v, rest);
    case Blob(b) => BlobRoundTrip(b, rest);
    case Fixed(raw) => assert (raw + rest)[..|raw|] == raw;
  }

  lemma BlobRoundTrip(b: seq<Byte>, rest: seq<Byte>)
    requires |b| < MAX_LENGTH
    ensures ReadBlob(WriteVarint(|b|) + b + rest) == Some(Content(Blob(b), |WriteVarint(|b|) + b|))
  {
    hide WriteVarint, ReadVarint;
    var x := WriteVarint(|b|);
    assert x + b + rest == x + (b + rest);
    Varint32RoundTrip(|b|, b + rest);
    assert (x + b + rest)[|x|..|x| + |b|] == b;
  }

  lemma RecordRoundTrip(r: Record, rest: seq<Byte>)
    requires Writable(r)
    ensures ReadRecord(EncodeRecord(r) + rest) == Some(Parsed(r, |EncodeRecord(r)|))
  {
    hide ReadPayload, EncodePayload, WriteVarint, ReadVarint;
    var wt := WireType(r.payload);
    var t, x := WriteVarint(Tag(r.field, wt)), EncodePayload(r.payload);
    assert EncodeRecord(r) + rest == t + (x + rest);
    Varint32RoundTrip(Tag(r.field, wt), x + rest);
    assert (t + (x + rest))[|t|..] == x + rest;
    PayloadRoundTrip(r.payload, rest);
    assert Tag(r.field, wt) / 8 == r.field && Tag(r.field, wt) % 8 == wt;
  }

  lemma ReadPayloadStable(s: seq<Byte>, more: seq<Byte>, wireType: nat)
    requires ReadPayload(s, wireType).Some?
    ensures ReadPayload(s + more, wireType) == ReadPayload(s, wireType)
  {
    if wireType == VARINT {
      ReadVarintStable(s, more, MAX_VARINT_BYTES);
    } else if wireType == LEN {
      ReadVarintStable(s, more, MAX_VARINT32_BYTES);
      var len := ReadVarint(s, MAX_VARINT32_BYTES).value;
      assert (s + more)[len.used..len.used + len.value] == s[len.used..len.used + len.value];
    } else {
      var width := if wireType == FIXED64 then 8 else 4;
      assert (s + more)[..width] == s[..width];
    }
  }

  /** A record that was read stays the same record when more bytes follow. */
  lemma ReadRecordStable(s: seq<Byte>, more: seq<Byte>)
    requires ReadRecord(s).Some?
    ensures ReadRecord(s + more) == ReadRecord(s)
  {
    hide ReadPayload, ReadVarint;
    ReadVarintStable(s, more, MAX_VARINT32_BYTES);
    var t := ReadVarint(s, MAX_VARINT32_BYTES).value;
    assert (s + more)[t.used..] == s[t.used..] + more;
    ReadPayloadStable(s[t.used..], more, t.value % 0x1_0000_0000 % 8);
  }

  lemma {:induction false} ParseEncode(rs: seq<Record>)
    requires AllWritable(rs)
    ensures ParseRecords(Encode(rs)) == Some(rs)
    decreases |rs|
  {
    hide ReadRecord, EncodeRecord;
    if rs != [] {
      var head, tail := EncodeRecord(rs[0]), Encode(rs[1..]);
      RecordRoundTrip(rs[0], tail);
      assert (head + tail)[|head|..] == tail;
      ParseEncode(rs[1..]);
      assert rs == [rs[0]] + rs[1..];
    }
  }

  /** Parsing bytes followed by an encoding yields the records of the bytes followed by the encoded records. */
  lemma {:induction false} ParseAppend(a: seq<Byte>, rs: seq<Record>)
    requires AllWritable(rs) && ParseRecords(a).Some?
    ensures ParseRecords(a + Encode(rs)) == Some(ParseRecords(a).value + rs)
    decreases |a|
  {
    hide ReadRecord, Encode;
    if a == [] {
      assert a + Encode(rs) == Encode(rs);
      ParseEncode(rs);
      assert [] + rs == rs;
    } else {
      var first := ReadRecord(a).value;
      ReadRecordStable(a, Encode(rs));
      assert (a + Encode(rs))[first.used..] == a[first.used..] + Encode(rs);
      ParseAppend(a[first.used..], rs);
      var rest := ParseRecords(a[first.used..]).value;
      assert [first.rec] + rest + rs == [first.rec] + (rest + rs);
    }
  }

  lemma {:induction false} EncodeConcat(a: seq<Record>, b: seq<Record>)
    ensures Encode(a + b) == Encode(a) + Encode(b)
    decreases |a|
  {
    if a == [] {
      assert a + b == b;
    } else {
      assert (a + b)[1..] == a[1..] + b;
      EncodeConcat(a[1..], b);
    }
  }
}
