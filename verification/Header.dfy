/** im.base.IMHeader: wire form, parser and merge. */
module Header {
  import opened Bytes
  import opened Wrappers
  import opened Wire
  import opened Utf8
  import opened Fields

  datatype IMHeader = IMHeader(
    version: Text,
    seqNo: Uint32,
    cmdId: Uint32,
    fromUid: Text,
    toUid: Text,
    timestamp: Uint64,
    token: Text,
    deviceId: Text,
    platform: Text)

  const EMPTY := IMHeader([], 0, 0, [], [], 0, [], [], [])

  predicate ValidStrings(h: IMHeader) {
    && ValidUtf8(h.version) && ValidUtf8(h.fromUid) && ValidUtf8(h.toUid)
    && ValidUtf8(h.token) && ValidUtf8(h.deviceId) && ValidUtf8(h.platform)
  }

  function Records(h: IMHeader): seq<Record> {
    BlobField(1, h.version) + (ScalarField(2, h.seqNo) + (ScalarField(3, h.cmdId) + (BlobField(4, h.fromUid) + LateRecords(h))))
  }

  function LateRecords(h: IMHeader): seq<Record> {
    BlobField(5, h.toUid) + (ScalarField(6, h.timestamp) + (BlobField(7, h.token)
    + (BlobField(8, h.deviceId) + BlobField(9, h.platform))))
  }

  function Serialize(h: IMHeader): seq<Byte> { Encode(Records(h)) }

  function SetText(h: IMHeader, field: nat, s: Text): IMHeader {
    match field
    case 1 => h.(version := s) case 4 => h.(fromUid := s) case 5 => h.(toUid := s)
    case 7 => h.(token := s) case 8 => h.(deviceId := s) case 9 => h.(platform := s)
    case _ => h
  }

  function SetNumber(h: IMHeader, field: nat, v: Uint64): IMHeader {
    match field
    case 2 => h.(seqNo := ToUint32(v)) case 3 => h.(cmdId := ToUint32(v)) case 6 => h.(timestamp := v)
    case _ => h
  }

  const TEXT_FIELDS: set<nat> := {1, 4, 5, 7, 8, 9}

  /** One record of the parse: the last one wins, unknown fields are skipped. */
  function Apply(h: IMHeader, r: Record): Option<IMHeader> {
    match r.payload
    case Blob(s) =>
      if r.field in TEXT_FIELDS && !ValidUtf8(s) then None else Some(SetText(h, r.field, s))
    case Scalar(v) => Some(SetNumber(h, r.field, v))
    case Fixed(_) => Some(h)
  }

  function Parse(s: seq<Byte>): Option<IMHeader> { ParseWith(Apply, EMPTY, s) }

  function Merge(to: IMHeader, from: IMHeader): IMHeader {
    IMHeader(
      Later(to.version, from.version),
      LaterNumber(to.seqNo, from.seqNo),
      LaterNumber(to.cmdId, from.cmdId),
      Later(to.fromUid, from.fromUid),
      Later(to.toUid, from.toUid),
      LaterNumber(to.timestamp, from.timestamp),
      Later(to.token, from.token),
      Later(to.deviceId, from.deviceId),
      Later(to.platform, from.platform))
  }

  lemma ApplyText(h: IMHeader, field: nat, s: Text, rest: seq<Record>)
    requires field in TEXT_FIELDS && ValidUtf8(s)
    ensures ApplyAll(Apply, h, BlobField(field, s) + rest)
      == ApplyAll(Apply, if s == [] then h else SetText(h, field, s), rest)
  {
    ApplyAllConcat(Apply, h, BlobField(field, s), rest);
  }

  lemma ApplyNumber(h: IMHeader, field: nat, v: Uint64, rest: seq<Record>)
    ensures ApplyAll(Apply, h, ScalarField(field, v) + rest)
      == ApplyAll(Apply, if v == 0 then h else SetNumber(h, field, v), rest)
  {
    ApplyAllConcat(Apply, h, ScalarField(field, v), rest);
  }

  lemma ApplyLateRecords(h: IMHeader, m: IMHeader)
    requires ValidStrings(m)
    ensures ApplyAll(Apply, h, LateRecords(m)) == Some(
      h.(toUid := Later(h.toUid, m.toUid),
         timestamp := if m.timestamp != 0 then m.timestamp else h.timestamp,
         token := Later(h.token, m.token),
         deviceId := Later(h.deviceId, m.deviceId),
         platform := Later(h.platform, m.platform)))
  {
    hide Apply, BlobField, ScalarField, ApplyAll, ValidUtf8;
    var r9 := BlobField(9, m.platform);
    var r8 := BlobField(8, m.deviceId) + r9;
    var r7 := BlobField(7, m.token) + r8;
    var h5 := h.(toUid := Later(h.toUid, m.toUid));
    ApplyText(h, 5, m.toUid, ScalarField(6, m.timestamp) + r7);
    var h6 := if m.timestamp == 0 then h5 else h5.(timestamp := m.timestamp);
    ApplyNumber(h5, 6, m.timestamp, r7);
    var h7 := h6.(token := Later(h6.token, m.token));
    ApplyText(h6, 7, m.token, r8);
    var h8 := h7.(deviceId := Later(h7.deviceId, m.deviceId));
    ApplyText(h7, 8, m.deviceId, r9);
    assert r9 == r9 + [];
    ApplyText(h8, 9, m.platform, []);
    ApplyNothing(h8.(platform := Later(h8.platform, m.platform)));
  }

  /** Applying the records of a header is merging the header. */
  lemma ApplyRecords(h: IMHeader, m: IMHeader)
    requires ValidStrings(m)
    ensures ApplyAll(Apply, h, Records(m)) == Some(Merge(h, m))
  {
    hide Apply, BlobField, ScalarField, ApplyAll, ValidUtf8, LateRecords;
    var r4 := BlobField(4, m.fromUid) + LateRecords(m);
    var r3 := ScalarField(3, m.cmdId) + r4;
    var h1 := h.(version := Later(h.version, m.version));
    ApplyText(h, 1, m.version, ScalarField(2, m.seqNo) + r3);
    var h2 := if m.seqNo == 0 then h1 else h1.(seqNo := m.seqNo);
    ApplyNumber(h1, 2, m.seqNo, r3);
    var h3 := if m.cmdId == 0 then h2 else h2.(cmdId := m.cmdId);
    ApplyNumber(h2, 3, m.cmdId, r4);
    var h4 := h3.(fromUid := Later(h3.fromUid, m.fromUid));
    ApplyText(h3, 4, m.fromUid, LateRecords(m));
    ApplyLateRecords(h4, m);
  }

  lemma ApplyNothing(h: IMHeader)
    ensures ApplyAll(Apply, h, []) == Some(h)
  {}

  lemma RecordsPlain(m: IMHeader)
    ensures Plain(Records(m))
  {
    hide Plain, BlobField, ScalarField;
    PlainConcat(BlobField(8, m.deviceId), BlobField(9, m.platform));
    PlainConcat(BlobField(7, m.token), BlobField(8, m.deviceId) + BlobField(9, m.platform));
    PlainConcat(ScalarField(6, m.timestamp), BlobField(7, m.token) + (BlobField(8, m.deviceId) + BlobField(9, m.platform)));
    PlainConcat(BlobField(5, m.toUid), ScalarField(6, m.timestamp) + (BlobField(7, m.token) + (BlobField(8, m.deviceId) + BlobField(9, m.platform))));
    PlainConcat(BlobField(4, m.fromUid), LateRecords(m));
    PlainConcat(ScalarField(3, m.cmdId), BlobField(4, m.fromUid) + LateRecords(m));
    PlainConcat(ScalarField(2, m.seqNo), ScalarField(3, m.cmdId) + (BlobField(4, m.fromUid) + LateRecords(m)));
    PlainConcat(BlobField(1, m.version), ScalarField(2, m.seqNo) + (ScalarField(3, m.cmdId) + (BlobField(4, m.fromUid) + LateRecords(m))));
  }

  lemma RecordsWritable(m: IMHeader)
    requires |Serialize(m)| < MAX_LENGTH
    ensures AllWritable(Records(m))
  {
    hide Records, Plain;
    RecordsPlain(m);
    ShortIsWritable(Records(m));
  }

  /** Bytes that parse, followed by a serialised header, parse to the merge of the two. */
  lemma ParseConcatenation(a: seq<Byte>, m: IMHeader)
    requires Parse(a).Some? && ValidStrings(m) && |Serialize(m)| < MAX_LENGTH
    ensures Parse(a + Serialize(m)) == Some(Merge(Parse(a).value, m))
  {
    hide Apply, Records, Encode;
    RecordsWritable(m);
    ParseThenApply(Apply, EMPTY, a, Records(m));
    ApplyRecords(Parse(a).value, m);
  }

  lemma RoundTrip(m: IMHeader)
    requires ValidStrings(m) && |Serialize(m)| < MAX_LENGTH
    ensures Parse(Serialize(m)) == Some(m)
  {
    hide Apply, Records, Encode;
    ParseNothing();
    ParseConcatenation([], m);
    assert [] + Serialize(m) == Serialize(m);
  }

  lemma ParseNothing()
    ensures Parse([]) == Some(EMPTY)
  {}

  // ---------------------------------------------------------------- what does not parse back

  lemma ApplyBadText(h: IMHeader, field: nat, s: Text, rest: seq<Record>)
    requires field in TEXT_FIELDS && !ValidUtf8(s)
    ensures ApplyAll(Apply, h, BlobField(field, s) + rest) == None
  {
    hide ValidUtf8;
    assert s != [] by { EmptyIsValid(); }
    ApplyAllConcat(Apply, h, BlobField(field, s), rest);
  }

  lemma EmptyIsValid()
    ensures ValidUtf8([])
  {}

  lemma ApplyBadLateRecords(h: IMHeader, m: IMHeader)
    requires !(ValidUtf8(m.toUid) && ValidUtf8(m.token) && ValidUtf8(m.deviceId) && ValidUtf8(m.platform))
    ensures ApplyAll(Apply, h, LateRecords(m)) == None
  {
    hide Apply, BlobField, ScalarField, ApplyAll, ValidUtf8, SetText, SetNumber;
    var r9 := BlobField(9, m.platform);
    var r8 := BlobField(8, m.deviceId) + r9;
    var r7 := BlobField(7, m.token) + r8;
    var r6 := ScalarField(6, m.timestamp) + r7;
    assert r9 == r9 + [];
    if !ValidUtf8(m.toUid) {
      ApplyBadText(h, 5, m.toUid, r6);
    } else {
      ApplyText(h, 5, m.toUid, r6);
      var h5 := if m.toUid == [] then h else SetText(h, 5, m.toUid);
      ApplyNumber(h5, 6, m.timestamp, r7);
      var h6 := if m.timestamp == 0 then h5 else SetNumber(h5, 6, m.timestamp);
      if !ValidUtf8(m.token) {
        ApplyBadText(h6, 7, m.token, r8);
      } else {
        ApplyText(h6, 7, m.token, r8);
        var h7 := if m.token == [] then h6 else SetText(h6, 7, m.token);
        if !ValidUtf8(m.deviceId) {
          ApplyBadText(h7, 8, m.deviceId, r9);
        } else {
          ApplyText(h7, 8, m.deviceId, r9);
          ApplyBadText(if m.deviceId == [] then h7 else SetText(h7, 8, m.deviceId), 9, m.platform, []);
        }
      }
    }
  }

  lemma ApplyBadRecords(h: IMHeader, m: IMHeader)
    requires !ValidStrings(m)
    ensures ApplyAll(Apply, h, Records(m)) == None
  {
    hide Apply, BlobField, ScalarField, ApplyAll, ValidUtf8, SetText, SetNumber, LateRecords;
    var r4 := BlobField(4, m.fromUid) + LateRecords(m);
    var r3 := ScalarField(3, m.cmdId) + r4;
    var r2 := ScalarField(2, m.seqNo) + r3;
    if !ValidUtf8(m.version) {
      ApplyBadText(h, 1, m.version, r2);
    } else {
      ApplyText(h, 1, m.version, r2);
      var h1 := if m.version == [] then h else SetText(h, 1, m.version);
      ApplyNumber(h1, 2, m.seqNo, r3);
      var h2 := if m.seqNo == 0 then h1 else SetNumber(h1, 2, m.seqNo);
      ApplyNumber(h2, 3, m.cmdId, r4);
      var h3 := if m.cmdId == 0 then h2 else SetNumber(h2, 3, m.cmdId);
      if !ValidUtf8(m.fromUid) {
        ApplyBadText(h3, 4, m.fromUid, LateRecords(m));
      } else {
        ApplyText(h3, 4, m.fromUid, LateRecords(m));
        ApplyBadLateRecords(if m.fromUid == [] then h3 else SetText(h3, 4, m.fromUid), m);
      }
    }
  }

  /** A serialised header parses back exactly when its strings are well-formed UTF-8. */
  lemma ParsesBackIff(m: IMHeader)
    requires |Serialize(m)| < MAX_LENGTH
    ensures Parse(Serialize(m)) == (if ValidStrings(m) then Some(m) else None)
  {
    hide Apply, Records, Encode, ValidStrings;
    if ValidStrings(m) {
      RoundTrip(m);
    } else {
      RecordsWritable(m);
      ParseEncode(Records(m));
      ApplyBadRecords(EMPTY, m);
    }
  }

  /** Only the all-default header has no bytes. */
  lemma EmptyIffDefault(m: IMHeader)
    ensures Serialize(m) == [] <==> m == EMPTY
  {
    hide EncodeRecord, ValidUtf8;
    if Serialize(m) == [] {
      assert Records(m) == [];
    }
  }

  /**
    A header whose wire form spells out a default value does not obey the merge law:
    appended to `a`, it overwrites, and the law holds exactly when `a` has the default there too.
   */
  lemma ExplicitDefaultOverwrites(a: seq<Byte>)
    requires Parse(a).Some?
    ensures var zero := Encode([Record(2, Scalar(0))]);
      && Parse(zero) == Some(EMPTY)
      && Parse(a + zero) == Some(Parse(a).value.(seqNo := 0))
      && (Parse(a + zero) == Some(Merge(Parse(a).value, EMPTY)) <==> Parse(a).value.seqNo == 0)
  {
    hide Encode;
    var rs := [Record(2, Scalar(0))];
    ParseEncode(rs);
    ParseThenApply(Apply, EMPTY, a, rs);
  }
}
