/**
  The bytes themselves: every message in terms of literal tags, and what the parser does with
  each tag. Nothing here is stated through the tag arithmetic of the writer or the reader.
 */
module WireBytes {
  import opened Bytes
  import opened Wrappers
  import opened Varint
  import opened Wire
  import opened Utf8
  import opened Fields
  import opened MessageObjects
  import H = Header
  import R = Response
  import F = Friends

  // ---------------------------------------------------------------- fields by their first byte

  /** A length-delimited field that is left out when empty. */
  function TextBytes(tag: Byte, s: seq<Byte>): seq<Byte> {
    if s == [] then [] else [tag] + WriteVarint(|s|) + s
  }

  /** A varint field that is left out when zero. */
  function NumberBytes(tag: Byte, v: nat): seq<Byte> {
    if v == 0 then [] else [tag] + WriteVarint(v)
  }

  /** Two's complement in 64 bits. */
  function Signed(v: int): nat { v % 0x1_0000_0000_0000_0000 }

  lemma OneByteVarint(v: nat)
    requires v < 128
    ensures WriteVarint(v) == [v]
  {}

  lemma BlobRecordBytes(field: nat, s: seq<Byte>)
    requires field < 16
    ensures EncodeRecord(Record(field, Blob(s))) == [8 * field + 2] + WriteVarint(|s|) + s
  {
    OneByteVarint(Tag(field, LEN));
    hide WriteVarint;
    Associate([8 * field + 2], WriteVarint(|s|), s);
  }

  lemma Associate(a: seq<Byte>, b: seq<Byte>, c: seq<Byte>)
    ensures a + (b + c) == a + b + c
  {}

  lemma BlobRecord(field: nat, s: seq<Byte>)
    requires field < 16
    ensures EncodeRecord(Record(field, Blob(s))) == [8 * field + 2] + WriteVarint(|s|) + s
    ensures Encode(BlobField(field, s)) == TextBytes(8 * field + 2, s)
  {
    hide WriteVarint, EncodeRecord;
    BlobRecordBytes(field, s);
    EncodeOne(Record(field, Blob(s)));
  }

  lemma ScalarRecord(field: nat, v: Uint64)
    requires field < 16
    ensures EncodeRecord(Record(field, Scalar(v))) == [8 * field] + WriteVarint(v)
    ensures Encode(ScalarField(field, v)) == NumberBytes(8 * field, v)
  {
    OneByteVarint(8 * field);
    hide WriteVarint;
    EncodeOne(Record(field, Scalar(v)));
  }

  lemma FixedRecord(field: nat, raw: seq<Byte>)
    requires field < 16 && (|raw| == 4 || |raw| == 8)
    ensures EncodeRecord(Record(field, Fixed(raw))) == [8 * field + if |raw| == 8 then 1 else 5] + raw
  {
    OneByteVarint(8 * field + if |raw| == 8 then 1 else 5);
  }

  lemma SignedIs(v: Int64)
    ensures SignedWord(v) == Signed(v)
  {}

  // ---------------------------------------------------------------- messages as bytes

  /** The bytes of every header, tag by tag. */
  lemma HeaderBytes(h: H.IMHeader)
    ensures H.Serialize(h)
      == TextBytes(10, h.version) + NumberBytes(16, h.seqNo) + NumberBytes(24, h.cmdId) + TextBytes(34, h.fromUid)
         + TextBytes(42, h.toUid) + NumberBytes(48, h.timestamp) + TextBytes(58, h.token) + TextBytes(66, h.deviceId)
         + TextBytes(74, h.platform)
  {
    hide H.Serialize, BlobField, ScalarField, Encode, TextBytes, NumberBytes, EncodeRecord;
    HeaderEncoding(h);
    BlobRecord(1, h.version); ScalarRecord(2, h.seqNo); ScalarRecord(3, h.cmdId);
    BlobRecord(4, h.fromUid); BlobRecord(5, h.toUid); ScalarRecord(6, h.timestamp);
    BlobRecord(7, h.token); BlobRecord(8, h.deviceId); BlobRecord(9, h.platform);
  }

  lemma ResponseBytes(m: R.BaseResponse)
    ensures R.Serialize(m)
      == NumberBytes(8, Signed(m.errorCode)) + TextBytes(18, m.errorMessage) + TextBytes(26, m.payload)
  {
    hide R.Serialize, BlobField, ScalarField, Encode, TextBytes, NumberBytes, EncodeRecord;
    ResponseEncoding(m);
    SignedIs(m.errorCode);
    ScalarRecord(1, SignedWord(m.errorCode)); BlobRecord(2, m.errorMessage); BlobRecord(3, m.payload);
  }

  /** The packed values, one varint after another. */
  function PackedBytes(vs: seq<Int32>): seq<Byte> {
    if vs == [] then [] else WriteVarint(Signed(vs[0])) + PackedBytes(vs[1..])
  }

  lemma {:induction false} PackedIs(vs: seq<Int32>)
    ensures F.Packed(vs) == PackedBytes(vs)
    decreases |vs|
  {
    if vs != [] {
      SignedIs(vs[0]);
      PackedIs(vs[1..]);
    }
  }

  lemma FriendBytes(f: F.FriendInfo)
    ensures F.SerializeFriend(f)
      == TextBytes(10, f.uid) + TextBytes(18, f.remark) + NumberBytes(24, Signed(f.addTime))
         + TextBytes(34, PackedBytes(f.permissions)) + NumberBytes(40, f.friendId) + TextBytes(50, f.nickname)
         + NumberBytes(56, Signed(f.status))
  {
    hide F.SerializeFriend, BlobField, ScalarField, Encode, TextBytes, NumberBytes, EncodeRecord;
    FriendEncoding(f);
    PackedIs(f.permissions);
    SignedIs(f.addTime); SignedIs(f.status);
    BlobRecord(1, f.uid); BlobRecord(2, f.remark); ScalarRecord(3, SignedWord(f.addTime));
    BlobRecord(4, F.Packed(f.permissions)); ScalarRecord(5, f.friendId);
    BlobRecord(6, f.nickname); ScalarRecord(7, SignedWord(f.status));
  }

  /** A sub-message is written even when it is empty. */
  function MessageBytes(tag: Byte, content: seq<Byte>): seq<Byte> { [tag] + WriteVarint(|content|) + content }

  function FriendsBytes(fs: seq<F.FriendInfo>): seq<Byte> {
    if fs == [] then [] else MessageBytes(18, F.SerializeFriend(fs[0])) + FriendsBytes(fs[1..])
  }

  lemma {:induction false} FriendsBytesAre(fs: seq<F.FriendInfo>)
    ensures Encode(F.FriendsRecords(fs)) == FriendsBytes(fs)
    decreases |fs|
  {
    hide F.SerializeFriend, EncodeRecord, WriteVarint;
    if fs != [] {
      BlobRecord(2, F.SerializeFriend(fs[0]));
      FriendsBytesAre(fs[1..]);
      assert F.FriendsRecords(fs)[1..] == F.FriendsRecords(fs[1..]);
    }
  }

  /** The bytes of every friend list: the base message if there is one, then each friend in order. */
  lemma ListBytes(m: F.FriendList)
    ensures F.SerializeList(m)
      == (if m.base.None? then [] else MessageBytes(10, R.Serialize(m.base.value))) + FriendsBytes(m.friends)
  {
    hide R.Serialize, EncodeRecord, WriteVarint, F.SerializeFriend;
    FriendsBytesAre(m.friends);
    EncodeConcat(F.BaseRecords(m.base), F.FriendsRecords(m.friends));
    if m.base.Some? {
      BlobRecord(1, R.Serialize(m.base.value));
      EncodeOne(Record(1, Blob(R.Serialize(m.base.value))));
    }
  }

  // ---------------------------------------------------------------- what the parser makes of each tag

  lemma OneRecord<M>(apply: (M, Record) -> Option<M>, m: M, a: seq<Byte>, r: Record)
    requires ParseWith(apply, m, a).Some? && Writable(r)
    ensures ParseWith(apply, m, a + EncodeRecord(r)) == apply(ParseWith(apply, m, a).value, r)
  {
    hide EncodeRecord, ParseWith, Encode;
    EncodeOne(r);
    ParseThenApply(apply, m, a, [r]);
    ApplyOne(apply, ParseWith(apply, m, a).value, r);
  }

  lemma ApplyOne<M>(apply: (M, Record) -> Option<M>, m: M, r: Record)
    ensures ApplyAll(apply, m, [r]) == apply(m, r)
  {
    assert [r][1..] == [];
  }

  function WithText(h: H.IMHeader, tag: Byte, s: Text): H.IMHeader {
    match tag
    case 10 => h.(version := s)
    case 34 => h.(fromUid := s)
    case 42 => h.(toUid := s)
    case 58 => h.(token := s)
    case 66 => h.(deviceId := s)
    case _ => h.(platform := s)
  }

  lemma ApplyTextIs(h: H.IMHeader, tag: Byte, s: Text)
    requires tag in {10, 34, 42, 58, 66, 74}
    ensures H.Apply(h, Record(tag / 8, Blob(s))) == if ValidUtf8(s) then Some(WithText(h, tag, s)) else None
    ensures 1 <= tag / 8 < 16 && 8 * (tag / 8) + 2 == tag
  {
    hide ValidUtf8;
  }

  /** A text field of a header, empty or not, overwrites, and is refused exactly when it is not UTF-8. */
  lemma HeaderText(a: seq<Byte>, tag: Byte, s: Text)
    requires H.Parse(a).Some? && |s| < MAX_LENGTH && tag in {10, 34, 42, 58, 66, 74}
    ensures H.Parse(a + ([tag] + WriteVarint(|s|) + s))
      == if ValidUtf8(s) then Some(WithText(H.Parse(a).value, tag, s)) else None
  {
    hide ValidUtf8, WriteVarint, EncodeRecord, Encode, H.Apply, WithText;
    ApplyTextIs(H.Parse(a).value, tag, s);
    var field := tag / 8;
    BlobRecord(field, s);
    OneRecord(H.Apply, H.EMPTY, a, Record(field, Blob(s)));
  }

  /** A number field of a header overwrites; the two 32-bit ones keep the low 32 bits. */
  lemma HeaderNumber(a: seq<Byte>, w: Uint64)
    requires H.Parse(a).Some?
    ensures var h := H.Parse(a).value;
      && H.Parse(a + ([16] + WriteVarint(w))) == Some(h.(seqNo := w % 0x1_0000_0000))
      && H.Parse(a + ([24] + WriteVarint(w))) == Some(h.(cmdId := w % 0x1_0000_0000))
      && H.Parse(a + ([48] + WriteVarint(w))) == Some(h.(timestamp := w))
  {
    hide WriteVarint, EncodeRecord, Encode;
    ScalarRecord(2, w); ScalarRecord(3, w); ScalarRecord(6, w);
    OneRecord(H.Apply, H.EMPTY, a, Record(2, Scalar(w)));
    OneRecord(H.Apply, H.EMPTY, a, Record(3, Scalar(w)));
    OneRecord(H.Apply, H.EMPTY, a, Record(6, Scalar(w)));
  }

  /** Everything else is skipped: an unknown field, or a known one of another wire type. */
  lemma HeaderSkips(a: seq<Byte>, r: Record)
    requires H.Parse(a).Some? && Writable(r)
    requires match r.payload
      case Blob(_) => r.field !in {1, 4, 5, 7, 8, 9}
      case Scalar(_) => r.field !in {2, 3, 6}
      case Fixed(_) => true
    ensures H.Parse(a + EncodeRecord(r)) == H.Parse(a)
  {
    hide EncodeRecord, ValidUtf8;
    OneRecord(H.Apply, H.EMPTY, a, r);
  }

  /** The signed value of the low 32 bits. */
  predicate LowWord(v: int, w: Uint64) {
    -0x8000_0000 <= v < 0x8000_0000 && (v - w) % 0x1_0000_0000 == 0
  }

  lemma ToInt32Is(w: Uint64)
    ensures LowWord(ToInt32(w), w)
  {}

  lemma ToInt64Is(w: Uint64)
    ensures ToInt64(w) == if w < 0x8000_0000_0000_0000 then w else w - 0x1_0000_0000_0000_0000
  {}

  lemma ResponseFields(start: R.BaseResponse, a: seq<Byte>, w: Uint64, s: Text)
    requires ParseWith(R.Apply, start, a).Some? && |s| < MAX_LENGTH
    ensures var m := ParseWith(R.Apply, start, a).value;
      var code := ParseWith(R.Apply, start, a + ([8] + WriteVarint(w)));
      && code.Some? && LowWord(code.value.errorCode, w) && code.value == m.(errorCode := code.value.errorCode)
      && ParseWith(R.Apply, start, a + ([18] + WriteVarint(|s|) + s))
         == (if ValidUtf8(s) then Some(m.(errorMessage := s)) else None)
      && ParseWith(R.Apply, start, a + ([26] + WriteVarint(|s|) + s)) == Some(m.(payload := s))
  {
    hide WriteVarint, EncodeRecord, Encode, ValidUtf8, ToInt32, LowWord, ParseWith;
    ToInt32Is(w);
    ScalarRecord(1, w); BlobRecord(2, s); BlobRecord(3, s);
    OneRecord(R.Apply, start, a, Record(1, Scalar(w)));
    OneRecord(R.Apply, start, a, Record(2, Blob(s)));
    OneRecord(R.Apply, start, a, Record(3, Blob(s)));
  }

  lemma ResponseSkips(start: R.BaseResponse, a: seq<Byte>, r: Record)
    requires ParseWith(R.Apply, start, a).Some? && Writable(r)
    requires match r.payload
      case Blob(_) => r.field !in {2, 3}
      case Scalar(_) => r.field != 1
      case Fixed(_) => true
    ensures ParseWith(R.Apply, start, a + EncodeRecord(r)) == ParseWith(R.Apply, start, a)
  {
    hide EncodeRecord, ValidUtf8, ParseWith;
    OneRecord(R.Apply, start, a, r);
  }

  lemma FriendTexts(a: seq<Byte>, s: Text)
    requires F.ParseFriend(a).Some? && |s| < MAX_LENGTH
    ensures var f := F.ParseFriend(a).value;
      && F.ParseFriend(a + ([10] + WriteVarint(|s|) + s)) == (if ValidUtf8(s) then Some(f.(uid := s)) else None)
      && F.ParseFriend(a + ([18] + WriteVarint(|s|) + s)) == (if ValidUtf8(s) then Some(f.(remark := s)) else None)
      && F.ParseFriend(a + ([50] + WriteVarint(|s|) + s)) == (if ValidUtf8(s) then Some(f.(nickname := s)) else None)
  {
    hide WriteVarint, EncodeRecord, Encode, ValidUtf8, ParseWith, F.Unpack;
    BlobRecord(1, s); BlobRecord(2, s); BlobRecord(6, s);
    OneRecord(F.ApplyFriend, F.NO_FRIEND, a, Record(1, Blob(s)));
    OneRecord(F.ApplyFriend, F.NO_FRIEND, a, Record(2, Blob(s)));
    OneRecord(F.ApplyFriend, F.NO_FRIEND, a, Record(6, Blob(s)));
  }

  lemma FriendNumbers(a: seq<Byte>, w: Uint64)
    requires F.ParseFriend(a).Some?
    ensures var f := F.ParseFriend(a).value;
      var status := F.ParseFriend(a + ([56] + WriteVarint(w)));
      && F.ParseFriend(a + ([24] + WriteVarint(w)))
         == Some(f.(addTime := if w < 0x8000_0000_0000_0000 then w else w - 0x1_0000_0000_0000_0000))
      && F.ParseFriend(a + ([40] + WriteVarint(w))) == Some(f.(friendId := w))
      && status.Some? && LowWord(status.value.status, w) && status.value == f.(status := status.value.status)
  {
    hide WriteVarint, EncodeRecord, Encode, ToInt32, LowWord, ParseWith;
    ToInt32Is(w);
    ToInt64Is(w);
    ScalarRecord(3, w); ScalarRecord(5, w); ScalarRecord(7, w);
    OneRecord(F.ApplyFriend, F.NO_FRIEND, a, Record(3, Scalar(w)));
    OneRecord(F.ApplyFriend, F.NO_FRIEND, a, Record(5, Scalar(w)));
    OneRecord(F.ApplyFriend, F.NO_FRIEND, a, Record(7, Scalar(w)));
  }

  /** Permissions come packed or one at a time, and are appended either way. */
  lemma FriendPermissions(a: seq<Byte>, vs: seq<Int32>, w: Uint64)
    requires F.ParseFriend(a).Some? && |PackedBytes(vs)| < MAX_LENGTH
    ensures var f, packed := F.ParseFriend(a).value, PackedBytes(vs);
      var one := F.ParseFriend(a + ([32] + WriteVarint(w)));
      && F.ParseFriend(a + ([34] + WriteVarint(|packed|) + packed)) == Some(f.(permissions := f.permissions + vs))
      && one.Some? && |one.value.permissions| == |f.permissions| + 1
      && LowWord(one.value.permissions[|f.permissions|], w)
      && one.value == f.(permissions := f.permissions + [one.value.permissions[|f.permissions|]])
  {
    hide WriteVarint, EncodeRecord, Encode, ToInt32, LowWord, ParseWith, PackedBytes, F.Packed, F.Unpack;
    ToInt32Is(w);
    PackedIs(vs);
    F.UnpackPacked(vs);
    BlobRecord(4, PackedBytes(vs)); ScalarRecord(4, w);
    OneRecord(F.ApplyFriend, F.NO_FRIEND, a, Record(4, Blob(PackedBytes(vs))));
    OneRecord(F.ApplyFriend, F.NO_FRIEND, a, Record(4, Scalar(w)));
  }

  lemma FriendSkips(a: seq<Byte>, r: Record)
    requires F.ParseFriend(a).Some? && Writable(r)
    requires match r.payload
      case Blob(_) => r.field !in {1, 2, 4, 6}
      case Scalar(_) => r.field !in {3, 4, 5, 7}
      case Fixed(_) => true
    ensures F.ParseFriend(a + EncodeRecord(r)) == F.ParseFriend(a)
  {
    hide EncodeRecord, ValidUtf8, ParseWith, F.Unpack;
    OneRecord(F.ApplyFriend, F.NO_FRIEND, a, r);
  }

  /** Sub-messages of a list: the base is parsed into what is there, a friend is parsed afresh and appended. */
  lemma ListFields(a: seq<Byte>, s: seq<Byte>)
    requires F.ParseList(a).Some? && |s| < MAX_LENGTH
    ensures var m := F.ParseList(a).value;
      var base := ParseWith(R.Apply, if m.base.Some? then m.base.value else R.EMPTY, s);
      var friend := F.ParseFriend(s);
      && F.ParseList(a + ([10] + WriteVarint(|s|) + s)) == (if base.Some? then Some(m.(base := base)) else None)
      && F.ParseList(a + ([18] + WriteVarint(|s|) + s))
         == (if friend.Some? then Some(m.(friends := m.friends + [friend.value])) else None)
  {
    hide WriteVarint, EncodeRecord, Encode, ParseWith, R.Apply, F.ApplyFriend;
    BlobRecord(1, s); BlobRecord(2, s);
    OneRecord(F.ApplyList, F.NO_LIST, a, Record(1, Blob(s)));
    OneRecord(F.ApplyList, F.NO_LIST, a, Record(2, Blob(s)));
  }

  lemma ListSkips(a: seq<Byte>, r: Record)
    requires F.ParseList(a).Some? && Writable(r) && (r.payload.Blob? ==> r.field !in {1, 2})
    ensures F.ParseList(a + EncodeRecord(r)) == F.ParseList(a)
  {
    hide EncodeRecord, ParseWith, R.Apply, F.ApplyFriend;
    OneRecord(F.ApplyList, F.NO_LIST, a, r);
  }

  // ---------------------------------------------------------------- what is refused

  lemma TagOf(field: nat, wireType: nat, after: seq<Byte>)
    requires field < 16 && wireType < 8
    ensures ReadRecord([8 * field + wireType] + after) ==
      if field == 0 then None
      else match ReadPayload(after, wireType)
        case None => None
        case Some(c) => Some(Parsed(Record(field, c.payload), 1 + c.used))
  {
    TagParts(field, wireType);
    FirstByte(8 * field + wireType, after);
    hide ReadVarint, ReadPayload;
  }

  lemma TagParts(field: nat, wireType: nat)
    requires field < 16 && wireType < 8
    ensures (8 * field + wireType) / 8 == field && (8 * field + wireType) % 8 == wireType
    ensures (8 * field + wireType) % 0x1_0000_0000 == 8 * field + wireType
  {}

  lemma FirstByte(tag: Byte, after: seq<Byte>)
    requires tag < 128
    ensures ReadVarint([tag] + after, MAX_VARINT32_BYTES) == Some(Number(tag, 1))
    ensures ([tag] + after)[1..] == after
  {}

  lemma BlobContent(n: nat, s: seq<Byte>)
    requires n < 0x8_0000_0000
    ensures ReadBlob(WriteVarint(n) + s)
      == if n < 0x7FFF_FFEF && n <= |s| then Some(Content(Blob(s[..n]), |WriteVarint(n)| + n)) else None
  {
    var prefix := WriteVarint(n);
    VarintLimits();
    VarintRoundTrip(n, s, MAX_VARINT32_BYTES);
    hide ReadVarint, WriteVarint;
    if n <= |s| { assert (prefix + s)[|prefix|..|prefix| + n] == s[..n]; }
  }

  lemma BlobIsPayload(after: seq<Byte>)
    ensures ReadPayload(after, 2) == ReadBlob(after)
  {
    hide ReadBlob;
  }

  /** A length-delimited field is read exactly when its length is below the limit and the bytes are there. */
  lemma BlobReadIff(field: nat, n: nat, s: seq<Byte>)
    requires 1 <= field < 16 && n < 0x8_0000_0000
    ensures var bytes := [8 * field + 2] + (WriteVarint(n) + s);
      ReadRecord(bytes) == if n < 0x7FFF_FFEF && n <= |s|
        then Some(Parsed(Record(field, Blob(s[..n])), |bytes| - |s| + n)) else None
  {
    hide ReadVarint, WriteVarint, ReadRecord, ReadBlob;
    var after := WriteVarint(n) + s;
    BlobContent(n, s);
    TagOf(field, 2, after);
    BlobIsPayload(after);
    hide ReadPayload;
  }

  /** A varint field takes up to ten bytes, of which the low 64 bits are kept. */
  lemma ScalarRead(field: nat, s: seq<Byte>)
    requires 1 <= field < 16
    ensures ReadRecord([8 * field] + s) ==
      match ReadVarint(s, 10)
      case None => None
      case Some(v) => Some(Parsed(Record(field, Scalar(v.value % 0x1_0000_0000_0000_0000)), 1 + v.used))
  {
    TagOf(field, 0, s);
    hide ReadVarint, ReadRecord;
  }

  /** Fixed-width fields are eight or four bytes. */
  lemma FixedRead(field: nat, s: seq<Byte>)
    requires 1 <= field < 16
    ensures ReadRecord([8 * field + 1] + s) ==
      if |s| >= 8 then Some(Parsed(Record(field, Fixed(s[..8])), 9)) else None
    ensures ReadRecord([8 * field + 5] + s) ==
      if |s| >= 4 then Some(Parsed(Record(field, Fixed(s[..4])), 5)) else None
  {
    TagOf(field, 1, s);
    TagOf(field, 5, s);
    hide ReadRecord;
  }

  /** Groups, the unassigned wire types and field number 0 are refused. */
  lemma RefusedTags(field: nat, wireType: nat, s: seq<Byte>)
    requires field < 16 && wireType < 8 && (field == 0 || wireType in {3, 4, 6, 7})
    ensures ReadRecord([8 * field + wireType] + s).None?
  {
    TagOf(field, wireType, s);
    hide ReadRecord;
  }

  /** A record that cannot be read makes the whole message unreadable. */
  lemma UnreadableRest(s: seq<Byte>)
    requires s != [] && ReadRecord(s).None?
    ensures ParseRecords(s).None? && H.Parse(s).None? && R.Parse(s).None? && F.ParseFriend(s).None? && F.ParseList(s).None?
  {
    hide ReadRecord;
  }

  // ---------------------------------------------------------------- which messages parse back

  /** A record that is refused in every state makes the whole run of records refused. */
  lemma {:induction false} BadRecord<M(!new)>(apply: (M, Record) -> Option<M>, m: M, rs: seq<Record>, bad: Record)
    requires bad in rs && forall x :: apply(x, bad).None?
    ensures ApplyAll(apply, m, rs).None?
    decreases |rs|
  {
    if rs[0] != bad {
      match apply(m, rs[0])
      case None =>
      case Some(next) => BadRecord(apply, next, rs[1..], bad);
    }
  }

  lemma BadParse<M(!new)>(apply: (M, Record) -> Option<M>, m: M, rs: seq<Record>, bad: Record)
    requires AllWritable(rs) && bad in rs && forall x :: apply(x, bad).None?
    ensures ParseWith(apply, m, Encode(rs)).None?
  {
    hide Encode, AllWritable, ParseRecords, ApplyAll;
    ParseEncode(rs);
    BadRecord(apply, m, rs, bad);
  }

  lemma EmptyIsUtf8()
    ensures ValidUtf8([])
  {}

  /** A serialised response parses back exactly when its error message is UTF-8. */
  lemma ResponseParsesBackIff(start: R.BaseResponse, m: R.BaseResponse)
    requires |R.Serialize(m)| < MAX_LENGTH
    ensures ParseWith(R.Apply, start, R.Serialize(m))
      == if ValidUtf8(m.errorMessage) then Some(R.Merge(start, m)) else None
  {
    hide ValidUtf8, ParseWith, R.Merge, ScalarField;
    if ValidUtf8(m.errorMessage) {
      R.ParseInto(start, m);
    } else {
      EmptyIsUtf8();
      R.RecordsWritable(m);
      BadParse(R.Apply, start, R.Records(m), Record(2, Blob(m.errorMessage)));
    }
  }

  /** A serialised friend entry parses back exactly when its three texts are UTF-8. */
  lemma FriendParsesBackIff(f: F.FriendInfo)
    requires |F.SerializeFriend(f)| < MAX_LENGTH
    ensures F.ParseFriend(F.SerializeFriend(f))
      == if ValidUtf8(f.uid) && ValidUtf8(f.remark) && ValidUtf8(f.nickname) then Some(f) else None
  {
    hide ValidUtf8, ParseWith, ScalarField, F.Packed, F.Unpack, Encode;
    if ValidUtf8(f.uid) && ValidUtf8(f.remark) && ValidUtf8(f.nickname) {
      F.FriendRoundTrip(f);
    } else {
      EmptyIsUtf8();
      F.FriendPlain(f);
      ShortIsWritable(F.FriendRecords(f));
      var bad := if !ValidUtf8(f.uid) then Record(1, Blob(f.uid))
        else if !ValidUtf8(f.remark) then Record(2, Blob(f.remark)) else Record(6, Blob(f.nickname));
      BadParse(F.ApplyFriend, F.NO_FRIEND, F.FriendRecords(f), bad);
    }
  }

  predicate AllTextsValid(m: F.FriendList) {
    && (m.base.Some? ==> ValidUtf8(m.base.value.errorMessage))
    && forall i :: 0 <= i < |m.friends| ==>
         ValidUtf8(m.friends[i].uid) && ValidUtf8(m.friends[i].remark) && ValidUtf8(m.friends[i].nickname)
  }

  /** A serialised list parses back exactly when every text in it, nested ones included, is UTF-8. */
  lemma ListParsesBackIff(m: F.FriendList)
    requires |F.SerializeList(m)| < MAX_LENGTH
    ensures F.ParseList(F.SerializeList(m)) == if AllTextsValid(m) then Some(m) else None
  {
    hide ValidUtf8, ParseWith, F.SerializeFriend, R.Serialize, Encode;
    if AllTextsValid(m) {
      F.ListRoundTrip(m);
    } else {
      F.FriendsPlain(m.friends);
      ShortIsWritable(F.ListRecords(m));
      if m.base.Some? && !ValidUtf8(m.base.value.errorMessage) {
        BadBase(m);
      } else {
        var i :| 0 <= i < |m.friends| &&
          !(ValidUtf8(m.friends[i].uid) && ValidUtf8(m.friends[i].remark) && ValidUtf8(m.friends[i].nickname));
        BadFriend(m, i);
      }
    }
  }

  lemma BadBase(m: F.FriendList)
    requires m.base.Some? && !ValidUtf8(m.base.value.errorMessage) && AllWritable(F.ListRecords(m))
    ensures F.ParseList(F.SerializeList(m)).None?
  {
    hide ValidUtf8, F.SerializeFriend, R.Serialize, Encode, R.Apply;
    var bytes := R.Serialize(m.base.value);
    var bad := Record(1, Blob(bytes));
    assert F.ListRecords(m)[0] == bad;
    assert Writable(bad);
    forall x ensures F.ApplyList(x, bad).None? {
      ResponseParsesBackIff(if x.base.Some? then x.base.value else R.EMPTY, m.base.value);
    }
    hide ParseWith, F.ApplyList;
    BadParse(F.ApplyList, F.NO_LIST, F.ListRecords(m), bad);
    ListParseIs(F.SerializeList(m));
  }

  lemma ListParseIs(s: seq<Byte>)
    ensures F.ParseList(s) == ParseWith(F.ApplyList, F.NO_LIST, s)
  {}

  lemma {:induction false} FriendRecordIn(fs: seq<F.FriendInfo>, i: nat)
    requires i < |fs|
    ensures F.FriendsRecords(fs)[i] == Record(2, Blob(F.SerializeFriend(fs[i])))
    decreases |fs|
  {
    hide F.SerializeFriend;
    if i > 0 { FriendRecordIn(fs[1..], i - 1); }
  }

  lemma BadFriend(m: F.FriendList, i: nat)
    requires i < |m.friends| && AllWritable(F.ListRecords(m))
    requires var f := m.friends[i]; !(ValidUtf8(f.uid) && ValidUtf8(f.remark) && ValidUtf8(f.nickname))
    ensures F.ParseList(F.SerializeList(m)).None?
  {
    hide ValidUtf8, F.SerializeFriend, R.Serialize, Encode, R.Apply, F.ApplyFriend;
    FriendRecordIn(m.friends, i);
    var rs := F.ListRecords(m);
    var bad := Record(2, Blob(F.SerializeFriend(m.friends[i])));
    assert rs[|F.BaseRecords(m.base)| + i] == bad;
    assert Writable(bad);
    FriendParsesBackIff(m.friends[i]);
    assert forall x :: F.ApplyList(x, bad).None?;
    hide ParseWith, F.ApplyList;
    BadParse(F.ApplyList, F.NO_LIST, rs, bad);
    ListParseIs(F.SerializeList(m));
  }
}
