/** im.friend_.FriendInfo and im.friend_.GetFriendListResponse: wire form, parser and merge. */
module Friends {
  import opened Bytes
  import opened Wrappers
  import opened Varint
  import opened Wire
  import opened Utf8
  import opened Fields
  import Response

  // ---------------------------------------------------------------- packed enums

  function Packed(vs: seq<Int32>): seq<Byte> {
    if vs == [] then [] else WriteVarint(SignedWord(vs[0])) + Packed(vs[1..])
  }

  function Unpack(s: seq<Byte>): Option<seq<Int32>>
    decreases |s|
  {
    if s == [] then Some([])
    else match ReadVarint(s, MAX_VARINT_BYTES)
      case None => None
      case Some(v) =>
        match Unpack(s[v.used..])
        case None => None
        case Some(rest) => Some([ToInt32(v.value % 0x1_0000_0000_0000_0000)] + rest)
  }

  lemma {:induction false} UnpackPacked(vs: seq<Int32>)
    ensures Unpack(Packed(vs)) == Some(vs)
    ensures Packed(vs) == [] <==> vs == []
    decreases |vs|
  {
    hide WriteVarint, ReadVarint, SignedWord, ToInt32;
    if vs != [] {
      var head, tail := WriteVarint(SignedWord(vs[0])), Packed(vs[1..]);
      Varint64RoundTrip(SignedWord(vs[0]), tail);
      assert (head + tail)[|head|..] == tail;
      UnpackPacked(vs[1..]);
      SignedRoundTrip(vs[0], vs[0]);
      assert vs == [vs[0]] + vs[1..];
    }
  }

  // ---------------------------------------------------------------- FriendInfo

  datatype FriendInfo = FriendInfo(
    uid: Text,
    remark: Text,
    addTime: Int64,
    permissions: seq<Int32>,
    friendId: Uint64,
    nickname: Text,
    status: Int32)

  const NO_FRIEND := FriendInfo([], [], 0, [], 0, [], 0)

  predicate ValidFriend(f: FriendInfo) {
    ValidUtf8(f.uid) && ValidUtf8(f.remark) && ValidUtf8(f.nickname)
  }

  function FriendRecords(f: FriendInfo): seq<Record> {
    BlobField(1, f.uid) + (BlobField(2, f.remark) + (ScalarField(3, SignedWord(f.addTime)) + LateRecords(f)))
  }

  function LateRecords(f: FriendInfo): seq<Record> {
    BlobField(4, Packed(f.permissions)) + (ScalarField(5, f.friendId)
    + (BlobField(6, f.nickname) + ScalarField(7, SignedWord(f.status))))
  }

  function SerializeFriend(f: FriendInfo): seq<Byte> { Encode(FriendRecords(f)) }

  /** The packed field is also accepted one value at a time. */
  function ApplyFriend(f: FriendInfo, r: Record): Option<FriendInfo> {
    match r.payload
    case Scalar(v) => Some(
      match r.field
      case 3 => f.(addTime := ToInt64(v))
      case 4 => f.(permissions := f.permissions + [ToInt32(v)])
      case 5 => f.(friendId := v)
      case 7 => f.(status := ToInt32(v))
      case _ => f)
    case Blob(s) => (
      match r.field
      case 1 => if ValidUtf8(s) then Some(f.(uid := s)) else None
      case 2 => if ValidUtf8(s) then Some(f.(remark := s)) else None
      case 4 => (match Unpack(s) case None => None case Some(vs) => Some(f.(permissions := f.permissions + vs)))
      case 6 => if ValidUtf8(s) then Some(f.(nickname := s)) else None
      case _ => Some(f))
    case Fixed(_) => Some(f)
  }

  function ParseFriend(s: seq<Byte>): Option<FriendInfo> { ParseWith(ApplyFriend, NO_FRIEND, s) }

  function MergeFriend(to: FriendInfo, from: FriendInfo): FriendInfo {
    FriendInfo(
      Later(to.uid, from.uid),
      Later(to.remark, from.remark),
      if from.addTime != 0 then from.addTime else to.addTime,
      to.permissions + from.permissions,
      if from.friendId != 0 then from.friendId else to.friendId,
      Later(to.nickname, from.nickname),
      if from.status != 0 then from.status else to.status)
  }

  lemma ApplyLate(h: FriendInfo, m: FriendInfo)
    requires ValidFriend(m)
    ensures ApplyAll(ApplyFriend, h, LateRecords(m)) == Some(
      h.(permissions := h.permissions + m.permissions,
         friendId := if m.friendId != 0 then m.friendId else h.friendId,
         nickname := Later(h.nickname, m.nickname),
         status := if m.status != 0 then m.status else h.status))
  {
    hide ValidUtf8, Packed, Unpack;
    UnpackPacked(m.permissions);
    assert h.permissions + [] == h.permissions;
    SignedRoundTrip(m.status, m.status);
    var r4, r5 := BlobField(4, Packed(m.permissions)), ScalarField(5, m.friendId);
    var r6, r7 := BlobField(6, m.nickname), ScalarField(7, SignedWord(m.status));
    var h4 := h.(permissions := h.permissions + m.permissions);
    ApplyAllConcat(ApplyFriend, h, r4, r5 + (r6 + r7));
    assert ApplyAll(ApplyFriend, h, r4) == Some(h4);
    var h5 := if m.friendId != 0 then h4.(friendId := m.friendId) else h4;
    ApplyAllConcat(ApplyFriend, h4, r5, r6 + r7);
    assert ApplyAll(ApplyFriend, h4, r5) == Some(h5);
    var h6 := h5.(nickname := Later(h5.nickname, m.nickname));
    ApplyAllConcat(ApplyFriend, h5, r6, r7);
    assert ApplyAll(ApplyFriend, h5, r6) == Some(h6);
  }

  /** Applying the records of a friend entry is merging the entry. */
  lemma ApplyFriendRecords(h: FriendInfo, m: FriendInfo)
    requires ValidFriend(m)
    ensures ApplyAll(ApplyFriend, h, FriendRecords(m)) == Some(MergeFriend(h, m))
  {
    hide ValidUtf8, LateRecords;
    SignedRoundTrip(0, m.addTime);
    var r1, r2, r3 := BlobField(1, m.uid), BlobField(2, m.remark), ScalarField(3, SignedWord(m.addTime));
    var h1 := h.(uid := Later(h.uid, m.uid));
    ApplyAllConcat(ApplyFriend, h, r1, r2 + (r3 + LateRecords(m)));
    assert ApplyAll(ApplyFriend, h, r1) == Some(h1);
    var h2 := h1.(remark := Later(h1.remark, m.remark));
    ApplyAllConcat(ApplyFriend, h1, r2, r3 + LateRecords(m));
    assert ApplyAll(ApplyFriend, h1, r2) == Some(h2);
    var h3 := if m.addTime != 0 then h2.(addTime := m.addTime) else h2;
    ApplyAllConcat(ApplyFriend, h2, r3, LateRecords(m));
    assert ApplyAll(ApplyFriend, h2, r3) == Some(h3);
    ApplyLate(h3, m);
  }

  lemma FriendPlain(m: FriendInfo)
    ensures Plain(FriendRecords(m))
  {
    hide Plain, BlobField, ScalarField;
    var r6, r7 := BlobField(6, m.nickname), ScalarField(7, SignedWord(m.status));
    var r5, r4 := ScalarField(5, m.friendId), BlobField(4, Packed(m.permissions));
    PlainConcat(r6, r7);
    PlainConcat(r5, r6 + r7);
    PlainConcat(r4, r5 + (r6 + r7));
    var r3, r2, r1 := ScalarField(3, SignedWord(m.addTime)), BlobField(2, m.remark), BlobField(1, m.uid);
    PlainConcat(r3, LateRecords(m));
    PlainConcat(r2, r3 + LateRecords(m));
    PlainConcat(r1, r2 + (r3 + LateRecords(m)));
  }

  lemma ParseFriendConcatenation(a: seq<Byte>, m: FriendInfo)
    requires ParseFriend(a).Some? && ValidFriend(m) && |SerializeFriend(m)| < MAX_LENGTH
    ensures ParseFriend(a + SerializeFriend(m)) == Some(MergeFriend(ParseFriend(a).value, m))
  {
    hide ApplyFriend, FriendRecords, Encode, Plain;
    FriendPlain(m);
    ShortIsWritable(FriendRecords(m));
    ParseThenApply(ApplyFriend, NO_FRIEND, a, FriendRecords(m));
    ApplyFriendRecords(ParseFriend(a).value, m);
  }

  lemma FriendRoundTrip(m: FriendInfo)
    requires ValidFriend(m) && |SerializeFriend(m)| < MAX_LENGTH
    ensures ParseFriend(SerializeFriend(m)) == Some(m)
  {
    hide ApplyFriend, FriendRecords, Encode;
    ParseNoFriend();
    ParseFriendConcatenation([], m);
    assert [] + SerializeFriend(m) == SerializeFriend(m);
    assert [] + m.permissions == m.permissions;
  }

  lemma ParseNoFriend()
    ensures ParseFriend([]) == Some(NO_FRIEND)
  {}

  // ---------------------------------------------------------------- GetFriendListResponse

  datatype FriendList = FriendList(base: Option<Response.BaseResponse>, friends: seq<FriendInfo>)

  const NO_LIST := FriendList(None, [])

  predicate ValidList(m: FriendList) {
    && (m.base.Some? ==> Response.ValidStrings(m.base.value))
    && forall i :: 0 <= i < |m.friends| ==> ValidFriend(m.friends[i])
  }

  function BaseRecords(base: Option<Response.BaseResponse>): seq<Record> {
    match base
    case None => []
    case Some(b) => [Record(1, Blob(Response.Serialize(b)))]
  }

  function FriendsRecords(fs: seq<FriendInfo>): (rs: seq<Record>)
    ensures |rs| == |fs|
  {
    if fs == [] then [] else [Record(2, Blob(SerializeFriend(fs[0])))] + FriendsRecords(fs[1..])
  }

  function ListRecords(m: FriendList): seq<Record> { BaseRecords(m.base) + FriendsRecords(m.friends) }

  function SerializeList(m: FriendList): seq<Byte> { Encode(ListRecords(m)) }

  function ApplyList(m: FriendList, r: Record): Option<FriendList> {
    match r.payload
    case Blob(s) => (
      match r.field
      case 1 =>
        var start := if m.base.Some? then m.base.value else Response.EMPTY;
        (match ParseWith(Response.Apply, start, s) case None => None case Some(b) => Some(m.(base := Some(b))))
      case 2 => (match ParseFriend(s) case None => None case Some(f) => Some(m.(friends := m.friends + [f])))
      case _ => Some(m))
    case _ => Some(m)
  }

  function ParseList(s: seq<Byte>): Option<FriendList> { ParseWith(ApplyList, NO_LIST, s) }

  function MergeList(to: FriendList, from: FriendList): FriendList {
    FriendList(
      if from.base.None? then to.base
      else if to.base.None? then from.base
      else Some(Response.Merge(to.base.value, from.base.value)),
      to.friends + from.friends)
  }

  lemma RestIsWritable(rs: seq<Record>)
    requires rs != [] && AllWritable(rs)
    ensures Writable(rs[0]) && AllWritable(rs[1..])
  {
    forall i | 0 <= i < |rs[1..]| ensures Writable(rs[1..][i]) { assert rs[1..][i] == rs[i + 1]; }
  }

  lemma OneFriend(h: FriendList, f: FriendInfo)
    requires ValidFriend(f) && Writable(Record(2, Blob(SerializeFriend(f))))
    ensures ApplyList(h, Record(2, Blob(SerializeFriend(f)))) == Some(h.(friends := h.friends + [f]))
  {
    hide ValidFriend, SerializeFriend, ParseFriend;
    FriendRoundTrip(f);
  }

  lemma {:induction false} ApplyFriends(h: FriendList, fs: seq<FriendInfo>)
    requires forall i :: 0 <= i < |fs| ==> ValidFriend(fs[i])
    requires AllWritable(FriendsRecords(fs))
    ensures ApplyAll(ApplyList, h, FriendsRecords(fs)) == Some(h.(friends := h.friends + fs))
    decreases |fs|
  {
    hide ValidFriend, SerializeFriend, ParseFriend;
    if fs == [] {
      assert h.friends + [] == h.friends;
    } else {
      var rs := FriendsRecords(fs);
      var h' := h.(friends := h.friends + [fs[0]]);
      assert rs[1..] == FriendsRecords(fs[1..]);
      RestIsWritable(rs);
      OneFriend(h, fs[0]);
      ApplyFriends(h', fs[1..]);
      hide ApplyList;
      assert h'.friends + fs[1..] == h.friends + fs;
    }
  }

  lemma MergeIntoEmpty(m: Response.BaseResponse)
    ensures Response.Merge(Response.EMPTY, m) == m
  {}

  lemma ApplyBase(h: FriendList, base: Option<Response.BaseResponse>)
    requires base.Some? ==> Response.ValidStrings(base.value)
    requires AllWritable(BaseRecords(base))
    ensures ApplyAll(ApplyList, h, BaseRecords(base)) == Some(MergeList(h, FriendList(base, [])))
  {
    hide Response.Serialize, Response.Apply, Response.Merge, Response.ValidStrings, ParseWith;
    assert h.friends + [] == h.friends;
    if base.Some? {
      assert Writable(BaseRecords(base)[0]);
      var start := if h.base.Some? then h.base.value else Response.EMPTY;
      Response.ParseInto(start, base.value);
      MergeIntoEmpty(base.value);
    }
  }

  lemma ApplyListRecords(h: FriendList, m: FriendList)
    requires ValidList(m) && AllWritable(ListRecords(m))
    ensures ApplyAll(ApplyList, h, ListRecords(m)) == Some(MergeList(h, m))
  {
    hide ValidFriend, Response.ValidStrings, ApplyList, BaseRecords, FriendsRecords, Writable, Response.Merge;
    var a, b := BaseRecords(m.base), FriendsRecords(m.friends);
    forall i | 0 <= i < |a| ensures Writable(a[i]) { assert (a + b)[i] == a[i]; }
    forall i | 0 <= i < |b| ensures Writable(b[i]) { assert (a + b)[|a| + i] == b[i]; }
    ApplyAllConcat(ApplyList, h, a, b);
    ApplyBase(h, m.base);
    var h1 := MergeList(h, FriendList(m.base, []));
    assert h.friends + [] == h.friends;
    ApplyFriends(h1, m.friends);
  }

  lemma {:induction false} FriendsPlain(fs: seq<FriendInfo>)
    ensures Plain(FriendsRecords(fs))
    decreases |fs|
  {
    if fs != [] {
      FriendsPlain(fs[1..]);
      PlainConcat([Record(2, Blob(SerializeFriend(fs[0])))], FriendsRecords(fs[1..]));
    }
  }

  /** Bytes that parse, followed by a serialised list, parse to the merge: base merged, friends appended. */
  lemma ParseListConcatenation(a: seq<Byte>, m: FriendList)
    requires ParseList(a).Some? && ValidList(m) && |SerializeList(m)| < MAX_LENGTH
    ensures ParseList(a + SerializeList(m)) == Some(MergeList(ParseList(a).value, m))
  {
    hide ApplyList, FriendsRecords, Encode, ValidFriend, Response.ValidStrings, MergeList;
    FriendsPlain(m.friends);
    PlainConcat(BaseRecords(m.base), FriendsRecords(m.friends));
    ShortIsWritable(ListRecords(m));
    ParseThenApply(ApplyList, NO_LIST, a, ListRecords(m));
    ApplyListRecords(ParseList(a).value, m);
  }

  lemma ListRoundTrip(m: FriendList)
    requires ValidList(m) && |SerializeList(m)| < MAX_LENGTH
    ensures ParseList(SerializeList(m)) == Some(m)
  {
    hide ApplyList, ListRecords, Encode, ValidList;
    ParseNoList();
    ParseListConcatenation([], m);
    assert [] + SerializeList(m) == SerializeList(m);
    assert [] + m.friends == m.friends;
  }

  lemma ParseNoList()
    ensures ParseList([]) == Some(NO_LIST)
  {}
}
