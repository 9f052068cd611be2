/**
  GetFriendListResponse as an object that owns its sub-messages. The length prefix of every
  sub-message comes from that sub-message's cached size, never from a fresh measurement.
 */
module FriendListObject {
  import opened Bytes
  import opened Wrappers
  import opened Varint
  import opened Wire
  import R = Response
  import F = Friends
  import opened MessageObjects

  function FriendValues(fs: seq<FriendInfo>): (vs: seq<F.FriendInfo>)
    reads set i | 0 <= i < |fs| :: fs[i]
    ensures |vs| == |fs|
    ensures forall i :: 0 <= i < |fs| ==> vs[i] == fs[i].Value()
  {
    if fs == [] then [] else [fs[0].Value()] + FriendValues(fs[1..])
  }

  predicate Distinct(fs: seq<FriendInfo>) {
    forall i, j :: 0 <= i < j < |fs| ==> fs[i] != fs[j]
  }

  lemma {:induction false} FriendsRecordsSnoc(vs: seq<F.FriendInfo>, v: F.FriendInfo)
    ensures F.FriendsRecords(vs + [v]) == F.FriendsRecords(vs) + [Record(2, Blob(F.SerializeFriend(v)))]
    decreases |vs|
  {
    hide F.SerializeFriend;
    if vs == [] {
      assert [v][1..] == [];
      assert [] + [v] == [v];
    } else {
      assert (vs + [v])[1..] == vs[1..] + [v];
      FriendsRecordsSnoc(vs[1..], v);
    }
  }

  lemma FriendsEncodingSnoc(vs: seq<F.FriendInfo>, i: nat)
    requires i < |vs|
    ensures Encode(F.FriendsRecords(vs[..i + 1]))
      == Encode(F.FriendsRecords(vs[..i])) + EncodeRecord(Record(2, Blob(F.SerializeFriend(vs[i]))))
    ensures |EncodeRecord(Record(2, Blob(F.SerializeFriend(vs[i]))))| == 1 + BlobSize(F.SerializeFriend(vs[i]))
  {
    hide Encode, F.SerializeFriend, F.FriendsRecords;
    var r := Record(2, Blob(F.SerializeFriend(vs[i])));
    assert vs[..i + 1] == vs[..i] + [vs[i]];
    FriendsRecordsSnoc(vs[..i], vs[i]);
    EncodeConcat(F.FriendsRecords(vs[..i]), [r]);
    EncodeOne(r);
    OneByteTag(2, LEN);
    SizeIsLength(|F.SerializeFriend(vs[i])|);
  }

  lemma BaseEncoding(b: R.BaseResponse)
    ensures Encode(F.BaseRecords(Some(b))) == EncodeRecord(Record(1, Blob(R.Serialize(b))))
    ensures |Encode(F.BaseRecords(Some(b)))| == 1 + BlobSize(R.Serialize(b))
  {
    hide Encode, R.Serialize;
    EncodeOne(Record(1, Blob(R.Serialize(b))));
    OneByteTag(1, LEN);
    SizeIsLength(|R.Serialize(b)|);
  }

  lemma NoRecords()
    ensures Encode([]) == [] && F.BaseRecords(None) == [] && F.FriendsRecords([]) == []
  {}

  class GetFriendListResponse {
    var base: BaseResponse?
    var friends: seq<FriendInfo>
    var cachedSize: nat

    ghost predicate Valid()
      reads this
    {
      Distinct(friends)
    }

    function BaseValue(): Option<R.BaseResponse>
      reads `base, base
    {
      if base == null then None else Some(base.Value())
    }

    function Value(): F.FriendList
      reads `base, `friends, base, friends
    {
      F.FriendList(BaseValue(), FriendValues(friends))
    }

    ghost predicate SizesCurrent()
      reads this, base, friends
    {
      && (base != null ==> base.SizesCurrent())
      && (forall i :: 0 <= i < |friends| ==> friends[i].SizesCurrent())
      && cachedSize == |F.SerializeList(Value())|
    }

    constructor ()
      ensures Valid() && Value() == F.NO_LIST && base == null && friends == []
    {
      base, friends, cachedSize := null, [], 0;
    }

    /** The size pass: leaves every cached size, nested and packed, equal to what will be written. */
    method ByteSizeLong() returns (totalSize: nat)
      requires Valid()
      modifies `cachedSize, friends`cachedSize, friends`permissionsCachedByteSize, (if base == null then {} else {base})`cachedSize
      ensures totalSize == |F.SerializeList(Value())| && SizesCurrent()
      ensures Value() == old(Value())
    {
      hide F.FriendsRecords, F.SerializeFriend, EncodeRecord, F.Packed, Encode, R.Serialize, FriendInfo.SizesCurrent, FriendValues, F.BaseRecords;
      totalSize := FriendsByteSize();
      ghost var vs := FriendValues(friends);
      if base != null {
        var size := base.ByteSizeLong();
        totalSize := totalSize + 1 + (VarintSize(size) + size);
        BaseEncoding(base.Value());
      }
      NoRecords();
      EncodeConcat(F.BaseRecords(BaseValue()), F.FriendsRecords(vs));
      cachedSize := totalSize;
    }

    method FriendsByteSize() returns (totalSize: nat)
      requires Valid()
      modifies friends`cachedSize, friends`permissionsCachedByteSize
      ensures totalSize == |Encode(F.FriendsRecords(FriendValues(friends)))|
      ensures forall i :: 0 <= i < |friends| ==> friends[i].SizesCurrent()
      ensures FriendValues(friends) == old(FriendValues(friends))
    {
      hide Encode, F.FriendsRecords, F.SerializeFriend, EncodeRecord, F.Packed, FriendInfo.SizesCurrent, FriendInfo.Value, FriendValues;
      ghost var vs := FriendValues(friends);
      var i := 0;
      totalSize := |friends|;
      NoRecords();
      assert vs[..0] == [];
      while i < |friends|
        invariant 0 <= i <= |friends|
        invariant forall k :: 0 <= k < |friends| ==> friends[k].Value() == vs[k]
        invariant forall k :: 0 <= k < i ==> friends[k].SizesCurrent()
        invariant totalSize == |Encode(F.FriendsRecords(vs[..i]))| + (|friends| - i)
      {
        var size := friends[i].ByteSizeLong();
        FriendsEncodingSnoc(vs, i);
        totalSize := totalSize + (VarintSize(size) + size);
        i := i + 1;
      }
      assert vs[..i] == vs;
      assert FriendValues(friends) == vs;
    }

    /** The serialise pass: prefixes every sub-message with its cached size. */
    method InternalSerialize(target: seq<Byte>) returns (out: seq<Byte>)
      requires Valid() && SizesCurrent()
      ensures out == target + F.SerializeList(Value())
    {
      hide Encode, F.FriendsRecords, F.SerializeFriend, EncodeRecord, F.Packed, FriendValues, F.BaseRecords, R.Serialize;
      out := target;
      if base != null {
        out := WriteMessage(1, base.cachedSize, out);
        out := base.InternalSerialize(out);
        MessageWritten(1, target, R.Serialize(base.Value()));
        BaseEncoding(base.Value());
      }
      NoRecords();
      out := SerializeFriends(out);
      EncodeConcat(F.BaseRecords(BaseValue()), F.FriendsRecords(FriendValues(friends)));
    }

    method SerializeFriends(target: seq<Byte>) returns (out: seq<Byte>)
      requires forall i :: 0 <= i < |friends| ==> friends[i].SizesCurrent()
      ensures out == target + Encode(F.FriendsRecords(FriendValues(friends)))
    {
      hide Encode, F.FriendsRecords, F.SerializeFriend, EncodeRecord, F.Packed, FriendValues;
      ghost var vs := FriendValues(friends);
      out := target;
      NoRecords();
      assert vs[..0] == [];
      for i := 0 to |friends|
        invariant out == target + Encode(F.FriendsRecords(vs[..i]))
      {
        ghost var before := out;
        out := WriteMessage(2, friends[i].cachedSize, out);
        out := friends[i].InternalSerialize(out);
        MessageWritten(2, before, F.SerializeFriend(vs[i]));
        FriendsEncodingSnoc(vs, i);
      }
      assert vs[..|friends|] == vs;
    }

    /** Both passes in the order the runtime runs them; more than INT_MAX bytes are refused between the two. */
    method SerializeToString() returns (ok: bool, out: seq<Byte>)
      requires Valid()
      modifies `cachedSize, friends`cachedSize, friends`permissionsCachedByteSize, (if base == null then {} else {base})`cachedSize
      ensures Value() == old(Value())
      ensures ok <==> |F.SerializeList(Value())| <= INT_MAX
      ensures ok ==> out == F.SerializeList(Value())
    {
      hide F.SerializeList;
      ok, out := true, [];
      var size := ByteSizeLong();
      if size > INT_MAX { return false, out; }
      out := InternalSerialize([]);
      assert out == F.SerializeList(Value());
    }

    /** Appends copies of the other list's entries and merges, or copies, its base. */
    method MergeFrom(from: GetFriendListResponse)
      requires Valid() && from.Valid() && from != this
      requires base == null || base != from.base
      modifies `base, `friends, (if base == null then {} else {base})`errorCode,
        (if base == null then {} else {base})`errorMessage, (if base == null then {} else {base})`payload
      ensures Valid() && Value() == F.MergeList(old(Value()), old(from.Value()))
      ensures from.Value() == old(from.Value())
      ensures old(friends) <= friends && forall i :: |old(friends)| <= i < |friends| ==> fresh(friends[i])
    {
      hide F.MergeFriend, FriendValues, R.Merge;
      ghost var mine, theirs := FriendValues(friends), FriendValues(from.friends);
      AppendCopies(from.friends);
      assert FriendValues(friends) == mine + theirs;
      if from.base != null {
        if base == null {
          base := new BaseResponse();
          base.MergeFrom(from.base);
          F.MergeIntoEmpty(from.base.Value());
        } else {
          base.MergeFrom(from.base);
        }
      }
    }

    method AppendCopies(others: seq<FriendInfo>)
      requires Valid()
      modifies `friends
      ensures Valid() && |friends| == |old(friends)| + |others| && old(friends) <= friends
      ensures forall i :: |old(friends)| <= i < |friends| ==> fresh(friends[i])
      ensures forall i :: 0 <= i < |others| ==> friends[|old(friends)| + i].Value() == others[i].Value()
    {
      hide F.MergeFriend, FriendInfo.Value;
      for i := 0 to |others|
        invariant |friends| == |old(friends)| + i && old(friends) <= friends && Distinct(friends)
        invariant forall k :: |old(friends)| <= k < |friends| ==> fresh(friends[k])
        invariant forall k :: 0 <= k < i ==> friends[|old(friends)| + k].Value() == others[k].Value()
      {
        var copy := new FriendInfo();
        copy.MergeFrom(others[i]);
        MergeIntoNoFriend(others[i].Value());
        friends := friends + [copy];
      }
    }
  }

  lemma MergeIntoNoFriend(f: F.FriendInfo)
    ensures F.MergeFriend(F.NO_FRIEND, f) == f
  {
    assert [] + f.permissions == f.permissions;
  }

  /** Tag and length prefix of a sub-message; the size is trusted. */
  method WriteMessage(field: nat, size: nat, target: seq<Byte>) returns (out: seq<Byte>)
    ensures out == target + WriteVarint(Tag(field, LEN)) + WriteVarint(size)
  {
    out := target + WriteVarint(Tag(field, LEN));
    out := out + WriteVarint(size);
  }

  lemma MessageWritten(field: nat, target: seq<Byte>, content: seq<Byte>)
    ensures target + WriteVarint(Tag(field, LEN)) + WriteVarint(|content|) + content
      == target + EncodeRecord(Record(field, Blob(content)))
  {
    Reassociate(target, WriteVarint(Tag(field, LEN)), WriteVarint(|content|), content);
  }

  lemma Reassociate(a: seq<Byte>, b: seq<Byte>, c: seq<Byte>, d: seq<Byte>)
    ensures a + b + c + d == a + (b + (c + d))
  {}
}
