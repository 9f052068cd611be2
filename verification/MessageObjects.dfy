/**
  The generated message classes as mutable objects: the size pass that caches sizes,
  the serialise pass that trusts the cached sizes, and the merge that overwrites fields.
 */
module MessageObjects {
  import opened Bytes
  import opened Varint
  import opened Wire
  import opened Fields
  import H = Header
  import R = Response
  import F = Friends

  // ---------------------------------------------------------------- sizes

  function BlobSize(s: seq<Byte>): nat { VarintSize(|s|) + |s| }

  function TextFieldSize(s: Text): nat { if s == [] then 0 else 1 + BlobSize(s) }

  function NumberFieldSize(v: Uint64): nat { if v == 0 then 0 else 1 + VarintSize(v) }

  lemma OneByteTag(field: nat, wireType: nat)
    requires field < 16 && wireType < 8
    ensures |WriteVarint(Tag(field, wireType))| == 1
  {}

  lemma EncodeOne(r: Record)
    ensures Encode([r]) == EncodeRecord(r)
  {
    assert [r][1..] == [];
    assert EncodeRecord(r) + [] == EncodeRecord(r);
  }

  lemma BlobFieldSize(field: nat, s: Text)
    requires field < 16
    ensures |Encode(BlobField(field, s))| == TextFieldSize(s)
  {
    if s != [] {
      EncodeOne(Record(field, Blob(s)));
      OneByteTag(field, LEN);
      SizeIsLength(|s|);
    }
  }

  lemma ScalarFieldSize(field: nat, v: Uint64)
    requires field < 16
    ensures |Encode(ScalarField(field, v))| == NumberFieldSize(v)
  {
    if v != 0 {
      EncodeOne(Record(field, Scalar(v)));
      OneByteTag(field, VARINT);
      SizeIsLength(v);
    }
  }

  method AddText(total: nat, s: Text) returns (sum: nat)
    ensures sum == total + TextFieldSize(s)
  {
    sum := total;
    if s != [] { sum := sum + 1 + VarintSize(|s|) + |s|; }
  }

  method AddNumber(total: nat, v: Uint64) returns (sum: nat)
    ensures sum == total + NumberFieldSize(v)
  {
    sum := total;
    if v != 0 { sum := sum + 1 + VarintSize(v); }
  }

  // ---------------------------------------------------------------- the output stream

  method WriteBlob(field: nat, s: seq<Byte>, size: nat, target: seq<Byte>) returns (out: seq<Byte>)
    requires size == |s|
    ensures out == target + EncodeRecord(Record(field, Blob(s)))
  {
    out := target + WriteVarint(Tag(field, LEN));
    out := out + WriteVarint(size);
    out := out + s;
    assert out == target + (WriteVarint(Tag(field, LEN)) + (WriteVarint(size) + s));
  }

  method WriteText(field: nat, s: Text, target: seq<Byte>) returns (out: seq<Byte>)
    ensures out == target + Encode(BlobField(field, s))
  {
    out := target;
    if s != [] {
      out := WriteBlob(field, s, |s|, target);
      EncodeOne(Record(field, Blob(s)));
    }
  }

  method WriteNumber(field: nat, v: Uint64, target: seq<Byte>) returns (out: seq<Byte>)
    ensures out == target + Encode(ScalarField(field, v))
  {
    out := target;
    if v != 0 {
      out := target + WriteVarint(Tag(field, VARINT)) + WriteVarint(v);
      EncodeOne(Record(field, Scalar(v)));
      assert out == target + (WriteVarint(Tag(field, VARINT)) + WriteVarint(v));
    }
  }

  /** The guarded assignment of every text field of a merge. */
  method Overwritten(to: Text, from: Text) returns (r: Text)
    ensures r == Later(to, from)
  {
    r := to;
    if from != [] { r := from; }
  }

  // ---------------------------------------------------------------- IMHeader

  lemma HeaderEncoding(h: H.IMHeader)
    ensures H.Serialize(h) ==
      Encode(BlobField(1, h.version)) + Encode(ScalarField(2, h.seqNo)) + Encode(ScalarField(3, h.cmdId))
      + Encode(BlobField(4, h.fromUid)) + Encode(BlobField(5, h.toUid)) + Encode(ScalarField(6, h.timestamp))
      + Encode(BlobField(7, h.token)) + Encode(BlobField(8, h.deviceId)) + Encode(BlobField(9, h.platform))
  {
    hide Encode, BlobField, ScalarField;
    var r9, r8, r7 := BlobField(9, h.platform), BlobField(8, h.deviceId), BlobField(7, h.token);
    var r6, r5, r4 := ScalarField(6, h.timestamp), BlobField(5, h.toUid), BlobField(4, h.fromUid);
    var r3, r2, r1 := ScalarField(3, h.cmdId), ScalarField(2, h.seqNo), BlobField(1, h.version);
    EncodeConcat(r8, r9);
    EncodeConcat(r7, r8 + r9);
    EncodeConcat(r6, r7 + (r8 + r9));
    EncodeConcat(r5, r6 + (r7 + (r8 + r9)));
    EncodeConcat(r4, H.LateRecords(h));
    EncodeConcat(r3, r4 + H.LateRecords(h));
    EncodeConcat(r2, r3 + (r4 + H.LateRecords(h)));
    EncodeConcat(r1, r2 + (r3 + (r4 + H.LateRecords(h))));
  }

  class IMHeader {
    var version: Text
    var seqNo: Uint32
    var cmdId: Uint32
    var fromUid: Text
    var toUid: Text
    var timestamp: Uint64
    var token: Text
    var deviceId: Text
    var platform: Text
    var cachedSize: nat

    function Value(): H.IMHeader
      reads `version, `seqNo, `cmdId, `fromUid, `toUid, `timestamp, `token, `deviceId, `platform
    {
      H.IMHeader(version, seqNo, cmdId, fromUid, toUid, timestamp, token, deviceId, platform)
    }

    constructor ()
      ensures Value() == H.EMPTY
    {
      version, seqNo, cmdId, fromUid, toUid, timestamp := [], 0, 0, [], [], 0;
      token, deviceId, platform, cachedSize := [], [], [], 0;
    }

    method InternalSerialize(target: seq<Byte>) returns (out: seq<Byte>)
      ensures out == target + H.Serialize(Value())
    {
      hide Encode, BlobField, ScalarField, H.Serialize;
      HeaderEncoding(Value());
      out := WriteText(1, version, target);
      out := WriteNumber(2, seqNo, out);
      out := WriteNumber(3, cmdId, out);
      out := WriteText(4, fromUid, out);
      out := WriteText(5, toUid, out);
      out := WriteNumber(6, timestamp, out);
      out := WriteText(7, token, out);
      out := WriteText(8, deviceId, out);
      out := WriteText(9, platform, out);
      assert out == target + H.Serialize(Value());
    }

    method ByteSizeLong() returns (totalSize: nat)
      modifies `cachedSize
      ensures totalSize == |H.Serialize(Value())| == cachedSize
    {
      hide Encode, BlobField, ScalarField, H.Serialize, TextFieldSize, NumberFieldSize;
      HeaderEncoding(Value());
      BlobFieldSize(1, version); BlobFieldSize(4, fromUid); BlobFieldSize(5, toUid);
      BlobFieldSize(7, token); BlobFieldSize(8, deviceId); BlobFieldSize(9, platform);
      ScalarFieldSize(2, seqNo); ScalarFieldSize(3, cmdId); ScalarFieldSize(6, timestamp);
      totalSize := 0;
      totalSize := AddText(totalSize, version);
      totalSize := AddText(totalSize, fromUid);
      totalSize := AddText(totalSize, toUid);
      totalSize := AddText(totalSize, token);
      totalSize := AddText(totalSize, deviceId);
      totalSize := AddText(totalSize, platform);
      totalSize := AddNumber(totalSize, seqNo);
      totalSize := AddNumber(totalSize, cmdId);
      totalSize := AddNumber(totalSize, timestamp);
      cachedSize := totalSize;
    }

    method MergeFrom(from: IMHeader)
      requires from != this
      modifies `version, `seqNo, `cmdId, `fromUid, `toUid, `timestamp, `token, `deviceId, `platform
      ensures Value() == H.Merge(old(Value()), from.Value())
    {
      hide Later, LaterNumber;
      version := Overwritten(version, from.version);
      fromUid := Overwritten(fromUid, from.fromUid);
      toUid := Overwritten(toUid, from.toUid);
      token := Overwritten(token, from.token);
      deviceId := Overwritten(deviceId, from.deviceId);
      platform := Overwritten(platform, from.platform);
      MergeNumbers(from);
    }

    method MergeNumbers(from: IMHeader)
      requires from != this
      modifies `seqNo, `cmdId, `timestamp
      ensures seqNo == LaterNumber(old(seqNo), from.seqNo)
      ensures cmdId == LaterNumber(old(cmdId), from.cmdId)
      ensures timestamp == LaterNumber(old(timestamp), from.timestamp)
    {
      if from.seqNo != 0 { seqNo := from.seqNo; }
      if from.cmdId != 0 { cmdId := from.cmdId; }
      if from.timestamp != 0 { timestamp := from.timestamp; }
    }
  }

  // ---------------------------------------------------------------- BaseResponse

  lemma ResponseEncoding(m: R.BaseResponse)
    ensures R.Serialize(m) == Encode(ScalarField(1, SignedWord(m.errorCode)))
      + Encode(BlobField(2, m.errorMessage)) + Encode(BlobField(3, m.payload))
  {
    hide Encode, BlobField, ScalarField;
    var r1, r2, r3 := ScalarField(1, SignedWord(m.errorCode)), BlobField(2, m.errorMessage), BlobField(3, m.payload);
    EncodeConcat(r2, r3);
    EncodeConcat(r1, r2 + r3);
  }

  class BaseResponse {
    var errorCode: Int32
    var errorMessage: Text
    var payload: seq<Byte>
    var cachedSize: nat

    function Value(): R.BaseResponse
      reads `errorCode, `errorMessage, `payload
    {
      R.BaseResponse(errorCode, errorMessage, payload)
    }

    predicate SizesCurrent()
      reads this
    {
      cachedSize == |R.Serialize(Value())|
    }

    constructor ()
      ensures Value() == R.EMPTY
    {
      errorCode, errorMessage, payload, cachedSize := 0, [], [], 0;
    }

    method InternalSerialize(target: seq<Byte>) returns (out: seq<Byte>)
      ensures out == target + R.Serialize(Value())
    {
      hide Encode, BlobField, ScalarField, R.Serialize;
      ResponseEncoding(Value());
      out := WriteNumber(1, SignedWord(errorCode), target);
      out := WriteText(2, errorMessage, out);
      out := WriteText(3, payload, out);
      assert out == target + R.Serialize(Value());
    }

    method ByteSizeLong() returns (totalSize: nat)
      modifies `cachedSize
      ensures totalSize == |R.Serialize(Value())| == cachedSize
    {
      hide Encode, BlobField, ScalarField, R.Serialize;
      ResponseEncoding(Value());
      BlobFieldSize(2, errorMessage); BlobFieldSize(3, payload); ScalarFieldSize(1, SignedWord(errorCode));
      totalSize := 0;
      totalSize := AddText(totalSize, errorMessage);
      totalSize := AddText(totalSize, payload);
      totalSize := AddNumber(totalSize, SignedWord(errorCode));
      cachedSize := totalSize;
    }

    method MergeFrom(from: BaseResponse)
      requires from != this
      modifies `errorCode, `errorMessage, `payload
      ensures Value() == R.Merge(old(Value()), from.Value())
    {
      errorMessage := Overwritten(errorMessage, from.errorMessage);
      payload := Overwritten(payload, from.payload);
      if from.errorCode != 0 { errorCode := from.errorCode; }
    }
  }

  // ---------------------------------------------------------------- FriendInfo

  lemma FriendEncoding(f: F.FriendInfo)
    ensures F.SerializeFriend(f) ==
      Encode(BlobField(1, f.uid)) + Encode(BlobField(2, f.remark)) + Encode(ScalarField(3, SignedWord(f.addTime)))
      + Encode(BlobField(4, F.Packed(f.permissions))) + Encode(ScalarField(5, f.friendId))
      + Encode(BlobField(6, f.nickname)) + Encode(ScalarField(7, SignedWord(f.status)))
  {
    hide Encode, BlobField, ScalarField;
    var r1, r2, r3 := BlobField(1, f.uid), BlobField(2, f.remark), ScalarField(3, SignedWord(f.addTime));
    var r4, r5 := BlobField(4, F.Packed(f.permissions)), ScalarField(5, f.friendId);
    var r6, r7 := BlobField(6, f.nickname), ScalarField(7, SignedWord(f.status));
    EncodeConcat(r6, r7);
    EncodeConcat(r5, r6 + r7);
    EncodeConcat(r4, r5 + (r6 + r7));
    EncodeConcat(r3, F.LateRecords(f));
    EncodeConcat(r2, r3 + F.LateRecords(f));
    EncodeConcat(r1, r2 + (r3 + F.LateRecords(f)));
  }

  lemma {:induction false} PackedSnoc(vs: seq<Int32>, i: nat)
    requires i < |vs|
    ensures F.Packed(vs[..i + 1]) == F.Packed(vs[..i]) + WriteVarint(SignedWord(vs[i]))
    decreases i
  {
    hide WriteVarint, SignedWord;
    if i == 0 {
      assert vs[..1] == [vs[0]];
      assert [vs[0]][1..] == [];
    } else {
      assert vs[..i + 1][1..] == vs[1..][..i];
      assert vs[..i][1..] == vs[1..][..i - 1];
      PackedSnoc(vs[1..], i - 1);
    }
  }

  /** The sum of the sizes of the enum values, one varint each. */
  method EnumSize(values: seq<Int32>) returns (size: nat)
    ensures size == |F.Packed(values)|
  {
    hide WriteVarint, SignedWord, F.Packed;
    size := 0;
    assert values[..0] == [];
    PackedNothing();
    for i := 0 to |values|
      invariant size == |F.Packed(values[..i])|
    {
      PackedSnoc(values, i);
      SizeIsLength(SignedWord(values[i]));
      size := size + VarintSize(SignedWord(values[i]));
    }
    assert values[..|values|] == values;
  }

  lemma PackedNothing()
    ensures F.Packed([]) == []
  {}

  /** Writes the tag, the size it is told, and the values; the size is trusted. */
  method WriteEnumPacked(field: nat, values: seq<Int32>, byteSize: nat, target: seq<Byte>) returns (out: seq<Byte>)
    ensures out == target + (WriteVarint(Tag(field, LEN)) + (WriteVarint(byteSize) + F.Packed(values)))
  {
    hide WriteVarint, SignedWord, F.Packed;
    out := target + (WriteVarint(Tag(field, LEN)) + WriteVarint(byteSize));
    ghost var start := out;
    assert values[..0] == [];
    PackedNothing();
    for i := 0 to |values|
      invariant out == start + F.Packed(values[..i])
    {
      PackedSnoc(values, i);
      out := out + WriteVarint(SignedWord(values[i]));
    }
    assert values[..|values|] == values;
  }

  class FriendInfo {
    var uid: Text
    var remark: Text
    var addTime: Int64
    var permissions: seq<Int32>
    var friendId: Uint64
    var nickname: Text
    var status: Int32
    var permissionsCachedByteSize: nat
    var cachedSize: nat

    function Value(): F.FriendInfo
      reads `uid, `remark, `addTime, `permissions, `friendId, `nickname, `status
    {
      F.FriendInfo(uid, remark, addTime, permissions, friendId, nickname, status)
    }

    predicate SizesCurrent()
      reads this
    {
      permissionsCachedByteSize == |F.Packed(permissions)| && cachedSize == |F.SerializeFriend(Value())|
    }

    constructor ()
      ensures Value() == F.NO_FRIEND
    {
      uid, remark, addTime, permissions, friendId, nickname, status := [], [], 0, [], 0, [], 0;
      permissionsCachedByteSize, cachedSize := 0, 0;
    }

    method InternalSerialize(target: seq<Byte>) returns (out: seq<Byte>)
      requires SizesCurrent()
      ensures out == target + F.SerializeFriend(Value())
    {
      hide Encode, BlobField, ScalarField, F.SerializeFriend, F.Packed;
      FriendEncoding(Value());
      out := WriteText(1, uid, target);
      out := WriteText(2, remark, out);
      out := WriteNumber(3, SignedWord(addTime), out);
      out := WritePermissions(out);
      out := WriteNumber(5, friendId, out);
      out := WriteText(6, nickname, out);
      out := WriteNumber(7, SignedWord(status), out);
      assert out == target + F.SerializeFriend(Value());
    }

    /** The packed field, left out when its cached size is zero. */
    method WritePermissions(target: seq<Byte>) returns (out: seq<Byte>)
      requires SizesCurrent()
      ensures out == target + Encode(BlobField(4, F.Packed(permissions)))
    {
      hide Encode, BlobField, F.SerializeFriend, F.Packed;
      PackedField(permissions, target);
      out := target;
      var byteSize := permissionsCachedByteSize;
      if byteSize > 0 { out := WriteEnumPacked(4, permissions, byteSize, out); }
    }

    method ByteSizeLong() returns (totalSize: nat)
      modifies `cachedSize, `permissionsCachedByteSize
      ensures totalSize == |F.SerializeFriend(Value())| == cachedSize && SizesCurrent()
    {
      hide Encode, BlobField, ScalarField, F.SerializeFriend, F.Packed, NumberFieldSize;
      FriendEncoding(Value());
      BlobFieldSize(1, uid); BlobFieldSize(2, remark); BlobFieldSize(6, nickname);
      BlobFieldSize(4, F.Packed(permissions));
      ScalarFieldSize(3, SignedWord(addTime)); ScalarFieldSize(5, friendId); ScalarFieldSize(7, SignedWord(status));
      F.UnpackPacked(permissions);
      totalSize := 0;
      var dataSize := EnumSize(permissions);
      permissionsCachedByteSize := dataSize;
      if permissions != [] { totalSize := totalSize + 1 + VarintSize(dataSize) + dataSize; }
      totalSize := AddText(totalSize, uid);
      totalSize := AddText(totalSize, remark);
      totalSize := AddText(totalSize, nickname);
      totalSize := AddNumber(totalSize, SignedWord(addTime));
      totalSize := AddNumber(totalSize, friendId);
      totalSize := AddNumber(totalSize, SignedWord(status));
      cachedSize := totalSize;
    }

    method MergeFrom(from: FriendInfo)
      requires from != this
      modifies `uid, `remark, `addTime, `permissions, `friendId, `nickname, `status
      ensures Value() == F.MergeFriend(old(Value()), from.Value())
    {
      permissions := permissions + from.permissions;
      uid := Overwritten(uid, from.uid);
      remark := Overwritten(remark, from.remark);
      nickname := Overwritten(nickname, from.nickname);
      if from.addTime != 0 { addTime := from.addTime; }
      if from.friendId != 0 { friendId := from.friendId; }
      if from.status != 0 { status := from.status; }
    }
  }

  lemma PackedField(values: seq<Int32>, before: seq<Byte>)
    ensures before + Encode(BlobField(4, F.Packed(values))) ==
      if |F.Packed(values)| > 0
      then before + (WriteVarint(Tag(4, LEN)) + (WriteVarint(|F.Packed(values)|) + F.Packed(values)))
      else before
  {
    EncodeOne(Record(4, Blob(F.Packed(values))));
  }
}
