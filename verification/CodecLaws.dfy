/** What encode and the two decoders promise together. */
module CodecLaws {
  import opened Bytes
  import opened Wrappers
  import opened Varint
  import opened Wire
  import Utf8
  import opened Fields
  import opened Crc32
  import opened FrameCrc
  import opened CodedStream
  import opened Codec
  import H = Header
  import R = Response

  // ---------------------------------------------------------------- the accepted frames

  /**
    The layout of the documentation, without positions or wrap-around: the data is the two size
    varints, the type name, the header bytes and the body, laid end to end.
   */
  ghost predicate LaidOut(frame: seq<Byte>, prefix: seq<Byte>, headerData: seq<Byte>, e: Envelope) {
    && CrcOk(frame)
    && frame[..|frame| - 4] == prefix + e.typeName + headerData + e.body
    && 0 < |headerData| < 0x8000_0000 && 0 < |e.typeName| < 0x8000_0000
    && ReadSizes(prefix) == Some(Sizes(|headerData|, |e.typeName|, |prefix|))
    && |prefix| + |e.typeName| + |headerData| <= TOTAL_BYTES_LIMIT
    && H.Parse(headerData) == Some(e.header)
  }

  lemma ReadSizesLocal(w: seq<Byte>)
    requires ReadSizes(w).Some?
    ensures ReadSizes(w[..ReadSizes(w).value.at]) == ReadSizes(w)
  {
    hide ReadVarint;
    var a := ReadVarint(w, MAX_VARINT_BYTES).value;
    var rest := w[a.used..];
    var b := ReadVarint(rest, MAX_VARINT_BYTES).value;
    ReadVarintLocal(w, MAX_VARINT_BYTES);
    ReadVarintLocal(rest, MAX_VARINT_BYTES);
    var p := w[..a.used + b.used];
    ReadVarintStable(w[..a.used], rest[..b.used], MAX_VARINT_BYTES);
    assert p == w[..a.used] + rest[..b.used];
    assert p[a.used..] == rest[..b.used];
  }

  lemma ReadSizesStable(p: seq<Byte>, more: seq<Byte>)
    requires ReadSizes(p).Some?
    ensures ReadSizes(p + more) == ReadSizes(p)
  {
    hide ReadVarint;
    var a := ReadVarint(p, MAX_VARINT_BYTES).value;
    ReadVarintStable(p, more, MAX_VARINT_BYTES);
    ReadVarintStable(p[a.used..], more, MAX_VARINT_BYTES);
    assert (p + more)[a.used..] == p[a.used..] + more;
  }

  /** Every accepted frame is partitioned exactly by the sizes it announces. */
  lemma AcceptedIsLaidOut(frame: seq<Byte>) returns (prefix: seq<Byte>, headerData: seq<Byte>)
    requires Open(frame).Ok?
    ensures LaidOut(frame, prefix, headerData, Open(frame).value)
  {
    hide CrcOk, ReadSizes, H.Parse;
    CrcOkLength(frame);
    var data := frame[..|frame| - 4];
    var w := Window(data);
    var s := ReadSizes(w).value;
    ReadSizesLocal(w);
    prefix := w[..s.at];
    headerData := data[s.at + s.typeName..s.at + s.typeName + s.header];
    assert prefix == data[..s.at];
    assert data == data[..s.at] + data[s.at..s.at + s.typeName] + headerData + data[s.at + s.typeName + s.header..];
  }

  lemma SlicesOf(p: seq<Byte>, t: seq<Byte>, h: seq<Byte>, b: seq<Byte>)
    ensures var d := p + t + h + b;
      && d[|p|..|p| + |t|] == t
      && d[|p| + |t|..|p| + |t| + |h|] == h
      && d[|p| + |t| + |h|..] == b
  {}

  /** Every frame of that layout is accepted and yields its parts. */
  lemma LaidOutIsAccepted(frame: seq<Byte>, prefix: seq<Byte>, headerData: seq<Byte>, e: Envelope)
    requires LaidOut(frame, prefix, headerData, e)
    ensures Open(frame) == Ok(e)
  {
    hide CrcOk, ReadSizes, H.Parse;
    CrcOkLength(frame);
    var data := frame[..|frame| - 4];
    var w := Window(data);
    assert prefix <= w by { assert prefix <= data; }
    assert w == prefix + w[|prefix|..];
    ReadSizesStable(prefix, w[|prefix|..]);
    SlicesOf(prefix, e.typeName, headerData, e.body);
  }

  /**
    For sizes that both skips let through, the sum the bound check makes in 32 bits is the true sum, and it passes.
    The check runs before the skips, and the copies lie between: see `CopiesInsideIff`.
   */
  lemma BoundCheckNeverWraps(data: seq<Byte>, s: Sizes)
    requires s.header < 0x8000_0000 && s.typeName < 0x8000_0000
    requires s.at + s.typeName + s.header <= |Window(data)|
    ensures (s.header + s.typeName) % 0x1_0000_0000 == s.header + s.typeName <= |data| - s.at
  {
    assert |Window(data)| <= |data|;
  }

  // ---------------------------------------------------------------- the copies between the check and the skips

  /**
    Once the 32-bit check has passed, every copy stays inside the data exactly when the two sizes do not wrap, or
    when the type name alone fits the data and its skip, running past the 64 MiB limit, ends the call before the
    header is copied.
   */
  lemma CopiesInsideIff(data: seq<Byte>, s: Sizes)
    requires |data| < 0x8000_0000 && ReadSizes(Window(data)) == Some(s) && SizesPass(data, s)
    ensures CopiesInside(data) <==>
      || s.header + s.typeName < 0x1_0000_0000
      || (s.typeName <= |data| - s.at && s.at + s.typeName > |Window(data)|)
  {
    hide ReadSizes, Window;
  }

  /** Where a copy leaves the data the layout is broken too: no accepted frame has such a copy. */
  lemma OutsideIsNotAccepted(frame: seq<Byte>)
    requires !StaysInside(frame)
    ensures Open(frame) == Err(BadSkip)
  {
    hide CrcOk, ReadSizes, H.Parse;
    CrcOkLength(frame);
    assert |Window(frame[..|frame| - 4])| <= |frame| - 4;
  }

  /** A check made without wrapping would keep every copy inside. */
  lemma UnboundedCheckSuffices(data: seq<Byte>)
    requires ReadSizes(Window(data)).Some? ==>
      var s := ReadSizes(Window(data)).value; s.header + s.typeName <= |data| - s.at
    ensures CopiesInside(data)
  {
    hide ReadSizes, Window;
  }

  const WRAPPING_DATA: seq<Byte> := [0xFF, 0xFF, 0xFF, 0xFF, 0x0F, 0x01, 0x78]

  /** Such a frame exists: header size 2^32 - 1 and type size 1 wrap to a sum of 0, which passes the check. */
  lemma WrappedSizesLeaveTheData()
    ensures var frame := WRAPPING_DATA + TrailerBytes(Crc(WRAPPING_DATA));
      && |frame| < MAX_FRAME && CrcOk(frame)
      && ReadSizes(Window(WRAPPING_DATA)) == Some(Sizes(0xFFFF_FFFF, 1, 6))
      && SizesPass(WRAPPING_DATA, Sizes(0xFFFF_FFFF, 1, 6))
      && !StaysInside(frame)
  {
    hide Crc, TrailerBytes, TrailerWord, ReadSizes, ReadVarint;
    WrappingPrefix();
    var data := WRAPPING_DATA;
    PrefixSizes(0xFFFF_FFFF, 1);
    ReadSizesStable(WRAPPING_DATA[..6], [0x78]);
    assert data == data[..6] + [0x78];
    var t := TrailerBytes(Crc(data));
    TrailerRoundTrip(Crc(data));
    assert (data + t)[|data + t| - 4..] == t && (data + t)[..|data + t| - 4] == data;
  }

  lemma WrappingPrefix()
    ensures Prefix(0xFFFF_FFFF, 1) == WRAPPING_DATA[..6]
  {
    assert WriteVarint(0xF) == [0x0F] && WriteVarint(1) == [0x01];
    assert WriteVarint(0x7FF) == [0xFF, 0x0F];
    assert WriteVarint(0x3_FFFF) == [0xFF, 0xFF, 0x0F];
    assert WriteVarint(0x1FF_FFFF) == [0xFF, 0xFF, 0xFF, 0x0F];
    assert WriteVarint(0xFFFF_FFFF) == [0xFF, 0xFF, 0xFF, 0xFF, 0x0F];
  }

  // ---------------------------------------------------------------- round trip

  /** The sizes within which a frame can be read back. */
  predicate Fits(header: H.IMHeader, typeName: seq<Byte>) {
    var h := |H.Serialize(header)|;
    |Prefix(h, |typeName|)| + |typeName| + h <= TOTAL_BYTES_LIMIT
  }

  /** The documented order: both sizes as varints, type name, header, body, and the checksum of all that. */
  lemma FrameLayout(header: H.IMHeader, typeName: seq<Byte>, body: seq<Byte>)
    ensures var h := H.Serialize(header);
      var data := WriteVarint(|h|) + WriteVarint(|typeName|) + typeName + h + body;
      Frame(header, typeName, body) == data + TrailerBytes(Crc(data))
  {
    hide Crc, TrailerBytes, H.Serialize, WriteVarint;
  }

  lemma PrefixSizes(h: nat, t: nat)
    requires h < 0x1_0000_0000 && t < 0x1_0000_0000
    ensures ReadSizes(Prefix(h, t)) == Some(Sizes(h, t, |Prefix(h, t)|))
  {
    hide WriteVarint, ReadVarint;
    var a, b := WriteVarint(h), WriteVarint(t);
    Varint32RoundTrip(h, b);
    Varint32RoundTrip(t, []);
    assert (a + b)[|a|..] == b && b + [] == b;
  }

  lemma FrameCrcOk(header: H.IMHeader, typeName: seq<Byte>, body: seq<Byte>)
    ensures var f, p := Frame(header, typeName, body), FrameData(header, typeName, body);
      |f| == |p| + 4 && f[..|f| - 4] == p && CrcOk(f)
  {
    hide Crc, TrailerBytes, TrailerWord, FrameData;
    var p := FrameData(header, typeName, body);
    var t := TrailerBytes(Crc(p));
    assert (p + t)[..|p|] == p && (p + t)[|p|..] == t;
    TrailerRoundTrip(Crc(p));
  }

  /** The frame of a header with content is accepted and yields exactly what went in. */
  lemma FrameRoundTrip(header: H.IMHeader, typeName: seq<Byte>, body: seq<Byte>)
    requires header != H.EMPTY && H.ValidStrings(header) && typeName != [] && Fits(header, typeName)
    ensures Open(Frame(header, typeName, body)) == Ok(Envelope(header, typeName, body))
  {
    hide CrcOk, ReadSizes, H.Parse, H.Serialize, Frame, Prefix, H.ValidStrings;
    var h := H.Serialize(header);
    H.EmptyIffDefault(header);
    H.RoundTrip(header);
    PrefixSizes(|h|, |typeName|);
    FrameCrcOk(header, typeName, body);
    LaidOutIsAccepted(Frame(header, typeName, body), Prefix(|h|, |typeName|), h, Envelope(header, typeName, body));
  }

  /**
    When does a frame come back? Exactly when the header is not all-default, its strings are
    well-formed UTF-8, the type name is not empty and the sizes fit. An all-default header has no bytes,
    so `encode` accepts it and both decoders refuse the result.
   */
  lemma ComesBackIff(header: H.IMHeader, typeName: seq<Byte>, body: seq<Byte>)
    requires |H.Serialize(header)| < MAX_LENGTH && |typeName| < 0x8000_0000
    ensures Open(Frame(header, typeName, body)) == Ok(Envelope(header, typeName, body))
      <==> header != H.EMPTY && H.ValidStrings(header) && typeName != [] && Fits(header, typeName)
  {
    hide CrcOk, ReadSizes, H.Parse, H.Serialize, Frame, Prefix, H.ValidStrings;
    var frame, h := Frame(header, typeName, body), H.Serialize(header);
    if header != H.EMPTY && H.ValidStrings(header) && typeName != [] && Fits(header, typeName) {
      FrameRoundTrip(header, typeName, body);
    } else if Open(frame).Ok? {
      var data, prefix := FrameData(header, typeName, body), Prefix(|h|, |typeName|);
      FrameCrcOk(header, typeName, body);
      var p, hd := AcceptedIsLaidOut(frame);
      H.EmptyIffDefault(header);
      H.ParsesBackIff(header);
      PrefixSizes(|h|, |typeName|);
      ReadSizesStable(p, data[|p|..]);
      assert data == p + data[|p|..];
      ReadSizesStable(prefix, data[|prefix|..]);
      assert data == prefix + data[|prefix|..];
      assert |p| == |prefix| && |hd| == |h|;
      SlicesOf(p, Open(frame).value.typeName, hd, Open(frame).value.body);
      SlicesOf(prefix, typeName, h, body);
    }
  }

  /** The body carries no length, and still different triples give different frames. */
  lemma FrameInjective(h1: H.IMHeader, t1: seq<Byte>, b1: seq<Byte>, h2: H.IMHeader, t2: seq<Byte>, b2: seq<Byte>)
    requires h1 != H.EMPTY && H.ValidStrings(h1) && t1 != [] && Fits(h1, t1)
    requires h2 != H.EMPTY && H.ValidStrings(h2) && t2 != [] && Fits(h2, t2)
    requires Frame(h1, t1, b1) == Frame(h2, t2, b2)
    ensures h1 == h2 && t1 == t2 && b1 == b2
  {
    hide Frame, Open, H.ValidStrings, Fits;
    FrameRoundTrip(h1, t1, b1);
    FrameRoundTrip(h2, t2, b2);
  }

  // ---------------------------------------------------------------- damage

  /** A damaged copy of an accepted frame is refused by its checksum, so neither decoder looks further. */
  lemma DamagedFrameRefused(frame: seq<Byte>, damaged: seq<Byte>, at: nat)
    requires Open(frame).Ok? && SameOutsideBurst(frame, damaged, at) && damaged != frame
    ensures Open(damaged) == Err(BadChecksum)
  {
    hide CrcOk, SameOutsideBurst, Unpack;
    BurstDetected(frame, damaged, at);
  }

  // ---------------------------------------------------------------- error responses

  /** "im.base.BaseResponse" in ASCII. */
  const BASE_RESPONSE_NAME: seq<Byte> :=
    [0x69, 0x6D, 0x2E, 0x62, 0x61, 0x73, 0x65, 0x2E, 0x42, 0x61, 0x73, 0x65,
     0x52, 0x65, 0x73, 0x70, 0x6F, 0x6E, 0x73, 0x65]

  const CMD_SERVER_NOTIFY := 2

  const BASE_RESPONSE: MessageType<R.BaseResponse> := MessageType(BASE_RESPONSE_NAME, R.Parse)

  /** The header of an answer: sender and receiver change places, the clock is a parameter. */
  method ReturnHeaderBuilder(header: H.IMHeader, deviceId: Text, platform: Text, now: Uint64) returns (r: H.IMHeader)
    ensures r == ReturnHeader(header, deviceId, platform, now)
    ensures r.version == header.version && r.seqNo == header.seqNo && r.cmdId == 2 && r.timestamp == now
    ensures r.fromUid == header.toUid && r.toUid == header.fromUid && r.token == header.token
    ensures r.deviceId == deviceId && r.platform == platform
  {
    r := H.EMPTY;
    r := r.(version := header.version);
    r := r.(seqNo := header.seqNo);
    r := r.(cmdId := CMD_SERVER_NOTIFY);
    r := r.(fromUid := header.toUid);
    r := r.(toUid := header.fromUid);
    r := r.(timestamp := now);
    r := r.(token := header.token);
    r := r.(deviceId := deviceId);
    r := r.(platform := platform);
  }

  function ReturnHeader(header: H.IMHeader, deviceId: Text, platform: Text, now: Uint64): (r: H.IMHeader)
    ensures r.fromUid == header.toUid && r.toUid == header.fromUid && r.cmdId != 0
  {
    H.IMHeader(header.version, header.seqNo, CMD_SERVER_NOTIFY, header.toUid, header.fromUid, now,
               header.token, deviceId, platform)
  }

  /** An empty result stands for a failed encode. */
  method BuildErrorResponse(request: H.IMHeader, errorCode: Int32, errorMessage: Text, now: Uint64)
    returns (frame: seq<Byte>)
    ensures var h := ReturnHeader(request, request.deviceId, request.platform, now);
      var b := R.Serialize(R.BaseResponse(errorCode, errorMessage, []));
      frame == if |H.Serialize(h)| <= INT_MAX && |b| <= INT_MAX then Frame(h, BASE_RESPONSE_NAME, b) else []
  {
    hide Frame, H.Serialize, R.Serialize;
    var header := ReturnHeaderBuilder(request, request.deviceId, request.platform, now);
    var response := R.EMPTY;
    response := response.(errorCode := errorCode);
    response := response.(errorMessage := errorMessage);
    var ok, encoded := Codec.Encode(header, Message(BASE_RESPONSE_NAME, R.Serialize(response)));
    frame := if ok then encoded else [];
  }

  /** The frame size of an error response, short of which every such frame can be read back. */
  predicate ResponseFits(request: H.IMHeader, errorCode: Int32, errorMessage: Text, now: Uint64) {
    && Fits(ReturnHeader(request, request.deviceId, request.platform, now), BASE_RESPONSE_NAME)
    && |R.Serialize(R.BaseResponse(errorCode, errorMessage, []))| < MAX_LENGTH
  }

  /**
    Whatever the request, even an all-default one: the error frame is accepted, names its type,
    swaps sender and receiver, keeps version, sequence number and token, and carries the error.
   */
  lemma ErrorResponseAccepted(request: H.IMHeader, errorCode: Int32, errorMessage: Text, now: Uint64)
    requires H.ValidStrings(request) && Utf8.ValidUtf8(errorMessage)
    requires ResponseFits(request, errorCode, errorMessage, now)
    ensures var response := R.BaseResponse(errorCode, errorMessage, []);
      var h := ReturnHeader(request, request.deviceId, request.platform, now);
      var result := Open(Frame(h, BASE_RESPONSE_NAME, R.Serialize(response)));
      && result == Ok(Envelope(h, BASE_RESPONSE_NAME, R.Serialize(response)))
      && h.fromUid == request.toUid && h.toUid == request.fromUid
      && h.version == request.version && h.seqNo == request.seqNo && h.token == request.token
      && h.cmdId == 2 && h.timestamp == now && h.deviceId == request.deviceId && h.platform == request.platform
      && result.value.typeName
         == [0x69, 0x6D, 0x2E, 0x62, 0x61, 0x73, 0x65, 0x2E, 0x42, 0x61, 0x73, 0x65,
             0x52, 0x65, 0x73, 0x70, 0x6F, 0x6E, 0x73, 0x65]
      && BASE_RESPONSE.parse(result.value.body) == Some(response)
  {
    hide Frame, Open, R.Serialize, Fits, Utf8.ValidUtf8, R.Parse, H.Serialize;
    var response := R.BaseResponse(errorCode, errorMessage, []);
    var h := ReturnHeader(request, request.deviceId, request.platform, now);
    FrameRoundTrip(h, BASE_RESPONSE_NAME, R.Serialize(response));
    R.RoundTrip(response);
  }
}
