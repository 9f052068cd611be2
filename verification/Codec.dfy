/** The input stream the decoders read through: a position in a buffer and a total-bytes limit. */
module CodedStream {
  import opened Bytes
  import opened Wrappers
  import opened Varint

  const TOTAL_BYTES_LIMIT := 0x400_0000

  function Window(data: seq<Byte>): (w: seq<Byte>)
    ensures w <= data && |w| <= TOTAL_BYTES_LIMIT
    ensures w == if |data| <= 64 * 1024 * 1024 then data else data[..64 * 1024 * 1024]
  {
    if |data| <= TOTAL_BYTES_LIMIT then data else data[..TOTAL_BYTES_LIMIT]
  }

  class CodedInputStream {
    const data: seq<Byte>
    var position: nat

    ghost predicate Valid()
      reads this
    {
      position <= |Window(data)|
    }

    constructor (data: seq<Byte>)
      ensures this.data == data && position == 0 && Valid()
    {
      this.data, position := data, 0;
    }

    /** Reads up to ten bytes and keeps the low 32 bits of the value. */
    method ReadVarint32() returns (ok: bool, value: Uint32)
      requires Valid()
      modifies this
      ensures Valid()
      ensures var r := ReadVarint(Window(data)[old(position)..], MAX_VARINT_BYTES);
        ok == r.Some? && (ok ==> value == r.value.value % 0x1_0000_0000 && position == old(position) + r.value.used)
    {
      match ReadVarint(Window(data)[position..], MAX_VARINT_BYTES)
      case None => ok, value := false, 0;
      case Some(n) =>
        ok, value := true, n.value % 0x1_0000_0000;
        position := position + n.used;
    }

    /** The count is converted to a signed int first, so 2^31 and above is negative and refused. */
    method Skip(count: Uint32) returns (ok: bool)
      requires Valid()
      modifies this
      ensures Valid()
      ensures ok <==> count < 0x8000_0000 && old(position) + count <= |Window(data)|
      ensures ok ==> position == old(position) + count
    {
      if count >= 0x8000_0000 { return false; }
      if position + count <= |Window(data)| {
        position := position + count;
        return true;
      }
      position := |Window(data)|;
      return false;
    }
  }
}

/** The envelope: `varint header_size | varint type_size | type | header | body | CRC32`. */
module Codec {
  import opened Bytes
  import opened Wrappers
  import opened Varint
  import opened Wire
  import opened Crc32
  import opened FrameCrc
  import opened CodedStream
  import H = Header

  /** The sizes and positions are C++ ints: frames stay below 2 GiB. */
  const MAX_FRAME := 0x8000_0000

  /** A message as `encode` sees it: its full type name and its serialised bytes. */
  datatype Message = Message(typeName: seq<Byte>, bytes: seq<Byte>)

  /** A message class as `decode` sees it: its full type name and its parser. */
  datatype MessageType<!M> = MessageType(name: seq<Byte>, parse: seq<Byte> -> Option<M>)

  datatype Envelope = Envelope(header: H.IMHeader, typeName: seq<Byte>, body: seq<Byte>)

  // ---------------------------------------------------------------- encode

  function Prefix(headerSize: nat, typeSize: nat): seq<Byte> { WriteVarint(headerSize) + WriteVarint(typeSize) }

  function FrameData(header: H.IMHeader, typeName: seq<Byte>, body: seq<Byte>): seq<Byte> {
    var h := H.Serialize(header);
    Prefix(|h|, |typeName|) + typeName + h + body
  }

  function Frame(header: H.IMHeader, typeName: seq<Byte>, body: seq<Byte>): seq<Byte> {
    var p := FrameData(header, typeName, body);
    p + TrailerBytes(Crc(p))
  }

  /** Serialising fails only beyond INT_MAX bytes; the size is then cast to 32 bits without loss. */
  method Encode(header: H.IMHeader, message: Message) returns (ok: bool, output: seq<Byte>)
    ensures ok <==> |H.Serialize(header)| < 0x8000_0000 && |message.bytes| < 0x8000_0000
    ensures ok ==>
      var h, t := H.Serialize(header), message.typeName;
      var data := Prefix(|h|, |t| % 0x1_0000_0000) + t + h + message.bytes;
      output == data + TrailerBytes(Crc(data))
    ensures ok && |message.typeName| < 0x1_0000_0000 ==> output == Frame(header, message.typeName, message.bytes)
  {
    hide H.Serialize, Crc, TrailerBytes;
    output := [];
    var headerData := H.Serialize(header);
    if |headerData| > INT_MAX || |message.bytes| > INT_MAX { return false, output; }
    var headerSize := |headerData| % 0x1_0000_0000;
    var typeNameSize := |message.typeName| % 0x1_0000_0000;
    output := output + WriteVarint(headerSize);
    output := output + WriteVarint(typeNameSize);
    output := output + message.typeName;
    output := output + headerData;
    output := output + message.bytes;
    var crc := CalculateCrc32(output);
    assert output == Prefix(|headerData|, |message.typeName| % 0x1_0000_0000) + message.typeName + headerData + message.bytes;
    output := output + TrailerBytes(crc);
    ok := true;
  }

  // ---------------------------------------------------------------- what a decoder accepts

  datatype DecodeError = BadChecksum | BadSizes | ZeroSize | SizesExceedData | BadSkip | BadHeader

  datatype Result<+T> = Ok(value: T) | Err(error: DecodeError)

  datatype Sizes = Sizes(header: Uint32, typeName: Uint32, at: nat)

  function ReadSizes(window: seq<Byte>): (r: Option<Sizes>)
    ensures r.Some? ==> r.value.at <= |window|
  {
    match ReadVarint(window, MAX_VARINT_BYTES)
    case None => None
    case Some(a) =>
      match ReadVarint(window[a.used..], MAX_VARINT_BYTES)
      case None => None
      case Some(b) => Some(Sizes(a.value % 0x1_0000_0000, b.value % 0x1_0000_0000, a.used + b.used))
  }

  function Unpack(data: seq<Byte>): Result<Envelope> {
    match ReadSizes(Window(data))
    case None => Err(BadSizes)
    case Some(s) =>
      if s.header == 0 || s.typeName == 0 then Err(ZeroSize)
      else if (s.header + s.typeName) % 0x1_0000_0000 > |data| - s.at then Err(SizesExceedData)
      else if s.typeName >= 0x8000_0000 || s.header >= 0x8000_0000
        || s.at + s.typeName + s.header > |Window(data)| then Err(BadSkip)
      else
        var headerAt := s.at + s.typeName;
        var bodyAt := headerAt + s.header;
        match H.Parse(data[headerAt..bodyAt])
        case None => Err(BadHeader)
        case Some(h) => Ok(Envelope(h, data[s.at..headerAt], data[bodyAt..]))
  }

  function Open(frame: seq<Byte>): Result<Envelope> {
    if CrcOk(frame) then Unpack(frame[..|frame| - 4]) else Err(BadChecksum)
  }

  // ---------------------------------------------------------------- the copies a decoder makes

  /** The size tests of the decoders; the sum is made in 32 bits. */
  predicate SizesPass(data: seq<Byte>, s: Sizes) {
    s.header != 0 && s.typeName != 0 && (s.header + s.typeName) % 0x1_0000_0000 <= |data| - s.at
  }

  predicate SkipAccepts(data: seq<Byte>, from: nat, count: Uint32) {
    count < 0x8000_0000 && from + count <= |Window(data)|
  }

  /**
    Both decoders copy the type name before they skip it, and the header bytes before they skip those.
    Each copy that is made lies inside the data.
   */
  predicate CopiesInside(data: seq<Byte>) {
    match ReadSizes(Window(data))
    case None => true
    case Some(s) => SizesPass(data, s) ==>
      && s.at + s.typeName <= |data|
      && (SkipAccepts(data, s.at, s.typeName) ==> s.at + s.typeName + s.header <= |data|)
  }

  /** No copy made while decoding the frame leaves its data; a frame with a bad checksum is never copied from. */
  predicate StaysInside(frame: seq<Byte>) {
    CrcOk(frame) ==> CopiesInside(frame[..|frame| - 4])
  }

  /** Header size, then type name size. */
  method ReadBothSizes(codedIn: CodedInputStream) returns (ok: bool, headerSize: Uint32, typeNameSize: Uint32)
    requires codedIn.Valid() && codedIn.position == 0
    modifies codedIn
    ensures codedIn.Valid()
    ensures var r := ReadSizes(Window(codedIn.data));
      ok == r.Some? && (ok ==> r.value == Sizes(headerSize, typeNameSize, codedIn.position))
  {
    hide ReadVarint, Window;
    typeNameSize := 0;
    ok, headerSize := codedIn.ReadVarint32();
    if !ok { return; }
    ok, typeNameSize := codedIn.ReadVarint32();
  }

  /** A string made from `count` bytes at `at`. A copy that leaves the data takes in what is no part of the frame. */
  method Copy(data: seq<Byte>, at: nat, count: Uint32) returns (inside: bool, copy: seq<Byte>)
    ensures inside <==> at + count <= |data|
    ensures inside ==> copy == data[at..at + count]
  {
    inside := at + count <= |data|;
    copy := if inside then data[at..at + count] else [];
  }

  method ChecksumMatches(input: seq<Byte>) returns (ok: bool)
    ensures ok == CrcOk(input)
  {
    hide Crc, TrailerWord;
    if |input| < 4 { return false; }
    var received := TrailerWord(input[|input| - 4..]);
    var calculated := CalculateCrc32(input[..|input| - 4]);
    ok := received == calculated;
  }

  lemma BadChecksumIs(frame: seq<Byte>)
    requires !CrcOk(frame)
    ensures StaysInside(frame) && Open(frame) == Err(BadChecksum)
  {}

  /** What becomes of a frame once its sizes are read, test by test in the order the decoders make them. */
  lemma Decided(frame: seq<Byte>)
    requires CrcOk(frame) && |frame| < MAX_FRAME
    ensures |frame| >= 4
    ensures var data := frame[..|frame| - 4];
      match ReadSizes(Window(data))
      case None => StaysInside(frame) && !Open(frame).Ok?
      case Some(s) =>
        if !SizesPass(data, s) then StaysInside(frame) && !Open(frame).Ok?
        else if s.at + s.typeName > |data| then !StaysInside(frame)
        else if !SkipAccepts(data, s.at, s.typeName) then StaysInside(frame) && !Open(frame).Ok?
        else if s.at + s.typeName + s.header > |data| then !StaysInside(frame)
        else
          var headerAt, bodyAt := s.at + s.typeName, s.at + s.typeName + s.header;
          var h := H.Parse(data[headerAt..bodyAt]);
          && StaysInside(frame)
          && (if SkipAccepts(data, headerAt, s.header) && h.Some?
              then Open(frame) == Ok(Envelope(h.value, data[s.at..headerAt], data[bodyAt..]))
              else !Open(frame).Ok?)
  {
    hide CrcOk, ReadSizes, H.Parse, Window;
    CrcOkLength(frame);
  }

  /** `inside` reports whether every copy stayed within the data; where one does not, nothing more is promised. */
  method DecodeEnvelope(input: seq<Byte>)
    returns (inside: bool, ok: bool, header: H.IMHeader, typeName: seq<Byte>, body: seq<Byte>)
    requires |input| < MAX_FRAME
    ensures inside <==> StaysInside(input)
    ensures inside ==> (ok <==> Open(input).Ok?)
    ensures inside && ok ==> Open(input).value == Envelope(header, typeName, body)
  {
    hide Crc, TrailerWord, ReadSizes, H.Parse, CrcOk, Window, StaysInside, Open;
    inside, ok, header, typeName, body := true, false, H.EMPTY, [], [];
    var checksum := ChecksumMatches(input);
    if !checksum {
      BadChecksumIs(input);
      return;
    }
    Decided(input);
    var data := input[..|input| - 4];
    var codedIn := new CodedInputStream(data);
    var read, headerSize, typeNameSize := ReadBothSizes(codedIn);
    if !read { return; }
    if headerSize == 0 || typeNameSize == 0 { return; }
    var afterSizes := codedIn.position;
    var remaining := |data| - afterSizes;
    if (headerSize + typeNameSize) % 0x1_0000_0000 > remaining { return; }
    inside, typeName := Copy(data, afterSizes, typeNameSize);
    if !inside { return; }
    var skipped := codedIn.Skip(typeNameSize);
    if !skipped { return; }
    var headerData;
    inside, headerData := Copy(data, afterSizes + typeNameSize, headerSize);
    if !inside { return; }
    skipped := codedIn.Skip(headerSize);
    if !skipped { return; }
    match H.Parse(headerData)
    case None => return;
    case Some(h) =>
      header := h;
      body := data[codedIn.position..];
      ok := true;
  }

  /** An empty body leaves the caller's message alone and skips the type check. */
  method Decode<M>(input: seq<Byte>, kind: MessageType<M>, message: M)
    returns (inside: bool, ok: bool, header: H.IMHeader, message': M)
    requires |input| < MAX_FRAME
    ensures inside <==> StaysInside(input)
    ensures inside ==> (ok <==>
      && Open(input).Ok?
      && var e := Open(input).value;
         e.body == [] || (kind.parse(e.body).Some? && e.typeName == kind.name))
    ensures inside && ok ==>
      var e := Open(input).value;
      header == e.header && message' == if e.body == [] then message else kind.parse(e.body).value
  {
    hide Crc, TrailerWord, ReadSizes, H.Parse, CrcOk, Window, StaysInside, Open;
    inside, ok, header, message' := true, false, H.EMPTY, message;
    var checksum := ChecksumMatches(input);
    if !checksum {
      BadChecksumIs(input);
      return;
    }
    Decided(input);
    var data := input[..|input| - 4];
    var codedIn := new CodedInputStream(data);
    var read, headerSize, typeNameSize := ReadBothSizes(codedIn);
    if !read { return; }
    if headerSize == 0 { return; }
    if typeNameSize == 0 { return; }
    var afterSizes := codedIn.position;
    var remaining := |data| - afterSizes;
    if (headerSize + typeNameSize) % 0x1_0000_0000 > remaining { return; }
    var typeName;
    inside, typeName := Copy(data, afterSizes, typeNameSize);
    if !inside { return; }
    var skipped := codedIn.Skip(typeNameSize);
    if !skipped { return; }
    var headerData;
    inside, headerData := Copy(data, afterSizes + typeNameSize, headerSize);
    if !inside { return; }
    skipped := codedIn.Skip(headerSize);
    if !skipped { return; }
    match H.Parse(headerData)
    case None => return;
    case Some(h) =>
      header := h;
      var messagePosition := codedIn.position;
      if |data| - messagePosition > 0 {
        match kind.parse(data[messagePosition..])
        case None => return;
        case Some(m) =>
          message' := m;
          if typeName != kind.name { return; }
      }
      ok := true;
  }
}
