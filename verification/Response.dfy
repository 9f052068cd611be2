/** im.base.BaseResponse: wire form, parser and merge. */
module Response {
  import opened Bytes
  import opened Wrappers
  import opened Wire
  import opened Utf8
  import opened Fields

  datatype BaseResponse = BaseResponse(errorCode: Int32, errorMessage: Text, payload: seq<Byte>)

  const EMPTY := BaseResponse(0, [], [])

  predicate ValidStrings(m: BaseResponse) { ValidUtf8(m.errorMessage) }

  function Records(m: BaseResponse): seq<Record> {
    ScalarField(1, SignedWord(m.errorCode)) + (BlobField(2, m.errorMessage) + BlobField(3, m.payload))
  }

  function Serialize(m: BaseResponse): seq<Byte> { Encode(Records(m)) }

  function Apply(m: BaseResponse, r: Record): Option<BaseResponse> {
    match r.payload
    case Scalar(v) => Some(if r.field == 1 then m.(errorCode := ToInt32(v)) else m)
    case Blob(s) =>
      if r.field == 2 then (if ValidUtf8(s) then Some(m.(errorMessage := s)) else None)
      else Some(if r.field == 3 then m.(payload := s) else m)
    case Fixed(_) => Some(m)
  }

  function Parse(s: seq<Byte>): Option<BaseResponse> { ParseWith(Apply, EMPTY, s) }

  function Merge(to: BaseResponse, from: BaseResponse): BaseResponse {
    BaseResponse(
      if from.errorCode != 0 then from.errorCode else to.errorCode,
      Later(to.errorMessage, from.errorMessage),
      Later(to.payload, from.payload))
  }

  /** Applying the records of a response is merging the response. */
  lemma ApplyRecords(h: BaseResponse, m: BaseResponse)
    requires ValidStrings(m)
    ensures ApplyAll(Apply, h, Records(m)) == Some(Merge(h, m))
  {
    hide ValidUtf8;
    var r1, r2, r3 := ScalarField(1, SignedWord(m.errorCode)), BlobField(2, m.errorMessage), BlobField(3, m.payload);
    var h1 := if m.errorCode != 0 then h.(errorCode := m.errorCode) else h;
    SignedRoundTrip(m.errorCode, m.errorCode);
    ApplyAllConcat(Apply, h, r1, r2 + r3);
    assert ApplyAll(Apply, h, r1) == Some(h1);
    var h2 := h1.(errorMessage := Later(h1.errorMessage, m.errorMessage));
    ApplyAllConcat(Apply, h1, r2, r3);
    assert ApplyAll(Apply, h1, r2) == Some(h2);
    assert ApplyAll(Apply, h2, r3) == Some(Merge(h, m));
  }

  lemma RecordsWritable(m: BaseResponse)
    requires |Serialize(m)| < MAX_LENGTH
    ensures AllWritable(Records(m))
  {
    PlainConcat(BlobField(2, m.errorMessage), BlobField(3, m.payload));
    PlainConcat(ScalarField(1, SignedWord(m.errorCode)), BlobField(2, m.errorMessage) + BlobField(3, m.payload));
    ShortIsWritable(Records(m));
  }

  /** Bytes that parse, followed by a serialised response, parse to the merge of the two. */
  lemma ParseConcatenation(start: BaseResponse, a: seq<Byte>, m: BaseResponse)
    requires ParseWith(Apply, start, a).Some? && ValidStrings(m) && |Serialize(m)| < MAX_LENGTH
    ensures ParseWith(Apply, start, a + Serialize(m)) == Some(Merge(ParseWith(Apply, start, a).value, m))
  {
    hide Apply, Records, Encode;
    RecordsWritable(m);
    ParseThenApply(Apply, start, a, Records(m));
    ApplyRecords(ParseWith(Apply, start, a).value, m);
  }

  /** Parsing a serialised response into a message that already has content merges it in. */
  lemma ParseInto(start: BaseResponse, m: BaseResponse)
    requires ValidStrings(m) && |Serialize(m)| < MAX_LENGTH
    ensures ParseWith(Apply, start, Serialize(m)) == Some(Merge(start, m))
  {
    hide Apply, Records, Encode;
    ParseNothing(start);
    ParseConcatenation(start, [], m);
    assert [] + Serialize(m) == Serialize(m);
  }

  lemma ParseNothing(start: BaseResponse)
    ensures ParseWith(Apply, start, []) == Some(start)
  {}

  lemma RoundTrip(m: BaseResponse)
    requires ValidStrings(m) && |Serialize(m)| < MAX_LENGTH
    ensures Parse(Serialize(m)) == Some(m)
  {
    hide Apply, Records, Encode;
    ParseInto(EMPTY, m);
  }
}
