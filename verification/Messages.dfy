/** Well-formed UTF-8 (Unicode Standard, table 3-7), which the parser demands of string fields. */
module Utf8 {
  import opened Bytes

  predicate Tail(s: seq<Byte>, from: nat, to: nat) {
    to <= |s| && forall i :: from <= i < to ==> 0x80 <= s[i] <= 0xBF
  }

  /** The length of the first character, or 0 when there is no well-formed one. */
  function FirstCharacter(s: seq<Byte>): (n: nat)
    ensures n <= |s|
  {
    if s == [] then 0
    else if s[0] <= 0x7F then 1
    else if 0xC2 <= s[0] <= 0xDF && Tail(s, 1, 2) then 2
    else if 0xE0 <= s[0] <= 0xEF && Tail(s, 1, 3)
      && (s[0] == 0xE0 ==> s[1] >= 0xA0) && (s[0] == 0xED ==> s[1] <= 0x9F) then 3
    else if 0xF0 <= s[0] <= 0xF4 && Tail(s, 1, 4)
      && (s[0] == 0xF0 ==> s[1] >= 0x90) && (s[0] == 0xF4 ==> s[1] <= 0x8F) then 4
    else 0
  }

  predicate ValidUtf8(s: seq<Byte>)
    decreases |s|
  {
    s == [] || (FirstCharacter(s) > 0 && ValidUtf8(s[FirstCharacter(s)..]))
  }
}

/** The field kinds the four messages share. */
module Fields {
  import opened Bytes
  import opened Wrappers
  import opened Wire

  type Text = seq<Byte>
  type Int32 = n: int | -0x8000_0000 <= n < 0x8000_0000
  type Int64 = n: int | -0x8000_0000_0000_0000 <= n < 0x8000_0000_0000_0000

  /** A signed value on the wire: sign-extended to 64 bits, so a negative enum takes ten bytes. */
  function SignedWord(v: Int64): Uint64 { if v < 0 then v + 0x1_0000_0000_0000_0000 else v }

  function ToUint32(w: Uint64): Uint32 { w % 0x1_0000_0000 }

  function ToInt32(w: Uint64): Int32 {
    var low := w % 0x1_0000_0000;
    if low < 0x8000_0000 then low else low - 0x1_0000_0000
  }

  function ToInt64(w: Uint64): Int64 {
    if w < 0x8000_0000_0000_0000 then w else w - 0x1_0000_0000_0000_0000
  }

  function BlobField(field: nat, s: Text): (rs: seq<Record>)
    ensures 1 <= field < 0x2000_0000 ==> Plain(rs)
  {
    if s == [] then [] else [Record(field, Blob(s))]
  }

  function ScalarField(field: nat, v: Uint64): (rs: seq<Record>)
    ensures 1 <= field < 0x2000_0000 ==> Plain(rs)
  {
    if v == 0 then [] else [Record(field, Scalar(v))]
  }

  /** A field with a default value is not on the wire and so does not overwrite. */
  function Later(old_: Text, new_: Text): Text { if new_ == [] then old_ else new_ }

  function LaterNumber(old_: int, new_: int): int { if new_ != 0 then new_ else old_ }

  function ApplyAll<M>(apply: (M, Record) -> Option<M>, m: M, rs: seq<Record>): Option<M> {
    if rs == [] then Some(m)
    else match apply(m, rs[0])
      case None => None
      case Some(m') => ApplyAll(apply, m', rs[1..])
  }

  lemma {:induction false} ApplyAllConcat<M>(apply: (M, Record) -> Option<M>, m: M, a: seq<Record>, b: seq<Record>)
    ensures ApplyAll(apply, m, a + b)
      == match ApplyAll(apply, m, a) { case None => None case Some(m') => ApplyAll(apply, m', b) }
    decreases |a|
  {
    if a == [] {
      assert a + b == b;
    } else {
      assert (a + b)[1..] == a[1..] + b;
      match apply(m, a[0]) {
        case None =>
        case Some(m') => ApplyAllConcat(apply, m', a[1..], b);
      }
    }
  }

  function ParseWith<M>(apply: (M, Record) -> Option<M>, m: M, s: seq<Byte>): Option<M> {
    match ParseRecords(s)
    case None => None
    case Some(rs) => ApplyAll(apply, m, rs)
  }

  predicate Plain(rs: seq<Record>) {
    forall i :: 0 <= i < |rs| ==> 1 <= rs[i].field < 0x2000_0000 && !rs[i].payload.Fixed?
  }

  lemma PlainConcat(a: seq<Record>, b: seq<Record>)
    requires Plain(a) && Plain(b)
    ensures Plain(a + b)
  {}

  /** Records whose encoding is short enough are all short enough to be parsed back. */
  lemma {:induction false} ShortIsWritable(rs: seq<Record>)
    requires |Encode(rs)| < MAX_LENGTH && Plain(rs)
    ensures AllWritable(rs)
    decreases |rs|
  {
    if rs != [] {
      ShortIsWritable(rs[1..]);
      assert forall i :: 0 < i < |rs| ==> rs[i] == rs[1..][i - 1];
    }
  }

  /** Parsing a prefix and then an encoding is parsing the prefix and then applying the records. */
  lemma ParseThenApply<M>(apply: (M, Record) -> Option<M>, m: M, a: seq<Byte>, rs: seq<Record>)
    requires ParseWith(apply, m, a).Some? && AllWritable(rs)
    ensures ParseWith(apply, m, a + Encode(rs)) == ApplyAll(apply, ParseWith(apply, m, a).value, rs)
  {
    ParseAppend(a, rs);
    ApplyAllConcat(apply, m, ParseRecords(a).value, rs);
  }

  lemma SignedRoundTrip(v: Int32, w: Int64)
    ensures ToInt32(SignedWord(v)) == v && ToInt64(SignedWord(w)) == w
    ensures SignedWord(w) == 0 <==> w == 0
  {}
}
