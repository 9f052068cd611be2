/** Session ids: a fixed prefix and the decimal rendering of a counter. */
module SessionIds {

  function Decimal(n: nat): (s: string)
    ensures |s| > 0 && forall i :: 0 <= i < |s| ==> '0' <= s[i] <= '9'
  {
    if n < 10 then ['0' + n as char] else Decimal(n / 10) + ['0' + (n % 10) as char]
  }

  function Value(s: string): nat
    requires forall i :: 0 <= i < |s| ==> '0' <= s[i] <= '9'
  {
    if s == "" then 0 else 10 * Value(s[..|s| - 1]) + (s[|s| - 1] - '0') as nat
  }

  /** Reading the decimal rendering gives the number back. */
  lemma {:induction false} ValueOfDecimal(n: nat)
    ensures Value(Decimal(n)) == n
    decreases n
  {
    if n < 10 {
      assert Decimal(n)[..0] == "";
    } else {
      ValueOfDecimal(n / 10);
      var s := Decimal(n);
      assert s[..|s| - 1] == Decimal(n / 10);
    }
  }

  const PREFIX := "session_"

  function IdOf(n: nat): string { PREFIX + Decimal(n) }

  /** Different counter values give different ids. */
  lemma IdInjective(m: nat, n: nat)
    requires IdOf(m) == IdOf(n)
    ensures m == n
  {
    assert IdOf(m)[|PREFIX|..] == Decimal(m) && IdOf(n)[|PREFIX|..] == Decimal(n);
    ValueOfDecimal(m);
    ValueOfDecimal(n);
  }

  /** Most significant digit first, after the fixed prefix. */
  lemma KnownIds()
    ensures IdOf(1) == "session_1" && IdOf(120) == "session_120"
  {
    assert Decimal(12) == "1" + "2";
    assert Decimal(120) == "12" + "0";
  }
}
