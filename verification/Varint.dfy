/** Base 128 varints of the Protocol Buffers encoding, as written and as read by the C++ runtime. */
module Varint {
  import opened Bytes
  import opened Wrappers

  const MAX_VARINT_BYTES := 10
  const MAX_VARINT32_BYTES := 5

  function WriteVarint(v: nat): (s: seq<Byte>)
    ensures s != []
  {
    if v < 128 then [v] else [128 + v % 128] + WriteVarint(v / 128)
  }

  /** The size functions of the runtime: one byte per started group of seven bits. */
  function VarintSize(v: nat): nat {
    if v < 128 then 1 else 1 + VarintSize(v / 128)
  }

  datatype Number = Number(value: nat, used: nat)

  /** Reads a varint of at most `n` bytes; the value still carries the bits beyond the target width. */
  function ReadVarint(s: seq<Byte>, n: nat): (r: Option<Number>)
    ensures r.Some? ==> 0 < r.value.used <= |s| && r.value.used <= n
    decreases n
  {
    if n == 0 || s == [] then None
    else if s[0] < 128 then Some(Number(s[0], 1))
    else match ReadVarint(s[1..], n - 1)
      case None => None
      case Some(rest) => Some(Number(s[0] - 128 + 128 * rest.value, rest.used + 1))
  }

  function Pow128(n: nat): (p: nat)
    ensures p >= 1
  {
    if n == 0 then 1 else 128 * Pow128(n - 1)
  }

  lemma {:induction false} SizeIsLength(v: nat)
    ensures VarintSize(v) == |WriteVarint(v)|
    decreases v
  {
    if v >= 128 { SizeIsLength(v / 128); }
  }

  /** Reading undoes writing, whatever follows, as soon as the byte limit covers the value. */
  lemma {:induction false} VarintRoundTrip(v: nat, rest: seq<Byte>, n: nat)
    requires 1 <= n && v < Pow128(n)
    ensures ReadVarint(WriteVarint(v) + rest, n) == Some(Number(v, |WriteVarint(v)|))
    decreases n
  {
    var s := WriteVarint(v) + rest;
    if v < 128 {
      assert s[0] == v;
    } else {
      assert n > 1 by { assert Pow128(0) == 1; }
      assert s[1..] == WriteVarint(v / 128) + rest;
      VarintRoundTrip(v / 128, rest, n - 1);
    }
  }

  lemma VarintLimits()
    ensures Pow128(MAX_VARINT_BYTES) == 0x40_0000_0000_0000_0000
    ensures Pow128(MAX_VARINT32_BYTES) == 0x8_0000_0000
  {
    assert Pow128(5) == 0x8_0000_0000;
  }

  lemma Varint64RoundTrip(v: Uint64, rest: seq<Byte>)
    ensures ReadVarint(WriteVarint(v) + rest, MAX_VARINT_BYTES) == Some(Number(v, |WriteVarint(v)|))
  {
    VarintLimits();
    VarintRoundTrip(v, rest, MAX_VARINT_BYTES);
  }

  lemma Varint32RoundTrip(v: Uint32, rest: seq<Byte>)
    ensures ReadVarint(WriteVarint(v) + rest, MAX_VARINT32_BYTES) == Some(Number(v, |WriteVarint(v)|))
    ensures ReadVarint(WriteVarint(v) + rest, MAX_VARINT_BYTES) == Some(Number(v, |WriteVarint(v)|))
  {
    VarintLimits();
    VarintRoundTrip(v, rest, MAX_VARINT32_BYTES);
    VarintRoundTrip(v, rest, MAX_VARINT_BYTES);
  }

  /** A successful read does not look past the bytes it used. */
  lemma {:induction false} ReadVarintStable(s: seq<Byte>, more: seq<Byte>, n: nat)
    requires ReadVarint(s, n).Some?
    ensures ReadVarint(s + more, n) == ReadVarint(s, n)
    decreases n
  {
    if s[0] >= 128 {
      assert (s + more)[1..] == s[1..] + more;
      ReadVarintStable(s[1..], more, n - 1);
    }
  }

  /** A successful read needs only the bytes it used. */
  lemma {:induction false} ReadVarintLocal(s: seq<Byte>, n: nat)
    requires ReadVarint(s, n).Some?
    ensures var used := ReadVarint(s, n).value.used; ReadVarint(s[..used], n) == ReadVarint(s, n)
    decreases n
  {
    if s[0] >= 128 {
      var used := ReadVarint(s, n).value.used;
      ReadVarintLocal(s[1..], n - 1);
      assert s[..used][1..] == s[1..][..used - 1];
    }
  }

  // ---------------------------------------------------------------- the form itself

  /** Groups of seven bits, the least significant first. */
  function Positional(s: seq<Byte>): nat {
    if s == [] then 0 else s[0] % 128 + 128 * Positional(s[1..])
  }

  /** A written varint has its value as positional value, and exactly its last byte is below 128. */
  lemma {:induction false} VarintForm(v: nat)
    ensures var s := WriteVarint(v);
      && Positional(s) == v
      && s[|s| - 1] < 128
      && (forall i :: 0 <= i < |s| - 1 ==> s[i] >= 128)
      && (|s| > 1 ==> s[|s| - 1] > 0)
    decreases v
  {
    var s := WriteVarint(v);
    if v < 128 {
      assert s[1..] == [];
    } else {
      VarintForm(v / 128);
      assert s[1..] == WriteVarint(v / 128);
      assert s[0] % 128 == v % 128;
    }
  }

  /** Of a readable varint the same is true: the bytes used end at the first one below 128, and there are at most `n`. */
  lemma {:induction false} ReadForm(s: seq<Byte>, n: nat)
    requires ReadVarint(s, n).Some?
    ensures var r := ReadVarint(s, n).value;
      && r.used <= n && s[r.used - 1] < 128 && (forall i :: 0 <= i < r.used - 1 ==> s[i] >= 128)
      && r.value == Positional(s[..r.used])
    decreases n
  {
    if s[0] < 128 {
      assert s[..1][1..] == [];
    } else {
      ReadForm(s[1..], n - 1);
      var used := ReadVarint(s, n).value.used;
      assert s[..used][1..] == s[1..][..used - 1];
    }
  }

  /** A varint is refused exactly when no byte below 128 comes within its limit. */
  lemma {:induction false} RefusedIff(s: seq<Byte>, n: nat)
    ensures ReadVarint(s, n).None? <==> forall i :: 0 <= i < |s| && i < n ==> s[i] >= 128
    decreases n
  {
    if n > 0 && s != [] && s[0] >= 128 {
      RefusedIff(s[1..], n - 1);
      assert forall i :: 0 <= i < |s| - 1 ==> s[1..][i] == s[i + 1];
      if forall i :: 0 <= i < |s[1..]| && i < n - 1 ==> s[1..][i] >= 128 {
        forall i | 0 <= i < |s| && i < n ensures s[i] >= 128 {
          if i > 0 { assert s[i] == s[1..][i - 1]; }
        }
      }
    }
  }

  /** A 64-bit varint is at most ten bytes, a 32-bit one and a length at most five. */
  lemma Limits(s: seq<Byte>)
    ensures |s| >= 10 && (forall i :: 0 <= i < 10 ==> s[i] >= 128) ==> ReadVarint(s, MAX_VARINT_BYTES).None?
    ensures |s| >= 5 && (forall i :: 0 <= i < 5 ==> s[i] >= 128) ==> ReadVarint(s, MAX_VARINT32_BYTES).None?
    ensures |s| >= 10 && s[9] < 128 ==> ReadVarint(s, MAX_VARINT_BYTES).Some?
    ensures |s| >= 5 && s[4] < 128 ==> ReadVarint(s, MAX_VARINT32_BYTES).Some?
  {
    RefusedIff(s, 10);
    RefusedIff(s, 5);
  }
}
