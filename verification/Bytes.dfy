/** Octets and the few character classes the codecs test for. A C++ `std::string` is
    a sequence of octets here. */
module Bytes {
  type byte = x: int | 0 <= x < 256

  const SPACE: byte := 32
  const PLUS: byte := 43
  const SLASH: byte := 47
  const EQUALS: byte := 61
  const PERCENT: byte := 37

  predicate IsDigit(c: byte) { 48 <= c <= 57 }

  predicate IsUpper(c: byte) { 65 <= c <= 90 }

  predicate IsLower(c: byte) { 97 <= c <= 122 }

  /** `isalnum` in the "C" locale. */
  predicate IsAlnum(c: byte) { IsDigit(c) || IsUpper(c) || IsLower(c) }

  /** The octets of an ASCII string. */
  function Ascii(s: string): (r: seq<byte>)
    requires forall i :: 0 <= i < |s| ==> s[i] as int < 128
    ensures |r| == |s| && forall i :: 0 <= i < |s| ==> r[i] == s[i] as int
  {
    seq(|s|, i requires 0 <= i < |s| => s[i] as int)
  }

  function Pow2(n: nat): nat {
    if n == 0 then 1 else 2 * Pow2(n - 1)
  }

  /** Quotient and remainder are determined by the division equation. */
  lemma DivisionIs(x: int, d: int, q: int, r: int)
    requires 0 <= r < d && x == q * d + r
    ensures x / d == q && x % d == r
  {
    var k := x / d - q;
    assert k * d == r - x % d;
    MultipleIsFar(k, d);
  }

  lemma MultipleIsFar(k: int, d: int)
    requires d > 0
    ensures k > 0 ==> k * d >= d
    ensures k < 0 ==> k * d <= -d
  {
  }
}
