/** The byte-order independent loads and stores of include/mysql/my_byteorder.h and
    include/mysql/byte_order_generic.h: one little-endian value function, which every
    reader computes and every writer inverts. Machine widths are explicit. */
module ByteOrder {
  import opened Bytes

  // ---------- little-endian values ----------

  function Pow256(n: nat): (p: nat)
    ensures p > 0
  {
    if n == 0 then 1 else 256 * Pow256(n - 1)
  }

  lemma Powers()
    ensures Pow256(1) == 256 && Pow256(2) == 65536 && Pow256(3) == 16777216 && Pow256(4) == 4294967296
    ensures Pow256(5) == 1099511627776 && Pow256(6) == 281474976710656 && Pow256(8) == 18446744073709551616
  {
    assert Pow256(3) == 16777216;
    assert Pow256(5) == 1099511627776;
    assert Pow256(7) == 72057594037927936;
  }

  /** The value of an octet sequence, low octet first. */
  function LE(s: seq<byte>): nat {
    if s == [] then 0 else s[0] + 256 * LE(s[1..])
  }

  /** The n low octets of a number, low octet first. */
  function LEBytes(v: nat, n: nat): (s: seq<byte>)
    ensures |s| == n
  {
    if n == 0 then [] else [v % 256] + LEBytes(v / 256, n - 1)
  }

  lemma {:induction false} LEBound(s: seq<byte>)
    ensures LE(s) < Pow256(|s|)
  {
    if s != [] {
      LEBound(s[1..]);
    }
  }

  lemma {:induction false} LEConcat(s: seq<byte>, t: seq<byte>)
    ensures LE(s + t) == LE(s) + Pow256(|s|) * LE(t)
  {
    if s == [] {
      assert s + t == t;
    } else {
      assert (s + t)[1..] == s[1..] + t;
      LEConcat(s[1..], t);
      var p := Pow256(|s| - 1);
      assert LE(s + t) == s[0] + 256 * (LE(s[1..]) + p * LE(t));
      TimesAssociative(p, LE(t));
      assert Pow256(|s|) == 256 * p;
    }
  }

  lemma TimesAssociative(p: nat, x: nat)
    ensures 256 * (p * x) == (256 * p) * x
  {
  }

  /** Octets and numbers determine each other. */
  lemma {:induction false} BytesOfLE(s: seq<byte>)
    ensures LEBytes(LE(s), |s|) == s
  {
    if s != [] {
      BytesOfLE(s[1..]);
      assert LE(s) % 256 == s[0] && LE(s) / 256 == LE(s[1..]);
      assert s == [s[0]] + s[1..];
    }
  }

  lemma {:induction false} LEOfBytes(v: nat, n: nat)
    requires v < Pow256(n)
    ensures LE(LEBytes(v, n)) == v
  {
    if n > 0 {
      LEOfBytes(v / 256, n - 1);
      assert LEBytes(v, n)[1..] == LEBytes(v / 256, n - 1);
    }
  }

  /** A number shifted right by m octets. */
  function Above(v: nat, m: nat): nat {
    if m == 0 then v else Above(v / 256, m - 1)
  }

  /** Octet i of the value counts 256 to the power of i. */
  lemma {:induction false} OctetOfLE(s: seq<byte>, i: nat)
    requires i < |s|
    ensures Above(LE(s), i) % 256 == s[i]
  {
    assert LE(s) % 256 == s[0] && LE(s) / 256 == LE(s[1..]);
    if i > 0 {
      OctetOfLE(s[1..], i - 1);
    }
  }

  lemma {:induction false} LEBytesConcat(v: nat, m: nat, n: nat)
    ensures LEBytes(v, m + n) == LEBytes(v, m) + LEBytes(Above(v, m), n)
  {
    if m > 0 {
      LEBytesConcat(v / 256, m - 1, n);
    }
  }

  // ---------- machine words ----------

  function U16(x: int): nat { x % 0x1_0000 }

  function U32(x: int): nat { x % 0x1_0000_0000 }

  function U64(x: int): nat { x % 0x1_0000_0000_0000_0000 }

  function S16(x: int): int { (x + 0x8000) % 0x1_0000 - 0x8000 }

  function S32(x: int): int { (x + 0x8000_0000) % 0x1_0000_0000 - 0x8000_0000 }

  function S64(x: int): int { (x + 0x8000_0000_0000_0000) % 0x1_0000_0000_0000_0000 - 0x8000_0000_0000_0000 }

  /** Bitwise or. */
  function Or(x: nat, y: nat): nat {
    if x == 0 && y == 0 then 0
    else (if x % 2 == 1 || y % 2 == 1 then 1 else 0) + 2 * Or(x / 2, y / 2)
  }

  lemma {:induction false} OrZero(x: nat)
    ensures Or(x, 0) == x
  {
    if x > 0 {
      OrZero(x / 2);
    }
  }

  /** Or of numbers whose bits do not overlap is their sum. */
  lemma {:induction false} OrDisjoint(x: nat, y: nat, k: nat)
    requires y < Pow2(k)
    ensures Or(x * Pow2(k), y) == x * Pow2(k) + y
  {
    if k == 0 {
      OrZero(x);
    } else {
      var p := Pow2(k - 1);
      assert x * (2 * p) == 2 * (x * p);
      OrDisjoint(x, y / 2, k - 1);
    }
  }

  // ---------- readers ----------

  function Uint2Korr(A: seq<byte>): nat
    requires |A| >= 2
  {
    U16(A[0] as int + A[1] as int * 0x100)
  }

  function Uint3Korr(A: seq<byte>): nat
    requires |A| >= 3
  {
    U32(A[0] as int + A[1] as int * 0x100 + A[2] as int * 0x1_0000)
  }

  function Uint4Korr(A: seq<byte>): nat
    requires |A| >= 4
  {
    U32(A[0] as int + A[1] as int * 0x100 + A[2] as int * 0x1_0000 + A[3] as int * 0x100_0000)
  }

  function Uint5Korr(A: seq<byte>): nat
    requires |A| >= 5
  {
    U64(Uint4Korr(A) + A[4] as int * 0x1_0000_0000)
  }

  function Uint6Korr(A: seq<byte>): nat
    requires |A| >= 6
  {
    U64(Uint4Korr(A) + A[4] as int * 0x1_0000_0000 + A[5] as int * 0x100_0000_0000)
  }

  function Uint8Korr(A: seq<byte>): nat
    requires |A| >= 8
  {
    U64(Uint4Korr(A) + U64(Uint4Korr(A[4..]) * 0x1_0000_0000))
  }

  function Sint2Korr(A: seq<byte>): int
    requires |A| >= 2
  {
    S16(A[0] as int + A[1] as int * 0x100)
  }

  function Sint3Korr(A: seq<byte>): int
    requires |A| >= 3
  {
    if A[2] >= 128 then
      S32(Or(Or(Or(255 * 0x100_0000, A[2] as int * 0x1_0000), A[1] as int * 0x100), A[0]))
    else
      S32(Or(Or(A[2] as int * 0x1_0000, A[1] as int * 0x100), A[0]))
  }

  function Sint4Korr(A: seq<byte>): int
    requires |A| >= 4
  {
    S32(A[0] as int + A[1] as int * 0x100 + A[2] as int * 0x1_0000 + A[3] as int * 0x100_0000)
  }

  function Sint8Korr(A: seq<byte>): int
    requires |A| >= 8
  {
    S64(Uint8Korr(A))
  }

  // ---------- every reader computes the little-endian value ----------

  lemma LE2(A: seq<byte>)
    requires |A| >= 2
    ensures LE(A[..2]) == A[0] as int + A[1] as int * 0x100
  {
    assert A[..2][1..] == [A[1]];
    assert LE([A[1]]) == A[1] by { assert [A[1]][1..] == []; }
  }

  lemma LE3(A: seq<byte>)
    requires |A| >= 3
    ensures LE(A[..3]) == A[0] as int + A[1] as int * 0x100 + A[2] as int * 0x1_0000
  {
    LE2(A[1..]);
    assert A[..3][1..] == A[1..][..2];
  }

  lemma LE4(A: seq<byte>)
    requires |A| >= 4
    ensures LE(A[..4]) == A[0] as int + A[1] as int * 0x100 + A[2] as int * 0x1_0000 + A[3] as int * 0x100_0000
  {
    LE3(A[1..]);
    assert A[..4][1..] == A[1..][..3];
  }

  lemma Reads2(A: seq<byte>)
    requires |A| >= 2
    ensures Uint2Korr(A) == LE(A[..2])
    ensures Sint2Korr(A) == S16(LE(A[..2]))
  {
    LE2(A);
  }

  lemma Pow2Values()
    ensures Pow2(8) == 0x100 && Pow2(16) == 0x1_0000 && Pow2(24) == 0x100_0000
  {
    assert Pow2(4) == 16;
    assert Pow2(10) == 0x400;
    assert Pow2(13) == 0x2000;
    assert Pow2(19) == 0x8_0000;
    assert Pow2(22) == 0x40_0000;
  }

  lemma OrOfThree(a2: nat, a1: nat, a0: nat)
    requires a2 < 256 && a1 < 256 && a0 < 256
    ensures Or(Or(a2 * 0x1_0000, a1 * 0x100), a0) == a2 * 0x1_0000 + a1 * 0x100 + a0
  {
    Pow2Values();
    OrDisjoint(a2, a1 * 0x100, 16);
    OrDisjoint(a2 * 0x100 + a1, a0, 8);
  }

  lemma OrOfFour(a3: nat, a2: nat, a1: nat, a0: nat)
    requires a2 < 256 && a1 < 256 && a0 < 256
    ensures Or(Or(Or(a3 * 0x100_0000, a2 * 0x1_0000), a1 * 0x100), a0)
            == a3 * 0x100_0000 + a2 * 0x1_0000 + a1 * 0x100 + a0
  {
    Pow2Values();
    OrDisjoint(a3, a2 * 0x1_0000, 24);
    OrDisjoint(a3 * 0x100 + a2, a1 * 0x100, 16);
    OrDisjoint(a3 * 0x1_0000 + a2 * 0x100 + a1, a0, 8);
  }

  /** Sign extension from 24 bits, done with `|` in the source. */
  lemma Reads3(A: seq<byte>)
    requires |A| >= 3
    ensures Uint3Korr(A) == LE(A[..3])
    ensures Sint3Korr(A) == if LE(A[..3]) < 0x80_0000 then LE(A[..3]) else LE(A[..3]) - 0x100_0000
  {
    LE3(A);
    Narrow(LE(A[..3]));
    if A[2] >= 128 {
      OrOfFour(255, A[2], A[1], A[0]);
      assert LE(A[..3]) >= 0x80_0000;
    } else {
      OrOfThree(A[2], A[1], A[0]);
      assert LE(A[..3]) < 0x80_0000;
    }
  }

  lemma Narrow(v: int)
    requires 0 <= v < 0x100_0000
    ensures U32(v) == v == S32(v)
    ensures S32(255 * 0x100_0000 + v) == v - 0x100_0000
  {
    DivisionIs(v, 0x1_0000_0000, 0, v);
    DivisionIs(v + 0x8000_0000, 0x1_0000_0000, 0, v + 0x8000_0000);
    DivisionIs(255 * 0x100_0000 + v + 0x8000_0000, 0x1_0000_0000, 1, v + 0x7F00_0000);
  }

  lemma Reads4(A: seq<byte>)
    requires |A| >= 4
    ensures Uint4Korr(A) == LE(A[..4])
    ensures Sint4Korr(A) == S32(LE(A[..4]))
  {
    LE4(A);
  }

  lemma LE5(A: seq<byte>)
    requires |A| >= 5
    ensures LE(A[..5]) == LE(A[..4]) + A[4] as int * 0x1_0000_0000
  {
    assert [A[4]][1..] == [];
    LEConcat(A[..4], [A[4]]);
    assert A[..4] + [A[4]] == A[..5];
    Powers();
  }

  lemma Reads5(A: seq<byte>)
    requires |A| >= 5
    ensures Uint5Korr(A) == LE(A[..5])
  {
    Reads4(A);
    LE5(A);
    Powers();
    LEBound(A[..5]);
    DivisionIs(LE(A[..5]), 0x1_0000_0000_0000_0000, 0, LE(A[..5]));
  }

  lemma Reads6(A: seq<byte>)
    requires |A| >= 6
    ensures Uint6Korr(A) == LE(A[..6])
  {
    Reads4(A);
    LE2(A[4..]);
    LEConcat(A[..4], A[4..][..2]);
    assert A[..4] + A[4..][..2] == A[..6];
    Powers();
    LEBound(A[..6]);
    assert Uint4Korr(A) + A[4] as int * 0x1_0000_0000 + A[5] as int * 0x100_0000_0000 == LE(A[..6]);
    DivisionIs(LE(A[..6]), 0x1_0000_0000_0000_0000, 0, LE(A[..6]));
  }

  lemma LE8(A: seq<byte>)
    requires |A| >= 8
    ensures LE(A[..8]) == LE(A[..4]) + 0x1_0000_0000 * LE(A[4..][..4])
    ensures LE(A[..4]) < 0x1_0000_0000 && LE(A[4..][..4]) < 0x1_0000_0000
  {
    LEConcat(A[..4], A[4..][..4]);
    assert A[..4] + A[4..][..4] == A[..8];
    Powers();
    LEBound(A[..4]);
    LEBound(A[4..][..4]);
  }

  /** The two-half composition. */
  lemma Reads8(A: seq<byte>)
    requires |A| >= 8
    ensures Uint8Korr(A) == LE(A[..8])
    ensures Sint8Korr(A) == S64(LE(A[..8]))
  {
    Reads4(A);
    Reads4(A[4..]);
    LE8(A);
    TwoHalves(LE(A[..4]), LE(A[4..][..4]));
  }

  lemma TwoHalves(low: nat, high: nat)
    requires low < 0x1_0000_0000 && high < 0x1_0000_0000
    ensures U64(low + U64(high * 0x1_0000_0000)) == low + high * 0x1_0000_0000
  {
    var h := high * 0x1_0000_0000;
    DivisionIs(h, 0x1_0000_0000_0000_0000, 0, h);
    DivisionIs(low + h, 0x1_0000_0000_0000_0000, 0, low + h);
  }

  // ---------- writers ----------

  /** `now` is `was` with the n low octets of v written at t, and nothing else changed. */
  ghost predicate Stored(was: seq<byte>, now: seq<byte>, t: nat, v: nat, n: nat)
    requires t + n <= |was|
  {
    now == was[..t] + LEBytes(v, n) + was[t + n..]
  }

  lemma Bytes3(v: nat)
    ensures LEBytes(v, 1) == [v % 256]
    ensures LEBytes(v, 2) == [v % 256, v / 0x100 % 256]
    ensures LEBytes(v, 3) == [v % 256, v / 0x100 % 256, v / 0x1_0000 % 256]
  {
    var w := v / 256;
    assert v / 0x1_0000 == w / 256;
    assert LEBytes(w / 256, 1) == [w / 256 % 256] + LEBytes(w / 256 / 256, 0);
    assert LEBytes(w, 2) == [w % 256] + LEBytes(w / 256, 1);
    assert LEBytes(w, 1) == [w % 256] + LEBytes(w / 256, 0);
  }

  lemma Bytes6(v: nat)
    ensures LEBytes(v, 4) == LEBytes(v, 3) + [v / 0x100_0000 % 256]
    ensures LEBytes(v, 5) == LEBytes(v, 4) + [v / 0x1_0000_0000 % 256]
    ensures LEBytes(v, 6) == LEBytes(v, 5) + [v / 0x100_0000_0000 % 256]
    ensures LEBytes(v, 8) == LEBytes(v, 4) + LEBytes(v / 0x1_0000_0000, 4)
  {
    AboveIs(v);
    LEBytesConcat(v, 3, 1);
    LEBytesConcat(v, 4, 1);
    LEBytesConcat(v, 5, 1);
    LEBytesConcat(v, 4, 4);
    Bytes3(v / 0x100_0000);
    Bytes3(v / 0x1_0000_0000);
    Bytes3(v / 0x100_0000_0000);
  }

  lemma AboveIs(v: nat)
    ensures Above(v, 3) == v / 0x100_0000
    ensures Above(v, 4) == v / 0x1_0000_0000
    ensures Above(v, 5) == v / 0x100_0000_0000
  {
    var a := v / 256;
    var b := a / 256;
    var c := b / 256;
    var d := c / 256;
    assert v / 0x1_0000 == b;
    assert v / 0x100_0000 == c;
    assert v / 0x1_0000_0000 == d;
    assert v / 0x100_0000_0000 == d / 256;
    assert Above(v, 3) == Above(a, 2) == Above(b, 1) == Above(c, 0) == c;
    assert Above(v, 4) == Above(a, 3) == Above(b, 2) == Above(c, 1) == Above(d, 0);
    assert Above(v, 5) == Above(a, 4) == Above(b, 3) == Above(c, 2) == Above(d, 1) == Above(d / 256, 0);
  }

  method Int2Store(buf: array<byte>, T: nat, A: nat)
    requires T + 2 <= buf.Length && A < 0x1_0000
    modifies buf
    ensures Stored(old(buf[..]), buf[..], T, A, 2)
  {
    Bytes3(A);
    buf[T] := A % 256;
    buf[T + 1] := A / 0x100 % 256;
  }

  method Int3Store(buf: array<byte>, T: nat, A: nat)
    requires T + 3 <= buf.Length && A < 0x1_0000_0000
    modifies buf
    ensures Stored(old(buf[..]), buf[..], T, A, 3)
  {
    Bytes3(A);
    buf[T] := A % 256;
    buf[T + 1] := A / 0x100 % 256;
    buf[T + 2] := A / 0x1_0000 % 256;
  }

  method Int4Store(buf: array<byte>, T: nat, A: nat)
    requires T + 4 <= buf.Length && A < 0x1_0000_0000
    modifies buf
    ensures Stored(old(buf[..]), buf[..], T, A, 4)
  {
    Bytes3(A);
    Bytes6(A);
    buf[T] := A % 256;
    buf[T + 1] := A / 0x100 % 256;
    buf[T + 2] := A / 0x1_0000 % 256;
    buf[T + 3] := A / 0x100_0000 % 256;
  }

  method Int5Store(buf: array<byte>, T: nat, A: nat)
    requires T + 5 <= buf.Length && A < 0x1_0000_0000_0000_0000
    modifies buf
    ensures Stored(old(buf[..]), buf[..], T, A, 5)
  {
    Bytes3(A);
    Bytes6(A);
    buf[T] := A % 256;
    buf[T + 1] := A / 0x100 % 256;
    buf[T + 2] := A / 0x1_0000 % 256;
    buf[T + 3] := A / 0x100_0000 % 256;
    buf[T + 4] := A / 0x1_0000_0000 % 256;
  }

  method Int6Store(buf: array<byte>, T: nat, A: nat)
    requires T + 6 <= buf.Length && A < 0x1_0000_0000_0000_0000
    modifies buf
    ensures Stored(old(buf[..]), buf[..], T, A, 6)
  {
    Bytes3(A);
    Bytes6(A);
    buf[T] := A % 256;
    buf[T + 1] := A / 0x100 % 256;
    buf[T + 2] := A / 0x1_0000 % 256;
    buf[T + 3] := A / 0x100_0000 % 256;
    buf[T + 4] := A / 0x1_0000_0000 % 256;
    buf[T + 5] := A / 0x100_0000_0000 % 256;
  }

  /** Two stores of 32 bits. */
  method Int8Store(buf: array<byte>, T: nat, A: nat)
    requires T + 8 <= buf.Length && A < 0x1_0000_0000_0000_0000
    modifies buf
    ensures Stored(old(buf[..]), buf[..], T, A, 8)
  {
    var defTemp := U32(A);
    var defTemp2 := U32(A / 0x1_0000_0000);
    Int4Store(buf, T, defTemp);
    ghost var mid := buf[..];
    Int4Store(buf, T + 4, defTemp2);
    Halves(A);
    TwoStores(old(buf[..]), mid, buf[..], T, LEBytes(defTemp, 4), LEBytes(defTemp2, 4));
  }

  lemma TwoStores(was: seq<byte>, mid: seq<byte>, now: seq<byte>, t: nat, x: seq<byte>, y: seq<byte>)
    requires t + 8 <= |was| && |x| == |y| == 4
    requires mid == was[..t] + x + was[t + 4..]
    requires now == mid[..t + 4] + y + mid[t + 8..]
    ensures now == was[..t] + (x + y) + was[t + 8..]
  {
    assert mid[..t + 4] == was[..t] + x;
    assert mid[t + 8..] == was[t + 8..];
  }

  lemma Halves(v: nat)
    requires v < 0x1_0000_0000_0000_0000
    ensures LEBytes(v, 8) == LEBytes(U32(v), 4) + LEBytes(U32(v / 0x1_0000_0000), 4)
  {
    Bytes6(v);
    LowHalf(v);
    var high := v / 0x1_0000_0000;
    assert high < 0x1_0000_0000;
    DivisionIs(high, 0x1_0000_0000, 0, high);
  }

  /** Multiples of 256^n do not reach the n low octets. */
  lemma {:induction false} LEBytesAddMultiple(v: nat, k: nat, n: nat)
    ensures LEBytes(v + k * Pow256(n), n) == LEBytes(v, n)
  {
    if n > 0 {
      var m := k * Pow256(n - 1);
      TimesAssociative'(k, Pow256(n - 1));
      assert v + k * Pow256(n) == v + 256 * m;
      DivisionIs(v + 256 * m, 256, v / 256 + m, v % 256);
      LEBytesAddMultiple(v / 256, k, n - 1);
    }
  }

  lemma TimesAssociative'(k: nat, p: nat)
    ensures k * (256 * p) == 256 * (k * p)
  {
  }

  lemma LowHalf(v: nat)
    ensures LEBytes(U32(v), 4) == LEBytes(v, 4)
  {
    Powers();
    LEBytesAddMultiple(U32(v), v / 0x1_0000_0000, 4);
  }

  // ---------- writing and reading back ----------

  /** What was stored is read back by the reader of the same width, for every value
      of the width; the readers in the source look at the target address. */
  lemma StoreThenRead(was: seq<byte>, now: seq<byte>, t: nat, v: nat, n: nat)
    requires t + n <= |was| && Stored(was, now, t, v, n)
    ensures |now| == |was|
    ensures n == 2 && v < Pow256(2) ==> Uint2Korr(now[t..]) == v
    ensures n == 3 && v < Pow256(3) ==> Uint3Korr(now[t..]) == v
    ensures n == 4 && v < Pow256(4) ==> Uint4Korr(now[t..]) == v
    ensures n == 5 && v < Pow256(5) ==> Uint5Korr(now[t..]) == v
    ensures n == 6 && v < Pow256(6) ==> Uint6Korr(now[t..]) == v
    ensures n == 8 && v < Pow256(8) ==> Uint8Korr(now[t..]) == v
  {
    var A := now[t..];
    assert A[..n] == LEBytes(v, n);
    if v < Pow256(n) {
      LEOfBytes(v, n);
      if n == 2 { Reads2(A); }
      if n == 3 { Reads3(A); }
      if n == 4 { Reads4(A); }
      if n == 5 { Reads5(A); }
      if n == 6 { Reads6(A); }
      if n == 8 { Reads8(A); }
    }
  }

  /** Negative numbers come back through the signed readers: the store truncates the
      two's complement word, the reader extends its sign. */
  lemma StoreThenReadSigned(was: seq<byte>, now: seq<byte>, t: nat, x: int, n: nat)
    requires t + n <= |was|
    requires n == 2 || n == 3 || n == 4 || n == 8
    requires Stored(was, now, t, if n == 2 then U16(x) else if n == 8 then U64(x) else U32(x), n)
    ensures |now| == |was|
    ensures n == 2 && -0x8000 <= x < 0x8000 ==> Sint2Korr(now[t..]) == x
    ensures n == 3 && -0x80_0000 <= x < 0x80_0000 ==> Sint3Korr(now[t..]) == x
    ensures n == 4 && -0x8000_0000 <= x < 0x8000_0000 ==> Sint4Korr(now[t..]) == x
    ensures n == 8 && -0x8000_0000_0000_0000 <= x < 0x8000_0000_0000_0000 ==> Sint8Korr(now[t..]) == x
  {
    var A := now[t..];
    if n == 2 {
      assert A[..2] == LEBytes(U16(x), 2);
      Signed2(A, x);
    } else if n == 3 {
      assert A[..3] == LEBytes(U32(x), 3);
      Signed3(A, x);
    } else if n == 4 {
      assert A[..4] == LEBytes(U32(x), 4);
      Signed4(A, x);
    } else {
      assert A[..8] == LEBytes(U64(x), 8);
      Signed8(A, x);
    }
  }

  lemma Signed2(A: seq<byte>, x: int)
    requires |A| >= 2 && A[..2] == LEBytes(U16(x), 2)
    ensures -0x8000 <= x < 0x8000 ==> Sint2Korr(A) == x
  {
    Powers();
    LEOfBytes(U16(x), 2);
    Reads2(A);
    if -0x8000 <= x < 0x8000 {
      Signed16(x);
    }
  }

  lemma Signed3(A: seq<byte>, x: int)
    requires |A| >= 3 && A[..3] == LEBytes(U32(x), 3)
    ensures -0x80_0000 <= x < 0x80_0000 ==> Sint3Korr(A) == x
  {
    if -0x80_0000 <= x < 0x80_0000 {
      Powers();
      var low, k := if x < 0 then x + 0x100_0000 else x, if x < 0 then 255 else 0;
      DivisionIs(x, 0x1_0000_0000, if x < 0 then -1 else 0, low + k * 0x100_0000);
      LEBytesAddMultiple(low, k, 3);
      LEOfBytes(low, 3);
      Reads3(A);
    }
  }

  lemma Signed4(A: seq<byte>, x: int)
    requires |A| >= 4 && A[..4] == LEBytes(U32(x), 4)
    ensures -0x8000_0000 <= x < 0x8000_0000 ==> Sint4Korr(A) == x
  {
    Powers();
    LEOfBytes(U32(x), 4);
    Reads4(A);
    if -0x8000_0000 <= x < 0x8000_0000 {
      Signed32(x);
    }
  }

  lemma Signed8(A: seq<byte>, x: int)
    requires |A| >= 8 && A[..8] == LEBytes(U64(x), 8)
    ensures -0x8000_0000_0000_0000 <= x < 0x8000_0000_0000_0000 ==> Sint8Korr(A) == x
  {
    Powers();
    LEOfBytes(U64(x), 8);
    Reads8(A);
    if -0x8000_0000_0000_0000 <= x < 0x8000_0000_0000_0000 {
      Signed64(x);
    }
  }

  lemma Signed16(x: int)
    ensures -0x8000 <= x < 0x8000 ==> S16(U16(x)) == x
  {
    if -0x8000 <= x < 0x8000 { WrapAround(x, 0x8000); }
  }

  lemma Signed32(x: int)
    ensures -0x8000_0000 <= x < 0x8000_0000 ==> S32(U32(x)) == x
  {
    if -0x8000_0000 <= x < 0x8000_0000 { WrapAround(x, 0x8000_0000); }
  }

  lemma Signed64(x: int)
    ensures -0x8000_0000_0000_0000 <= x < 0x8000_0000_0000_0000 ==> S64(U64(x)) == x
  {
    if -0x8000_0000_0000_0000 <= x < 0x8000_0000_0000_0000 { WrapAround(x, 0x8000_0000_0000_0000); }
  }

  lemma WrapAround(x: int, half: int)
    requires half > 0 && -half <= x < half
    ensures (x % (2 * half) + half) % (2 * half) - half == x
  {
    var q := if x < 0 then 1 else 0;
    DivisionIs(x, 2 * half, -q, x + q * (2 * half));
    DivisionIs(x + q * (2 * half) + half, 2 * half, q, x + half);
  }
}
