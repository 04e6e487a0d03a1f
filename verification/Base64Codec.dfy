/** The encoding loop of include/HttpUtility.hpp, lines 26-52, proved against the
    definition of the standard in `Base64`. Masks and shifts are written as remainders and
    quotients by powers of two, which is what they are on two's complement words. */
module Base64Codec {
  import opened Bytes
  import opened Base64

  // ---------- 32-bit arithmetic ----------

  /** The value of a 32-bit `int` after wrap-around. */
  function Int32(x: int): int {
    (x + 0x8000_0000) % 0x1_0000_0000 - 0x8000_0000
  }

  /** `x >> n` on a signed word. */
  function Shr(x: int, n: nat): int
    decreases n
  {
    if n == 0 then x else Shr(x / 2, n - 1)
  }

  lemma ShrTwo(x: int, n: nat)
    requires n >= 2
    ensures Shr(x, n) == Shr(x / 4, n - 2)
  {
    assert Shr(x, n) == Shr(x / 2, n - 1) == Shr(x / 2 / 2, n - 2);
  }

  lemma ShrEven(x: int)
    ensures Shr(x, 2) == x / 4
    ensures Shr(x, 4) == x / 16
    ensures Shr(x, 6) == x / 64
  {
    ShrTwo(x, 2);
    ShrTwo(x, 4);
    ShrTwo(x / 4, 4);
    ShrTwo(x, 6);
    assert x / 4 / 4 == x / 16 && x / 16 / 4 == x / 64;
  }

  lemma DropMultiple(x: int, k: int)
    ensures (x + k * 16777216) % 16777216 == x % 16777216
  {
  }

  lemma Int32LowBits(x: int)
    ensures Int32(x) % 16777216 == x % 16777216
  {
    var q := (x + 0x8000_0000) / 0x1_0000_0000;
    assert Int32(x) == x - q * 0x1_0000_0000;
    DropMultiple(x, -256 * q);
  }

  // ---------- encoder ----------

  /** The octets of a group that has begun, as the low bits of `val` hold them. */
  function Packed(t: seq<byte>): nat
    requires |t| <= 3
  {
    if |t| == 0 then 0
    else if |t| == 1 then t[0]
    else if |t| == 2 then t[0] * 256 + t[1]
    else Word(t[0], t[1], t[2])
  }

  /** The same octets filled up with zero bits to a group of 24. */
  function Filled(t: seq<byte>): nat
    requires |t| <= 3
  {
    Word(if |t| > 0 then t[0] else 0, if |t| > 1 then t[1] else 0, if |t| > 2 then t[2] else 0)
  }

  /** `val` ends in the bits of the group that has begun; what is above is left over
      from earlier groups. */
  predicate Holds(val: int, t: seq<byte>) {
    |t| <= 3 &&
    if |t| == 0 then true
    else if |t| == 1 then val % 256 == Packed(t)
    else if |t| == 2 then val % 65536 == Packed(t)
    else val % 16777216 == Packed(t)
  }

  lemma ShiftIn(val: int, t: seq<byte>, c: byte)
    requires |t| <= 2 && Holds(val, t)
    ensures Holds(Int32(Int32(val * 256) + c), t + [c])
  {
    var v := Int32(Int32(val * 256) + c);
    ShiftInLowBits(val, c);
    LowBits(v, val * 256 + c);
    ShiftDigits(val, c);
  }

  lemma ShiftDigits(x: int, c: byte)
    ensures (x * 256 + c) % 256 == c
    ensures (x * 256 + c) % 65536 == x % 256 * 256 + c
    ensures (x * 256 + c) % 16777216 == x % 65536 * 256 + c
  {
    DivisionIs(x * 256 + c, 256, x, c);
    DivisionIs(x * 256 + c, 65536, x / 256, x % 256 * 256 + c);
    DivisionIs(x * 256 + c, 16777216, x / 65536, x % 65536 * 256 + c);
  }

  lemma ShiftInLowBits(val: int, c: byte)
    ensures Int32(Int32(val * 256) + c) % 16777216 == (val * 256 + c) % 16777216
  {
    var x := Int32(val * 256);
    Int32LowBits(val * 256);
    Int32LowBits(x + c);
    var k := x / 16777216 - val * 256 / 16777216;
    assert x == val * 256 + k * 16777216;
    DropMultiple(val * 256 + c, k);
  }

  lemma RemainderOfRemainder(x: int)
    ensures x % 65536 == x % 16777216 % 65536
    ensures x % 256 == x % 65536 % 256
  {
    var q, r := x / 16777216, x % 16777216;
    DivisionIs(x, 65536, q * 256 + r / 65536, r % 65536);
    var q', r' := x / 65536, x % 65536;
    DivisionIs(x, 256, q' * 256 + r' / 256, r' % 256);
  }

  lemma LowBits(x: int, y: int)
    requires x % 16777216 == y % 16777216
    ensures x % 65536 == y % 65536 && x % 256 == y % 256
  {
    RemainderOfRemainder(x);
    RemainderOfRemainder(y);
  }

  /** Dividing a number divides its low part when the divisor divides the modulus. */
  lemma Quotient4(x: int)
    ensures x / 4 % 64 == x % 256 / 4
  {
    var q, low := x / 256, x % 256;
    assert x == q * 256 + low;
    assert x / 4 == q * 64 + low / 4;
  }

  lemma Quotient16(x: int)
    ensures x / 16 % 64 == x % 65536 / 16 % 64
  {
    var q, low := x / 65536, x % 65536;
    assert x == q * 65536 + low;
    assert x / 16 == (q * 64) * 64 + low / 16;
  }

  lemma Quotient64(x: int)
    ensures x / 64 % 64 == x % 16777216 / 64 % 64
  {
    var q, low := x / 16777216, x % 16777216;
    assert x == q * 16777216 + low;
    assert x / 64 == (q * 4096) * 64 + low / 64;
  }

  /** The character pushed inside the inner loop. */
  lemma EmitInside(val: int, t: seq<byte>, n: nat)
    requires 1 <= |t| <= 3 && Holds(val, t)
    requires n == |t| - 1 || n == |t| == 3
    ensures Shr(val, 8 * |t| - 6 * (n + 1)) % 64 == SextetAt(Filled(t), n)
  {
    ShrEven(val);
    if |t| == 1 {
      Quotient4(val);
      WordSextets(t[0], 0, 0);
    } else if |t| == 2 {
      Quotient16(val);
      WordSextets(t[0], t[1], 0);
    } else {
      WordSextets(t[0], t[1], t[2]);
      if n == 2 {
        Quotient64(val);
      } else {
        LastSextet(val, t[0], t[1], t[2]);
      }
    }
  }

  /** The character pushed after the loop for a group cut short. */
  lemma EmitLast(val: int, t: seq<byte>)
    requires 1 <= |t| <= 2 && Holds(val, t)
    ensures Shr(Int32(val * 256), 2 + 2 * |t|) % 64 == SextetAt(Filled(t), |t|)
  {
    var x := Int32(val * 256);
    ShiftIn(val, t, 0);
    assert Int32(Int32(val * 256) + 0) == Int32(val * 256);
    ShrEven(x);
    if |t| == 1 {
      Quotient16(x);
      WordSextets(t[0], 0, 0);
    } else {
      Quotient64(x);
      WordSextets(t[0], t[1], 0);
    }
  }

  lemma LastSextet(x: int, a: byte, b: byte, c: byte)
    requires x % 16777216 == Word(a, b, c)
    ensures x % 64 == c % 64
  {
    var q := x / 16777216;
    assert x == (q * 262144 + a * 1024 + b * 4) * 64 + c;
  }

  /** A group's first letters do not depend on octets still to come. */
  lemma LettersSoFar(t: seq<byte>, c: byte)
    requires |t| <= 2
    ensures GroupLetters(Filled(t + [c]))[..|t|] == GroupLetters(Filled(t))[..|t|]
  {
    if |t| == 1 {
      WordSextets(t[0], 0, 0);
      WordSextets(t[0], c, 0);
    } else if |t| == 2 {
      WordSextets(t[0], t[1], 0);
      WordSextets(t[0], t[1], c);
    }
  }

  lemma {:induction false} EncodeAppend(x: seq<byte>, t: seq<byte>)
    requires |x| % 3 == 0
    ensures Encode(x + t) == Encode(x) + Encode(t)
  {
    if x == [] {
      assert x + t == t;
    } else {
      assert (x + t)[3..] == x[3..] + t;
      EncodeAppend(x[3..], t);
    }
  }

  function Pads(n: nat): (r: seq<byte>)
    ensures |r| == n
  {
    seq(n, _ => EQUALS)
  }

  lemma EncodeTail(x: seq<byte>, t: seq<byte>)
    requires |x| % 3 == 0 && 1 <= |t| <= 3
    ensures Encode(x + t) == Encode(x) + (GroupLetters(Filled(t))[..|t| + 1] + Pads(3 - |t|))
  {
    EncodeAppend(x, t);
    assert Pads(0) == [] && Pads(1) == [EQUALS] && Pads(2) == [EQUALS, EQUALS];
    if |t| == 3 {
      assert t[3..] == [];
    }
  }

  /** The inner loop, lines 39-42: pushes every complete sextet of the bits held. */
  method PushSextets(sofar: seq<byte>, val: int, bits: int, ghost t: seq<byte>)
    returns (out: seq<byte>, valb: int)
    requires 1 <= |t| <= 3 && Holds(val, t) && bits == 2 * |t|
    ensures valb == if |t| == 3 then -6 else 2 * |t| - 6
    ensures out == sofar + GroupLetters(Filled(t))[|t| - 1..if |t| == 3 then 4 else |t|]
  {
    ghost var g := GroupLetters(Filled(t));
    ghost var n := |t| - 1;
    out, valb := sofar, bits;
    while valb >= 0
      invariant |t| - 1 <= n <= |t| || n == |t| + 1 == 4
      invariant valb == 8 * |t| - 6 * (n + 1)
      invariant out == sofar + g[|t| - 1..n]
      decreases valb
    {
      EmitInside(val, t, n);
      LetterIsAlphabet(Shr(val, valb) % 64);
      out := out + [ALPHABET[Shr(val, valb) % 64]];
      valb := valb - 6;
      n := n + 1;
      assert g[|t| - 1..n] == g[|t| - 1..n - 1] + [g[n - 1]];
    }
  }

  /** The last loop, lines 47-49. */
  method Pad(sofar: seq<byte>) returns (out: seq<byte>)
    ensures out == sofar + Pads((4 - |sofar| % 4) % 4)
  {
    out := sofar;
    ghost var n := 0;
    while |out| % 4 != 0
      invariant n <= (4 - |sofar| % 4) % 4 && out == sofar + Pads(n)
      decreases 4 - n
    {
      out := out + [EQUALS];
      n := n + 1;
    }
  }

  /** Lines 26-52. `val` is a 32-bit word that is shifted and never masked. The
      ghosts are the whole groups read and the octets of the group that has begun. */
  method Base64Encode(data: seq<byte>) returns (out: seq<byte>)
    ensures out == Encode(data)
  {
    out := [];
    var val := 0;
    var valb := -6;
    ghost var base: seq<byte>, t: seq<byte> := [], [];
    for k := 0 to |data|
      invariant |t| <= 2 && |base| % 3 == 0 && data[..k] == base + t
      invariant valb == -6 + 2 * |t| && Holds(val, t)
      invariant out == Encode(base) + GroupLetters(Filled(t))[..|t|]
    {
      var c := data[k];
      LettersSoFar(t, c);
      ShiftIn(val, t, c);
      val := Int32(Int32(val * 256) + c);
      valb := valb + 8;
      out, valb := PushSextets(out, val, valb, t + [c]);
      base, t := NextGroup(base, t, c);
    }
    assert data[..|data|] == data;
    if valb > -6 {
      EmitLast(val, t);
      LetterIsAlphabet(Shr(Int32(val * 256), valb + 8) % 64);
      out := out + [ALPHABET[Shr(Int32(val * 256), valb + 8) % 64]];
    }
    PaddedIsEncoded(base, t, out);
    out := Pad(out);
  }

  /** A full group joins the groups that are done. */
  ghost method NextGroup(base: seq<byte>, t: seq<byte>, c: byte) returns (base': seq<byte>, t': seq<byte>)
    requires |t| <= 2 && |base| % 3 == 0
    ensures |t'| <= 2 && |base'| % 3 == 0 && base' + t' == base + t + [c]
    ensures t' == if |t| == 2 then [] else t + [c]
    ensures Encode(base') + GroupLetters(Filled(t'))[..|t'|]
            == Encode(base) + GroupLetters(Filled(t + [c]))[..if |t| == 2 then 4 else |t| + 1]
  {
    if |t| == 2 {
      base', t' := base + (t + [c]), [];
      EncodeTail(base, t + [c]);
    } else {
      base', t' := base, t + [c];
    }
  }

  lemma PaddedIsEncoded(base: seq<byte>, t: seq<byte>, unpadded: seq<byte>)
    requires |t| <= 2 && |base| % 3 == 0
    requires unpadded == Encode(base) + GroupLetters(Filled(t))[..if t == [] then 0 else |t| + 1]
    ensures unpadded + Pads((4 - |unpadded| % 4) % 4) == Encode(base + t)
  {
    EncodeLengthMod4(base);
    if t == [] {
      assert base + t == base;
      assert unpadded == Encode(base);
      assert Pads(0) == [];
    } else {
      EncodeTail(base, t);
      EncodedShape(Encode(base), GroupLetters(Filled(t))[..|t| + 1], |t|, unpadded);
    }
  }

  lemma EncodedShape(done: seq<byte>, letters: seq<byte>, n: nat, unpadded: seq<byte>)
    requires 1 <= n <= 2 && |done| % 4 == 0 && |letters| == n + 1 && unpadded == done + letters
    ensures unpadded + Pads((4 - |unpadded| % 4) % 4) == done + (letters + Pads(3 - n))
  {
    PadCount(|done|, n, |unpadded|);
  }

  lemma PadCount(done: nat, n: nat, len: nat)
    requires done % 4 == 0 && 1 <= n <= 2 && len == done + n + 1
    ensures (4 - len % 4) % 4 == 3 - n
  {
  }
}
