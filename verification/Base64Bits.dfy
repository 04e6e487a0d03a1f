/** Base64 once more, as a stream of bits: the octets are written as eight bits each,
    high bit first, the characters as the six bits of their positions in the table of
    RFC 4648. Encoding and decoding are exactly what keeps this stream. */
module Base64Bits {
  import opened Bytes
  import opened Sequences
  import opened Base64

  // ---------- the table ----------

  const UPPER: seq<byte> := Ascii("ABCDEFGHIJKLMNOPQRSTUVWXYZ")
  const LOWER: seq<byte> := Ascii("abcdefghijklmnopqrstuvwxyz")
  const OTHERS: seq<byte> := Ascii("0123456789+/")

  /** Table 1 of RFC 4648, lines 7-10 of the source. */
  const TABLE: seq<byte> := UPPER + LOWER + OTHERS

  lemma UpperCodes(v: nat)
    requires v < 26
    ensures |UPPER| == 26 && UPPER[v] == 65 + v
  {
  }

  lemma LowerCodes(v: nat)
    requires v < 26
    ensures |LOWER| == 26 && LOWER[v] == 97 + v
  {
  }

  lemma OtherCodes(v: nat)
    requires v < 12
    ensures |OTHERS| == 12 && OTHERS[v] == if v < 10 then 48 + v else if v == 10 then PLUS else SLASH
  {
  }

  lemma TableIs(v: sextet)
    ensures |TABLE| == 64 && TABLE[v] == ALPHABET[v] == Letter(v)
    ensures IsBase64(TABLE[v]) && Value(TABLE[v]) == v
  {
    UpperCodes(if v < 26 then v else 0);
    LowerCodes(if 26 <= v < 52 then v - 26 else 0);
    OtherCodes(if 52 <= v then v - 52 else 0);
    LetterIsAlphabet(v);
    LetterValue(v);
  }

  /** The alphabet is the table, and the value of a character its position there. */
  lemma ValueIsPosition(c: byte)
    ensures IsBase64(c) <==> c in TABLE
    ensures IsBase64(c) ==> IndexOf(TABLE, c) == Value(c)
  {
    if IsBase64(c) {
      ValueLetter(c);
      TableIs(Value(c));
      forall i | 0 <= i < Value(c) ensures TABLE[i] != c {
        TableIs(i);
      }
    }
    if c in TABLE {
      var i :| 0 <= i < |TABLE| && TABLE[i] == c;
      TableIs(i);
    }
  }

  // ---------- bits ----------

  /** The n low bits of a number, high bit first. */
  function Bits(x: nat, n: nat): (b: seq<nat>)
    ensures |b| == n
  {
    if n == 0 then [] else Bits(x / 2, n - 1) + [x % 2]
  }

  /** The bits of sextets or of octets. */
  function AllBits(v: seq<nat>, n: nat): (b: seq<nat>)
    requires n == 6 || n == 8
    ensures |b| == if n == 6 then 6 * |v| else 8 * |v|
  {
    if v == [] then [] else Bits(v[0], n) + AllBits(v[1..], n)
  }

  function Zeros(n: nat): (b: seq<nat>)
    ensures |b| == n
  {
    seq(n, _ => 0)
  }

  lemma {:induction false} BitsOfZero(n: nat)
    ensures Bits(0, n) == Zeros(n)
  {
    if n > 0 {
      BitsOfZero(n - 1);
    }
  }

  lemma {:induction false} BitsConcat(a: nat, b: nat, n: nat, m: nat)
    requires b < Pow2(m)
    ensures Bits(a * Pow2(m) + b, n + m) == Bits(a, n) + Bits(b, m)
  {
    if m > 0 {
      var x, p := a * Pow2(m) + b, Pow2(m - 1);
      assert a * (2 * p) == 2 * (a * p);
      assert x / 2 == a * p + b / 2 && x % 2 == b % 2;
      BitsConcat(a, b / 2, n, m - 1);
      assert Bits(x, n + m) == Bits(x / 2, n + m - 1) + [x % 2];
    }
  }

  lemma {:induction false} BitsInjective(a: nat, b: nat, n: nat)
    requires a < Pow2(n) && b < Pow2(n) && Bits(a, n) == Bits(b, n)
    ensures a == b
  {
    if n > 0 {
      assert Bits(a, n)[n - 1] == a % 2 && Bits(b, n)[n - 1] == b % 2;
      assert Bits(a, n)[..n - 1] == Bits(a / 2, n - 1) && Bits(b, n)[..n - 1] == Bits(b / 2, n - 1);
      BitsInjective(a / 2, b / 2, n - 1);
    }
  }

  lemma {:induction false} AllBitsInjective(v: seq<nat>, w: seq<nat>, n: nat)
    requires (n == 6 || n == 8) && |v| == |w| && AllBits(v, n) == AllBits(w, n)
    requires forall i :: 0 <= i < |v| ==> v[i] < Pow2(n) && w[i] < Pow2(n)
    ensures v == w
  {
    if v != [] {
      assert AllBits(v, n)[..n] == Bits(v[0], n) && AllBits(w, n)[..n] == Bits(w[0], n);
      assert AllBits(v, n)[n..] == AllBits(v[1..], n) && AllBits(w, n)[n..] == AllBits(w[1..], n);
      BitsInjective(v[0], w[0], n);
      AllBitsInjective(v[1..], w[1..], n);
      assert v == [v[0]] + v[1..] && w == [w[0]] + w[1..];
    }
  }

  lemma {:induction false} AllBitsConcat(v: seq<nat>, w: seq<nat>, n: nat)
    requires n == 6 || n == 8
    ensures AllBits(v + w, n) == AllBits(v, n) + AllBits(w, n)
  {
    if v == [] {
      assert v + w == w;
    } else {
      assert (v + w)[1..] == v[1..] + w;
      AllBitsConcat(v[1..], w, n);
    }
  }

  lemma PowersOfTwo()
    ensures Pow2(6) == 64 && Pow2(8) == 256 && Pow2(12) == 4096
  {
    assert Pow2(3) == 8;
    assert Pow2(6) == 64;
    assert Pow2(9) == 512;
  }

  lemma {:induction false} AppendSextet(a: nat, b: sextet, n: nat)
    ensures Bits(a * 64 + b, n + 6) == Bits(a, n) + Bits(b, 6)
  {
    PowersOfTwo();
    BitsConcat(a, b, n, 6);
  }

  lemma {:induction false} AppendOctet(a: nat, b: byte, n: nat)
    ensures Bits(a * 256 + b, n + 8) == Bits(a, n) + Bits(b, 8)
  {
    PowersOfTwo();
    BitsConcat(a, b, n, 8);
  }

  lemma BitsOfThree(a: nat, b: nat, c: nat, n: nat)
    requires n == 6 || n == 8
    ensures AllBits([a, b, c], n) == Bits(a, n) + Bits(b, n) + Bits(c, n)
  {
    assert [a, b, c][1..] == [b, c] && [b, c][1..] == [c] && [c][1..] == [];
    assert AllBits([c], n) == Bits(c, n);
  }

  lemma {:induction false} WordBits(a: byte, b: byte, c: byte)
    ensures Bits(Word(a, b, c), 24) == AllBits([a, b, c], 8)
  {
    AppendOctet(a, b, 8);
    AppendOctet(a * 256 + b, c, 16);
    BitsOfThree(a, b, c, 8);
  }

  lemma {:induction false} PairBits(a: sextet, b: sextet)
    ensures Bits(a * 64 + b, 12) == AllBits([a, b], 6)
  {
    AppendSextet(a, b, 6);
    assert [a, b][1..] == [b] && [b][1..] == [];
    assert AllBits([b], 6) == Bits(b, 6);
  }

  lemma {:induction false} Word4Bits(a: sextet, b: sextet, c: sextet, d: sextet)
    ensures Bits(Word4(a, b, c, d), 24) == AllBits([a, b, c, d], 6)
  {
    PairBits(a, b);
    PairBits(c, d);
    AllBitsConcat([a, b], [c, d], 6);
    assert [a, b] + [c, d] == [a, b, c, d];
    HalvesBits(a * 64 + b, c * 64 + d);
    assert Word4(a, b, c, d) == (a * 64 + b) * 4096 + (c * 64 + d);
  }

  lemma HalvesBits(a: nat, b: nat)
    requires b < 4096
    ensures Bits(a * 4096 + b, 24) == Bits(a, 12) + Bits(b, 12)
  {
    PowersOfTwo();
    BitsConcat(a, b, 12, 12);
  }

  // ---------- decoding ----------

  /** Four sextets and their three octets are the same bits. */
  lemma GroupBits(a: sextet, b: sextet, c: sextet, d: sextet)
    ensures AllBits(Octets(Word4(a, b, c, d)), 8) == AllBits([a, b, c, d], 6)
  {
    var w := Word4(a, b, c, d);
    var o := Octets(w);
    SextetsOfWord4(a, b, c, d);
    WordOfOctets(w);
    WordBits(o[0], o[1], o[2]);
    assert o == [o[0], o[1], o[2]];
    Word4Bits(a, b, c, d);
  }

  lemma AllBitsPrefix(v: seq<nat>, k: nat)
    requires k <= |v|
    ensures AllBits(v[..k], 6) == AllBits(v, 6)[..6 * k]
    ensures AllBits(v[..k], 8) == AllBits(v, 8)[..8 * k]
  {
    assert v == v[..k] + v[k..];
    AllBitsConcat(v[..k], v[k..], 6);
    AllBitsConcat(v[..k], v[k..], 8);
  }

  /** The first octets of a filled group. */
  lemma FilledGroupBits(a: sextet, b: sextet, c: sextet, n: nat)
    requires n <= 2
    ensures AllBits(Octets(Word4(a, b, c, 0))[..n], 8) == AllBits([a, b, c, 0], 6)[..8 * n]
  {
    GroupBits(a, b, c, 0);
    AllBitsPrefix(Octets(Word4(a, b, c, 0)), n);
  }

  lemma UnpackTwoBits(a: sextet, b: sextet)
    ensures AllBits(Unpack([a, b]), 8) == AllBits([a, b], 6)[..8]
  {
    FilledGroupBits(a, b, 0, 1);
    AllBitsConcat([a, b], [0, 0], 6);
    assert [a, b] + [0, 0] == [a, b, 0, 0];
  }

  lemma UnpackThreeBits(a: sextet, b: sextet, c: sextet)
    ensures AllBits(Unpack([a, b, c]), 8) == AllBits([a, b, c], 6)[..16]
  {
    FilledGroupBits(a, b, c, 2);
    AllBitsConcat([a, b, c], [0], 6);
    assert [a, b, c] + [0] == [a, b, c, 0];
  }

  lemma {:induction false} UnpackBits(v: seq<sextet>)
    ensures 8 * |Unpack(v)| <= 6 * |v|
    ensures AllBits(Unpack(v), 8) == AllBits(v, 6)[..8 * |Unpack(v)|]
  {
    if |v| == 2 {
      UnpackTwoBits(v[0], v[1]);
      assert v == [v[0], v[1]];
    } else if |v| == 3 {
      UnpackThreeBits(v[0], v[1], v[2]);
      assert v == [v[0], v[1], v[2]];
    } else if |v| > 3 {
      UnpackBits(v[4..]);
      GroupBits(v[0], v[1], v[2], v[3]);
      var o := Octets(Word4(v[0], v[1], v[2], v[3]));
      AllBitsConcat(o, Unpack(v[4..]), 8);
      assert v == [v[0], v[1], v[2], v[3]] + v[4..];
      AllBitsConcat([v[0], v[1], v[2], v[3]], v[4..], 6);
    }
  }

  /** The positions of characters in the table. */
  function Positions(s: seq<byte>): (v: seq<nat>)
    ensures |v| == |s|
  {
    seq(|s|, i requires 0 <= i < |s| => IndexOf(TABLE, s[i]))
  }

  lemma ValuesArePositions(s: seq<byte>)
    requires forall i :: 0 <= i < |s| ==> IsBase64(s[i])
    ensures Values(s) == Positions(s)
  {
    forall i | 0 <= i < |s| ensures Values(s)[i] == Positions(s)[i] {
      ValueIsPosition(s[i]);
    }
  }

  /** s begins with exactly k characters of the table. */
  ghost predicate InTableUpTo(s: seq<byte>, k: nat) {
    k <= |s| && (forall i :: 0 <= i < k ==> s[i] in TABLE) && (k < |s| ==> s[k] !in TABLE)
  }

  lemma PrefixInTable(s: seq<byte>, k: nat)
    requires InTableUpTo(s, k)
    ensures PrefixLen(s) == k && Values(s[..k]) == Positions(s[..k])
  {
    forall i | 0 <= i < |s| ensures IsBase64(s[i]) <==> s[i] in TABLE {
      ValueIsPosition(s[i]);
    }
    PrefixLenIs(s, k);
    ValuesArePositions(s[..k]);
  }

  /** What a decoding is: as many octets as the k characters at the beginning hold
      completely, and the bits of these characters as far as the octets go. */
  ghost predicate IsDecoding(s: seq<byte>, k: nat, y: seq<byte>)
    requires k <= |s|
  {
    |y| == 3 * k / 4 && AllBits(y, 8) == AllBits(Positions(s[..k]), 6)[..8 * |y|]
  }

  /** `Decode` returns that and nothing else is that. */
  lemma DecodeByBits(s: seq<byte>, k: nat, y: seq<byte>)
    requires InTableUpTo(s, k)
    ensures IsDecoding(s, k, y) <==> y == Decode(s)
  {
    PrefixInTable(s, k);
    UnpackBits(Values(s[..k]));
    UnpackLength(Values(s[..k]));
    if IsDecoding(s, k, y) {
      PowersOfTwo();
      AllBitsInjective(y, Decode(s), 8);
    }
  }

  // ---------- encoding ----------

  /** The number of characters that n octets need, padding aside. */
  function Needed(n: nat): (k: nat)
    ensures 6 * k - 6 < 8 * n <= 6 * k
  {
    (4 * n + 2) / 3
  }

  /** Characters of the table for n octets, and '=' up to a multiple of four. */
  ghost predicate IsPadded(n: nat, e: seq<byte>) {
    && Needed(n) <= |e| == 4 * ((n + 2) / 3)
    && (forall i :: 0 <= i < Needed(n) ==> e[i] in TABLE)
    && (forall i :: Needed(n) <= i < |e| ==> e[i] == '=' as int)
  }

  /** The characters t hold the bits of the octets x, filled with zeros. */
  ghost predicate Hold(t: seq<byte>, x: seq<byte>) {
    8 * |x| <= 6 * |t| && AllBits(Positions(t), 6) == AllBits(x, 8) + Zeros(6 * |t| - 8 * |x|)
  }

  /** What an encoding is. */
  ghost predicate IsEncoding(x: seq<byte>, e: seq<byte>) {
    IsPadded(|x|, e) && Hold(e[..Needed(|x|)], x)
  }

  lemma GroupLettersBits(a: byte, b: byte, c: byte)
    ensures var g := GroupLetters(Word(a, b, c));
            && (forall i :: 0 <= i < 4 ==> g[i] in TABLE)
            && AllBits(Positions(g), 6) == AllBits([a, b, c], 8)
  {
    var w := Word(a, b, c);
    var g := GroupLetters(w);
    forall i | 0 <= i < 4 ensures g[i] in TABLE && Positions(g)[i] == SextetAt(w, i) {
      LetterValue(SextetAt(w, i));
      ValueIsPosition(g[i]);
    }
    OctetsOfWord(a, b, c);
    WordOfSextets(w);
    Word4Bits(SextetAt(w, 0), SextetAt(w, 1), SextetAt(w, 2), SextetAt(w, 3));
    assert Positions(g) == [SextetAt(w, 0), SextetAt(w, 1), SextetAt(w, 2), SextetAt(w, 3)];
    WordBits(a, b, c);
  }

  lemma {:induction false} ZeroOctets(y: seq<nat>)
    requires forall i :: 0 <= i < |y| ==> y[i] == 0
    ensures AllBits(y, 8) == Zeros(8 * |y|)
  {
    if y != [] {
      BitsOfZero(8);
      ZeroOctets(y[1..]);
    }
  }

  lemma {:induction false} FilledBits(y: seq<nat>, n: nat)
    requires |y| == 3 && n <= 2 && forall i :: n <= i < 3 ==> y[i] == 0
    ensures AllBits(y, 8)[..6 * (n + 1)] == AllBits(y[..n], 8) + Zeros(6 - 2 * n)
  {
    ZeroOctets(y[n..]);
    AllBitsConcat(y[..n], y[n..], 8);
    assert y[..n] + y[n..] == y;
    ZerosPrefix(AllBits(y[..n], 8), 8 * (3 - n), 6 - 2 * n);
  }

  lemma {:induction false} PositionsPrefix(g: seq<byte>, k: nat)
    requires k <= |g|
    ensures AllBits(Positions(g[..k]), 6) == AllBits(Positions(g), 6)[..6 * k]
  {
    AllBitsPrefix(Positions(g), k);
    assert Positions(g[..k]) == Positions(g)[..k];
  }

  /** Of a group whose last octets are filled in, the first n + 1 characters hold the
      first n octets. */
  lemma {:induction false} ShortHold(g: seq<byte>, y: seq<byte>, n: nat)
    requires |g| == 4 && |y| == 3 && n <= 2 && forall i :: n <= i < 3 ==> y[i] == 0
    requires AllBits(Positions(g), 6) == AllBits(y, 8)
    ensures Hold(g[..n + 1], y[..n])
  {
    PositionsPrefix(g, n + 1);
    FilledBits(y, n);
    assert 6 * |g[..n + 1]| - 8 * |y[..n]| == 6 - 2 * n;
  }

  lemma ZerosPrefix(b: seq<nat>, n: nat, k: nat)
    requires k <= n
    ensures (b + Zeros(n))[..|b| + k] == b + Zeros(k)
  {
  }

  lemma EncodeOneBits(a: byte)
    ensures IsEncoding([a], Encode([a]))
  {
    var g := GroupLetters(Word(a, 0, 0));
    GroupLettersBits(a, 0, 0);
    ShortHold(g, [a, 0, 0], 1);
    assert Encode([a])[..2] == g[..2] && [a, 0, 0][..1] == [a];
  }

  lemma EncodeTwoBits(a: byte, b: byte)
    ensures IsEncoding([a, b], Encode([a, b]))
  {
    var g := GroupLetters(Word(a, b, 0));
    GroupLettersBits(a, b, 0);
    ShortHold(g, [a, b, 0], 2);
    assert Encode([a, b])[..3] == g[..3] && [a, b, 0][..2] == [a, b];
  }

  lemma PaddedGroup(n: nat, g: seq<byte>, e: seq<byte>)
    requires IsPadded(n, e) && |g| == 4 && forall i :: 0 <= i < 4 ==> g[i] in TABLE
    ensures IsPadded(n + 3, g + e) && (g + e)[..Needed(n + 3)] == g + e[..Needed(n)]
  {
    assert (n + 3 + 2) / 3 == (n + 2) / 3 + 1;
    assert Needed(n + 3) == Needed(n) + 4;
  }

  lemma PositionsConcat(s: seq<byte>, t: seq<byte>)
    ensures Positions(s + t) == Positions(s) + Positions(t)
  {
  }

  lemma Join(a: seq<nat>, b: seq<nat>, c: seq<nat>)
    ensures a + (b + c) == (a + b) + c
  {
  }

  lemma {:induction false} PositionBits(g: seq<byte>, t: seq<byte>)
    ensures AllBits(Positions(g + t), 6) == AllBits(Positions(g), 6) + AllBits(Positions(t), 6)
  {
    PositionsConcat(g, t);
    AllBitsConcat(Positions(g), Positions(t), 6);
  }

  lemma {:induction false} HoldMore(g: seq<byte>, y: seq<byte>, t: seq<byte>, x: seq<byte>)
    requires Hold(t, x) && 6 * |g| == 8 * |y| && AllBits(Positions(g), 6) == AllBits(y, 8)
    ensures Hold(g + t, y + x)
  {
    var zeros := Zeros(6 * |t| - 8 * |x|);
    assert 6 * |g + t| - 8 * |y + x| == 6 * |t| - 8 * |x|;
    PositionBits(g, t);
    Join(AllBits(y, 8), AllBits(x, 8), zeros);
    AllBitsConcat(y, x, 8);
  }

  lemma {:induction false} GroupInFront(y: seq<byte>, g: seq<byte>, x: seq<byte>, e: seq<byte>)
    requires IsEncoding(x, e) && |y| == 3 && |g| == 4
    requires (forall i :: 0 <= i < 4 ==> g[i] in TABLE) && AllBits(Positions(g), 6) == AllBits(y, 8)
    ensures IsEncoding(y + x, g + e)
  {
    assert |y + x| == |x| + 3;
    PaddedGroup(|x|, g, e);
    HoldMore(g, y, e[..Needed(|x|)], x);
  }

  lemma {:induction false} EncodeLong(x: seq<byte>)
    requires |x| > 2
    ensures Encode(x) == GroupLetters(Word(x[0], x[1], x[2])) + Encode(x[3..])
    ensures x == [x[0], x[1], x[2]] + x[3..]
  {
  }

  lemma {:induction false} EncodeLongBits(x: seq<byte>)
    requires |x| > 2 && IsEncoding(x[3..], Encode(x[3..]))
    ensures IsEncoding(x, Encode(x))
  {
    var y, g := [x[0], x[1], x[2]], GroupLetters(Word(x[0], x[1], x[2]));
    GroupLettersBits(x[0], x[1], x[2]);
    assert IsEncoding(y + x[3..], g + Encode(x[3..])) by {
      GroupInFront(y, g, x[3..], Encode(x[3..]));
    }
    EncodeLong(x);
  }

  lemma {:induction false} EncodeIsEncoding(x: seq<byte>)
    ensures IsEncoding(x, Encode(x))
  {
    if |x| == 1 {
      EncodeOneBits(x[0]);
      assert x == [x[0]];
    } else if |x| == 2 {
      EncodeTwoBits(x[0], x[1]);
      assert x == [x[0], x[1]];
    } else if |x| > 2 {
      EncodeIsEncoding(x[3..]);
      EncodeLongBits(x);
    }
  }

  lemma PositionsInjective(s: seq<byte>, t: seq<byte>)
    requires |s| == |t| && Positions(s) == Positions(t)
    requires forall i :: 0 <= i < |s| ==> s[i] in TABLE
    ensures s == t
  {
    forall i | 0 <= i < |s| ensures s[i] == t[i] {
      assert Positions(s)[i] == Positions(t)[i];
    }
  }

  /** `Encode` returns that and nothing else is that. */
  lemma {:induction false} EncodeByBits(x: seq<byte>, e: seq<byte>)
    ensures IsEncoding(x, e) <==> e == Encode(x)
  {
    EncodeIsEncoding(x);
    if IsEncoding(x, e) {
      var k, e' := Needed(|x|), Encode(x);
      PowersOfTwo();
      TableIs(0);
      AllBitsInjective(Positions(e[..k]), Positions(e'[..k]), 6);
      PositionsInjective(e[..k], e'[..k]);
      assert e == e[..k] + e[k..] && e' == e'[..k] + e'[k..];
    }
  }

  // ---------- examples ----------

  lemma LettersOfMan()
    ensures GroupLetters(Word(77, 97, 110)) == [84, 87, 70, 117]
  {
    WordSextets(77, 97, 110);
  }

  lemma EncodeMan()
    ensures Encode(Ascii("Man")) == Ascii("TWFu") && Decode(Ascii("TWFu")) == Ascii("Man")
  {
    var man := Ascii("Man");
    assert man == [77, 97, 110] && Ascii("TWFu") == [84, 87, 70, 117];
    LettersOfMan();
    assert man[3..] == [] && Encode(man[3..]) == [];
    RoundTrip(man);
  }

  lemma EncodeMa()
    ensures Encode(Ascii("Ma")) == Ascii("TWE=")
  {
    assert Ascii("Ma") == [77, 97] && Ascii("TWE=") == [84, 87, 69, 61];
    WordSextets(77, 97, 0);
  }

  lemma EncodeM()
    ensures Encode(Ascii("M")) == Ascii("TQ==")
  {
    assert Ascii("M") == [77] && Ascii("TQ==") == [84, 81, 61, 61];
    WordSextets(77, 0, 0);
  }
}
