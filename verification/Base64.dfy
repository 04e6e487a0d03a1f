/** Base64 as sections 3.5 and 4 of RFC 4648 define it: the definitions first, then
    what they guarantee. The loops of include/HttpUtility.hpp are proved to compute
    them in `Base64Codec` and `Base64Decoder`. */
module Base64 {
  import opened Bytes

  type sextet = x: int | 0 <= x < 64

  // ---------- section 4 of RFC 4648 ----------

  /** `n` consecutive characters. */
  function Range(first: byte, n: nat): (r: seq<byte>)
    requires first + n <= 256
    ensures |r| == n && forall i :: 0 <= i < n ==> r[i] == first + i
  {
    seq(n, i requires 0 <= i < n => first + i)
  }

  /** The 64 characters of `lookup` and `base64_chars`: A-Z, a-z, 0-9, '+', '/'. */
  const ALPHABET: seq<byte> := Range(65, 26) + Range(97, 26) + Range(48, 10) + [PLUS, SLASH]

  /** The character of a sextet: `ALPHABET[v]`, see `LetterIsAlphabet`. */
  function Letter(v: sextet): byte {
    if v < 26 then 65 + v
    else if v < 52 then 71 + v
    else if v < 62 then v - 4
    else if v == 62 then PLUS else SLASH
  }

  lemma LetterIsAlphabet(v: sextet)
    ensures |ALPHABET| == 64 && ALPHABET[v] == Letter(v)
  {
  }

  /** The value of an alphabet character; of no meaning for others. */
  function Value(c: byte): sextet {
    if IsUpper(c) then c - 65
    else if IsLower(c) then c - 71
    else if IsDigit(c) then c + 4
    else if c == PLUS then 62 else 63
  }

  predicate IsBase64(c: byte) { IsAlnum(c) || c == PLUS || c == SLASH }

  lemma LetterValue(v: sextet)
    ensures IsBase64(Letter(v)) && Value(Letter(v)) == v
  {
  }

  lemma ValueLetter(c: byte)
    requires IsBase64(c)
    ensures Letter(Value(c)) == c
  {
  }

  /** Three octets as a 24-bit number. */
  function Word(a: byte, b: byte, c: byte): nat { (a * 256 + b) * 256 + c }

  function SextetAt(w: nat, k: nat): sextet
    requires k < 4
  {
    if k == 0 then w / 64 / 64 / 64 % 64
    else if k == 1 then w / 64 / 64 % 64
    else if k == 2 then w / 64 % 64
    else w % 64
  }

  /** The four characters of a 24-bit group. */
  function GroupLetters(w: nat): (r: seq<byte>)
    ensures |r| == 4
  {
    seq(4, k requires 0 <= k < 4 => Letter(SextetAt(w, k)))
  }

  /** The encoding of the standard, group by group: a short last group is filled with
      zero bits and its unused characters are replaced by '='. */
  function Encode(x: seq<byte>): seq<byte> {
    if |x| == 0 then []
    else if |x| == 1 then GroupLetters(Word(x[0], 0, 0))[..2] + [EQUALS, EQUALS]
    else if |x| == 2 then GroupLetters(Word(x[0], x[1], 0))[..3] + [EQUALS]
    else GroupLetters(Word(x[0], x[1], x[2])) + Encode(x[3..])
  }

  function OctetAt(w: nat, k: nat): byte
    requires k < 3
  {
    if k == 0 then w / 256 / 256 % 256
    else if k == 1 then w / 256 % 256
    else w % 256
  }

  /** The octets of a 24-bit number. */
  function Octets(w: nat): (r: seq<byte>)
    ensures |r| == 3
  {
    seq(3, k requires 0 <= k < 3 => OctetAt(w, k))
  }

  function Word4(a: sextet, b: sextet, c: sextet, d: sextet): nat {
    ((a * 64 + b) * 64 + c) * 64 + d
  }

  /** The octets that a sequence of sextets holds completely. */
  function Unpack(v: seq<sextet>): seq<byte> {
    if |v| <= 1 then []
    else if |v| == 2 then Octets(Word4(v[0], v[1], 0, 0))[..1]
    else if |v| == 3 then Octets(Word4(v[0], v[1], v[2], 0))[..2]
    else Octets(Word4(v[0], v[1], v[2], v[3])) + Unpack(v[4..])
  }

  /** The length of the longest prefix of alphabet characters. */
  function PrefixLen(s: seq<byte>): (k: nat)
    ensures k <= |s|
    ensures forall i :: 0 <= i < k ==> IsBase64(s[i])
    ensures k < |s| ==> !IsBase64(s[k])
  {
    if s == [] || !IsBase64(s[0]) then 0 else 1 + PrefixLen(s[1..])
  }

  function Values(s: seq<byte>): (v: seq<sextet>)
    ensures |v| == |s|
  {
    seq(|s|, i requires 0 <= i < |s| => Value(s[i]))
  }

  /** What decoding an arbitrary string means: unpack its alphabet prefix. */
  function Decode(s: seq<byte>): seq<byte> {
    Unpack(Values(s[..PrefixLen(s)]))
  }

  // ---------- round trip ----------

  lemma WordQuotients(a: int, b: int, c: int)
    requires 0 <= a < 256 && 0 <= b < 256 && 0 <= c < 256
    ensures Word(a, b, c) / 64 == (a * 256 + b) * 4 + c / 64
    ensures Word(a, b, c) / 64 / 64 == (a * 256 + b) / 16
    ensures Word(a, b, c) / 64 / 64 / 64 == a / 4
  {
    var ab := a * 256 + b;
    DivisionIs(Word(a, b, c), 64, ab * 4 + c / 64, c % 64);
    DivisionIs(ab * 4 + c / 64, 64, ab / 16, ab % 16 * 4 + c / 64);
    DivisionIs(ab / 16, 64, a / 4, a % 4 * 16 + b / 16);
  }

  /** The four sextets of three octets. */
  lemma WordSextets(a: int, b: int, c: int)
    requires 0 <= a < 256 && 0 <= b < 256 && 0 <= c < 256
    ensures SextetAt(Word(a, b, c), 0) == a / 4
    ensures SextetAt(Word(a, b, c), 1) == a % 4 * 16 + b / 16
    ensures SextetAt(Word(a, b, c), 2) == b % 16 * 4 + c / 64
    ensures SextetAt(Word(a, b, c), 3) == c % 64
  {
    var ab := a * 256 + b;
    WordQuotients(a, b, c);
    DivisionIs(ab / 16, 64, a / 4, a % 4 * 16 + b / 16);
    DivisionIs(ab * 4 + c / 64, 64, ab / 16, b % 16 * 4 + c / 64);
    DivisionIs(Word(a, b, c), 64, ab * 4 + c / 64, c % 64);
  }

  lemma OctetsOfWord(a: byte, b: byte, c: byte)
    ensures Word(a, b, c) < 16777216
    ensures Octets(Word(a, b, c)) == [a, b, c]
  {
    var w := Word(a, b, c);
    assert w / 256 == a * 256 + b && w / 256 / 256 == a;
  }

  lemma WordOfSextets(w: nat)
    requires w < 16777216
    ensures Word4(SextetAt(w, 0), SextetAt(w, 1), SextetAt(w, 2), SextetAt(w, 3)) == w
  {
  }

  lemma PrefixLenIs(s: seq<byte>, k: nat)
    requires k <= |s| && forall i :: 0 <= i < k ==> IsBase64(s[i])
    requires k < |s| ==> !IsBase64(s[k])
    ensures PrefixLen(s) == k
  {
  }

  /** Decoding takes whole groups off the front. */
  lemma DecodeGroup(s: seq<byte>)
    requires |s| >= 4 && forall i :: 0 <= i < 4 ==> IsBase64(s[i])
    ensures Decode(s) == Octets(Word4(Value(s[0]), Value(s[1]), Value(s[2]), Value(s[3]))) + Decode(s[4..])
  {
    var k := PrefixLen(s[4..]);
    PrefixLenIs(s, k + 4);
    assert Values(s[..k + 4])[4..] == Values(s[4..][..k]);
  }

  lemma DecodeTail(s: seq<byte>, k: nat)
    requires k <= |s| && k <= 3 && forall i :: 0 <= i < k ==> IsBase64(s[i])
    requires k < |s| ==> !IsBase64(s[k])
    ensures Decode(s) == Unpack(Values(s[..k]))
  {
    PrefixLenIs(s, k);
  }

  lemma LettersDecode(a: byte, b: byte, c: byte)
    ensures var g := GroupLetters(Word(a, b, c));
            && (forall i :: 0 <= i < 4 ==> IsBase64(g[i]))
            && Octets(Word4(Value(g[0]), Value(g[1]), Value(g[2]), Value(g[3]))) == [a, b, c]
  {
    var w := Word(a, b, c);
    OctetsOfWord(a, b, c);
    WordOfSextets(w);
    LetterValue(SextetAt(w, 0));
    LetterValue(SextetAt(w, 1));
    LetterValue(SextetAt(w, 2));
    LetterValue(SextetAt(w, 3));
  }

  lemma RoundTripTail1(a: byte)
    ensures Decode(Encode([a])) == [a]
  {
    LettersDecode(a, 0, 0);
    WordSextets(a, 0, 0);
    LetterValue(0);
    DecodeTail(Encode([a]), 2);
  }

  lemma RoundTripTail2(a: byte, b: byte)
    ensures Decode(Encode([a, b])) == [a, b]
  {
    LettersDecode(a, b, 0);
    WordSextets(a, b, 0);
    LetterValue(0);
    DecodeTail(Encode([a, b]), 3);
  }

  lemma RoundTripGroup(a: byte, b: byte, c: byte, rest: seq<byte>)
    ensures Decode(GroupLetters(Word(a, b, c)) + rest) == [a, b, c] + Decode(rest)
  {
    var s := GroupLetters(Word(a, b, c)) + rest;
    LettersDecode(a, b, c);
    DecodeGroup(s);
    assert s[4..] == rest;
  }

  /** Decoding what was encoded gives it back, for every octet string. */
  lemma {:induction false} RoundTrip(x: seq<byte>)
    ensures Decode(Encode(x)) == x
  {
    if |x| == 0 {
      DecodeTail([], 0);
    } else if |x| == 1 {
      RoundTripTail1(x[0]);
      assert x == [x[0]];
    } else if |x| == 2 {
      RoundTripTail2(x[0], x[1]);
      assert x == [x[0], x[1]];
    } else {
      RoundTripGroup(x[0], x[1], x[2], Encode(x[3..]));
      RoundTrip(x[3..]);
      assert x == [x[0], x[1], x[2]] + x[3..];
    }
  }

  lemma {:induction false} EncodeLengthMod4(x: seq<byte>)
    ensures |Encode(x)| % 4 == 0
  {
    if |x| > 2 {
      EncodeLengthMod4(x[3..]);
    }
  }

  /** Four characters for every three octets begun. */
  lemma {:induction false} EncodeLength(x: seq<byte>)
    ensures |Encode(x)| == 4 * ((|x| + 2) / 3)
  {
    if |x| > 2 {
      EncodeLength(x[3..]);
      assert |Encode(x)| == 4 + |Encode(x[3..])|;
      assert (|x| + 2) / 3 == 1 + (|x[3..]| + 2) / 3;
    } else if |x| > 0 {
      assert (|x| + 2) / 3 == 1;
    }
  }

  // ---------- decoding arbitrary strings ----------

  lemma {:induction false} UnpackLength(v: seq<sextet>)
    ensures |Unpack(v)| == 3 * |v| / 4
  {
    if |v| > 3 {
      UnpackLength(v[4..]);
    }
  }

  /** Decoding looks at the alphabet prefix only, whatever follows it, and returns
      the octets that its k characters hold completely. */
  lemma DecodeReadsOnlyThePrefix(s: seq<byte>, t: seq<byte>)
    requires t != [] ==> !IsBase64(t[0])
    ensures |Decode(s)| == 3 * PrefixLen(s) / 4
    ensures Decode(s[..PrefixLen(s)] + t) == Decode(s)
  {
    var k := PrefixLen(s);
    UnpackLength(Values(s[..k]));
    PrefixLenIs(s[..k] + t, k);
    assert (s[..k] + t)[..k] == s[..k];
  }

  // ---------- canonical strings, section 3.5 of RFC 4648 ----------

  /** Whole groups of alphabet characters; the last group may end in one or two '='
      if the bits that belong to no octet are zero. */
  predicate Canonical(s: seq<byte>) {
    s == [] ||
    (|s| >= 4 && IsBase64(s[0]) && IsBase64(s[1])
     && if IsBase64(s[2]) && IsBase64(s[3]) then Canonical(s[4..])
        else |s| == 4 && s[3] == EQUALS
             && if IsBase64(s[2]) then Value(s[2]) % 4 == 0
                else s[2] == EQUALS && Value(s[1]) % 16 == 0)
  }

  lemma LastGroup1IsCanonical(a: byte)
    ensures Canonical(Encode([a]))
  {
    var w := Word(a, 0, 0);
    WordSextets(a, 0, 0);
    LetterValue(SextetAt(w, 0));
    LetterValue(SextetAt(w, 1));
    DivisionIs(a % 4 * 16, 16, a % 4, 0);
  }

  lemma LastGroup2IsCanonical(a: byte, b: byte)
    ensures Canonical(Encode([a, b]))
  {
    var w := Word(a, b, 0);
    WordSextets(a, b, 0);
    LetterValue(SextetAt(w, 0));
    LetterValue(SextetAt(w, 1));
    LetterValue(SextetAt(w, 2));
    DivisionIs(b % 16 * 4, 4, b % 16, 0);
  }

  lemma GroupIsCanonical(w: nat, rest: seq<byte>)
    requires Canonical(rest)
    ensures Canonical(GroupLetters(w) + rest)
  {
    LetterValue(SextetAt(w, 0));
    LetterValue(SextetAt(w, 1));
    LetterValue(SextetAt(w, 2));
    LetterValue(SextetAt(w, 3));
    assert (GroupLetters(w) + rest)[4..] == rest;
  }

  lemma {:induction false} EncodeIsCanonical(x: seq<byte>)
    ensures Canonical(Encode(x))
  {
    if |x| > 2 {
      EncodeIsCanonical(x[3..]);
      GroupIsCanonical(Word(x[0], x[1], x[2]), Encode(x[3..]));
    } else if |x| == 2 {
      LastGroup2IsCanonical(x[0], x[1]);
      assert x == [x[0], x[1]];
    } else if |x| == 1 {
      LastGroup1IsCanonical(x[0]);
      assert x == [x[0]];
    }
  }

  lemma SextetsOfWord4(a: sextet, b: sextet, c: sextet, d: sextet)
    ensures var w := Word4(a, b, c, d);
            && w < 16777216
            && SextetAt(w, 0) == a && SextetAt(w, 1) == b && SextetAt(w, 2) == c && SextetAt(w, 3) == d
  {
    var w := Word4(a, b, c, d);
    assert w / 64 == (a * 64 + b) * 64 + c;
    assert w / 64 / 64 == a * 64 + b;
  }

  lemma WordOfOctets(w: nat)
    requires w < 16777216
    ensures Word(Octets(w)[0], Octets(w)[1], Octets(w)[2]) == w
  {
  }

  lemma RegroupLetters(a: sextet, b: sextet, c: sextet, d: sextet)
    ensures var o := Octets(Word4(a, b, c, d));
            GroupLetters(Word(o[0], o[1], o[2])) == [Letter(a), Letter(b), Letter(c), Letter(d)]
  {
    SextetsOfWord4(a, b, c, d);
    WordOfOctets(Word4(a, b, c, d));
  }

  lemma UnusedOctetsAreZero(a: int, b: int, c: int)
    requires 0 <= a < 64 && 0 <= b < 64 && 0 <= c < 64 && c % 4 == 0
    ensures Octets(Word4(a, b, c, 0))[2] == 0
    ensures b % 16 == 0 && c == 0 ==> Octets(Word4(a, b, c, 0))[1] == 0
  {
    var w := Word4(a, b, c, 0);
    var high := a * 1024 + b * 16 + c / 4;
    assert w == high * 256;
    assert w / 256 == high;
    if b % 16 == 0 && c == 0 {
      assert high == (a * 4 + b / 16) * 256;
    }
  }

  lemma CanonicalLastGroup2(s: seq<byte>)
    requires |s| == 4 && IsBase64(s[0]) && IsBase64(s[1]) && s[2] == s[3] == EQUALS && Value(s[1]) % 16 == 0
    ensures Encode(Decode(s)) == s
  {
    var a, b := Value(s[0]), Value(s[1]);
    RegroupLetters(a, b, 0, 0);
    ValueLetter(s[0]);
    ValueLetter(s[1]);
    DecodeTail(s, 2);
    UnusedOctetsAreZero(a, b, 0);
  }

  lemma CanonicalLastGroup3(s: seq<byte>)
    requires |s| == 4 && IsBase64(s[0]) && IsBase64(s[1]) && IsBase64(s[2]) && s[3] == EQUALS && Value(s[2]) % 4 == 0
    ensures Encode(Decode(s)) == s
  {
    var a, b, c := Value(s[0]), Value(s[1]), Value(s[2]);
    RegroupLetters(a, b, c, 0);
    ValueLetter(s[0]);
    ValueLetter(s[1]);
    ValueLetter(s[2]);
    DecodeTail(s, 3);
    UnusedOctetsAreZero(a, b, c);
  }

  lemma {:induction false} CanonicalInverse(s: seq<byte>)
    requires Canonical(s)
    ensures Encode(Decode(s)) == s
  {
    if s == [] {
    } else if IsBase64(s[2]) && IsBase64(s[3]) {
      RegroupLetters(Value(s[0]), Value(s[1]), Value(s[2]), Value(s[3]));
      ValueLetter(s[0]);
      ValueLetter(s[1]);
      ValueLetter(s[2]);
      ValueLetter(s[3]);
      DecodeGroup(s);
      CanonicalInverse(s[4..]);
      assert Decode(s)[3..] == Decode(s[4..]);
    } else if IsBase64(s[2]) {
      CanonicalLastGroup3(s);
    } else {
      CanonicalLastGroup2(s);
    }
  }

  /** Re-encoding what was decoded gives the string back exactly if the string is
      canonical, so encoding is a bijection onto the canonical strings. */
  lemma CanonicalExactly(s: seq<byte>)
    ensures Encode(Decode(s)) == s <==> Canonical(s)
  {
    if Canonical(s) {
      CanonicalInverse(s);
    } else {
      EncodeIsCanonical(Decode(s));
    }
  }
}
