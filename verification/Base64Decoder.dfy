/** The decoding loop of include/HttpUtility.hpp, lines 53-91: a machine that gathers
    four characters at a time and treats what is left at the end separately. */
module Base64Decoder {
  import opened Bytes
  import opened Sequences
  import opened Base64
  import Base64Codec

  // ---------- table lookup ----------

  /** `base64_chars.find(c)` stored in an `unsigned char`: `npos` becomes 255. */
  function Find(c: byte): byte {
    var r := IndexOf(ALPHABET, c);
    LetterIsAlphabet(0);
    if r == |ALPHABET| then 255 else r
  }

  lemma FindIsValue(c: byte)
    requires IsBase64(c)
    ensures Find(c) == Value(c)
  {
    var r := IndexOf(ALPHABET, c);
    ValueLetter(c);
    LetterIsAlphabet(Value(c));
    if r < 64 {
      LetterIsAlphabet(r);
      LetterValue(r);
    }
  }

  // ---------- the three octets of a group ----------

  /** Lines 67-69 and 84-86, truncated to `unsigned char`. */
  function Octet0(a: byte, b: byte): byte { (a * 4 + b / 16 % 4) % 256 }

  function Octet1(b: byte, c: byte): byte { (b % 16 * 16 + c / 4 % 16) % 256 }

  function Octet2(c: byte, d: byte): byte { (c % 4 * 64 + d) % 256 }

  lemma OctetsAre(a: sextet, b: sextet, c: sextet, d: sextet)
    ensures Octets(Word4(a, b, c, d)) == [Octet0(a, b), Octet1(b, c), Octet2(c, d)]
  {
    OctetArithmetic(a, b, c, d);
    OctetsOfSextets(a, b, c, d);
  }

  lemma OctetsOfSextets(a: int, b: int, c: int, d: int)
    requires 0 <= a < 64 && 0 <= b < 64 && 0 <= c < 64 && 0 <= d < 64
    ensures Octet0(a, b) == a * 4 + b / 16
    ensures Octet1(b, c) == b % 16 * 16 + c / 4
    ensures Octet2(c, d) == c % 4 * 64 + d
  {
    DivisionIs(b / 16, 4, 0, b / 16);
    DivisionIs(c / 4, 16, 0, c / 4);
    DivisionIs(a * 4 + b / 16, 256, 0, a * 4 + b / 16);
    DivisionIs(b % 16 * 16 + c / 4, 256, 0, b % 16 * 16 + c / 4);
    DivisionIs(c % 4 * 64 + d, 256, 0, c % 4 * 64 + d);
  }

  lemma OctetArithmetic(a: int, b: int, c: int, d: int)
    requires 0 <= a < 64 && 0 <= b < 64 && 0 <= c < 64 && 0 <= d < 64
    ensures var w := Word4(a, b, c, d);
            && OctetAt(w, 2) == c % 4 * 64 + d
            && OctetAt(w, 1) == b % 16 * 16 + c / 4
            && OctetAt(w, 0) == a * 4 + b / 16
  {
    var w := Word4(a, b, c, d);
    var high := a * 1024 + b * 16 + c / 4;
    DivisionIs(w, 256, high, c % 4 * 64 + d);
    DivisionIs(high, 256, a * 4 + b / 16, b % 16 * 16 + c / 4);
  }

  /** The octets of a short group need only the characters that are there. */
  lemma ShortGroup(a: sextet, b: sextet, c: sextet)
    ensures Octets(Word4(a, b, 0, 0))[0] == Octet0(a, b)
    ensures Octets(Word4(a, b, c, 0))[0] == Octet0(a, b)
    ensures Octets(Word4(a, b, c, 0))[1] == Octet1(b, c)
  {
    OctetsAre(a, b, 0, 0);
    OctetsAre(a, b, c, 0);
  }

  lemma {:induction false} UnpackAppend(v: seq<sextet>, t: seq<sextet>)
    requires |v| % 4 == 0
    ensures Unpack(v + t) == Unpack(v) + Unpack(t)
  {
    if v == [] {
      assert v + t == t;
    } else {
      assert (v + t)[4..] == v[4..] + t;
      UnpackAppend(v[4..], t);
    }
  }

  lemma DecodedSoFar(s: seq<byte>, g: nat, n: nat)
    requires n <= 4 && 4 * g + n <= |s|
    ensures Unpack(Values(s[..4 * g + n])) == Unpack(Values(s[..4 * g])) + Unpack(Values(s[4 * g..4 * g + n]))
  {
    UnpackAppend(Values(s[..4 * g]), Values(s[4 * g..4 * g + n]));
    assert Values(s[..4 * g + n]) == Values(s[..4 * g]) + Values(s[4 * g..4 * g + n]);
  }

  /** The octets of the four characters t. */
  function GroupOctets(t: seq<byte>): (r: seq<byte>)
    requires |t| == 4
    ensures |r| == 3
  {
    [Octet0(Value(t[0]), Value(t[1])), Octet1(Value(t[1]), Value(t[2])), Octet2(Value(t[2]), Value(t[3]))]
  }

  lemma GroupDecoded(s: seq<byte>, g: nat)
    requires 4 * g + 4 <= |s|
    ensures Unpack(Values(s[..4 * g + 4])) == Unpack(Values(s[..4 * g])) + GroupOctets(s[4 * g..4 * g + 4])
  {
    var t := s[4 * g..4 * g + 4];
    DecodedSoFar(s, g, 4);
    OctetsAre(Value(t[0]), Value(t[1]), Value(t[2]), Value(t[3]));
    assert Unpack(Values(t)) == GroupOctets(t) + Unpack([]) by { assert Values(t)[4..] == []; }
  }

  /** The octets written and the characters still in the buffer. */
  datatype Progress = Progress(octets: seq<byte>, buffer: seq<byte>)

  /** One more character; a fourth one completes a group. */
  function Feed(p: Progress, c: byte): Progress {
    if |p.buffer| == 3 then Progress(p.octets + GroupOctets(p.buffer + [c]), [])
    else Progress(p.octets, p.buffer + [c])
  }

  /** The progress after the first n characters. */
  function After(s: seq<byte>, n: nat): Progress
    requires n <= |s|
  {
    if n == 0 then Progress([], []) else Feed(After(s, n - 1), s[n - 1])
  }

  /** Up to three characters behind an empty buffer stay in it. */
  lemma {:induction false} AfterShort(s: seq<byte>, k: nat, i: nat)
    requires i < 4 && k + i <= |s| && After(s, k).buffer == []
    ensures After(s, k + i) == Progress(After(s, k).octets, s[k..k + i])
  {
    if i > 0 {
      AfterShort(s, k, i - 1);
      SliceAppend(s, k, k + i - 1);
    }
  }

  lemma AfterFull(s: seq<byte>, k: nat)
    requires k + 4 <= |s| && After(s, k).buffer == []
    ensures After(s, k + 4) == Progress(After(s, k).octets + GroupOctets(s[k..k + 4]), [])
  {
    AfterShort(s, k, 3);
    SliceAppend(s, k, k + 3);
  }

  lemma {:induction false} AfterGroups(s: seq<byte>, g: nat)
    requires 4 * g <= |s|
    ensures After(s, 4 * g) == Progress(Unpack(Values(s[..4 * g])), [])
  {
    if g > 0 {
      AfterGroups(s, g - 1);
      AfterFull(s, 4 * (g - 1));
      GroupDecoded(s, g - 1);
    }
  }

  /** The first character of s outside the alphabet, if any, is at position n. */
  ghost predicate AlphabetEndsAt(s: seq<byte>, n: nat) {
    n <= |s| && (forall j :: 0 <= j < n ==> IsBase64(s[j])) && (n < |s| ==> !IsBase64(s[n]))
  }

  /** The octets written and those the left over characters hold completely are the
      decoding. */
  lemma AllDecoded(s: seq<byte>, n: nat)
    requires AlphabetEndsAt(s, n)
    ensures Decode(s) == After(s, n).octets + Unpack(Values(After(s, n).buffer))
    ensures |After(s, n).buffer| == n % 4
  {
    PrefixLenIs(s, n);
    AfterGroups(s, n / 4);
    AfterShort(s, n / 4 * 4, n % 4);
    DecodedSoFar(s, n / 4, n % 4);
  }

  /** For a group of 1, 2 or 3 characters the octets used do not depend on what is put
      behind them. */
  lemma TailDecoded(t: seq<byte>, filled: seq<byte>, v: seq<byte>)
    requires 1 <= |t| <= 3 && |v| == 4 && forall j :: 0 <= j < |t| ==> v[j] == Value(t[j])
    requires filled == [Octet0(v[0], v[1]), Octet1(v[1], v[2]), Octet2(v[2], v[3])]
    ensures Unpack(Values(t)) == filled[..|t| - 1]
  {
    if |t| == 2 {
      ShortGroup(v[0], v[1], 0);
    } else if |t| == 3 {
      ShortGroup(v[0], v[1], v[2]);
    }
  }

  // ---------- the loops ----------

  /** Lines 64-65 and 81-82: replaces characters by table positions. */
  method LookUp(a4: array<byte>)
    requires a4.Length == 4
    modifies a4
    ensures forall j :: 0 <= j < 4 && IsBase64(old(a4[j])) ==> a4[j] == Value(old(a4[j]))
  {
    var j := 0;
    while j < 4
      invariant 0 <= j <= 4
      invariant forall m :: 0 <= m < j && IsBase64(old(a4[m])) ==> a4[m] == Value(old(a4[m]))
      invariant forall m :: j <= m < 4 ==> a4[m] == old(a4[m])
    {
      if IsBase64(a4[j]) { FindIsValue(a4[j]); }
      a4[j] := Find(a4[j]);
      j := j + 1;
    }
  }

  method Combine(a4: array<byte>, a3: array<byte>)
    requires a4.Length == 4 && a3.Length == 3 && a3 != a4
    modifies a3
    ensures a3[..] == [Octet0(a4[0], a4[1]), Octet1(a4[1], a4[2]), Octet2(a4[2], a4[3])]
  {
    a3[0] := Octet0(a4[0], a4[1]);
    a3[1] := Octet1(a4[1], a4[2]);
    a3[2] := Octet2(a4[2], a4[3]);
  }

  ghost predicate AllBase64(t: seq<byte>) {
    forall j :: 0 <= j < |t| ==> IsBase64(t[j])
  }

  /** Lines 64-72: the octets of a full group are appended. */
  method PushGroup(sofar: seq<byte>, a4: array<byte>, a3: array<byte>) returns (ret: seq<byte>)
    requires a4.Length == 4 && a3.Length == 3 && a3 != a4
    requires AllBase64(a4[..])
    modifies a4, a3
    ensures ret == sofar + GroupOctets(old(a4[..]))
  {
    assert forall j :: 0 <= j < 4 ==> a4[j] == a4[..][j];
    LookUp(a4);
    Combine(a4, a3);
    ret := sofar;
    for i := 0 to 3
      invariant ret == sofar + a3[..i]
    {
      ret := ret + [a3[i]];
    }
  }

  /** Lines 77-88: the octets that i left over characters hold completely. */
  method PushTail(sofar: seq<byte>, i: nat, a4: array<byte>, a3: array<byte>) returns (ret: seq<byte>)
    requires a4.Length == 4 && a3.Length == 3 && a3 != a4 && 1 <= i <= 3
    requires AllBase64(a4[..i])
    modifies a4, a3
    ensures ret == sofar + Unpack(Values(old(a4[..i])))
  {
    ghost var t := a4[..i];
    assert forall j :: 0 <= j < i ==> a4[j] == t[j];
    for j := i to 4
      invariant forall m :: 0 <= m < i ==> a4[m] == t[m]
    {
      a4[j] := 0;
    }
    LookUp(a4);
    Combine(a4, a3);
    TailDecoded(t, a3[..], a4[..]);
    ret := sofar;
    for j := 0 to i - 1
      invariant ret == sofar + a3[..j]
    {
      ret := ret + [a3[j]];
    }
  }

  /** Lines 63-74: one more character. */
  method Take(c: byte, sofar: seq<byte>, i: nat, a4: array<byte>, a3: array<byte>)
    returns (ret: seq<byte>, next: nat)
    requires a4.Length == 4 && a3.Length == 3 && a3 != a4 && i < 4
    requires AllBase64(a4[..i]) && IsBase64(c)
    modifies a4, a3
    ensures next < 4 && AllBase64(a4[..next])
    ensures Progress(ret, a4[..next]) == Feed(Progress(sofar, old(a4[..i])), c)
  {
    ghost var t := a4[..i] + [c];
    ret, next := sofar, i + 1;
    a4[i] := c;
    assert a4[..next] == t;
    if next == 4 {
      assert a4[..] == t;
      ret := PushGroup(sofar, a4, a3);
      next := 0;
    }
  }

  /** Lines 61-75: stops at the first character outside the alphabet, with i characters
      left over in the buffer. */
  method DecodeGroups(s: seq<byte>, a4: array<byte>, a3: array<byte>)
    returns (ret: seq<byte>, pos: nat, i: nat)
    requires a4.Length == 4 && a3.Length == 3 && a3 != a4
    modifies a4, a3
    ensures AlphabetEndsAt(s, pos)
    ensures i < 4 && AllBase64(a4[..i])
    ensures Progress(ret, a4[..i]) == After(s, pos)
  {
    var inLen := |s|;
    ret, pos, i := [], 0, 0;
    while inLen != 0 && s[pos] != EQUALS && IsBase64(s[pos])
      invariant 0 <= inLen == |s| - pos
      invariant forall j :: 0 <= j < pos ==> IsBase64(s[j])
      invariant i < 4 && AllBase64(a4[..i])
      invariant Progress(ret, a4[..i]) == After(s, pos)
    {
      inLen := inLen - 1;
      ret, i := Take(s[pos], ret, i, a4, a3);
      pos := pos + 1;
    }
  }

  /** Lines 53-91. The result is the decoding of the standard on the longest alphabet
      prefix; nothing after it and no filler has an influence. */
  method Base64Decode(s: seq<byte>) returns (ret: seq<byte>)
    ensures ret == Decode(s)
  {
    var a4, a3 := new byte[4], new byte[3];
    var pos, i;
    ret, pos, i := DecodeGroups(s, a4, a3);
    AllDecoded(s, pos);
    if i != 0 {
      ret := PushTail(ret, i, a4, a3);
    }
  }

  // ---------- the codec as a whole ----------

  /** What the program encodes it decodes to the same octets. */
  method EncodeThenDecode(x: seq<byte>) returns (y: seq<byte>)
    ensures y == x
  {
    var e := Base64Codec.Base64Encode(x);
    y := Base64Decode(e);
    RoundTrip(x);
  }

  /** What the program decodes it encodes to the same string exactly if the string
      was canonical. */
  method DecodeThenEncode(s: seq<byte>) returns (e: seq<byte>)
    ensures e == s <==> Canonical(s)
  {
    var x := Base64Decode(s);
    e := Base64Codec.Base64Encode(x);
    CanonicalExactly(s);
  }
}
