/** The URL codec of include/HttpUtility.hpp, lines 93-146: a printer and a parser of
    percent-escapes. A failed `assert` ends the program; the decoder's result says so. */
module UrlCodec {
  import opened Bytes

  datatype Result<+T> = Ok(value: T) | Aborted

  // ---------- characters ----------

  /** Section 2.3 of RFC 3986. */
  predicate Unreserved(c: byte) {
    IsAlnum(c) || c == 45 || c == 95 || c == 46 || c == 126
  }

  predicate Escaped(c: byte) { !Unreserved(c) && c != SPACE }

  function ToHex(x: byte): byte
    requires x < 16
  {
    if x > 9 then x + 55 else x + 48
  }

  /** Lines 97-105; it accepts every letter, hexadecimal or not. */
  function FromHex(x: byte): Result<byte> {
    if IsUpper(x) then Ok(x - 65 + 10)
    else if IsLower(x) then Ok(x - 97 + 10)
    else if IsDigit(x) then Ok(x - 48)
    else Aborted
  }

  predicate UpperHex(x: byte) { IsDigit(x) || 65 <= x <= 70 }

  predicate HexDigit(x: byte) { UpperHex(x) || 97 <= x <= 102 }

  /** `FromHex` inverts `ToHex`; it aborts exactly on what is not alphanumeric, and its
      result is below 16 exactly on hexadecimal digits. */
  lemma HexInverse(x: byte)
    ensures x < 16 ==> UpperHex(ToHex(x)) && FromHex(ToHex(x)) == Ok(x)
    ensures UpperHex(x) ==> FromHex(x).Ok? && FromHex(x).value < 16 && ToHex(FromHex(x).value) == x
    ensures FromHex(x).Aborted? <==> !IsAlnum(x)
    ensures FromHex(x).Ok? && FromHex(x).value < 16 <==> HexDigit(x)
  {
  }

  /** `high * 16 + low` stored in a `char`. */
  function Join(high: byte, low: byte): byte {
    var sum: int := high * 16 + low;
    sum % 256
  }

  /** The digits of lines 95-101, hexadecimal ones first, in both cases. */
  const UPPER_DIGITS: seq<byte> := Ascii("0123456789ABCDEFGHIJKLMNOPQRSTUVWXYZ")
  const LOWER_DIGITS: seq<byte> := Ascii("0123456789abcdefghijklmnopqrstuvwxyz")

  /** c is the digit of value v, in either case. */
  ghost predicate DigitOf(c: byte, v: nat) {
    v < 36 && (c == UPPER_DIGITS[v] || c == LOWER_DIGITS[v])
  }

  /** `FromHex` returns the position of the digit in either table, of hexadecimal digits
      their value; `ToHex` returns the upper-case digit. */
  lemma HexTable(v: nat)
    requires v < 36
    ensures FromHex(UPPER_DIGITS[v]) == Ok(v)
    ensures FromHex(LOWER_DIGITS[v]) == Ok(v)
    ensures v < 16 ==> ToHex(v) == UPPER_DIGITS[v]
    ensures v < 16 <==> HexDigit(UPPER_DIGITS[v])
    ensures v < 16 <==> HexDigit(LOWER_DIGITS[v])
  {
    UpperDigitCode(v);
    LowerDigitCode(v);
  }

  lemma UpperDigitCode(v: nat)
    requires v < 36
    ensures UPPER_DIGITS[v] == if v < 10 then v + 48 else v + 55
  {
  }

  lemma LowerDigitCode(v: nat)
    requires v < 36
    ensures LOWER_DIGITS[v] == if v < 10 then v + 48 else v + 87
  {
  }

  // ---------- meaning of the two loops ----------

  function EncodeByte(c: byte): seq<byte> {
    if Unreserved(c) then [c]
    else if c == SPACE then [PLUS]
    else [PERCENT, ToHex(c / 16), ToHex(c % 16)]
  }

  function Encode(s: seq<byte>): seq<byte> {
    if s == [] then [] else EncodeByte(s[0]) + Encode(s[1..])
  }

  function Prepend(x: seq<byte>, r: Result<seq<byte>>): Result<seq<byte>> {
    match r
    case Ok(y) => Ok(x + y)
    case Aborted => Aborted
  }

  /** Reads one token after the other. */
  function Decode(s: seq<byte>): Result<seq<byte>> {
    if s == [] then Ok([])
    else if s[0] == PLUS then Prepend([SPACE], Decode(s[1..]))
    else if s[0] == PERCENT then
      if |s| <= 2 then Aborted
      else
        match (FromHex(s[1]), FromHex(s[2]))
        case (Ok(high), Ok(low)) => Prepend([Join(high, low)], Decode(s[3..]))
        case _ => Aborted
    else Prepend([s[0]], Decode(s[1..]))
  }

  // ---------- round trip ----------

  lemma DecodeEncodedByte(c: byte, t: seq<byte>)
    ensures Decode(EncodeByte(c) + t) == Prepend([c], Decode(t))
  {
    var s := EncodeByte(c) + t;
    if Escaped(c) {
      HexInverse(c / 16);
      HexInverse(c % 16);
      JoinHalves(c);
      assert s[3..] == t;
    } else {
      assert s[1..] == t;
    }
  }

  /** Every octet string survives, and on encoder output no assert fails. */
  lemma {:induction false} RoundTrip(s: seq<byte>)
    ensures Decode(Encode(s)) == Ok(s)
  {
    if s != [] {
      RoundTrip(s[1..]);
      DecodeEncodedByte(s[0], Encode(s[1..]));
      assert [s[0]] + s[1..] == s;
    }
  }

  lemma {:induction false} EncodeConcat(s: seq<byte>, t: seq<byte>)
    ensures Encode(s + t) == Encode(s) + Encode(t)
  {
    if s == [] {
      assert s + t == t;
    } else {
      assert (s + t)[1..] == s[1..] + t;
      EncodeConcat(s[1..], t);
    }
  }

  lemma PrependTwice(x: seq<byte>, y: seq<byte>, r: Result<seq<byte>>)
    ensures Prepend(x, Prepend(y, r)) == Prepend(x + y, r)
    ensures Prepend([], r) == r
  {
    if r.Ok? {
      assert x + (y + r.value) == (x + y) + r.value;
      assert [] + r.value == r.value;
    }
  }

  /** A string that decodes on its own may be decoded in front of any other. */
  lemma {:induction false} DecodeConcat(s: seq<byte>, t: seq<byte>)
    requires Decode(s).Ok?
    ensures Decode(s + t) == Prepend(Decode(s).value, Decode(t))
  {
    if s == [] {
      assert s + t == t;
      PrependTwice([], [], Decode(t));
    } else if s[0] == PERCENT {
      assert (s + t)[3..] == s[3..] + t;
      DecodeConcat(s[3..], t);
      PrependTwice([Join(FromHex(s[1]).value, FromHex(s[2]).value)], Decode(s[3..]).value, Decode(t));
    } else {
      assert (s + t)[1..] == s[1..] + t;
      DecodeConcat(s[1..], t);
      PrependTwice([if s[0] == PLUS then SPACE else s[0]], Decode(s[1..]).value, Decode(t));
    }
  }

  /** A '%' at position i that is not followed by two alphanumeric characters. */
  predicate BadEscapeAt(s: seq<byte>, i: nat) {
    i < |s| && s[i] == PERCENT && !(i + 2 < |s| && IsAlnum(s[i + 1]) && IsAlnum(s[i + 2]))
  }

  /** The decoder aborts exactly if there is a bad escape anywhere: no token that it
      reads hides one. */
  lemma {:induction false} AbortsExactly(s: seq<byte>)
    ensures Decode(s).Aborted? <==> exists i :: BadEscapeAt(s, i)
  {
    if s != [] && BadEscapeAt(s, 0) {
    } else if s != [] {
      var n := if s[0] == PERCENT then 3 else 1;
      AbortsExactly(s[n..]);
      assert forall i: nat :: BadEscapeAt(s[n..], i) ==> BadEscapeAt(s, i + n);
      assert forall i: nat :: BadEscapeAt(s, i) ==> i >= n && BadEscapeAt(s[n..], i - n);
    }
  }

  /** '%' and two digits, each of either case, decode to one octet: to 16h + l if they
      are hexadecimal, else to what is left of that in an octet. */
  lemma DecodeEscape(high: byte, low: byte, h: nat, l: nat)
    requires DigitOf(high, h) && DigitOf(low, l)
    ensures Decode(['%' as int, high, low]) == Ok([(16 * h + l) % 256])
    ensures h < 16 && l < 16 ==> Decode(['%' as int, high, low]) == Ok([16 * h + l])
  {
    DigitValue(high, h);
    DigitValue(low, l);
    DecodeOneEscape(high, low);
  }

  lemma DigitValue(c: byte, v: nat)
    requires DigitOf(c, v)
    ensures FromHex(c) == Ok(v)
  {
    HexTable(v);
  }

  lemma DecodeOneEscape(a: byte, b: byte)
    requires FromHex(a).Ok? && FromHex(b).Ok?
    ensures Decode([PERCENT, a, b]) == Ok([Join(FromHex(a).value, FromHex(b).value)])
  {
    var s := [PERCENT, a, b];
    var x := [Join(FromHex(a).value, FromHex(b).value)];
    assert s[3..] == [] && x + [] == x;
    assert Decode(s) == Prepend(x, Decode(s[3..]));
  }

  /** '+' decodes to a space, and a string without '%' and '+' to itself. */
  lemma {:induction false} DecodePlain(s: seq<byte>)
    ensures Decode(['+' as int]) == Ok([' ' as int])
    ensures '%' as int !in s && '+' as int !in s ==> Decode(s) == Ok(s)
  {
    assert ['+' as int][1..] == [] && [SPACE] + [] == [SPACE];
    if s != [] {
      DecodePlain(s[1..]);
      assert s == [s[0]] + s[1..];
    }
  }

  /** Digits are not checked to be hexadecimal: "%GG" decodes, to the octet 16. */
  lemma LettersPastF()
    ensures Decode(Ascii("%GG")) == Ok([16])
  {
    assert Ascii("%GG") == ['%' as int, 'G' as int, 'G' as int];
    UpperDigitCode(16);
    DecodeEscape(71, 71, 16, 16);
  }

  /** A slash, escaped by lower-case or upper-case digits. */
  lemma DecodeSlash()
    ensures Decode(Ascii("%2f")) == Decode(Ascii("%2F")) == Ok(Ascii("/"))
  {
    assert Ascii("%2f") == ['%' as int, '2' as int, 'f' as int];
    assert Ascii("%2F") == ['%' as int, '2' as int, 'F' as int];
    assert Ascii("/") == [47];
    UpperDigitCode(2);
    UpperDigitCode(15);
    LowerDigitCode(15);
    DecodeEscape(50, 102, 2, 15);
    DecodeEscape(50, 70, 2, 15);
  }

  /** Letters, digits and the signs "-_.~". */
  ghost predicate Plain(c: byte) {
    || 'A' as int <= c <= 'Z' as int || 'a' as int <= c <= 'z' as int || '0' as int <= c <= '9' as int
    || c == '-' as int || c == '_' as int || c == '.' as int || c == '~' as int
  }

  /** An octet is encoded as itself exactly if it is an ASCII letter, an ASCII digit or
      one of "-_.~", a space as '+', and any other as '%' and its two digits. */
  lemma EncodeOctet(c: byte)
    ensures Encode([c]) == [c] <==> Plain(c)
    ensures c == ' ' as int ==> Encode([c]) == ['+' as int]
    ensures !Plain(c) && c != ' ' as int ==> Encode([c]) == ['%' as int, UPPER_DIGITS[c / 16], UPPER_DIGITS[c % 16]]
  {
    assert [c][1..] == [] && Encode([c]) == EncodeByte(c) + Encode([]) == EncodeByte(c);
    HexTable(c / 16);
    HexTable(c % 16);
  }

  /** An ampersand and an asterisk. */
  lemma EncodeSigns()
    ensures Encode(Ascii("&")) == Ascii("%26") && Encode(Ascii("*")) == Ascii("%2A")
  {
    EncodedSign('&' as int, '2' as int, '6' as int);
    EncodedSign('*' as int, '2' as int, 'A' as int);
    assert Ascii("&") == ['&' as int] && Ascii("*") == ['*' as int];
    assert Ascii("%26") == ['%' as int, '2' as int, '6' as int];
    assert Ascii("%2A") == ['%' as int, '2' as int, 'A' as int];
  }

  lemma EncodedSign(c: byte, high: byte, low: byte)
    requires !Plain(c) && c != SPACE
    requires high == c / 16 + 48 && c / 16 < 10
    requires low == c % 16 + if c % 16 < 10 then 48 else 55
    ensures Encode([c]) == ['%' as int, high, low]
  {
    EncodeOctet(c);
    UpperDigitCode(c / 16);
    UpperDigitCode(c % 16);
  }

  function Escapes(s: seq<byte>): nat {
    if s == [] then 0 else (if Escaped(s[0]) then 1 else 0) + Escapes(s[1..])
  }

  /** What may stand at position i of an encoded string. */
  ghost predicate WellFormedAt(t: seq<byte>, i: nat)
    requires i < |t|
  {
    Unreserved(t[i]) || t[i] == PLUS
    || (t[i] == PERCENT && i + 2 < |t| && UpperHex(t[i + 1]) && UpperHex(t[i + 2]))
  }

  lemma EncodedByteShape(c: byte, t: seq<byte>, i: nat)
    requires i < |EncodeByte(c)|
    ensures WellFormedAt(EncodeByte(c) + t, i)
  {
    HexInverse(c / 16);
    HexInverse(c % 16);
  }

  /** The output is unreserved characters, '+', and '%' with two upper-case digits;
      every escaped octet costs two characters more. */
  lemma {:induction false} EncodeShape(s: seq<byte>)
    ensures |Encode(s)| == |s| + 2 * Escapes(s)
    ensures forall i :: 0 <= i < |Encode(s)| ==> WellFormedAt(Encode(s), i)
  {
    if s != [] {
      EncodeShape(s[1..]);
      var h, e := EncodeByte(s[0]), Encode(s[1..]);
      forall i | 0 <= i < |h + e|
        ensures WellFormedAt(h + e, i)
      {
        if i < |h| {
          EncodedByteShape(s[0], e, i);
        } else {
          assert WellFormedAt(e, i - |h|);
        }
      }
    }
  }

  /** The strings the encoder produces: escapes are upper-case and only where needed. */
  predicate Canonical(t: seq<byte>) {
    t == [] ||
    if t[0] == PERCENT then
      |t| > 2 && UpperHex(t[1]) && UpperHex(t[2])
      && Escaped(Join(FromHex(t[1]).value, FromHex(t[2]).value))
      && Canonical(t[3..])
    else (Unreserved(t[0]) || t[0] == PLUS) && Canonical(t[1..])
  }

  lemma JoinSplits(high: byte, low: byte)
    requires high < 16 && low < 16
    ensures Join(high, low) / 16 == high && Join(high, low) % 16 == low
  {
  }

  lemma JoinHalves(c: byte)
    ensures Join(c / 16, c % 16) == c
  {
  }

  lemma EncodedByteIsCanonical(c: byte, t: seq<byte>)
    requires Canonical(t)
    ensures Canonical(EncodeByte(c) + t)
  {
    var s := EncodeByte(c) + t;
    if Escaped(c) {
      HexInverse(c / 16);
      HexInverse(c % 16);
      JoinHalves(c);
      assert s[3..] == t;
    } else {
      assert s[1..] == t;
    }
  }

  lemma {:induction false} EncodeIsCanonical(s: seq<byte>)
    ensures Canonical(Encode(s))
  {
    if s != [] {
      EncodeIsCanonical(s[1..]);
      EncodedByteIsCanonical(s[0], Encode(s[1..]));
    }
  }

  lemma {:induction false} CanonicalInverse(t: seq<byte>)
    requires Canonical(t)
    ensures Decode(t).Ok? && Encode(Decode(t).value) == t
  {
    if t == [] {
    } else if t[0] == PERCENT {
      CanonicalInverse(t[3..]);
      HexInverse(t[1]);
      HexInverse(t[2]);
      JoinSplits(FromHex(t[1]).value, FromHex(t[2]).value);
      assert t == [PERCENT, t[1], t[2]] + t[3..];
    } else {
      CanonicalInverse(t[1..]);
      assert t == [t[0]] + t[1..];
    }
  }

  /** A string is decoded and encoded back to itself exactly if it is canonical. */
  lemma CanonicalExactly(t: seq<byte>)
    ensures Decode(t).Ok? && Encode(Decode(t).value) == t <==> Canonical(t)
  {
    if Canonical(t) {
      CanonicalInverse(t);
    } else if Decode(t).Ok? {
      EncodeIsCanonical(Decode(t).value);
    }
  }

  // ---------- the loops ----------

  /** Lines 106-128. */
  method UrlEncode(str: seq<byte>) returns (strTemp: seq<byte>)
    ensures strTemp == Encode(str)
  {
    strTemp := [];
    var length := |str|;
    for i := 0 to length
      invariant strTemp == Encode(str[..i])
    {
      EncodeConcat(str[..i], [str[i]]);
      assert str[..i + 1] == str[..i] + [str[i]];
      if Unreserved(str[i]) {
        strTemp := strTemp + [str[i]];
      } else if str[i] == SPACE {
        strTemp := strTemp + [PLUS];
      } else {
        strTemp := strTemp + [PERCENT];
        strTemp := strTemp + [ToHex(str[i] / 16)];
        strTemp := strTemp + [ToHex(str[i] % 16)];
      }
    }
    assert str[..length] == str;
  }

  /** Lines 129-146; `Aborted` if one of the two asserts fails. */
  method UrlDecode(str: seq<byte>) returns (r: Result<seq<byte>>)
    ensures r == Decode(str)
  {
    var strTemp: seq<byte> := [];
    var length := |str|;
    var i := 0;
    PrependTwice([], [], Decode(str));
    assert str[0..] == str;
    while i < length
      invariant 0 <= i <= length
      invariant Decode(str) == Prepend(strTemp, Decode(str[i..]))
    {
      ghost var rest, before := str[i..], strTemp;
      if str[i] == PLUS {
        strTemp := strTemp + [SPACE];
      } else if str[i] == PERCENT {
        if !(i + 2 < length) {
          return Aborted;
        }
        assert rest[3..] == str[i + 3..];
        i := i + 1;
        var high := FromHex(str[i]);
        if high.Aborted? {
          return Aborted;
        }
        i := i + 1;
        var low := FromHex(str[i]);
        if low.Aborted? {
          return Aborted;
        }
        strTemp := strTemp + [Join(high.value, low.value)];
      } else {
        strTemp := strTemp + [str[i]];
      }
      i := i + 1;
      PrependTwice(before, strTemp[|before|..], Decode(str[i..]));
    }
    assert str[i..] == [] && strTemp + [] == strTemp;
    return Ok(strTemp);
  }

  /** What the program encodes it decodes, without an abort, to the same octets. */
  method EncodeThenDecode(s: seq<byte>) returns (r: Result<seq<byte>>)
    ensures r == Ok(s)
  {
    var t := UrlEncode(s);
    r := UrlDecode(t);
    RoundTrip(s);
  }
}
