/** Both variants of `skip_trailing_space` in include/mysql/m_string.h refine a scan
    that goes back one octet at a time. Memory is an array whose first octet has the
    address `base`; pointers are addresses. */
module SkipSpace {
  import opened Bytes
  import opened ByteOrder

  // ---------- the plain scan ----------

  /** The length without trailing spaces. */
  function TrimmedLen(s: seq<byte>): (k: nat)
    ensures k <= |s|
  {
    if s == [] || s[|s| - 1] != SPACE then |s| else TrimmedLen(s[..|s| - 1])
  }

  ghost predicate AllSpaces(s: seq<byte>) {
    forall i :: 0 <= i < |s| ==> s[i] == SPACE
  }

  /** The scan ends at the one position with only spaces behind it and none before it. */
  lemma {:induction false} TrimmedLenIs(s: seq<byte>, k: nat)
    ensures k == TrimmedLen(s) <==> k <= |s| && AllSpaces(s[k..]) && (k > 0 ==> s[k - 1] != SPACE)
  {
    if s != [] && s[|s| - 1] == SPACE {
      var t := s[..|s| - 1];
      TrimmedLenIs(t, k);
      if k <= |t| {
        assert s[k..] == t[k..] + [SPACE];
        if AllSpaces(s[k..]) {
          assert forall i :: 0 <= i < |t[k..]| ==> t[k..][i] == s[k..][i];
        }
      }
    } else if s != [] && k < |s| {
      assert s[k..][|s| - 1 - k] == s[|s| - 1];
    }
  }

  // ---------- words of spaces ----------

  function BE(s: seq<byte>): nat {
    if s == [] then 0 else BE(s[..|s| - 1]) * 256 + s[|s| - 1]
  }

  /** A word as the machine loads it. */
  function WordValue(s: seq<byte>, bigEndian: bool): nat {
    if bigEndian then BE(s) else LE(s)
  }

  /** 0x20 repeated. */
  function SpaceWord(n: nat): nat {
    if n == 0 then 0 else 32 + 256 * SpaceWord(n - 1)
  }

  lemma SpaceWordValues()
    ensures SpaceWord(4) == 0x2020_2020 && SpaceWord(8) == 0x2020_2020_2020_2020
  {
    assert SpaceWord(2) == 0x2020;
    assert SpaceWord(6) == 0x2020_2020_2020;
  }

  lemma SameDigits(x: byte, a: nat, y: byte, b: nat)
    ensures x + 256 * a == y + 256 * b <==> x == y && a == b
  {
    if a < b {
      assert 256 * a + 256 <= 256 * b;
    } else if b < a {
      assert 256 * b + 256 <= 256 * a;
    }
  }

  lemma FirstAndRest(s: seq<byte>)
    requires s != []
    ensures AllSpaces(s) <==> s[0] == SPACE && AllSpaces(s[1..])
  {
    if s[0] == SPACE && AllSpaces(s[1..]) {
      forall i | 0 <= i < |s| ensures s[i] == SPACE {
        if i > 0 { assert s[i] == s[1..][i - 1]; }
      }
    }
  }

  lemma LastAndRest(s: seq<byte>)
    requires s != []
    ensures AllSpaces(s) <==> s[|s| - 1] == SPACE && AllSpaces(s[..|s| - 1])
  {
    if s[|s| - 1] == SPACE && AllSpaces(s[..|s| - 1]) {
      forall i | 0 <= i < |s| ensures s[i] == SPACE {
        if i < |s| - 1 { assert s[i] == s[..|s| - 1][i]; }
      }
    }
  }

  lemma {:induction false} LESpaces(s: seq<byte>)
    ensures LE(s) == SpaceWord(|s|) <==> AllSpaces(s)
  {
    if s != [] {
      LESpaces(s[1..]);
      FirstAndRest(s);
      SameDigits(s[0], LE(s[1..]), 32, SpaceWord(|s| - 1));
    }
  }

  lemma {:induction false} BESpaces(s: seq<byte>)
    ensures BE(s) == SpaceWord(|s|) <==> AllSpaces(s)
  {
    if s != [] {
      BESpaces(s[..|s| - 1]);
      LastAndRest(s);
      SameDigits(s[|s| - 1], BE(s[..|s| - 1]), 32, SpaceWord(|s| - 1));
    }
  }

  /** In either byte order, a word equals the constant exactly if all its octets are
      spaces. */
  lemma SpaceWordMeansSpaces(s: seq<byte>, bigEndian: bool)
    ensures WordValue(s, bigEndian) == SpaceWord(|s|) <==> AllSpaces(s)
  {
    LESpaces(s);
    BESpaces(s);
  }

  // ---------- the two loops ----------

  /** The octets from address `lo` up to `hi`. */
  ghost function Octets(buf: array<byte>, base: nat, lo: nat, hi: nat): seq<byte>
    requires base <= lo <= hi <= base + buf.Length
    reads buf
  {
    buf[lo - base..hi - base]
  }

  /** An aligned load of an `unsigned` that must lie between `lo` and `hi`. */
  method LoadWord(buf: array<byte>, base: nat, at: nat, size: nat, bigEndian: bool, ghost lo: nat, ghost hi: nat)
    returns (w: nat)
    requires size > 0 && at % size == 0
    requires base <= lo <= at && at + size <= hi <= base + buf.Length
    ensures w == WordValue(Octets(buf, base, at, at + size), bigEndian)
  {
    w := WordValue(buf[at - base..at + size - base], bigEndian);
  }

  /** Everything from `end` up to `hi` is spaces. */
  ghost predicate SpacesFrom(buf: array<byte>, base: nat, end: nat, hi: nat)
    requires base <= end <= hi <= base + buf.Length
    reads buf
  {
    forall i :: end - base <= i < hi - base ==> buf[i] == SPACE
  }

  lemma ScanDone(buf: array<byte>, base: nat, ptr: nat, len: nat, end: nat)
    requires base <= ptr <= end <= ptr + len <= base + buf.Length
    requires SpacesFrom(buf, base, end, ptr + len)
    requires end > ptr ==> buf[end - 1 - base] != SPACE
    ensures end == ptr + TrimmedLen(Octets(buf, base, ptr, ptr + len))
  {
    var s, k := Octets(buf, base, ptr, ptr + len), end - ptr;
    TrimmedLenIs(s, k);
    assert forall i :: 0 <= i < |s[k..]| ==> s[k..][i] == buf[end - base + i];
  }

  /** The last loop of both variants, lines 311-313 and 330-332. */
  method SkipOctets(buf: array<byte>, base: nat, ptr: nat, start: nat, ghost hi: nat) returns (end: nat)
    requires base <= ptr <= start <= hi <= base + buf.Length
    requires SpacesFrom(buf, base, start, hi)
    ensures end == ptr + TrimmedLen(Octets(buf, base, ptr, hi))
  {
    end := start;
    while end > ptr && buf[end - 1 - base] == SPACE
      invariant ptr <= end <= start && SpacesFrom(buf, base, end, hi)
    {
      end := end - 1;
    }
    ScanDone(buf, base, ptr, hi - ptr, end);
  }

  /** Lines 283-314: aligned words, for any address, length and content. Each word
      loaded is aligned and lies inside the buffer. */
  method SkipTrailingSpaceAligned(buf: array<byte>, base: nat, ptr: nat, len: nat, sizeofInt: nat, bigEndian: bool)
    returns (end: nat)
    requires sizeofInt == 4 || sizeofInt == 8
    requires base <= ptr && ptr + len <= base + buf.Length
    ensures end == ptr + TrimmedLen(Octets(buf, base, ptr, ptr + len))
  {
    var spaceInt := if sizeofInt == 4 then 0x2020_2020 else 0x2020_2020_2020_2020;
    SpaceWordValues();
    ghost var hi := ptr + len;
    end := ptr + len;
    if len > 20 {
      var endWords := end / sizeofInt * sizeofInt;
      var startWords := (ptr + sizeofInt - 1) / sizeofInt * sizeofInt;
      Aligned(end, sizeofInt);
      Aligned(ptr + sizeofInt - 1, sizeofInt);
      assert endWords > ptr;
      while end > endWords && buf[end - 1 - base] == SPACE
        invariant endWords <= end <= hi && SpacesFrom(buf, base, end, hi)
      {
        end := end - 1;
      }
      if buf[end - 1 - base] == SPACE && startWords < endWords {
        while end > startWords
          invariant ptr <= startWords <= end <= hi && end % sizeofInt == 0
          invariant SpacesFrom(buf, base, end, hi)
        {
          WordBelow(end, startWords, sizeofInt);
          var w := LoadWord(buf, base, end - sizeofInt, sizeofInt, bigEndian, ptr, hi);
          SpaceWordMeansSpaces(Octets(buf, base, end - sizeofInt, end), bigEndian);
          if w != spaceInt {
            break;
          }
          MoreSpaces(buf, base, end, hi, sizeofInt);
          end := end - sizeofInt;
        }
      }
    }
    end := SkipOctets(buf, base, ptr, end, hi);
  }

  lemma Aligned(a: nat, size: nat)
    requires size == 4 || size == 8
    ensures a / size * size % size == 0
    ensures a - size < a / size * size <= a
  {
    if size == 4 {
      DivisionIs(a / 4 * 4, 4, a / 4, 0);
    } else {
      DivisionIs(a / 8 * 8, 8, a / 8, 0);
    }
  }

  lemma WordBelow(end: nat, start: nat, size: nat)
    requires size == 4 || size == 8
    requires start < end && end % size == 0 && start % size == 0
    ensures start <= end - size && (end - size) % size == 0
  {
  }

  lemma MoreSpaces(buf: array<byte>, base: nat, end: nat, hi: nat, size: nat)
    requires base + size <= end <= hi <= base + buf.Length && SpacesFrom(buf, base, end, hi)
    requires AllSpaces(Octets(buf, base, end - size, end))
    ensures SpacesFrom(buf, base, end - size, hi)
  {
    var s := Octets(buf, base, end - size, end);
    forall i | end - size - base <= i < end - base ensures buf[i] == SPACE {
      assert buf[i] == s[i - (end - size - base)];
    }
  }

  /** Lines 321-333: eight octets at a time through `uint8korr`, unaligned. */
  method SkipTrailingSpace8(buf: array<byte>, base: nat, ptr: nat, len: nat) returns (end: nat)
    requires base <= ptr && ptr + len <= base + buf.Length
    ensures end == ptr + TrimmedLen(Octets(buf, base, ptr, ptr + len))
  {
    ghost var hi := ptr + len;
    end := ptr + len;
    while end - ptr >= 8
      invariant ptr <= end <= hi && SpacesFrom(buf, base, end, hi)
    {
      var s := buf[end - 8 - base..end - base];
      EightSpaces(s);
      if Uint8Korr(s) != 0x2020_2020_2020_2020 {
        break;
      }
      MoreSpaces(buf, base, end, hi, 8);
      end := end - 8;
    }
    end := SkipOctets(buf, base, ptr, end, hi);
  }

  /** `uint8korr` of eight octets is the constant exactly if all eight are spaces. */
  lemma EightSpaces(s: seq<byte>)
    requires |s| == 8
    ensures Uint8Korr(s) == 0x2020_2020_2020_2020 <==> AllSpaces(s)
  {
    Reads8(s);
    assert s[..8] == s;
    SpaceWordValues();
    SpaceWordMeansSpaces(s, false);
  }

  /** The two variants agree. */
  method BothVariants(buf: array<byte>, base: nat, ptr: nat, len: nat, sizeofInt: nat, bigEndian: bool)
    returns (aligned: nat, plain: nat)
    requires sizeofInt == 4 || sizeofInt == 8
    requires base <= ptr && ptr + len <= base + buf.Length
    ensures aligned == plain
  {
    aligned := SkipTrailingSpaceAligned(buf, base, ptr, len, sizeofInt, bigEndian);
    plain := SkipTrailingSpace8(buf, base, ptr, len);
  }
}
