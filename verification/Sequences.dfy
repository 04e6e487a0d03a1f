/** Searching and counting in sequences without repetition. */
module Sequences {

  ghost predicate Distinct<T>(s: seq<T>) {
    forall i, j :: 0 <= i < j < |s| ==> s[i] != s[j]
  }

  lemma {:induction false} DistinctCount<T>(s: seq<T>, x: T)
    requires Distinct(s)
    ensures multiset(s)[x] == if x in s then 1 else 0
  {
    if s != [] {
      assert s == [s[0]] + s[1..];
      DistinctCount(s[1..], x);
    }
  }

  lemma SliceAppend<T>(s: seq<T>, k: nat, n: nat)
    requires k <= n < |s|
    ensures s[k..n] + [s[n]] == s[k..n + 1]
  {
  }

  /** `std::find`: the first position of x, or the length. */
  function IndexOf<T(==)>(s: seq<T>, x: T): (k: nat)
    ensures k <= |s|
    ensures k < |s| ==> s[k] == x
    ensures forall j :: 0 <= j < k ==> s[j] != x
  {
    if s == [] || s[0] == x then 0 else 1 + IndexOf(s[1..], x)
  }

  /** x occurs for the first time before y does. */
  predicate Before<T(==)>(s: seq<T>, x: T, y: T) {
    IndexOf(s, x) < IndexOf(s, y)
  }

  lemma {:induction false} IndexOfConcat<T>(s: seq<T>, t: seq<T>, x: T)
    ensures IndexOf(s + t, x) == if x in s then IndexOf(s, x) else |s| + IndexOf(t, x)
  {
    if s == [] {
      assert s + t == t;
    } else {
      assert (s + t)[1..] == s[1..] + t;
      IndexOfConcat(s[1..], t, x);
      assert x in s <==> x == s[0] || x in s[1..];
    }
  }

  lemma IndexOfMember<T>(s: seq<T>, x: T)
    ensures IndexOf(s, x) < |s| <==> x in s
  {
  }
}
