/** The rounds of `FileWatcher::TaskFunc` in include/FileSystem.hpp, lines 228-260.
    Each round first sweeps the tracked list for files that are gone and then adds
    and reports files of the listing that are not tracked. What exists and what is
    listed is given per round. */
module FileWatcher {
  import opened Bytes
  import opened Sequences

  type Name = string

  datatype Round = Round(present: set<Name>, listing: seq<Name>)

  // ---------- what one sweep does ----------

  /** The loop erases element i and then increments i, so the element that moves into
      place i is not tested: after each erased file the next one stays. */
  function Survivors(s: seq<Name>, ex: set<Name>): seq<Name> {
    if s == [] then []
    else if s[0] in ex then [s[0]] + Survivors(s[1..], ex)
    else if |s| == 1 then []
    else [s[1]] + Survivors(s[2..], ex)
  }

  function Existing(s: seq<Name>, ex: set<Name>): seq<Name> {
    if s == [] then []
    else if s[0] in ex then [s[0]] + Existing(s[1..], ex)
    else Existing(s[1..], ex)
  }

  /** The number of tracked files that are gone. */
  function Stale(s: seq<Name>, ex: set<Name>): nat {
    if s == [] then 0 else (if s[0] in ex then 0 else 1) + Stale(s[1..], ex)
  }

  /** How many files directly before position i are gone. */
  function MissingBefore(s: seq<Name>, ex: set<Name>, i: nat): nat
    requires i <= |s|
  {
    if i == 0 || s[i - 1] in ex then 0 else 1 + MissingBefore(s, ex, i - 1)
  }

  /** Position i outlives a sweep: the file exists, or it is the 2nd, 4th, 6th ... of
      a run of missing ones. */
  predicate Outlives(s: seq<Name>, ex: set<Name>, i: nat)
    requires i < |s|
  {
    s[i] in ex || MissingBefore(s, ex, i) % 2 == 1
  }

  function Outliving(s: seq<Name>, ex: set<Name>, n: nat): seq<Name>
    requires n <= |s|
  {
    if n == 0 then []
    else Outliving(s, ex, n - 1) + if Outlives(s, ex, n - 1) then [s[n - 1]] else []
  }

  /** The sum of r/2 over all maximal runs of r missing files; `r` are pending. */
  function HalvedRuns(s: seq<Name>, ex: set<Name>, r: nat): nat {
    if s == [] then r / 2
    else if s[0] in ex then r / 2 + HalvedRuns(s[1..], ex, 0)
    else HalvedRuns(s[1..], ex, r + 1)
  }

  lemma SurvivorsStep(s: seq<Name>, ex: set<Name>, k: nat)
    requires k < |s|
    ensures s[k] in ex ==> Survivors(s[k..], ex) == [s[k]] + Survivors(s[k + 1..], ex)
    ensures s[k] !in ex && k + 1 == |s| ==> Survivors(s[k..], ex) == []
    ensures s[k] !in ex && k + 1 < |s| ==> Survivors(s[k..], ex) == [s[k + 1]] + Survivors(s[k + 2..], ex)
  {
    assert s[k..][1..] == s[k + 1..];
    if k + 1 < |s| {
      assert s[k..][2..] == s[k + 2..];
    }
  }

  lemma EvenThenOdd(s: seq<Name>, ex: set<Name>, k: nat)
    requires k < |s| && MissingBefore(s, ex, k) % 2 == 0 && s[k] !in ex
    ensures Outliving(s, ex, k + 1) == Outliving(s, ex, k)
    ensures k + 1 < |s| ==> Outliving(s, ex, k + 2) == Outliving(s, ex, k) + [s[k + 1]]
                            && MissingBefore(s, ex, k + 2) % 2 == 0
  {
    assert MissingBefore(s, ex, k + 1) == 1 + MissingBefore(s, ex, k);
    if k + 1 < |s| {
      assert Outlives(s, ex, k + 1);
    }
  }

  lemma {:induction false} SurvivorsFrom(s: seq<Name>, ex: set<Name>, k: nat)
    requires k <= |s| && MissingBefore(s, ex, k) % 2 == 0
    ensures Outliving(s, ex, |s|) == Outliving(s, ex, k) + Survivors(s[k..], ex)
    decreases |s| - k
  {
    if k < |s| {
      SurvivorsStep(s, ex, k);
      if s[k] in ex {
        KeptHere(s, ex, k);
        SurvivorsFrom(s, ex, k + 1);
        Associative(Outliving(s, ex, k), s[k], Survivors(s[k + 1..], ex));
      } else {
        EvenThenOdd(s, ex, k);
        if k + 1 < |s| {
          SurvivorsFrom(s, ex, k + 2);
          Associative(Outliving(s, ex, k), s[k + 1], Survivors(s[k + 2..], ex));
        }
      }
    }
  }

  lemma KeptHere(s: seq<Name>, ex: set<Name>, k: nat)
    requires k < |s| && s[k] in ex
    ensures Outliving(s, ex, k + 1) == Outliving(s, ex, k) + [s[k]]
    ensures MissingBefore(s, ex, k + 1) == 0
  {
  }

  lemma Associative(s: seq<Name>, f: Name, t: seq<Name>)
    ensures (s + [f]) + t == s + ([f] + t)
  {
  }

  /** A sweep keeps exactly the positions that outlive it, in order. */
  lemma SweepByPosition(s: seq<Name>, ex: set<Name>)
    ensures Survivors(s, ex) == Outliving(s, ex, |s|)
  {
    SurvivorsFrom(s, ex, 0);
    assert s[0..] == s;
  }

  /** A sweep keeps every existing file, in order. */
  lemma {:induction false} SweepKeepsExisting(s: seq<Name>, ex: set<Name>)
    ensures Existing(Survivors(s, ex), ex) == Existing(s, ex)
  {
    if s == [] {
    } else if s[0] in ex {
      SweepKeepsExisting(s[1..], ex);
    } else if |s| > 1 {
      assert s[1..][1..] == s[2..];
      SweepKeepsExisting(s[2..], ex);
    }
  }

  lemma {:induction false} HalvedRunsFrom(s: seq<Name>, ex: set<Name>, r: nat)
    requires r % 2 == 0
    ensures HalvedRuns(s, ex, r) == r / 2 + Stale(Survivors(s, ex), ex)
    decreases |s|
  {
    if s == [] {
    } else if s[0] in ex {
      HalvedRunsFrom(s[1..], ex, 0);
    } else if |s| > 1 {
      assert s[1..][1..] == s[2..];
      HalvedRunsFrom(s[2..], ex, if s[1] in ex then 0 else r + 2);
    }
  }

  /** A sweep leaves r/2 files of each run of r missing ones: at most half of all. */
  lemma SweepHalves(s: seq<Name>, ex: set<Name>)
    ensures Stale(Survivors(s, ex), ex) == HalvedRuns(s, ex, 0)
    ensures 2 * Stale(Survivors(s, ex), ex) <= Stale(s, ex)
  {
    HalvedRunsFrom(s, ex, 0);
    HalvedRunsBound(s, ex, 0);
  }

  lemma {:induction false} HalvedRunsBound(s: seq<Name>, ex: set<Name>, r: nat)
    ensures 2 * HalvedRuns(s, ex, r) <= r + Stale(s, ex)
  {
    if s != [] {
      HalvedRunsBound(s[1..], ex, if s[0] in ex then 0 else r + 1);
    }
  }

  // ---------- repeated sweeps ----------

  function Sweeps(s: seq<Name>, ex: set<Name>, n: nat): seq<Name>
    decreases n
  {
    if n == 0 then s else Sweeps(Survivors(s, ex), ex, n - 1)
  }

  lemma {:induction false} NothingStale(s: seq<Name>, ex: set<Name>)
    requires Stale(s, ex) == 0
    ensures Existing(s, ex) == s
  {
    if s != [] {
      NothingStale(s[1..], ex);
    }
  }

  /** n sweeps over a file system that does not change remove all of fewer than 2^n
      stale files and nothing else. */
  lemma {:induction false} SweepsRemoveAll(s: seq<Name>, ex: set<Name>, n: nat)
    requires Stale(s, ex) < Pow2(n)
    ensures Sweeps(s, ex, n) == Existing(s, ex)
    decreases n
  {
    if n == 0 {
      NothingStale(s, ex);
    } else {
      SweepHalves(s, ex);
      SweepKeepsExisting(s, ex);
      SweepsRemoveAll(Survivors(s, ex), ex, n - 1);
    }
  }

  function Max(x: nat, y: nat): nat {
    if x < y then y else x
  }

  /** The length of the longest run of missing files; `r` are pending. */
  function LongestRun(s: seq<Name>, ex: set<Name>, r: nat): nat {
    if s == [] then r
    else if s[0] in ex then Max(r, LongestRun(s[1..], ex, 0))
    else LongestRun(s[1..], ex, r + 1)
  }

  lemma {:induction false} SweepHalvesLongest(s: seq<Name>, ex: set<Name>, r: nat)
    requires r % 2 == 0
    ensures LongestRun(Survivors(s, ex), ex, r / 2) == LongestRun(s, ex, r) / 2
    decreases |s|
  {
    if s == [] {
    } else if s[0] in ex {
      SweepHalvesLongest(s[1..], ex, 0);
    } else if |s| > 1 {
      assert s[1..][1..] == s[2..];
      SweepHalvesLongest(s[2..], ex, if s[1] in ex then 0 else r + 2);
    }
  }

  lemma {:induction false} NoRunMeansNoneMissing(s: seq<Name>, ex: set<Name>)
    ensures LongestRun(s, ex, 0) == 0 <==> Existing(s, ex) == s
  {
    if s != [] {
      NoRunMeansNoneMissing(s[1..], ex);
      PendingCounts(s[1..], ex, 1);
      ExistingIsShorter(s[1..], ex);
    }
  }

  lemma {:induction false} PendingCounts(s: seq<Name>, ex: set<Name>, r: nat)
    ensures LongestRun(s, ex, r) >= r
  {
    if s != [] && s[0] !in ex {
      PendingCounts(s[1..], ex, r + 1);
    }
  }

  lemma {:induction false} ExistingIsShorter(s: seq<Name>, ex: set<Name>)
    ensures |Existing(s, ex)| <= |s|
  {
    if s != [] {
      ExistingIsShorter(s[1..], ex);
    }
  }

  lemma {:induction false} SweepsOfLongest(s: seq<Name>, ex: set<Name>, n: nat)
    ensures Sweeps(s, ex, n) == Existing(s, ex) <==> LongestRun(s, ex, 0) < Pow2(n)
    decreases n
  {
    if n == 0 {
      NoRunMeansNoneMissing(s, ex);
    } else {
      SweepsOfLongest(Survivors(s, ex), ex, n - 1);
      SweepKeepsExisting(s, ex);
      SweepHalvesLongest(s, ex, 0);
    }
  }

  /** The m files from position i on are all missing. */
  ghost predicate MissingRun(s: seq<Name>, ex: set<Name>, i: nat, m: nat) {
    i + m <= |s| && forall k :: i <= k < i + m ==> s[k] !in ex
  }

  lemma {:induction false} MissingBeforeIs(s: seq<Name>, ex: set<Name>, i: nat, m: nat)
    requires m <= i <= |s|
    ensures MissingBefore(s, ex, i) >= m <==> MissingRun(s, ex, i - m, m)
  {
    if m > 0 {
      MissingBeforeIs(s, ex, i - 1, m - 1);
    }
  }

  lemma {:induction false} MissingBeforeBound(s: seq<Name>, ex: set<Name>, i: nat)
    requires i <= |s|
    ensures MissingBefore(s, ex, i) <= i
  {
    if i > 0 {
      MissingBeforeBound(s, ex, i - 1);
    }
  }

  ghost predicate MissingBeforeSome(s: seq<Name>, ex: set<Name>, k: nat, m: nat) {
    exists i :: k <= i <= |s| && MissingBefore(s, ex, i) >= m
  }

  lemma {:induction false} LongestRunFrom(s: seq<Name>, ex: set<Name>, k: nat, m: nat)
    requires k <= |s|
    ensures LongestRun(s[k..], ex, MissingBefore(s, ex, k)) >= m <==> MissingBeforeSome(s, ex, k, m)
    decreases |s| - k
  {
    if k < |s| {
      assert s[k..][1..] == s[k + 1..];
      LongestRunFrom(s, ex, k + 1, m);
      assert MissingBeforeSome(s, ex, k, m) <==> MissingBefore(s, ex, k) >= m || MissingBeforeSome(s, ex, k + 1, m);
    }
  }

  lemma LongestRunIs(s: seq<Name>, ex: set<Name>, m: nat)
    ensures LongestRun(s, ex, 0) >= m <==> exists i :: MissingRun(s, ex, i, m)
  {
    LongestRunFrom(s, ex, 0, m);
    assert s[0..] == s;
    if i :| 0 <= i <= |s| && MissingBefore(s, ex, i) >= m {
      MissingBeforeBound(s, ex, i);
      MissingBeforeIs(s, ex, i, m);
    }
    if i: nat :| MissingRun(s, ex, i, m) {
      MissingBeforeIs(s, ex, i + m, m);
    }
  }

  /** n sweeps over a file system that does not change leave exactly the existing files
      exactly if no 2^n neighbours are all missing. */
  lemma SweepsAreCompleteExactly(s: seq<Name>, ex: set<Name>, n: nat)
    ensures Sweeps(s, ex, n) == Existing(s, ex) <==> !exists i :: MissingRun(s, ex, i, Pow2(n))
  {
    SweepsOfLongest(s, ex, n);
    LongestRunIs(s, ex, Pow2(n));
  }

  ghost predicate NoTwoMissingInARow(s: seq<Name>, ex: set<Name>) {
    forall i :: 0 <= i < |s| - 1 ==> s[i] in ex || s[i + 1] in ex
  }

  /** One sweep removes everything that is gone exactly if no two neighbours are. */
  lemma SweepIsCompleteExactly(s: seq<Name>, ex: set<Name>)
    ensures Survivors(s, ex) == Existing(s, ex) <==> NoTwoMissingInARow(s, ex)
  {
    SweepsAreCompleteExactly(s, ex, 1);
    assert Sweeps(s, ex, 1) == Sweeps(Survivors(s, ex), ex, 0);
    assert Pow2(1) == 2;
    if !NoTwoMissingInARow(s, ex) {
      var i :| 0 <= i < |s| - 1 && s[i] !in ex && s[i + 1] !in ex;
      assert MissingRun(s, ex, i, 2);
    }
    if i: nat :| MissingRun(s, ex, i, 2) {
      assert s[i] !in ex && s[i + 1] !in ex;
    }
  }

  // ---------- discovery ----------

  /** The listed files that are not tracked, once each, in the order of the listing. */
  function NewFiles(files: seq<Name>, listing: seq<Name>): seq<Name>
    decreases |listing|
  {
    if listing == [] then []
    else if listing[0] in files then NewFiles(files, listing[1..])
    else [listing[0]] + NewFiles(files + [listing[0]], listing[1..])
  }

  /** New files are exactly the untracked listed ones, without repetition. */
  lemma {:induction false} NewFilesAre(files: seq<Name>, listing: seq<Name>)
    requires Distinct(files)
    ensures Distinct(files + NewFiles(files, listing))
    ensures forall f :: f in NewFiles(files, listing) <==> f in listing && f !in files
    decreases |listing|
  {
    if listing != [] {
      assert listing == [listing[0]] + listing[1..];
      if listing[0] in files {
        NewFilesAre(files, listing[1..]);
      } else {
        var more := files + [listing[0]];
        NewFilesAre(more, listing[1..]);
        assert files + NewFiles(files, listing) == more + NewFiles(more, listing[1..]);
      }
    }
  }

  lemma {:induction false} SurvivorsAreTracked(s: seq<Name>, ex: set<Name>)
    ensures forall f :: f in Survivors(s, ex) ==> f in s
    ensures forall f :: f in s && f in ex ==> f in Survivors(s, ex)
  {
    if s == [] {
    } else if s[0] in ex {
      SurvivorsAreTracked(s[1..], ex);
      assert s == [s[0]] + s[1..];
    } else if |s| > 1 {
      SurvivorsAreTracked(s[2..], ex);
      assert s == [s[0], s[1]] + s[2..];
    }
  }

  lemma DistinctCons(f: Name, s: seq<Name>)
    requires Distinct(s) && f !in s
    ensures Distinct([f] + s)
  {
  }

  lemma {:induction false} SurvivorsDistinct(s: seq<Name>, ex: set<Name>)
    requires Distinct(s)
    ensures Distinct(Survivors(s, ex))
  {
    if s == [] {
    } else if s[0] in ex {
      SurvivorsDistinct(s[1..], ex);
      SurvivorsAreTracked(s[1..], ex);
      DistinctCons(s[0], Survivors(s[1..], ex));
    } else if |s| > 1 {
      SurvivorsDistinct(s[2..], ex);
      SurvivorsAreTracked(s[2..], ex);
      DistinctCons(s[1], Survivors(s[2..], ex));
    }
  }

  // ---------- whole runs ----------

  /** The list before round n, from the empty list the watcher starts with. */
  function Tracked(rounds: seq<Round>, n: nat): seq<Name>
    requires n <= |rounds|
    decreases n, 0
  {
    if n == 0 then [] else Swept(rounds, n - 1) + Reported(rounds, n - 1)
  }

  /** The list in round n between its two halves. */
  function Swept(rounds: seq<Round>, n: nat): seq<Name>
    requires n < |rounds|
    decreases n, 1
  {
    Survivors(Tracked(rounds, n), rounds[n].present)
  }

  /** The files reported in round n. */
  function Reported(rounds: seq<Round>, n: nat): seq<Name>
    requires n < |rounds|
    decreases n, 2
  {
    NewFiles(Swept(rounds, n), rounds[n].listing)
  }

  /** The list never repeats a file, and after a round it has the whole listing. */
  lemma {:induction false} TrackedIsComplete(rounds: seq<Round>, n: nat)
    requires n <= |rounds|
    ensures Distinct(Tracked(rounds, n))
    ensures n > 0 ==> forall f :: f in rounds[n - 1].listing ==> f in Tracked(rounds, n)
  {
    if n > 0 {
      TrackedIsComplete(rounds, n - 1);
      SurvivorsDistinct(Tracked(rounds, n - 1), rounds[n - 1].present);
      NewFilesAre(Swept(rounds, n - 1), rounds[n - 1].listing);
    }
  }

  // ---------- the order of the list ----------

  /** Putting the same name in front of two lists keeps what they agree on. */
  lemma FrontInOrder(x: Name, s: seq<Name>, t: seq<Name>, f: Name, g: Name)
    requires f != x && g != x ==> (Before(s, f, g) <==> Before(t, f, g))
    ensures Before([x] + s, f, g) <==> Before([x] + t, f, g)
  {
    assert ([x] + s)[1..] == s && ([x] + t)[1..] == t;
  }

  /** A name in front does not matter to others. */
  lemma OthersInOrder(x: Name, s: seq<Name>, f: Name, g: Name)
    requires f != x && g != x
    ensures Before([x] + s, f, g) <==> Before(s, f, g)
  {
    assert ([x] + s)[1..] == s;
  }

  /** The position of the first file that a sweep keeps. */
  function FirstKept(s: seq<Name>, ex: set<Name>): nat {
    if s != [] && s[0] in ex then 0 else 1
  }

  lemma SurvivorsByFirst(s: seq<Name>, ex: set<Name>, f: Name)
    requires Distinct(s) && f in Survivors(s, ex)
    ensures var k := FirstKept(s, ex);
            && k < |s| && Survivors(s, ex) == [s[k]] + Survivors(s[k + 1..], ex)
            && (f == s[k] || f in Survivors(s[k + 1..], ex)) && (k == 1 ==> f != s[0])
  {
    SurvivorsAreTracked(s[1..], ex);
    if s[0] !in ex {
      SurvivorsAreTracked(s[2..], ex);
    }
  }

  lemma {:induction false} SurvivorsInOrder(s: seq<Name>, ex: set<Name>, f: Name, g: Name)
    requires Distinct(s) && f in Survivors(s, ex) && g in Survivors(s, ex)
    ensures Before(Survivors(s, ex), f, g) <==> Before(s, f, g)
    decreases |s|
  {
    SurvivorsByFirst(s, ex, f);
    SurvivorsByFirst(s, ex, g);
    var k := FirstKept(s, ex);
    var rest := s[k + 1..];
    if f != s[k] && g != s[k] {
      SurvivorsInOrder(rest, ex, f, g);
    }
    FrontInOrder(s[k], Survivors(rest, ex), rest, f, g);
    assert [s[k]] + rest == s[k..];
    if k == 1 {
      OthersInOrder(s[0], s[1..], f, g);
      assert [s[0]] + s[1..] == s;
    }
  }

  lemma {:induction false} NewFilesInOrder(files: seq<Name>, listing: seq<Name>, f: Name, g: Name)
    requires Distinct(files) && f in NewFiles(files, listing) && g in NewFiles(files, listing)
    ensures Before(NewFiles(files, listing), f, g) <==> Before(listing, f, g)
    decreases |listing|
  {
    NewFilesAre(files, listing);
    assert listing == [listing[0]] + listing[1..];
    if listing[0] in files {
      OthersInOrder(listing[0], listing[1..], f, g);
      NewFilesInOrder(files, listing[1..], f, g);
    } else {
      var more := files + [listing[0]];
      if f != listing[0] && g != listing[0] {
        NewFilesInOrder(more, listing[1..], f, g);
      }
      FrontInOrder(listing[0], listing[1..], NewFiles(more, listing[1..]), f, g);
    }
  }

  /** After a round, two files that it did not add stand as they stood before it; they
      stand before every file that it added; and the files that it added stand, and
      were reported, in the order of their first occurrence in the listing. */
  lemma RoundKeepsOrder(rounds: seq<Round>, n: nat, f: Name, g: Name)
    requires n < |rounds| && f in Tracked(rounds, n + 1) && g in Tracked(rounds, n + 1)
    ensures f !in Reported(rounds, n) && g !in Reported(rounds, n) ==>
              f in Tracked(rounds, n) && (Before(Tracked(rounds, n + 1), f, g) <==> Before(Tracked(rounds, n), f, g))
    ensures f !in Reported(rounds, n) && g in Reported(rounds, n) ==>
              Before(Tracked(rounds, n + 1), f, g)
    ensures f in Reported(rounds, n) && g in Reported(rounds, n) ==>
              && (Before(Tracked(rounds, n + 1), f, g) <==> Before(rounds[n].listing, f, g))
              && (Before(Reported(rounds, n), f, g) <==> Before(rounds[n].listing, f, g))
  {
    var s, r := Swept(rounds, n), Reported(rounds, n);
    TrackedIsComplete(rounds, n);
    SurvivorsDistinct(Tracked(rounds, n), rounds[n].present);
    SurvivorsAreTracked(Tracked(rounds, n), rounds[n].present);
    ReportedExactly(rounds, n, f);
    ReportedExactly(rounds, n, g);
    PositionsAfterRound(s, r, f);
    PositionsAfterRound(s, r, g);
    if f in s && g in s {
      SurvivorsInOrder(Tracked(rounds, n), rounds[n].present, f, g);
    }
    if f in r && g in r {
      NewFilesInOrder(s, rounds[n].listing, f, g);
    }
  }

  lemma PositionsAfterRound(s: seq<Name>, r: seq<Name>, f: Name)
    requires f in s + r
    ensures f in s ==> IndexOf(s + r, f) == IndexOf(s, f) < |s|
    ensures f !in s ==> IndexOf(s + r, f) == |s| + IndexOf(r, f)
  {
    IndexOfConcat(s, r, f);
    IndexOfMember(s, f);
  }

  /** A file is reported exactly when it is listed and the sweep left it untracked. */
  lemma ReportedExactly(rounds: seq<Round>, n: nat, f: Name)
    requires n < |rounds|
    ensures f in Reported(rounds, n) <==> f in rounds[n].listing && f !in Swept(rounds, n)
    ensures multiset(Reported(rounds, n))[f] == if f in Reported(rounds, n) then 1 else 0
  {
    TrackedIsComplete(rounds, n);
    SurvivorsDistinct(Tracked(rounds, n), rounds[n].present);
    var s := Swept(rounds, n);
    NewFilesAre(s, rounds[n].listing);
    var r := Reported(rounds, n);
    assert Distinct(r) by {
      assert forall i :: 0 <= i < |r| ==> (s + r)[|s| + i] == r[i];
    }
    DistinctCount(r, f);
  }

  lemma StaysOneRound(rounds: seq<Round>, j: nat, f: Name)
    requires j < |rounds| && f in Tracked(rounds, j) && f in rounds[j].present
    ensures f in Tracked(rounds, j + 1) && f !in Reported(rounds, j)
  {
    SurvivorsAreTracked(Tracked(rounds, j), rounds[j].present);
    ReportedExactly(rounds, j, f);
  }

  /** A tracked file that passes its existence tests stays tracked, unreported. */
  lemma {:induction false} StaysTracked(rounds: seq<Round>, i: nat, j: nat, f: Name)
    requires i <= j <= |rounds| && f in Tracked(rounds, i)
    requires forall k :: i <= k < j ==> f in rounds[k].present
    ensures f in Tracked(rounds, j)
    ensures forall k :: i <= k < j ==> f !in Reported(rounds, k)
  {
    if i < j {
      StaysTracked(rounds, i, j - 1, f);
      StaysOneRound(rounds, j - 1, f);
    }
  }

  /** All reports of the rounds i up to j, in order. */
  function Reports(rounds: seq<Round>, i: nat, j: nat): seq<Name>
    requires i <= j <= |rounds|
  {
    if i == j then [] else Reports(rounds, i, j - 1) + Reported(rounds, j - 1)
  }

  lemma {:induction false} NoReports(rounds: seq<Round>, i: nat, j: nat, f: Name)
    requires i <= j <= |rounds|
    requires forall k :: i <= k < j ==> f !in Reported(rounds, k)
    ensures multiset(Reports(rounds, i, j))[f] == 0
  {
    if i < j {
      NoReports(rounds, i, j - 1, f);
    }
  }

  lemma {:induction false} ReportsSplit(rounds: seq<Round>, i: nat, j: nat, n: nat)
    requires i <= j <= n <= |rounds|
    ensures Reports(rounds, i, n) == Reports(rounds, i, j) + Reports(rounds, j, n)
  {
    if j < n {
      ReportsSplit(rounds, i, j, n - 1);
    }
  }

  lemma CountConcat(s: seq<Name>, t: seq<Name>, f: Name)
    ensures multiset(s + t)[f] == multiset(s)[f] + multiset(t)[f]
  {
  }

  /** A file that is listed in round j and passes every later existence test is
      reported once from then on, in round j, if it was not tracked then; if it was,
      it is not reported again. */
  lemma ReportedOnceFromAppearance(rounds: seq<Round>, j: nat, f: Name)
    requires j < |rounds| && f in rounds[j].listing
    requires forall k :: j < k < |rounds| ==> f in rounds[k].present
    ensures multiset(Reports(rounds, j, |rounds|))[f] == if f in Swept(rounds, j) then 0 else 1
    ensures f in Tracked(rounds, |rounds|)
  {
    var n := |rounds|;
    SilentAfter(rounds, j, f);
    ReportsSplit(rounds, j, j + 1, n);
    ReportedExactly(rounds, j, f);
    OneRound(rounds, j);
    CountConcat(Reports(rounds, j, j + 1), Reports(rounds, j + 1, n), f);
  }

  lemma OneRound(rounds: seq<Round>, j: nat)
    requires j < |rounds|
    ensures Reports(rounds, j, j + 1) == Reported(rounds, j)
  {
    assert Reports(rounds, j, j) == [];
  }

  lemma SilentAfter(rounds: seq<Round>, j: nat, f: Name)
    requires j < |rounds| && f in rounds[j].listing
    requires forall k :: j < k < |rounds| ==> f in rounds[k].present
    ensures multiset(Reports(rounds, j + 1, |rounds|))[f] == 0
    ensures f in Tracked(rounds, |rounds|)
  {
    TrackedIsComplete(rounds, j + 1);
    StaysTracked(rounds, j + 1, |rounds|, f);
    NoReports(rounds, j + 1, |rounds|, f);
  }

  lemma {:induction false} OnlyListedAreTracked(rounds: seq<Round>, n: nat, f: Name)
    requires n <= |rounds| && forall k :: 0 <= k < n ==> f !in rounds[k].listing
    ensures f !in Tracked(rounds, n)
  {
    if n > 0 {
      OnlyListedAreTracked(rounds, n - 1, f);
      SurvivorsAreTracked(Tracked(rounds, n - 1), rounds[n - 1].present);
      ReportedExactly(rounds, n - 1, f);
    }
  }

  /** From its first appearance, a file that stays is reported exactly once in the
      whole run. */
  lemma NewFileReportedOnce(rounds: seq<Round>, j: nat, f: Name)
    requires j < |rounds| && f in rounds[j].listing
    requires forall k :: 0 <= k < j ==> f !in rounds[k].listing
    requires forall k :: j < k < |rounds| ==> f in rounds[k].present
    ensures multiset(Reports(rounds, 0, |rounds|))[f] == 1
    ensures f in Reported(rounds, j)
  {
    OnlyListedAreTracked(rounds, j, f);
    SurvivorsAreTracked(Tracked(rounds, j), rounds[j].present);
    ReportedExactly(rounds, j, f);
    ReportedOnceFromAppearance(rounds, j, f);
    forall k | 0 <= k < j ensures f !in Reported(rounds, k) {
      ReportedExactly(rounds, k, f);
    }
    NoReports(rounds, 0, j, f);
    ReportsSplit(rounds, 0, j, |rounds|);
    CountConcat(Reports(rounds, 0, j), Reports(rounds, j, |rounds|), f);
  }

  lemma {:induction false} OutlivingAre(s: seq<Name>, ex: set<Name>, n: nat, f: Name)
    requires n <= |s|
    ensures f in Outliving(s, ex, n) <==> exists p :: 0 <= p < n && s[p] == f && Outlives(s, ex, p)
  {
    if n > 0 {
      OutlivingAre(s, ex, n - 1, f);
    }
  }

  /** The sweep of round n drops f: it is tracked, it is missing, and the number of
      files missing directly before it is even. */
  predicate Dropped(rounds: seq<Round>, n: nat, f: Name)
    requires n < |rounds|
  {
    var s, ex := Tracked(rounds, n), rounds[n].present;
    var p := IndexOf(s, f);
    p < |s| && f !in ex && MissingBefore(s, ex, p) % 2 == 0
  }

  lemma DroppedExactly(rounds: seq<Round>, n: nat, f: Name)
    requires n < |rounds|
    ensures Dropped(rounds, n, f) <==> f in Tracked(rounds, n) && f !in Swept(rounds, n)
  {
    var s, ex := Tracked(rounds, n), rounds[n].present;
    TrackedIsComplete(rounds, n);
    SweepByPosition(s, ex);
    OutlivingAre(s, ex, |s|, f);
    SurvivorsAreTracked(s, ex);
    var p := IndexOf(s, f);
    if p < |s| {
      assert forall q :: 0 <= q < |s| && s[q] == f ==> q == p;
    }
  }

  function One(b: bool): nat {
    if b then 1 else 0
  }

  /** In how many of the rounds i up to j the sweep drops f. */
  function Drops(rounds: seq<Round>, i: nat, j: nat, f: Name): nat
    requires i <= j <= |rounds|
  {
    if i == j then 0 else Drops(rounds, i, j - 1, f) + One(Dropped(rounds, j - 1, f))
  }

  lemma BalanceOfRound(rounds: seq<Round>, n: nat, f: Name)
    requires n < |rounds|
    ensures multiset(Reported(rounds, n))[f] + One(f in Tracked(rounds, n))
            == One(Dropped(rounds, n, f)) + One(f in Tracked(rounds, n + 1))
  {
    DroppedExactly(rounds, n, f);
    ReportedExactly(rounds, n, f);
    SurvivorsAreTracked(Tracked(rounds, n), rounds[n].present);
    assert f in Tracked(rounds, n + 1) <==> f in Swept(rounds, n) || f in Reported(rounds, n);
  }

  /** From round i to round j, f is reported as often as it enters the list, and leaves
      the list only by being dropped. */
  ghost predicate Balanced(rounds: seq<Round>, i: nat, j: nat, f: Name)
    requires i <= j <= |rounds|
  {
    multiset(Reports(rounds, i, j))[f] + One(f in Tracked(rounds, i))
    == Drops(rounds, i, j, f) + One(f in Tracked(rounds, j))
  }

  lemma BalancedLonger(rounds: seq<Round>, i: nat, j: nat, f: Name)
    requires i < j <= |rounds| && Balanced(rounds, i, j - 1, f)
    ensures Balanced(rounds, i, j, f)
  {
    CountConcat(Reports(rounds, i, j - 1), Reported(rounds, j - 1), f);
    BalanceOfRound(rounds, j - 1, f);
  }

  /** The list's balance, for every file and any stretch of any run. */
  lemma {:induction false} ReportsBalance(rounds: seq<Round>, i: nat, j: nat, f: Name)
    requires i <= j <= |rounds|
    ensures Balanced(rounds, i, j, f)
  {
    if i < j {
      ReportsBalance(rounds, i, j - 1, f);
      BalancedLonger(rounds, i, j, f);
    }
  }

  lemma {:induction false} TrackedUntilDropped(rounds: seq<Round>, i: nat, j: nat, f: Name)
    requires i <= j < |rounds| && f in Tracked(rounds, i)
    requires forall k :: i <= k < j ==> f !in rounds[k].listing
    ensures f in Swept(rounds, j) <==> forall k :: i <= k <= j ==> !Dropped(rounds, k, f)
    decreases j - i
  {
    DroppedExactly(rounds, i, f);
    if i < j {
      ReportedExactly(rounds, i, f);
      if f in Swept(rounds, i) {
        TrackedUntilDropped(rounds, i + 1, j, f);
      } else {
        NotTrackedUntilListed(rounds, i + 1, j, f);
      }
    }
  }

  lemma {:induction false} NotTrackedUntilListed(rounds: seq<Round>, i: nat, j: nat, f: Name)
    requires i <= j < |rounds| && f !in Tracked(rounds, i)
    requires forall k :: i <= k < j ==> f !in rounds[k].listing
    ensures f !in Swept(rounds, j)
    decreases j - i
  {
    SurvivorsAreTracked(Tracked(rounds, i), rounds[i].present);
    if i < j {
      ReportedExactly(rounds, i, f);
      NotTrackedUntilListed(rounds, i + 1, j, f);
    }
  }

  /** The next listing with a file after a report of it reports it again exactly if
      some sweep in between dropped it. That it was missing then is not enough. */
  lemma ReportedAgainExactly(rounds: seq<Round>, i: nat, j: nat, f: Name)
    requires i < j < |rounds| && f in Reported(rounds, i) && f in rounds[j].listing
    requires forall k :: i < k < j ==> f !in rounds[k].listing
    ensures f in Reported(rounds, j) <==> exists k :: i < k <= j && Dropped(rounds, k, f)
  {
    TrackedUntilDropped(rounds, i + 1, j, f);
    ReportedExactly(rounds, j, f);
  }

  /** Between any two reports of a file, a sweep dropped it. */
  lemma ReportedAgainAfterMissing(rounds: seq<Round>, i: nat, j: nat, f: Name)
    requires i < j < |rounds| && f in Reported(rounds, i) && f in Reported(rounds, j)
    ensures exists k :: i < k <= j && Dropped(rounds, k, f) && f !in rounds[k].present
  {
    DroppedExactly(rounds, j, f);
    ReportedExactly(rounds, j, f);
    if f !in Tracked(rounds, j) {
      DroppedBefore(rounds, i, j, f);
    }
  }

  lemma DroppedBefore(rounds: seq<Round>, i: nat, j: nat, f: Name)
    requires i < j < |rounds| && f in Reported(rounds, i) && f !in Tracked(rounds, j)
    ensures exists k :: i < k < j && Dropped(rounds, k, f)
  {
    assert f in Tracked(rounds, i + 1);
    ReportsBalance(rounds, i + 1, j, f);
    SomeDrop(rounds, i + 1, j, f);
  }

  lemma {:induction false} SomeDrop(rounds: seq<Round>, i: nat, j: nat, f: Name)
    requires i <= j <= |rounds| && Drops(rounds, i, j, f) > 0
    ensures exists k :: i <= k < j && Dropped(rounds, k, f)
  {
    if !Dropped(rounds, j - 1, f) {
      SomeDrop(rounds, i, j - 1, f);
    }
  }

  /** A deleted file can outlive the sweep behind another one, and is then not reported
      when it is there again. */
  lemma DeletedButNotReportedAgain(a: Name, b: Name)
    requires a != b
    ensures var rounds := [Round({}, [a, b]), Round({}, []), Round({b}, [b])];
            Reported(rounds, 0) == [a, b] && Reported(rounds, 2) == []
  {
    var rounds := [Round({}, [a, b]), Round({}, []), Round({b}, [b])];
    assert Swept(rounds, 0) == [];
    NewPair(a, b);
    assert Tracked(rounds, 1) == Swept(rounds, 0) + Reported(rounds, 0) == [a, b];
    assert Swept(rounds, 1) == Survivors([a, b], {}) == [b] by { assert Survivors([], {}) == []; }
    assert Tracked(rounds, 2) == Swept(rounds, 1) + Reported(rounds, 1) == [b];
    assert Swept(rounds, 2) == Survivors([b], {b}) == [b] by { assert Survivors([], {b}) == []; }
  }

  /** The order matters: b was added behind a, so that when both are gone the sweep
      skips b, which is then not reported when it is back. */
  lemma AddedBehindIsSkipped(a: Name, b: Name)
    requires a != b
    ensures var rounds := [Round({}, [a]), Round({a}, [a, b]), Round({}, []), Round({b}, [b])];
            Tracked(rounds, 2) == [a, b] && Tracked(rounds, 3) == [b] && Reported(rounds, 3) == []
  {
    var rounds := [Round({}, [a]), Round({a}, [a, b]), Round({}, []), Round({b}, [b])];
    assert Swept(rounds, 0) == [];
    NewAfter([], a);
    assert Tracked(rounds, 1) == Swept(rounds, 0) + Reported(rounds, 0) == [a];
    assert Swept(rounds, 1) == Survivors([a], {a}) == [a] by { assert Survivors([], {a}) == []; }
    NewAfter([a], b);
    assert Reported(rounds, 1) == NewFiles([a], [a, b]) == [b] by { assert [a, b][1..] == [b]; }
    assert Tracked(rounds, 2) == Swept(rounds, 1) + Reported(rounds, 1) == [a, b];
    assert Swept(rounds, 2) == Survivors([a, b], {}) == [b] by { assert Survivors([], {}) == []; }
    assert Tracked(rounds, 3) == Swept(rounds, 2) + Reported(rounds, 2) == [b];
    assert Swept(rounds, 3) == Survivors([b], {b}) == [b] by { assert Survivors([], {b}) == []; }
  }

  lemma NewAfter(files: seq<Name>, f: Name)
    requires f !in files
    ensures NewFiles(files, [f]) == [f]
  {
    assert NewFiles(files + [f], []) == [];
    assert [f][1..] == [];
  }

  lemma NewPair(a: Name, b: Name)
    requires a != b
    ensures NewFiles([], [a, b]) == [a, b]
  {
    assert [a, b][1..] == [b] && [] + [a] == [a];
    assert NewFiles([a], [b]) == [b] + NewFiles([a] + [b], [b][1..]);
    assert NewFiles([a, b], []) == [];
  }

  // ---------- a file system that has come to rest ----------

  lemma {:induction false} StaleConcat(s: seq<Name>, t: seq<Name>, ex: set<Name>)
    ensures Stale(s + t, ex) == Stale(s, ex) + Stale(t, ex)
  {
    if s == [] {
      assert s + t == t;
    } else {
      assert (s + t)[1..] == s[1..] + t;
      StaleConcat(s[1..], t, ex);
    }
  }

  lemma {:induction false} StaleNone(s: seq<Name>, ex: set<Name>)
    requires forall f :: f in s ==> f in ex
    ensures Stale(s, ex) == 0
  {
    if s != [] {
      StaleNone(s[1..], ex);
    }
  }

  /** While the file system rests and everything listed exists, n rounds get rid of
      fewer than 2^n stale files although every round also discovers. */
  lemma {:induction false} RestingRoundsClean(rounds: seq<Round>, i: nat, n: nat, ex: set<Name>)
    requires i + n <= |rounds| && Stale(Tracked(rounds, i), ex) < Pow2(n)
    requires forall k :: i <= k < i + n ==>
               rounds[k].present == ex && forall f :: f in rounds[k].listing ==> f in ex
    ensures Stale(Tracked(rounds, i + n), ex) == 0
    decreases n
  {
    if n > 0 {
      SweepHalves(Tracked(rounds, i), ex);
      StaleConcat(Swept(rounds, i), Reported(rounds, i), ex);
      TrackedIsComplete(rounds, i);
      SurvivorsDistinct(Tracked(rounds, i), ex);
      NewFilesAre(Swept(rounds, i), rounds[i].listing);
      StaleNone(Reported(rounds, i), ex);
      RestingRoundsClean(rounds, i + 1, n - 1, ex);
    }
  }

  // ---------- the loops ----------

  /** What the loop has built when it stands at position i. */
  function SweptFrom(s: seq<Name>, ex: set<Name>, i: nat): seq<Name> {
    if i <= |s| then s[..i] + Survivors(s[i..], ex) else s
  }

  lemma KeepStep(s: seq<Name>, ex: set<Name>, i: nat)
    requires i < |s| && s[i] in ex
    ensures SweptFrom(s, ex, i) == SweptFrom(s, ex, i + 1)
  {
    assert s[i..][1..] == s[i + 1..];
    assert s[..i + 1] == s[..i] + [s[i]];
  }

  lemma EraseStep(s: seq<Name>, ex: set<Name>, i: nat)
    requires i < |s| && s[i] !in ex
    ensures SweptFrom(s, ex, i) == SweptFrom(s[..i] + s[i + 1..], ex, i + 1)
  {
    var t := s[..i] + s[i + 1..];
    if i < |t| {
      assert s[i..][2..] == s[i + 2..] == t[i + 1..];
      assert t[..i + 1] == s[..i] + [s[i + 1]];
    }
  }

  lemma EraseDistinct(s: seq<Name>, i: nat)
    requires i < |s| && Distinct(s)
    ensures Distinct(s[..i] + s[i + 1..])
  {
  }

  /** Lines 235-244. `find` returns the position itself because nothing is tracked twice. */
  method Sweep(tracked: seq<Name>, ex: set<Name>) returns (files: seq<Name>)
    requires Distinct(tracked)
    ensures files == Survivors(tracked, ex)
  {
    files := tracked;
    assert tracked[0..] == tracked;
    var i := 0;
    while i < |files|
      invariant 0 <= i && Distinct(files)
      invariant Survivors(tracked, ex) == SweptFrom(files, ex, i)
      decreases |files| - i
    {
      if files[i] !in ex {
        var it := IndexOf(files, files[i]);
        if it != |files| {
          assert it == i;
          EraseStep(files, ex, i);
          EraseDistinct(files, i);
          files := files[..it] + files[it + 1..];
        }
      } else {
        KeepStep(files, ex, i);
      }
      i := i + 1;
    }
  }

  /** Lines 246-257; `reported` are the calls of the callback. */
  method Discover(tracked: seq<Name>, listing: seq<Name>, callback: bool)
    returns (files: seq<Name>, reported: seq<Name>)
    ensures files == tracked + NewFiles(tracked, listing)
    ensures reported == if callback then NewFiles(tracked, listing) else []
  {
    files, reported := tracked, [];
    ghost var added: seq<Name> := [];
    for i := 0 to |listing|
      invariant files == tracked + added
      invariant NewFiles(tracked, listing) == added + NewFiles(files, listing[i..])
      invariant reported == if callback then added else []
    {
      var item := listing[i];
      assert listing[i..][1..] == listing[i + 1..];
      if IndexOf(files, item) == |files| {
        files := files + [item];
        added := added + [item];
        if callback {
          reported := reported + [item];
        }
      }
    }
  }

  /** Lines 228-260 for the given rounds. */
  method TaskFunc(rounds: seq<Round>, callback: bool) returns (files: seq<Name>, log: seq<seq<Name>>)
    ensures files == Tracked(rounds, |rounds|)
    ensures |log| == |rounds|
    ensures forall n :: 0 <= n < |rounds| ==> log[n] == if callback then Reported(rounds, n) else []
  {
    files, log := [], [];
    for n := 0 to |rounds|
      invariant files == Tracked(rounds, n) && |log| == n
      invariant forall m :: 0 <= m < n ==> log[m] == if callback then Reported(rounds, m) else []
    {
      TrackedIsComplete(rounds, n);
      files := Sweep(files, rounds[n].present);
      var reported;
      files, reported := Discover(files, rounds[n].listing, callback);
      log := log + [reported];
    }
  }
}
