/**
 * The filtered search of event F: the lists of two categories are merged by
 * id into a new run that is then appended to the user's suggestions. While
 * both lists last, entries older than the year are skipped and the smaller
 * id is taken (the second list's entry on a tie). Once one list runs out,
 * the rest of the other is copied, but only the entries strictly newer than
 * the year.
 */
module FilteredSearch {
  import opened Types

  /** InsertDLLTail: the new node becomes the tail behind the whole old list. */
  function InsertDLLTail(list: seq<MovieInfo>, info: MovieInfo): (r: seq<MovieInfo>)
    ensures |r| == |list| + 1 && r[..|list|] == list && r[|list|] == info
  {
    list + [info]
  }

  /** The entries strictly newer than `year`, in order. */
  function Above(s: seq<MovieInfo>, year: int): seq<MovieInfo>
  {
    if s == [] then []
    else (if s[0].year > year then [s[0]] else []) + Above(s[1..], year)
  }

  /** The copied rest holds only entries of the list that are newer than the year. */
  lemma {:induction false} AboveMembers(s: seq<MovieInfo>, year: int)
    ensures forall x :: x in Above(s, year) ==> x in s && x.year > year
  {
    if s != [] {
      AboveMembers(s[1..], year);
    }
  }

  /** The entries released in `year` or later, in order. */
  function AtLeast(s: seq<MovieInfo>, year: int): seq<MovieInfo>
  {
    if s == [] then []
    else (if s[0].year >= year then [s[0]] else []) + AtLeast(s[1..], year)
  }

  /** The run built by filtered_movie_search from the lists `a` and `b`. */
  function Merge(a: seq<MovieInfo>, b: seq<MovieInfo>, year: int): seq<MovieInfo>
    decreases |a| + |b|
  {
    if a == [] then Above(b, year)
    else if b == [] then Above(a, year)
    else if a[0].year < year then Merge(a[1..], b, year)
    else if b[0].year < year then Merge(a, b[1..], year)
    else if a[0].mid < b[0].mid then [a[0]] + Merge(a[1..], b, year)
    else [b[0]] + Merge(a, b[1..], year)
  }

  /** Every entry of the run comes from one of the two lists and is not older than the year. */
  lemma {:induction false} MergeMembers(a: seq<MovieInfo>, b: seq<MovieInfo>, year: int, x: MovieInfo)
    requires x in Merge(a, b, year)
    ensures x in a || x in b
    ensures x.year >= year
    decreases |a| + |b|
  {
    if a == [] {
      AboveMembers(b, year);
    } else if b == [] {
      AboveMembers(a, year);
    } else {
      if a[0].year < year {
        MergeMembers(a[1..], b, year, x);
      } else if b[0].year < year {
        MergeMembers(a, b[1..], year, x);
      } else if a[0].mid < b[0].mid {
        if x != a[0] {
          MergeMembers(a[1..], b, year, x);
        }
      } else {
        if x != b[0] {
          MergeMembers(a, b[1..], year, x);
        }
      }
    }
  }

  /** Helper: the multiset of a one-entry-or-empty head and a rest. */
  lemma MultisetCons(h: seq<MovieInfo>, t: seq<MovieInfo>)
    ensures multiset(h + t) == multiset(h) + multiset(t)
  {
  }

  /**
   * The run counts each entry at most as often as the two lists hold it
   * with a year >= `year`, and at least as often as they hold it with a
   * year > `year`: the strictly newer entries are all kept, including both
   * copies when the two lists are the same.
   */
  lemma {:induction false} MergeBounds(a: seq<MovieInfo>, b: seq<MovieInfo>, year: int)
    ensures multiset(Merge(a, b, year)) <= multiset(AtLeast(a, year)) + multiset(AtLeast(b, year))
    ensures multiset(Above(a, year)) + multiset(Above(b, year)) <= multiset(Merge(a, b, year))
    decreases |a| + |b|
  {
    if a == [] {
      AboveWithinAtLeast(b, year);
    } else if b == [] {
      AboveWithinAtLeast(a, year);
    } else if a[0].year < year {
      MergeBounds(a[1..], b, year);
    } else if b[0].year < year {
      MergeBounds(a, b[1..], year);
    } else if a[0].mid < b[0].mid {
      MergeBounds(a[1..], b, year);
      var ha := if a[0].year > year then [a[0]] else [];
      MultisetCons(ha, Above(a[1..], year));
      MultisetCons([a[0]], AtLeast(a[1..], year));
      MultisetCons([a[0]], Merge(a[1..], b, year));
      ConsBounds(multiset(Above(a[1..], year)), multiset(Above(b, year)),
                 multiset(Merge(a[1..], b, year)),
                 multiset(AtLeast(a[1..], year)), multiset(AtLeast(b, year)),
                 multiset(ha), multiset{a[0]});
    } else {
      MergeBounds(a, b[1..], year);
      var hb := if b[0].year > year then [b[0]] else [];
      MultisetCons(hb, Above(b[1..], year));
      MultisetCons([b[0]], AtLeast(b[1..], year));
      MultisetCons([b[0]], Merge(a, b[1..], year));
      ConsBounds(multiset(Above(b[1..], year)), multiset(Above(a, year)),
                 multiset(Merge(a, b[1..], year)),
                 multiset(AtLeast(b[1..], year)), multiset(AtLeast(a, year)),
                 multiset(hb), multiset{b[0]});
    }
  }

  /** Helper: one entry taken from the front of a list keeps both bounds. */
  lemma ConsBounds(lo1: multiset<MovieInfo>, lo2: multiset<MovieInfo>, m: multiset<MovieInfo>,
                   hi1: multiset<MovieInfo>, hi2: multiset<MovieInfo>,
                   h: multiset<MovieInfo>, e: multiset<MovieInfo>)
    requires m <= hi1 + hi2 && lo1 + lo2 <= m && h <= e
    ensures e + m <= (e + hi1) + hi2 && (h + lo1) + lo2 <= e + m
  {
  }

  /** The strictly newer entries are among those not older than the year. */
  lemma {:induction false} AboveWithinAtLeast(s: seq<MovieInfo>, year: int)
    ensures multiset(Above(s, year)) <= multiset(AtLeast(s, year))
  {
    if s != [] {
      AboveWithinAtLeast(s[1..], year);
      var h := if s[0].year > year then [s[0]] else [];
      var g := if s[0].year >= year then [s[0]] else [];
      MultisetCons(h, Above(s[1..], year));
      MultisetCons(g, AtLeast(s[1..], year));
      assert multiset(h) <= multiset(g);
    }
  }

  /** Every id in the run is at least `m` when every id in the two lists is. */
  lemma MergeLowerBound(a: seq<MovieInfo>, b: seq<MovieInfo>, year: int, m: int, strict: bool)
    requires forall x :: x in a ==> x.mid > m || (!strict && x.mid == m)
    requires forall x :: x in b ==> x.mid > m || (!strict && x.mid == m)
    ensures forall x :: x in Merge(a, b, year) ==> x.mid > m || (!strict && x.mid == m)
  {
    forall x | x in Merge(a, b, year) ensures x.mid > m || (!strict && x.mid == m) {
      MergeMembers(a, b, year, x);
    }
  }

  /** Two non-decreasing lists give a non-decreasing run, whatever the duplicates. */
  lemma {:induction false} MergeNonDecreasing(a: seq<MovieInfo>, b: seq<MovieInfo>, year: int)
    requires NonDecreasing(a) && NonDecreasing(b)
    ensures NonDecreasing(Merge(a, b, year))
    decreases |a| + |b|
  {
    if a == [] {
      AboveOrdered(b, year);
    } else if b == [] {
      AboveOrdered(a, year);
    } else if a[0].year < year {
      MergeNonDecreasing(a[1..], b, year);
    } else if b[0].year < year {
      MergeNonDecreasing(a, b[1..], year);
    } else if a[0].mid < b[0].mid {
      MergeNonDecreasing(a[1..], b, year);
      HeadBelowList(a, false);
      HeadBelowList(b, false);
      MergeLowerBound(a[1..], b, year, a[0].mid, false);
      ConsOrdered(a[0], Merge(a[1..], b, year), false);
    } else {
      MergeNonDecreasing(a, b[1..], year);
      HeadBelowList(a, false);
      HeadBelowList(b, false);
      MergeLowerBound(a, b[1..], year, b[0].mid, false);
      ConsOrdered(b[0], Merge(a, b[1..], year), false);
    }
  }

  /**
   * Two ascending lists with no id in common (two different categories of
   * the table) give an ascending run.
   */
  lemma {:induction false} MergeAscending(a: seq<MovieInfo>, b: seq<MovieInfo>, year: int)
    requires Ascending(a) && Ascending(b)
    requires forall x, y :: x in a && y in b ==> x.mid != y.mid
    ensures Ascending(Merge(a, b, year))
    decreases |a| + |b|
  {
    if a == [] {
      AboveAscending(b, year);
    } else if b == [] {
      AboveAscending(a, year);
    } else if a[0].year < year {
      MergeAscending(a[1..], b, year);
    } else if b[0].year < year {
      MergeAscending(a, b[1..], year);
    } else if a[0].mid < b[0].mid {
      RestAbove(a, true);
      MergeAscending(a[1..], b, year);
      HeadBelowList(b, false);
      MergeLowerBound(a[1..], b, year, a[0].mid, true);
      ConsOrdered(a[0], Merge(a[1..], b, year), true);
    } else {
      assert a[0].mid != b[0].mid;
      RestAbove(b, true);
      MergeAscending(a, b[1..], year);
      HeadBelowList(a, false);
      MergeLowerBound(a, b[1..], year, b[0].mid, true);
      ConsOrdered(b[0], Merge(a, b[1..], year), true);
    }
  }

  /** Helper: in an ordered list no entry is below the head. */
  lemma HeadBelowList(s: seq<MovieInfo>, strict: bool)
    requires s != [] && NonDecreasing(s)
    ensures forall x :: x in s ==> x.mid >= s[0].mid
  {
    forall x | x in s ensures x.mid >= s[0].mid {
      var k :| 0 <= k < |s| && s[k] == x;
      if k > 0 {
        assert s[0].mid <= s[k].mid;
      }
    }
  }

  /** Helper: an entry below every entry of an ordered list can go in front of it. */
  lemma ConsOrdered(e: MovieInfo, s: seq<MovieInfo>, strict: bool)
    requires forall x :: x in s ==> x.mid > e.mid || (!strict && x.mid == e.mid)
    requires if strict then Ascending(s) else NonDecreasing(s)
    ensures if strict then Ascending([e] + s) else NonDecreasing([e] + s)
  {
    var r := [e] + s;
    forall i, j | 0 <= i < j < |r| ensures r[i].mid < r[j].mid || (!strict && r[i].mid == r[j].mid) {
      assert r[j] == s[j - 1];
      if i > 0 {
        assert r[i] == s[i - 1];
      } else {
        assert s[j - 1] in s;
      }
    }
  }

  /** Helper: the entries after the head of an ordered list are ordered and lie above the head. */
  lemma RestAbove(s: seq<MovieInfo>, strict: bool)
    requires s != []
    requires if strict then Ascending(s) else NonDecreasing(s)
    ensures if strict then Ascending(s[1..]) else NonDecreasing(s[1..])
    ensures forall x :: x in s[1..] ==> x.mid > s[0].mid || (!strict && x.mid == s[0].mid)
  {
    var t := s[1..];
    forall i, j | 0 <= i < j < |t| ensures t[i].mid < t[j].mid || (!strict && t[i].mid <= t[j].mid) {
      assert t[i] == s[i + 1] && t[j] == s[j + 1];
    }
    forall x | x in t ensures x.mid > s[0].mid || (!strict && x.mid == s[0].mid) {
      var k :| 0 <= k < |t| && t[k] == x;
      assert s[k + 1] == x;
    }
  }

  /** Filtering keeps only entries of the list, in order. */
  lemma {:induction false} AboveSubsequence(s: seq<MovieInfo>, year: int, strict: bool)
    requires if strict then Ascending(s) else NonDecreasing(s)
    ensures if strict then Ascending(Above(s, year)) else NonDecreasing(Above(s, year))
  {
    if s != [] {
      RestAbove(s, strict);
      AboveSubsequence(s[1..], year, strict);
      if s[0].year > year {
        AboveMembers(s[1..], year);
        ConsOrdered(s[0], Above(s[1..], year), strict);
      } else {
        assert Above(s, year) == Above(s[1..], year);
      }
    }
  }

  /** The copied rest of a non-decreasing list is non-decreasing. */
  lemma AboveOrdered(s: seq<MovieInfo>, year: int)
    requires NonDecreasing(s)
    ensures NonDecreasing(Above(s, year))
  {
    AboveSubsequence(s, year, false);
  }

  /** The copied rest of an ascending list is ascending. */
  lemma AboveAscending(s: seq<MovieInfo>, year: int)
    requires Ascending(s)
    ensures Ascending(Above(s, year))
  {
    AboveSubsequence(s, year, true);
  }

  /**
   * An entry of exactly the requested year is kept while both lists last
   * but dropped from the copied rest: here id 1 is kept and id 2 is not.
   */
  lemma MergeYearBoundary()
    ensures Merge([MovieInfo(1, 2000)], [MovieInfo(2, 2000)], 2000) == [MovieInfo(1, 2000)]
  {
    var a, b := [MovieInfo(1, 2000)], [MovieInfo(2, 2000)];
    assert Merge(a[1..], b, 2000) == Above(b, 2000);
    assert Above(b[1..], 2000) == [];
  }

  /** Filtering from `year` on is filtering strictly after `year - 1` (years are integers). */
  lemma {:induction false} AtLeastIsAbove(s: seq<MovieInfo>, year: int)
    ensures AtLeast(s, year) == Above(s, year - 1)
  {
    if s != [] {
      AtLeastIsAbove(s[1..], year);
    }
  }

  /** Dropping the older entries first does not change which entries are strictly newer. */
  lemma {:induction false} AboveAtLeast(s: seq<MovieInfo>, year: int)
    ensures Above(AtLeast(s, year), year) == Above(s, year)
  {
    if s != [] {
      AboveAtLeast(s[1..], year);
      var t := AtLeast(s[1..], year);
      if s[0].year >= year {
        assert AtLeast(s, year) == [s[0]] + t;
        assert ([s[0]] + t)[1..] == t;
      } else {
        assert AtLeast(s, year) == t;
        assert Above(s, year) == Above(s[1..], year);
      }
    }
  }

  /** The merge of lists that hold no entry older than the year: no entry is skipped. */
  function MergeNewer(a: seq<MovieInfo>, b: seq<MovieInfo>, year: int): seq<MovieInfo>
    decreases |a| + |b|
  {
    if a == [] then Above(b, year)
    else if b == [] then Above(a, year)
    else if a[0].mid < b[0].mid then [a[0]] + MergeNewer(a[1..], b, year)
    else [b[0]] + MergeNewer(a, b[1..], year)
  }

  /**
   * Skipping the older entries while both lists last comes to the same as
   * dropping them from both lists beforehand.
   */
  lemma {:induction false} MergeDropsOlder(a: seq<MovieInfo>, b: seq<MovieInfo>, year: int)
    ensures Merge(a, b, year) == MergeNewer(AtLeast(a, year), AtLeast(b, year), year)
    decreases |a| + |b|
  {
    var fa, fb := AtLeast(a, year), AtLeast(b, year);
    if a == [] {
      AboveAtLeast(b, year);
    } else if b == [] {
      AboveAtLeast(a, year);
    } else if a[0].year < year {
      assert fa == AtLeast(a[1..], year);
      MergeDropsOlder(a[1..], b, year);
    } else if b[0].year < year {
      assert fb == AtLeast(b[1..], year);
      MergeDropsOlder(a, b[1..], year);
    } else {
      assert fa[0] == a[0] && fa[1..] == AtLeast(a[1..], year);
      assert fb[0] == b[0] && fb[1..] == AtLeast(b[1..], year);
      if a[0].mid < b[0].mid {
        MergeDropsOlder(a[1..], b, year);
      } else {
        MergeDropsOlder(a, b[1..], year);
      }
    }
  }

  /** Each entry twice, in order. */
  function Twice(s: seq<MovieInfo>): seq<MovieInfo>
  {
    if s == [] then [] else [s[0], s[0]] + Twice(s[1..])
  }

  /**
   * The run of a list merged with itself: every entry twice, except the
   * last, which lands twice only when it is strictly newer than the year
   * (its second copy is left for the copy of the rest).
   */
  function SameRun(f: seq<MovieInfo>, year: int): seq<MovieInfo>
  {
    if f == [] then []
    else
      var last := f[|f| - 1];
      Twice(f[..|f| - 1]) + [last] + (if last.year > year then [last] else [])
  }

  /** An ascending list merged with itself, without skipping, gives SameRun. */
  lemma {:induction false} MergeNewerSame(f: seq<MovieInfo>, year: int)
    requires Ascending(f)
    ensures MergeNewer(f, f, year) == SameRun(f, year)
  {
    if |f| == 1 {
      assert MergeNewer(f, f[1..], year) == Above(f, year);
      assert Above(f[1..], year) == [];
    } else if |f| > 1 {
      RestAbove(f, true);
      MergeNewerSame(f[1..], year);
      MergeNewerSameStep(f, year);
      SameRunStep(f, year);
    }
  }

  /** Helper: the head of an ascending list is taken twice, tie first, before the rest is merged with itself. */
  lemma MergeNewerSameStep(f: seq<MovieInfo>, year: int)
    requires |f| > 1 && Ascending(f)
    ensures MergeNewer(f, f, year) == [f[0], f[0]] + MergeNewer(f[1..], f[1..], year)
  {
    var t := f[1..];
    assert t[0] == f[1];
    assert MergeNewer(f, f, year) == [f[0]] + MergeNewer(f, t, year);
    assert MergeNewer(f, t, year) == [f[0]] + MergeNewer(t, t, year);
  }

  /** Helper: SameRun of a list of two or more doubles its head in front of SameRun of the rest. */
  lemma SameRunStep(f: seq<MovieInfo>, year: int)
    requires |f| > 1
    ensures SameRun(f, year) == [f[0], f[0]] + SameRun(f[1..], year)
  {
    var t := f[1..];
    assert f[..|f| - 1] == [f[0]] + t[..|t| - 1];
    assert ([f[0]] + t[..|t| - 1])[1..] == t[..|t| - 1];
    assert f[|f| - 1] == t[|t| - 1];
  }

  /**
   * With the same category twice, every entry from the year on lands in
   * the run twice, except the last such entry: when its year is exactly
   * the requested one, its second copy is dropped from the copied rest.
   */
  lemma MergeSameCategory(s: seq<MovieInfo>, year: int)
    requires Ascending(s)
    ensures Merge(s, s, year) == SameRun(AtLeast(s, year), year)
  {
    MergeDropsOlder(s, s, year);
    AtLeastIsAbove(s, year);
    AboveAscending(s, year - 1);
    MergeNewerSame(AtLeast(s, year), year);
  }

  /** The single entry of exactly the requested year lands in the run once, not twice. */
  lemma MergeSameCategoryAtYear()
    ensures Merge([MovieInfo(5, 2000)], [MovieInfo(5, 2000)], 2000) == [MovieInfo(5, 2000)]
  {
    var m := MovieInfo(5, 2000);
    MergeSameCategory([m], 2000);
    assert AtLeast([m], 2000) == [m];
    assert [m][..0] == [];
  }

  /**
   * The loops of filtered_movie_search that build the run: the merge while
   * both lists last, then the copy of the rest of whichever list is left.
   */
  method MergedRun(cat1: seq<MovieInfo>, cat2: seq<MovieInfo>, year: uint32) returns (run: seq<MovieInfo>)
    ensures run == Merge(cat1, cat2, year)
  {
    var i, j := 0, 0;
    run := [];
    while i < |cat1| && j < |cat2|
      invariant i <= |cat1| && j <= |cat2|
      invariant run + Merge(cat1[i..], cat2[j..], year) == Merge(cat1, cat2, year)
      decreases |cat1| - i + |cat2| - j
    {
      ghost var a, b := cat1[i..], cat2[j..];
      assert a[1..] == cat1[i + 1..] && b[1..] == cat2[j + 1..];
      if cat1[i].year < year {
        i := i + 1;
        continue;
      }
      if cat2[j].year < year {
        j := j + 1;
        continue;
      }
      if cat1[i].mid < cat2[j].mid {
        assert run + Merge(a, b, year) == InsertDLLTail(run, cat1[i]) + Merge(cat1[i + 1..], b, year);
        run := InsertDLLTail(run, cat1[i]);
        i := i + 1;
      } else {
        assert run + Merge(a, b, year) == InsertDLLTail(run, cat2[j]) + Merge(a, cat2[j + 1..], year);
        run := InsertDLLTail(run, cat2[j]);
        j := j + 1;
      }
    }
    if i == |cat1| {
      assert Merge(cat1[i..], cat2[j..], year) == Above(cat2[j..], year);
      run := CopyNewer(run, cat2, j, year);
    } else {
      assert Merge(cat1[i..], cat2[j..], year) == Above(cat1[i..], year);
      run := CopyNewer(run, cat1, i, year);
    }
  }

  /** The remainder loop: append the entries of `s` from `k` on that are newer than `year`. */
  method CopyNewer(run0: seq<MovieInfo>, s: seq<MovieInfo>, k: nat, year: uint32) returns (run: seq<MovieInfo>)
    requires k <= |s|
    ensures run == run0 + Above(s[k..], year)
  {
    run := run0;
    var j := k;
    while j < |s|
      invariant k <= j <= |s|
      invariant run + Above(s[j..], year) == run0 + Above(s[k..], year)
    {
      var rest := Above(s[j + 1..], year);
      assert s[j..][1..] == s[j + 1..];
      if s[j].year > year {
        assert Above(s[j..], year) == [s[j]] + rest;
        assert run + ([s[j]] + rest) == (run + [s[j]]) + rest;
        run := InsertDLLTail(run, s[j]);
      } else {
        assert Above(s[j..], year) == [] + rest;
      }
      j := j + 1;
    }
    assert s[j..] == [];
  }
}
