/**
 * The scan `while (tmp != NULL && tmp->info.mid < mid) tmp = tmp->next;`
 * shared by the intake insertion, the category search and the table removal,
 * and what splicing a node at the place it stops does to the list's order.
 */
module SortedScan {
  import opened Types

  /** The position at which the scan stops: the first node whose id is >= mid, or the end. */
  function FirstAtLeast(s: seq<MovieInfo>, mid: int): (p: nat)
    ensures p <= |s|
    ensures forall j :: 0 <= j < p ==> s[j].mid < mid
    ensures p < |s| ==> s[p].mid >= mid
  {
    if s == [] || s[0].mid >= mid then 0 else 1 + FirstAtLeast(s[1..], mid)
  }

  /** A loop that stops where the scan's guard first fails has stopped at FirstAtLeast. */
  lemma FirstAtLeastIs(s: seq<MovieInfo>, mid: int, k: nat)
    requires k <= |s|
    requires forall j :: 0 <= j < k ==> s[j].mid < mid
    requires k < |s| ==> s[k].mid >= mid
    ensures FirstAtLeast(s, mid) == k
  {
  }

  /** On an ascending list the scan stops on `mid` exactly when `mid` is in the list. */
  lemma AscendingScanFinds(s: seq<MovieInfo>, mid: int)
    requires Ascending(s)
    ensures var p := FirstAtLeast(s, mid);
      (p < |s| && s[p].mid == mid) <==> Contains(s, mid)
  {
  }

  /** `e` spliced in front of position p. */
  function InsertAt<T>(s: seq<T>, p: nat, e: T): (r: seq<T>)
    requires p <= |s|
  {
    s[..p] + [e] + s[p..]
  }

  /** The list without its node at position p. */
  function RemoveAt<T>(s: seq<T>, p: nat): (r: seq<T>)
    requires p < |s|
  {
    s[..p] + s[p + 1..]
  }

  /** Where each node of a splice comes from. */
  lemma InsertAtIndex<T>(s: seq<T>, p: nat, e: T)
    requires p <= |s|
    ensures var r := InsertAt(s, p, e);
      && |r| == |s| + 1 && r[p] == e
      && (forall k :: 0 <= k < p ==> r[k] == s[k])
      && (forall k :: p < k < |r| ==> r[k] == s[k - 1])
  {
  }

  /** A list made of an ascending list with `e` put between its smaller and its larger ids is ascending. */
  lemma SpliceAscending(s: seq<MovieInfo>, r: seq<MovieInfo>, p: nat, e: MovieInfo)
    requires Ascending(s) && p <= |s| && |r| == |s| + 1 && r[p] == e
    requires forall k :: 0 <= k < p ==> r[k] == s[k] && s[k].mid < e.mid
    requires forall k :: p < k < |r| ==> r[k] == s[k - 1] && s[k - 1].mid > e.mid
    ensures Ascending(r)
  {
    forall i, j | 0 <= i < j < |r| ensures r[i].mid < r[j].mid {
      if j < p {
        assert r[i] == s[i] && r[j] == s[j];
      } else if i < p && p < j {
        assert r[i] == s[i] && r[j] == s[j - 1];
      } else if p < i {
        assert r[i] == s[i - 1] && r[j] == s[j - 1];
      }
    }
  }

  /** The same with repeated ids allowed. */
  lemma SpliceNonDecreasing(s: seq<MovieInfo>, r: seq<MovieInfo>, p: nat, e: MovieInfo)
    requires NonDecreasing(s) && p <= |s| && |r| == |s| + 1 && r[p] == e
    requires forall k :: 0 <= k < p ==> r[k] == s[k] && s[k].mid <= e.mid
    requires forall k :: p < k < |r| ==> r[k] == s[k - 1] && s[k - 1].mid >= e.mid
    ensures NonDecreasing(r)
  {
    forall i, j | 0 <= i < j < |r| ensures r[i].mid <= r[j].mid {
      if j < p {
        assert r[i] == s[i] && r[j] == s[j];
      } else if i < p && p < j {
        assert r[i] == s[i] && r[j] == s[j - 1];
      } else if p < i {
        assert r[i] == s[i - 1] && r[j] == s[j - 1];
      }
    }
  }

  /**
   * Splicing a new id where the scan stops keeps an ascending list ascending,
   * unless the scan stopped on that same id.
   */
  lemma InsertKeepsAscending(s: seq<MovieInfo>, e: MovieInfo)
    requires Ascending(s)
    requires var p := FirstAtLeast(s, e.mid); !(p < |s| && s[p].mid == e.mid)
    ensures Ascending(InsertAt(s, FirstAtLeast(s, e.mid), e))
  {
    var p := FirstAtLeast(s, e.mid);
    InsertAtIndex(s, p, e);
    var r := InsertAt(s, p, e);
    forall k | p <= k < |s| ensures s[k].mid > e.mid {
      assert s[p].mid <= s[k].mid;
    }
    SpliceAscending(s, r, p, e);
  }

  /** Without the duplicate check, splicing where the scan stops keeps a list non-decreasing. */
  lemma InsertKeepsNonDecreasing(s: seq<MovieInfo>, e: MovieInfo)
    requires NonDecreasing(s)
    ensures NonDecreasing(InsertAt(s, FirstAtLeast(s, e.mid), e))
  {
    var p := FirstAtLeast(s, e.mid);
    InsertAtIndex(s, p, e);
    var r := InsertAt(s, p, e);
    forall k | p <= k < |s| ensures s[k].mid >= e.mid {
      assert s[p].mid <= s[k].mid;
    }
    SpliceNonDecreasing(s, r, p, e);
  }

  /**
   * A splice adds exactly the new node: the ids present afterwards are the
   * old ones plus `e.mid`, and removing the new node gives back the old list.
   */
  lemma InsertAddsExactly<T>(s: seq<T>, p: nat, e: T)
    requires p <= |s|
    ensures |InsertAt(s, p, e)| == |s| + 1
    ensures multiset(InsertAt(s, p, e)) == multiset(s) + multiset{e}
    ensures InsertAt(s, p, e)[..p] + InsertAt(s, p, e)[p + 1..] == s
  {
    var r := InsertAt(s, p, e);
    assert s == s[..p] + s[p..];
    assert r[..p] == s[..p];
    assert r[p + 1..] == s[p..];
  }
}
