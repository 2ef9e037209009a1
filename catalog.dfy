/**
 * The category table: six singly-linked category lists, each filled at its
 * cached tail while the intake list is drained, searched with an early exit,
 * and the first list holding an id is the one that counts.
 */
module Catalog {
  import opened Types
  import opened SortedScan

  /** The cached tail pointer of a list: NULL for the empty list, else its last node. */
  function LastIndex(b: seq<MovieInfo>): (t: Option<nat>)
    ensures t.None? <==> b == []
    ensures t.Some? ==> t.value < |b| && t.value + 1 == |b|
  {
    if b == [] then None else Some(|b| - 1)
  }

  /** A list with its tail pointer, as insert_end's two in/out arguments hand them back. */
  datatype Ends = Ends(list: seq<MovieInfo>, tail: Option<nat>)

  /**
   * insert_end: a NULL tail means the list is empty and the node becomes its
   * only element; otherwise the node is linked after the tail node (dropping
   * whatever followed it) and becomes the new tail. A NULL tail on a
   * non-empty list is dereferenced by the C code, hence the precondition.
   */
  function InsertEnd(b: seq<MovieInfo>, tail: Option<nat>, info: MovieInfo): (r: Ends)
    requires tail.None? ==> b == []
    requires tail.Some? ==> tail.value < |b|
    ensures r.tail == LastIndex(r.list)
    ensures r.list != [] && r.list[|r.list| - 1] == info
    ensures tail == LastIndex(b) ==> r.list == b + [info]
  {
    match tail
    case None => Ends([info], Some(0))
    case Some(k) => Ends(b[..k + 1] + [info], Some(k + 1))
  }

  /** The infos of the intake entries of category `c` (by enum value), in intake order. */
  function CategoryEntries(q: seq<NewMovie>, c: nat): seq<MovieInfo>
  {
    if q == [] then []
    else CategoryEntries(q[..|q| - 1], c)
         + (if q[|q| - 1].category.Index() == c then [q[|q| - 1].info] else [])
  }

  /** `x` is kept exactly when some intake entry of category `c` carries it. */
  lemma {:induction false} CategoryEntriesMembers(q: seq<NewMovie>, c: nat, x: MovieInfo)
    ensures x in CategoryEntries(q, c) <==>
      exists k :: 0 <= k < |q| && q[k].info == x && q[k].category.Index() == c
  {
    if q != [] {
      var q' := q[..|q| - 1];
      CategoryEntriesMembers(q', c, x);
      if x in CategoryEntries(q', c) {
        var k :| 0 <= k < |q'| && q'[k].info == x && q'[k].category.Index() == c;
        assert q[k] == q'[k];
      }
      if k :| 0 <= k < |q| && q[k].info == x && q[k].category.Index() == c {
        if k < |q'| {
          assert q'[k] == q[k];
        }
      }
    }
  }

  /** The entries of one category keep the intake's ascending order. */
  lemma {:induction false} CategoryEntriesAscending(q: seq<NewMovie>, c: nat)
    requires Ascending(Infos(q))
    ensures Ascending(CategoryEntries(q, c))
  {
    if q != [] {
      var q' := q[..|q| - 1];
      assert Infos(q') == Infos(q)[..|q| - 1];
      CategoryEntriesAscending(q', c);
      var e := CategoryEntries(q', c);
      if q[|q| - 1].category.Index() == c {
        var r := e + [q[|q| - 1].info];
        forall i | 0 <= i < |e| ensures e[i].mid < q[|q| - 1].info.mid {
          CategoryEntriesMembers(q', c, e[i]);
          var k :| 0 <= k < |q'| && q'[k].info == e[i] && q'[k].category.Index() == c;
          assert Infos(q)[k] == e[i];
        }
        assert forall i, j :: 0 <= i < j < |r| ==> r[i].mid < r[j].mid by {
          forall i, j | 0 <= i < j < |r| ensures r[i].mid < r[j].mid {
            if j < |e| {
              assert r[i] == e[i] && r[j] == e[j];
            } else {
              assert r[i] == e[i] && r[j] == q[|q| - 1].info;
            }
          }
        }
      }
    }
  }

  /**
   * Draining an ascending intake keeps a category list ascending: a list
   * that receives entries starts empty and gets the category's ascending
   * run, and a list that receives none is left as it was.
   */
  lemma SplitKeepsAscending(b: seq<MovieInfo>, q: seq<NewMovie>, c: nat)
    requires Ascending(b) && Ascending(Infos(q))
    requires forall k :: 0 <= k < |q| && q[k].category.Index() == c ==> b == []
    ensures Ascending(b + CategoryEntries(q, c))
  {
    var e := CategoryEntries(q, c);
    if e != [] {
      CategoryEntriesMembers(q, c, e[0]);
      CategoryEntriesAscending(q, c);
      assert b + e == e;
    }
  }

  /** Number of intake entries whose category has an enum value below `n`, summed per category. */
  function EntriesBelow(q: seq<NewMovie>, n: nat): nat
    decreases n
  {
    if n == 0 then 0 else EntriesBelow(q, n - 1) + |CategoryEntries(q, n - 1)|
  }

  /** Draining visits every intake node exactly once: the six lists together gain |q| nodes. */
  lemma {:induction false} CategoryEntriesTotal(q: seq<NewMovie>)
    ensures EntriesBelow(q, 6) == |q|
  {
    if q != [] {
      var q' := q[..|q| - 1];
      CategoryEntriesTotal(q');
      var c := q[|q| - 1].category.Index();
      assert EntriesBelow(q, 6) == EntriesBelow(q', 6) + 1 by {
        EntriesBelowStep(q, 6, c);
      }
    }
  }

  /** Helper: the last intake entry adds one node to the count of its own category only. */
  lemma {:induction false} EntriesBelowStep(q: seq<NewMovie>, n: nat, c: nat)
    requires q != [] && c == q[|q| - 1].category.Index()
    ensures EntriesBelow(q, n) == EntriesBelow(q[..|q| - 1], n) + (if c < n then 1 else 0)
  {
    if n > 0 {
      EntriesBelowStep(q, n - 1, c);
    }
  }

  /**
   * What CategoryListSearch returns: the info of the node where the scan
   * stops when that node carries `mid`, otherwise nothing (the `{-1, -1}` info).
   */
  function Lookup(b: seq<MovieInfo>, mid: int): Option<MovieInfo>
  {
    var p := FirstAtLeast(b, mid);
    if p < |b| && b[p].mid == mid then Some(b[p]) else None
  }

  /** On an ascending list the search finds `mid` exactly when it is there, and returns its node. */
  lemma LookupAscending(b: seq<MovieInfo>, mid: int)
    requires Ascending(b)
    ensures Lookup(b, mid).Some? <==> Contains(b, mid)
    ensures Lookup(b, mid).Some? ==> Lookup(b, mid).value in b && Lookup(b, mid).value.mid == mid
  {
    AscendingScanFinds(b, mid);
  }

  /** CategoryListSearch: scan the list from its head, stopping at the first id >= mid. */
  method CategoryListSearch(head: seq<MovieInfo>, mid: uint32) returns (r: Option<MovieInfo>)
    ensures r == Lookup(head, mid)
    ensures r.Some? ==> r.value in head && r.value.mid == mid
    ensures Ascending(head) ==> (r.Some? <==> Contains(head, mid))
  {
    var k := 0;
    while k < |head| && head[k].mid < mid
      invariant k <= |head|
      invariant forall j :: 0 <= j < k ==> head[j].mid < mid
    {
      k := k + 1;
    }
    FirstAtLeastIs(head, mid, k);
    if k == |head| || head[k].mid != mid {
      r := None;
    } else {
      r := Some(head[k]);
    }
    if Ascending(head) {
      LookupAscending(head, mid);
    }
  }

  /** The first list, from index `i` on, whose search finds `mid`. */
  function FirstHitFrom(bs: seq<seq<MovieInfo>>, mid: int, i: nat): (h: Option<nat>)
    requires i <= |bs|
    ensures h.Some? ==> i <= h.value < |bs| && Lookup(bs[h.value], mid).Some?
    ensures h.Some? ==> forall j :: i <= j < h.value ==> Lookup(bs[j], mid).None?
    ensures h.None? ==> forall j :: i <= j < |bs| ==> Lookup(bs[j], mid).None?
    decreases |bs| - i
  {
    if i == |bs| then None
    else if Lookup(bs[i], mid).Some? then Some(i)
    else FirstHitFrom(bs, mid, i + 1)
  }

  /** The first list, in table order 0..5, in which the search finds `mid`. */
  function FirstHit(bs: seq<seq<MovieInfo>>, mid: int): Option<nat>
  {
    FirstHitFrom(bs, mid, 0)
  }

  /**
   * What CategoryArraySearch returns. The loop stops at the first list whose
   * search gives an info with id other than -1 (UINT_MAX) and returns that
   * info. For the id UINT_MAX every hit looks like a miss, so the loop runs
   * to the end and returns the last list's result.
   */
  function CatalogLookup(bs: seq<seq<MovieInfo>>, mid: int): Option<MovieInfo>
  {
    if mid == UINT_MAX && bs != [] then Lookup(bs[|bs| - 1], mid)
    else match FirstHit(bs, mid)
      case None => None
      case Some(i) => Lookup(bs[i], mid)
  }

  /**
   * With every list ascending, a table search for an id other than UINT_MAX
   * succeeds exactly when some list holds it, and returns a node of the
   * lowest-numbered list holding it.
   */
  lemma CatalogLookupMeaning(bs: seq<seq<MovieInfo>>, mid: int)
    requires forall i :: 0 <= i < |bs| ==> Ascending(bs[i])
    requires mid != UINT_MAX
    ensures CatalogLookup(bs, mid).Some? <==> exists i :: 0 <= i < |bs| && Contains(bs[i], mid)
    ensures CatalogLookup(bs, mid).Some? ==>
      var i := FirstHit(bs, mid).value;
      && CatalogLookup(bs, mid).value in bs[i] && CatalogLookup(bs, mid).value.mid == mid
      && forall j :: 0 <= j < i ==> !Contains(bs[j], mid)
  {
    forall i | 0 <= i < |bs| {
      LookupAscending(bs[i], mid);
    }
  }

  /** For the id UINT_MAX only the last list counts: a copy in an earlier list is not found. */
  lemma CatalogLookupMaxId(bs: seq<seq<MovieInfo>>)
    requires bs != [] && Ascending(bs[|bs| - 1])
    ensures CatalogLookup(bs, UINT_MAX).Some? <==> Contains(bs[|bs| - 1], UINT_MAX)
  {
    LookupAscending(bs[|bs| - 1], UINT_MAX);
  }

  /**
   * What RemoveFromTable does to the table: the node with `mid` is unlinked
   * from the first list whose search finds it; the other lists are untouched.
   */
  function TableAfterRemoval(bs: seq<seq<MovieInfo>>, mid: int): seq<seq<MovieInfo>>
  {
    match FirstHit(bs, mid)
    case None => bs
    case Some(i) => bs[i := RemoveAt(bs[i], FirstAtLeast(bs[i], mid))]
  }

  /**
   * Removing from the table takes out exactly one node when some list's
   * search finds `mid`, and none otherwise; ascending lists stay ascending.
   */
  lemma TableAfterRemovalMeaning(bs: seq<seq<MovieInfo>>, mid: int)
    ensures |TableAfterRemoval(bs, mid)| == |bs|
    ensures FirstHit(bs, mid).None? ==> TableAfterRemoval(bs, mid) == bs
    ensures FirstHit(bs, mid).Some? ==>
      var i := FirstHit(bs, mid).value;
      && multiset(TableAfterRemoval(bs, mid)[i]) + multiset{Lookup(bs[i], mid).value} == multiset(bs[i])
      && forall j :: 0 <= j < |bs| && j != i ==> TableAfterRemoval(bs, mid)[j] == bs[j]
    ensures (forall i :: 0 <= i < |bs| ==> Ascending(bs[i])) ==>
      forall i :: 0 <= i < |bs| ==> Ascending(TableAfterRemoval(bs, mid)[i])
  {
    match FirstHit(bs, mid)
    case None =>
    case Some(i) =>
      var p := FirstAtLeast(bs[i], mid);
      var b := bs[i];
      assert b == b[..p] + [b[p]] + b[p + 1..];
      if forall k :: 0 <= k < |bs| ==> Ascending(bs[k]) {
        RemoveKeepsAscending(b, p);
      }
  }

  /** Unlinking a node keeps a list ascending. */
  lemma RemoveKeepsAscending(b: seq<MovieInfo>, p: nat)
    requires p < |b| && Ascending(b)
    ensures Ascending(RemoveAt(b, p))
  {
    var r := RemoveAt(b, p);
    forall i, j | 0 <= i < j < |r| ensures r[i].mid < r[j].mid {
      var i' := if i < p then i else i + 1;
      var j' := if j < p then j else j + 1;
      assert r[i] == b[i'] && r[j] == b[j'];
    }
  }

  /** An ascending list holds each id at most once: its one node with `mid` is gone after the removal. */
  lemma RemoveUniqueGone(b: seq<MovieInfo>, mid: int)
    requires Ascending(b)
    requires Lookup(b, mid).Some?
    ensures !Contains(RemoveAt(b, FirstAtLeast(b, mid)), mid)
  {
    var p := FirstAtLeast(b, mid);
    var r := RemoveAt(b, p);
    forall k | 0 <= k < |r| ensures r[k].mid != mid {
      var k' := if k < p then k else k + 1;
      assert r[k] == b[k'] && k' != p;
    }
  }
}
