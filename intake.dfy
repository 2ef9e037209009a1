/**
 * The new-movies list: a singly-linked list kept in ascending id order, into
 * which each added movie is spliced where the scan for its id stops.
 */
module Intake {
  import opened Types
  import opened SortedScan

  /** Where the insertion scan over the intake stops for the id `mid`. */
  function Slot(q: seq<NewMovie>, mid: int): nat
  {
    FirstAtLeast(Infos(q), mid)
  }

  /**
   * NewMoviesInsertSorted: nothing (the -1 return) when the scan stops on a
   * node with the same id, otherwise the list with the new entry spliced in
   * where the scan stopped.
   */
  function InsertSorted(q: seq<NewMovie>, e: NewMovie): Option<seq<NewMovie>>
  {
    var p := Slot(q, e.info.mid);
    if p < |q| && q[p].info.mid == e.info.mid then None
    else Some(InsertAt(q, p, e))
  }

  /** The earlier NewMoviesInsertSorted, which splices in without the duplicate check. */
  function InsertUnchecked(q: seq<NewMovie>, e: NewMovie): seq<NewMovie>
  {
    InsertAt(q, Slot(q, e.info.mid), e)
  }

  /** Splicing an entry splices its info into the list of infos. */
  lemma InfosInsertAt(q: seq<NewMovie>, p: nat, e: NewMovie)
    requires p <= |q|
    ensures Infos(InsertAt(q, p, e)) == InsertAt(Infos(q), p, e.info)
  {
    var l := Infos(InsertAt(q, p, e));
    var r := InsertAt(Infos(q), p, e.info);
    assert |l| == |r|;
    forall k | 0 <= k < |l| ensures l[k] == r[k] {
      if k < p {
        assert l[k] == q[k].info;
      } else if k > p {
        assert l[k] == q[k - 1].info;
      }
    }
  }

  /**
   * On an ascending list an addition is refused exactly when the id is
   * already present; an accepted one keeps the list ascending and adds
   * exactly the new entry.
   */
  lemma InsertSortedMeaning(q: seq<NewMovie>, e: NewMovie)
    requires Ascending(Infos(q))
    ensures InsertSorted(q, e).None? <==> Contains(Infos(q), e.info.mid)
    ensures InsertSorted(q, e).Some? ==>
      var r := InsertSorted(q, e).value;
      && Ascending(Infos(r))
      && |r| == |q| + 1
      && multiset(r) == multiset(q) + multiset{e}
      && Contains(Infos(r), e.info.mid)
  {
    var p := Slot(q, e.info.mid);
    AscendingScanFinds(Infos(q), e.info.mid);
    if !(p < |q| && q[p].info.mid == e.info.mid) {
      InfosInsertAt(q, p, e);
      InsertKeepsAscending(Infos(q), e.info);
      InsertAddsExactly(q, p, e);
      var r := InsertAt(q, p, e);
      assert r[p] == e && Infos(r)[p] == e.info;
    }
  }

  /** Without the check the list stays non-decreasing and gains exactly the new entry. */
  lemma InsertUncheckedMeaning(q: seq<NewMovie>, e: NewMovie)
    requires NonDecreasing(Infos(q))
    ensures NonDecreasing(Infos(InsertUnchecked(q, e)))
    ensures multiset(InsertUnchecked(q, e)) == multiset(q) + multiset{e}
  {
    var p := Slot(q, e.info.mid);
    InfosInsertAt(q, p, e);
    InsertKeepsNonDecreasing(Infos(q), e.info);
    InsertAddsExactly(q, p, e);
  }

  /**
   * A repeated id is placed in front of the entries that already carry it:
   * everything before the new entry has a smaller id, everything after it
   * an id at least as large.
   */
  lemma InsertUncheckedPlace(q: seq<NewMovie>, e: NewMovie)
    requires NonDecreasing(Infos(q))
    ensures var p := Slot(q, e.info.mid); var r := InsertUnchecked(q, e);
      && p < |r| && r[p] == e
      && (forall j :: 0 <= j < p ==> r[j].info.mid < e.info.mid)
      && (forall j :: p < j < |r| ==> r[j].info.mid >= e.info.mid)
  {
    var p := Slot(q, e.info.mid);
    var r := InsertUnchecked(q, e);
    forall j | 0 <= j < p ensures r[j].info.mid < e.info.mid {
      assert r[j] == q[j] && Infos(q)[j].mid < e.info.mid;
    }
    forall j | p < j < |r| ensures r[j].info.mid >= e.info.mid {
      assert r[j] == q[j - 1];
      assert Infos(q)[j - 1].mid >= Infos(q)[p].mid;
    }
  }

  /** The new entry becomes the head exactly when the list is empty or its head's id is not smaller. */
  lemma InsertUncheckedHead(q: seq<NewMovie>, e: NewMovie)
    ensures Slot(q, e.info.mid) == 0 <==> q == [] || q[0].info.mid >= e.info.mid
  {
    if q != [] {
      assert Infos(q)[0] == q[0].info;
    }
  }

  /** The list grows by one and the old entries keep their order around the new one. */
  lemma InsertUncheckedKeepsOrder(q: seq<NewMovie>, e: NewMovie)
    ensures var p := Slot(q, e.info.mid); var r := InsertUnchecked(q, e);
      |r| == |q| + 1 && r[..p] + r[p + 1..] == q
  {
    InsertAddsExactly(q, Slot(q, e.info.mid), e);
  }
}
