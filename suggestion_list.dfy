/**
 * A user's suggestion list: a doubly-linked list read from suggestedHead to
 * suggestedTail, written here as the sequence of its infos. A pointer to one
 * of its nodes (a cursor) is the node's position, NULL is None; head and
 * tail are the first and last positions. Linking a node in front of
 * position p moves every node from p on one place up, so a second cursor
 * into the same list is kept on its node with Shift.
 */
module SuggestionList {
  import opened Types
  import opened SortedScan
  import opened WatchStack

  /** The cursor is NULL or points at a node of `list`. */
  predicate OnList(list: seq<MovieInfo>, c: Option<nat>)
  {
    c.Some? ==> c.value < |list|
  }

  /** A list after an insertion through a cursor, with the cursor as it is afterwards. */
  datatype Spliced = Spliced(list: seq<MovieInfo>, cursor: Option<nat>)

  /**
   * InsertRight: a NULL cursor means an empty list, whose head, tail and
   * cursor become the new node. Otherwise the node is linked between the
   * cursor node and its old successor (becoming the tail when the cursor
   * was the tail), and the cursor moves onto it.
   */
  function InsertRight(list: seq<MovieInfo>, cur: Option<nat>, info: MovieInfo): (r: Spliced)
    requires OnList(list, cur)
    ensures OnList(r.list, r.cursor) && r.cursor.Some? && r.list[r.cursor.value] == info
    ensures cur.None? ==> r.list == [info]
    ensures cur.Some? ==>
      var k := cur.value;
      && |r.list| == |list| + 1 && r.cursor.value == k + 1
      && r.list[..k + 1] == list[..k + 1] && r.list[k + 2..] == list[k + 1..]
  {
    match cur
    case None => Spliced([info], Some(0))
    case Some(k) => Spliced(InsertAt(list, k + 1, info), Some(k + 1))
  }

  /**
   * InsertLeft: a NULL cursor means the list holds one node, and the new
   * node is linked after the head and becomes the tail and the cursor.
   * Otherwise the node is linked between the cursor node's old predecessor
   * and the cursor node (becoming the head when the cursor was the head),
   * and the cursor moves onto it.
   */
  function InsertLeft(list: seq<MovieInfo>, cur: Option<nat>, info: MovieInfo): (r: Spliced)
    requires OnList(list, cur)
    requires cur.None? ==> list != []
    ensures OnList(r.list, r.cursor) && r.cursor.Some? && r.list[r.cursor.value] == info
    ensures cur.None? ==> r.list == [list[0], info]
    ensures cur.Some? ==>
      var k := cur.value;
      && |r.list| == |list| + 1 && r.cursor.value == k
      && r.list[..k] == list[..k] && r.list[k + 1..] == list[k..]
  {
    match cur
    case None => Spliced([list[0], info], Some(1))
    case Some(k) => Spliced(InsertAt(list, k, info), Some(k))
  }

  /**
   * Through a non-NULL cursor both inserts add exactly the new node: the
   * list grows by one, gains `info` and nothing else, and unlinking the new
   * node gives back the old list.
   */
  lemma InsertThroughCursor(list: seq<MovieInfo>, k: nat, info: MovieInfo)
    requires k < |list|
    ensures var r := InsertRight(list, Some(k), info).list;
      multiset(r) == multiset(list) + multiset{info} && RemoveAt(r, k + 1) == list
    ensures var r := InsertLeft(list, Some(k), info).list;
      multiset(r) == multiset(list) + multiset{info} && RemoveAt(r, k) == list
  {
    InsertAddsExactly(list, k + 1, info);
    InsertAddsExactly(list, k, info);
  }

  /**
   * InsertLeft with a NULL cursor appends to a one-node list, but on a
   * longer list it drops every node after the head.
   */
  lemma InsertLeftNullCursor(list: seq<MovieInfo>, info: MovieInfo)
    requires list != []
    ensures |list| == 1 ==> InsertLeft(list, None, info).list == list + [info]
    ensures |list| > 1 ==> |InsertLeft(list, None, info).list| < |list| + 1
  {
  }

  /**
   * A second cursor after a node is linked in front of position p: it is
   * moved one place along when it pointed at or after p. That it then still
   * points at its old node is ShiftFollowsNode.
   */
  function Shift(c: Option<nat>, p: nat): (d: Option<nat>)
    ensures d.None? <==> c.None?
  {
    match c
    case None => None
    case Some(j) => if j >= p then Some(j + 1) else Some(j)
  }

  /** The shifted cursor still points at the node it pointed at before the insertion. */
  lemma ShiftFollowsNode(list: seq<MovieInfo>, p: nat, e: MovieInfo, j: nat)
    requires p <= |list| && j < |list|
    ensures Shift(Some(j), p).value < |list| + 1
    ensures InsertAt(list, p, e)[Shift(Some(j), p).value] == list[j]
  {
  }

  /** The target's list during `suggest`, with the cursors to_right and to_left. */
  datatype SuggestState = SuggestState(list: seq<MovieInfo>, right: Option<nat>, left: Option<nat>)

  /** Both cursors point into the list, and to_right is NULL only while the list is empty. */
  predicate WellPlaced(s: SuggestState)
  {
    && OnList(s.list, s.right) && OnList(s.list, s.left)
    && (s.right.None? <==> s.list == [])
  }

  /** Before the scan, to_right is the head and to_left the tail. */
  function Start(L: seq<MovieInfo>): (s: SuggestState)
    ensures WellPlaced(s) && s.list == L
    ensures s.left.None? <==> L == []
  {
    if L == [] then SuggestState(L, None, None) else SuggestState(L, Some(0), Some(|L| - 1))
  }

  /**
   * The n-th popped info (counting from 1): an odd n goes right of to_right
   * and an even n left of to_left. The cursor not used stays on its node.
   * An even step comes after the first odd one, so to_right is set, and a
   * NULL to_left then means the list holds the one node put there by step 1.
   */
  function Step(s: SuggestState, c: MovieInfo, n: nat): (r: SuggestState)
    requires WellPlaced(s)
    requires n % 2 == 0 ==> s.right.Some? && (s.left.None? ==> |s.list| == 1)
    ensures WellPlaced(r) && r.right.Some? && |r.list| == |s.list| + 1
    ensures n % 2 == 0 ==> r.left.Some?
    ensures n % 2 == 1 ==> (r.left.None? <==> s.left.None?)
  {
    if n % 2 == 1 then
      var sp := InsertRight(s.list, s.right, c);
      var left := if s.right.None? then s.left else Shift(s.left, s.right.value + 1);
      SuggestState(sp.list, sp.cursor, left)
    else
      var sp := InsertLeft(s.list, s.left, c);
      var p := if s.left.None? then 1 else s.left.value;
      SuggestState(sp.list, Shift(s.right, p), sp.cursor)
  }

  /** The target's list after the popped infos `cs` were inserted, in order, into `L`. */
  function Fold(L: seq<MovieInfo>, cs: seq<MovieInfo>): (s: SuggestState)
    ensures WellPlaced(s) && |s.list| == |L| + |cs|
    ensures s.left.None? ==> L == [] && |cs| <= 1
    decreases |cs|
  {
    if cs == [] then Start(L)
    else Step(Fold(L, cs[..|cs| - 1]), cs[|cs| - 1], |cs|)
  }

  /**
   * One more contribution is one more step, and the state reached so far
   * meets that step's precondition.
   */
  lemma FoldSnoc(L: seq<MovieInfo>, cs: seq<MovieInfo>, c: MovieInfo, s: SuggestState)
    requires s == Fold(L, cs)
    ensures WellPlaced(s)
    ensures (|cs| + 1) % 2 == 0 ==> s.right.Some? && (s.left.None? ==> |s.list| == 1)
    ensures Fold(L, cs + [c]) == Step(s, c, |cs| + 1)
  {
    assert (cs + [c])[..|cs|] == cs;
  }

  /** The odd-numbered contributions c1, c3, ... in order. */
  function Odds(cs: seq<MovieInfo>): (r: seq<MovieInfo>)
    ensures |r| == (|cs| + 1) / 2
  {
    if cs == [] then []
    else if |cs| % 2 == 1 then Odds(cs[..|cs| - 1]) + [cs[|cs| - 1]]
    else Odds(cs[..|cs| - 1])
  }

  /** The even-numbered contributions c2, c4, ... in order. */
  function Evens(cs: seq<MovieInfo>): (r: seq<MovieInfo>)
    ensures |r| == |cs| / 2
  {
    if cs == [] then []
    else if |cs| % 2 == 0 then Evens(cs[..|cs| - 1]) + [cs[|cs| - 1]]
    else Evens(cs[..|cs| - 1])
  }

  /**
   * The closed form of the alternating merge. Into an empty list c1..ck land
   * as c1, c3, ..., c4, c2; into a one-node list h as ..., c4, c2, h, c1, c3, ...;
   * into h ... t of two or more nodes as h, c1, c3, ..., old interior, ..., c4, c2, t.
   */
  function Shape(L: seq<MovieInfo>, cs: seq<MovieInfo>): seq<MovieInfo>
  {
    Layout(L, Odds(cs), Reverse(Evens(cs)))
  }

  /** The closed form with the odd contributions O and the reversed even ones R. */
  function Layout(L: seq<MovieInfo>, O: seq<MovieInfo>, R: seq<MovieInfo>): seq<MovieInfo>
  {
    if |L| == 0 then O + R
    else if |L| == 1 then R + L + O
    else [L[0]] + O + L[1..|L| - 1] + R + [L[|L| - 1]]
  }

  /** Where to_right stands in the closed form: after the last odd contribution. */
  function RightAfter(L: seq<MovieInfo>, cs: seq<MovieInfo>): Option<nat>
  {
    if |L| == 0 then (if cs == [] then None else Some(|Odds(cs)| - 1))
    else if |L| == 1 then Some(|Evens(cs)| + |Odds(cs)|)
    else Some(|Odds(cs)|)
  }

  /** Where to_left stands in the closed form: on the last even contribution. */
  function LeftAfter(L: seq<MovieInfo>, cs: seq<MovieInfo>): Option<nat>
  {
    if |L| == 0 then (if |Evens(cs)| == 0 then None else Some(|Odds(cs)|))
    else if |L| == 1 then Some(0)
    else Some(|Odds(cs)| + |L| - 1)
  }

  /** Prepending to the back of a reversal. */
  lemma ReverseSnoc<T>(xs: seq<T>, x: T)
    ensures Reverse(xs + [x]) == [x] + Reverse(xs)
  {
    var a := Reverse(xs + [x]);
    var b := [x] + Reverse(xs);
    assert |a| == |b|;
    forall k | 0 <= k < |a| ensures a[k] == b[k] {
      if k > 0 {
        assert (xs + [x])[|xs| - k] == xs[|xs| - 1 - (k - 1)];
      }
    }
  }

  /**
   * The stepwise inserts of `suggest` produce exactly the closed form, with
   * the two cursors where RightAfter and LeftAfter say.
   */
  lemma {:induction false} FoldShape(L: seq<MovieInfo>, cs: seq<MovieInfo>)
    ensures Fold(L, cs).list == Shape(L, cs)
    ensures Fold(L, cs).right == RightAfter(L, cs)
    ensures Fold(L, cs).left == LeftAfter(L, cs)
    decreases |cs|
  {
    if cs == [] {
      if |L| >= 2 {
        assert L == [L[0]] + L[1..|L| - 1] + [L[|L| - 1]];
      }
    } else {
      var cs' := cs[..|cs| - 1];
      var c := cs[|cs| - 1];
      assert cs == cs' + [c];
      ParityStep(|cs'|);
      FoldShape(L, cs');
      var s := Fold(L, cs');
      assert Fold(L, cs) == Step(s, c, |cs|);
      if |cs| % 2 == 1 {
        StepRightList(L, cs', c, s);
        StepRightCursors(L, cs', c, s);
      } else {
        StepLeftList(L, cs', c, s);
        StepLeftCursors(L, cs', c, s);
      }
    }
  }

  /** Linking a node where two pieces of a list meet. */
  lemma InsertBetween(a: seq<MovieInfo>, b: seq<MovieInfo>, c: MovieInfo)
    ensures InsertAt(a + b, |a|, c) == a + [c] + b
  {
    assert (a + b)[..|a|] == a && (a + b)[|a|..] == b;
  }

  /** The parity flips with each contribution. */
  lemma ParityStep(n: nat)
    ensures (n + 1) % 2 == 1 - n % 2
  {
  }

  /** An odd-numbered contribution joins the odd ones. */
  lemma SnocOdd(cs': seq<MovieInfo>, c: MovieInfo)
    requires |cs'| % 2 == 0
    ensures Odds(cs' + [c]) == Odds(cs') + [c] && Evens(cs' + [c]) == Evens(cs')
  {
    var cs := cs' + [c];
    ParityStep(|cs'|);
    assert cs[..|cs| - 1] == cs' && cs[|cs| - 1] == c;
    assert Odds(cs) == Odds(cs[..|cs| - 1]) + [cs[|cs| - 1]];
    assert Evens(cs) == Evens(cs[..|cs| - 1]);
  }

  /** An even-numbered contribution joins the even ones. */
  lemma SnocEven(cs': seq<MovieInfo>, c: MovieInfo)
    requires |cs'| % 2 == 1
    ensures Odds(cs' + [c]) == Odds(cs') && Evens(cs' + [c]) == Evens(cs') + [c]
  {
    var cs := cs' + [c];
    ParityStep(|cs'|);
    assert cs[..|cs| - 1] == cs' && cs[|cs| - 1] == c;
    assert Odds(cs) == Odds(cs[..|cs| - 1]);
    assert Evens(cs) == Evens(cs[..|cs| - 1]) + [cs[|cs| - 1]];
  }

  /** Helper: an odd step in the closed form, the list. */
  lemma StepRightList(L: seq<MovieInfo>, cs': seq<MovieInfo>, c: MovieInfo, s: SuggestState)
    requires |cs'| % 2 == 0 && WellPlaced(s)
    requires s == SuggestState(Shape(L, cs'), RightAfter(L, cs'), LeftAfter(L, cs'))
    ensures Step(s, c, |cs'| + 1).list == Shape(L, cs' + [c])
  {
    ParityStep(|cs'|);
    SnocOdd(cs', c);
    var O, R := Odds(cs'), Reverse(Evens(cs'));
    if |L| == 0 {
      if cs' != [] {
        RightIntoEmpty(O, R, c);
      }
    } else if |L| == 1 {
      RightIntoSingle(L, O, R, c);
    } else {
      RightIntoLong(L, O, R, c);
    }
  }

  /** Linking c1, c3, ... after to_right in the closed form, when the list was empty. */
  lemma RightIntoEmpty(O: seq<MovieInfo>, R: seq<MovieInfo>, c: MovieInfo)
    ensures InsertAt(Layout([], O, R), |O|, c) == Layout([], O + [c], R)
  {
    InsertBetween(O, R, c);
  }

  /** Linking c1, c3, ... after to_right in the closed form, when the list held one node. */
  lemma RightIntoSingle(L: seq<MovieInfo>, O: seq<MovieInfo>, R: seq<MovieInfo>, c: MovieInfo)
    requires |L| == 1
    ensures InsertAt(Layout(L, O, R), |R| + |O| + 1, c) == Layout(L, O + [c], R)
  {
    InsertBetween(R + L + O, [], c);
  }

  /** Linking c1, c3, ... after to_right in the closed form, when the list held two or more nodes. */
  lemma RightIntoLong(L: seq<MovieInfo>, O: seq<MovieInfo>, R: seq<MovieInfo>, c: MovieInfo)
    requires |L| >= 2
    ensures InsertAt(Layout(L, O, R), |O| + 1, c) == Layout(L, O + [c], R)
  {
    var h, mid, t := [L[0]], L[1..|L| - 1], [L[|L| - 1]];
    assert Layout(L, O, R) == (h + O) + (mid + R + t);
    InsertBetween(h + O, mid + R + t, c);
  }

  /** Linking c2, c4, ... before to_left in the closed form, when the list was empty. */
  lemma LeftIntoEmpty(O: seq<MovieInfo>, R: seq<MovieInfo>, c: MovieInfo)
    ensures InsertAt(Layout([], O, R), |O|, c) == Layout([], O, [c] + R)
  {
    InsertBetween(O, R, c);
  }

  /** Linking c2, c4, ... before to_left in the closed form, when the list held one node. */
  lemma LeftIntoSingle(L: seq<MovieInfo>, O: seq<MovieInfo>, R: seq<MovieInfo>, c: MovieInfo)
    requires |L| == 1
    ensures InsertAt(Layout(L, O, R), 0, c) == Layout(L, O, [c] + R)
  {
    InsertBetween([], R + L + O, c);
  }

  /** Linking c2, c4, ... before to_left in the closed form, when the list held two or more nodes. */
  lemma LeftIntoLong(L: seq<MovieInfo>, O: seq<MovieInfo>, R: seq<MovieInfo>, c: MovieInfo)
    requires |L| >= 2
    ensures InsertAt(Layout(L, O, R), |O| + |L| - 1, c) == Layout(L, O, [c] + R)
  {
    var h, mid, t := [L[0]], L[1..|L| - 1], [L[|L| - 1]];
    assert Layout(L, O, R) == (h + O + mid) + (R + t);
    InsertBetween(h + O + mid, R + t, c);
  }

  /** Helper: an odd step in the closed form, the cursors. */
  lemma StepRightCursors(L: seq<MovieInfo>, cs': seq<MovieInfo>, c: MovieInfo, s: SuggestState)
    requires |cs'| % 2 == 0 && WellPlaced(s)
    requires s.right == RightAfter(L, cs') && s.left == LeftAfter(L, cs')
    ensures Step(s, c, |cs'| + 1).right == RightAfter(L, cs' + [c])
    ensures Step(s, c, |cs'| + 1).left == LeftAfter(L, cs' + [c])
  {
    ParityStep(|cs'|);
    SnocOdd(cs', c);
    assert |Odds(cs' + [c])| == |Odds(cs')| + 1 && |Evens(cs' + [c])| == |Evens(cs')|;
  }

  /** Helper: an even step in the closed form, the list. */
  lemma StepLeftList(L: seq<MovieInfo>, cs': seq<MovieInfo>, c: MovieInfo, s: SuggestState)
    requires |cs'| % 2 == 1 && WellPlaced(s)
    requires s == SuggestState(Shape(L, cs'), RightAfter(L, cs'), LeftAfter(L, cs'))
    requires s.left.None? ==> |s.list| == 1
    ensures Step(s, c, |cs'| + 1).list == Shape(L, cs' + [c])
  {
    ParityStep(|cs'|);
    SnocEven(cs', c);
    ReverseSnoc(Evens(cs'), c);
    var O, R := Odds(cs'), Reverse(Evens(cs'));
    if |L| == 0 {
      if Evens(cs') == [] {
        assert |cs'| == 1 && O == [cs'[0]];
        assert Shape(L, cs' + [c]) == O + [c];
      } else {
        LeftIntoEmpty(O, R, c);
      }
    } else if |L| == 1 {
      LeftIntoSingle(L, O, R, c);
    } else {
      LeftIntoLong(L, O, R, c);
    }
  }

  /** Helper: an even step in the closed form, the cursors. */
  lemma StepLeftCursors(L: seq<MovieInfo>, cs': seq<MovieInfo>, c: MovieInfo, s: SuggestState)
    requires |cs'| % 2 == 1 && WellPlaced(s)
    requires s.right.Some? && (s.left.None? ==> |s.list| == 1)
    requires s.right == RightAfter(L, cs') && s.left == LeftAfter(L, cs')
    ensures Step(s, c, |cs'| + 1).right == RightAfter(L, cs' + [c])
    ensures Step(s, c, |cs'| + 1).left == LeftAfter(L, cs' + [c])
  {
    ParityStep(|cs'|);
    SnocEven(cs', c);
    assert |Odds(cs' + [c])| == |Odds(cs')| && |Evens(cs' + [c])| == |Evens(cs')| + 1;
  }

  /** A reversal holds the same elements. */
  lemma {:induction false} ReverseMultiset<T>(xs: seq<T>)
    ensures multiset(Reverse(xs)) == multiset(xs)
  {
    if xs != [] {
      ReverseMultiset(xs[1..]);
      assert xs == [xs[0]] + xs[1..];
    }
  }

  /** The odd and the even contributions together are all of them. */
  lemma {:induction false} OddsEvensMultiset(cs: seq<MovieInfo>)
    ensures multiset(Odds(cs)) + multiset(Evens(cs)) == multiset(cs)
  {
    if cs != [] {
      var cs' := cs[..|cs| - 1];
      OddsEvensMultiset(cs');
      assert cs == cs' + [cs[|cs| - 1]];
    }
  }

  /**
   * The merge adds exactly the contributions: the list afterwards holds the
   * old nodes and the popped infos, so it grows by their number.
   */
  lemma ShapeMultiset(L: seq<MovieInfo>, cs: seq<MovieInfo>)
    ensures multiset(Shape(L, cs)) == multiset(L) + multiset(cs)
    ensures |Shape(L, cs)| == |L| + |cs|
  {
    var O, E := Odds(cs), Evens(cs);
    var R := Reverse(E);
    OddsEvensMultiset(cs);
    ReverseMultiset(E);
    if |L| == 0 {
      assert Shape(L, cs) == [] + O + [] + R + [];
      MultisetInterleaved([], O, [], R, [], multiset(E), multiset(cs));
    } else if |L| == 1 {
      assert Shape(L, cs) == R + L + O;
      MultisetAround(R, L, O, multiset(E), multiset(cs));
    } else {
      var h, mid, t := [L[0]], L[1..|L| - 1], [L[|L| - 1]];
      assert Shape(L, cs) == h + O + mid + R + t;
      assert L == h + mid + t;
      MultisetInterleaved(h, O, mid, R, t, multiset(E), multiset(cs));
    }
  }

  /** Helper: the pieces of the closed form for two or more nodes, or none. */
  lemma MultisetInterleaved(h: seq<MovieInfo>, O: seq<MovieInfo>, mid: seq<MovieInfo>,
                            R: seq<MovieInfo>, t: seq<MovieInfo>,
                            me: multiset<MovieInfo>, mc: multiset<MovieInfo>)
    requires multiset(O) + me == mc && multiset(R) == me
    ensures multiset(h + O + mid + R + t) == multiset(h + mid + t) + mc
  {
  }

  /** Helper: the pieces of the closed form for one node. */
  lemma MultisetAround(R: seq<MovieInfo>, L: seq<MovieInfo>, O: seq<MovieInfo>,
                       me: multiset<MovieInfo>, mc: multiset<MovieInfo>)
    requires multiset(O) + me == mc && multiset(R) == me
    ensures multiset(R + L + O) == multiset(L) + mc
  {
  }

  /** The position of the first node carrying `mid`, or the length when there is none. */
  function FirstMatch(s: seq<MovieInfo>, mid: int): (k: nat)
    ensures k <= |s|
    ensures forall j :: 0 <= j < k ==> s[j].mid != mid
    ensures k < |s| ==> s[k].mid == mid
    ensures k == |s| <==> !Contains(s, mid)
  {
    if s == [] || s[0].mid == mid then 0 else 1 + FirstMatch(s[1..], mid)
  }

  /** What RemoveFromSuggList leaves: the list without its first node carrying `mid`. */
  function RemoveFirst(s: seq<MovieInfo>, mid: int): seq<MovieInfo>
  {
    var k := FirstMatch(s, mid);
    if k == |s| then s else RemoveAt(s, k)
  }

  /** The number of nodes carrying `mid`. */
  function Occurrences(s: seq<MovieInfo>, mid: int): nat
  {
    if s == [] then 0 else (if s[0].mid == mid then 1 else 0) + Occurrences(s[1..], mid)
  }

  /** A list holds `mid` exactly when it occurs at least once. */
  lemma {:induction false} OccurrencesContains(s: seq<MovieInfo>, mid: int)
    ensures Occurrences(s, mid) > 0 <==> Contains(s, mid)
  {
    if s != [] {
      OccurrencesContains(s[1..], mid);
      if Contains(s, mid) && s[0].mid != mid {
        var k :| 0 <= k < |s| && s[k].mid == mid;
        assert s[1..][k - 1].mid == mid;
      }
      if Contains(s[1..], mid) {
        var k :| 0 <= k < |s[1..]| && s[1..][k].mid == mid;
        assert s[k + 1].mid == mid;
      }
    }
  }

  /** Occurrences add up over a concatenation. */
  lemma {:induction false} OccurrencesAppend(a: seq<MovieInfo>, b: seq<MovieInfo>, mid: int)
    ensures Occurrences(a + b, mid) == Occurrences(a, mid) + Occurrences(b, mid)
  {
    if a != [] {
      OccurrencesAppend(a[1..], b, mid);
      assert (a + b)[1..] == a[1..] + b;
    } else {
      assert a + b == b;
    }
  }

  /**
   * RemoveFromSuggList unlinks exactly the first node carrying `mid` and
   * keeps the rest in order; a list without `mid` is left as it was.
   */
  lemma RemoveFirstMeaning(s: seq<MovieInfo>, mid: int)
    ensures !Contains(s, mid) ==> RemoveFirst(s, mid) == s
    ensures Contains(s, mid) ==>
      var k := FirstMatch(s, mid);
      && RemoveFirst(s, mid) == s[..k] + s[k + 1..]
      && multiset(RemoveFirst(s, mid)) + multiset{s[k]} == multiset(s)
      && forall j :: 0 <= j < k ==> s[j].mid != mid
  {
    var k := FirstMatch(s, mid);
    if k < |s| {
      assert s == s[..k] + [s[k]] + s[k + 1..];
    }
  }

  /** The removal takes away exactly one occurrence of `mid`, when there is one. */
  lemma RemoveFirstCount(s: seq<MovieInfo>, mid: int)
    ensures Occurrences(RemoveFirst(s, mid), mid)
      == Occurrences(s, mid) - (if Contains(s, mid) then 1 else 0)
  {
    var k := FirstMatch(s, mid);
    if k < |s| {
      var a, b := s[..k], s[k + 1..];
      var tail := [s[k]] + b;
      assert s == a + tail && tail[1..] == b;
      assert Occurrences(tail, mid) == 1 + Occurrences(b, mid);
      OccurrencesAppend(a, tail, mid);
      OccurrencesAppend(a, b, mid);
      assert RemoveFirst(s, mid) == a + b;
    }
  }

  /**
   * A list that holds `mid` at most once no longer holds it after the
   * removal, and a second removal changes nothing.
   */
  lemma RemoveFirstOnce(s: seq<MovieInfo>, mid: int)
    requires Occurrences(s, mid) <= 1
    ensures !Contains(RemoveFirst(s, mid), mid)
    ensures RemoveFirst(RemoveFirst(s, mid), mid) == RemoveFirst(s, mid)
  {
    RemoveFirstCount(s, mid);
    OccurrencesContains(s, mid);
    OccurrencesContains(RemoveFirst(s, mid), mid);
    RemoveFirstMeaning(RemoveFirst(s, mid), mid);
  }

  /** A second node with the same id survives the removal. */
  lemma RemoveFirstKeepsDuplicate()
    ensures var m := MovieInfo(147, 2014);
      RemoveFirst([m, m], 147) == [m] && Contains(RemoveFirst([m, m], 147), 147)
  {
    var m := MovieInfo(147, 2014);
    assert FirstMatch([m, m], 147) == 0;
    assert RemoveAt([m, m], 0) == [m];
    assert [m][0].mid == 147;
  }

  /**
   * RemoveFromSuggList: scan from the head for the first node with `mid`;
   * none gives -1 and an unchanged list. Otherwise the node is unlinked as
   * the only node, the head, the tail or an interior node.
   */
  method RemoveFromSuggList(mid: uint32, list: seq<MovieInfo>) returns (st: Status, r: seq<MovieInfo>)
    ensures st == (if Contains(list, mid) then Ok else Err)
    ensures r == RemoveFirst(list, mid)
  {
    var k := 0;
    while k < |list| && list[k].mid != mid
      invariant k <= |list|
      invariant forall j :: 0 <= j < k ==> list[j].mid != mid
    {
      k := k + 1;
    }
    assert k == FirstMatch(list, mid) by {
      FirstMatchIs(list, mid, k);
    }
    if k == |list| {
      return Err, list;
    }
    if k == 0 && k == |list| - 1 {
      r := [];
    } else if k == 0 {
      r := list[1..];
    } else if k == |list| - 1 {
      r := list[..k];
    } else {
      r := list[..k] + list[k + 1..];
    }
    st := Ok;
  }

  /** A scan that stops where its guard first fails has stopped at FirstMatch. */
  lemma FirstMatchIs(s: seq<MovieInfo>, mid: int, k: nat)
    requires k <= |s|
    requires forall j :: 0 <= j < k ==> s[j].mid != mid
    requires k < |s| ==> s[k].mid == mid
    ensures FirstMatch(s, mid) == k
  {
  }
}
