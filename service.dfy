/**
 * The service's global state and the operations that rewire it: the user
 * list with its guard node, the six category lists and the new-movies list.
 * Each method follows the loops of the C function of the same name and is
 * proved to leave the state that the value-level definitions describe.
 */
module Service {
  import opened Types
  import opened SortedScan
  import opened Catalog
  import opened WatchStack
  import opened SuggestionList
  import opened FilteredSearch
  import opened Intake
  import opened Users

  /**
   * CleanSuggestedMovies: walks the list freeing every node; head and tail
   * end NULL. Only the walk is modelled: the empty result follows from the
   * loop's exit condition, and freeing has no counterpart here.
   */
  method CleanSuggestedMovies(list: seq<MovieInfo>) returns (r: seq<MovieInfo>)
    ensures r == []
  {
    var rest := list;
    while rest != []
      decreases |rest|
    {
      rest := rest[1..];
    }
    r := rest;
  }

  /**
   * CleanStack: walks the stack freeing every node; the stack ends NULL.
   * Only the walk is modelled, as in CleanSuggestedMovies.
   */
  method CleanStack(s: seq<MovieInfo>) returns (r: seq<MovieInfo>)
    ensures IsEmptyWatchStack(r)
  {
    var rest := s;
    while !IsEmptyWatchStack(rest)
      decreases |rest|
    {
      rest := rest[1..];
    }
    r := rest;
  }

  /**
   * One insertion of `suggest`: the count-th popped info goes right of
   * to_right when count is odd, left of to_left when it is even, and the
   * cursor not used is kept on its node. Applied to the state reached
   * after the contributions `cs`, it reaches the state after `cs + [info]`.
   */
  method LinkSuggestion(ghost L: seq<MovieInfo>, ghost cs: seq<MovieInfo>,
                        list: seq<MovieInfo>, right: Option<nat>, left: Option<nat>, info: MovieInfo, count: nat)
    returns (list': seq<MovieInfo>, right': Option<nat>, left': Option<nat>)
    requires SuggestState(list, right, left) == Fold(L, cs) && count == |cs| + 1
    ensures SuggestState(list', right', left') == Fold(L, cs + [info])
  {
    FoldSnoc(L, cs, info, SuggestState(list, right, left));
    if count % 2 == 1 {
      var sp := InsertRight(list, right, info);
      left' := if right.None? then left else Shift(left, right.value + 1);
      list', right' := sp.list, sp.cursor;
    } else {
      var sp := InsertLeft(list, left, info);
      right' := Shift(right, if left.None? then 1 else left.value);
      list', left' := sp.list, sp.cursor;
    }
  }

  /**
   * One pass of the loop of `suggest` over the user at position i: a user
   * other than the target is popped, and an info popped (other than the
   * `{-1, -1}` one) is counted and linked into the target's list.
   */
  method SuggestVisit(ghost us0: seq<User>, ghost L0: seq<MovieInfo>, uid: int, i: nat,
                      us: seq<User>, list: seq<MovieInfo>, right: Option<nat>, left: Option<nat>, count: nat)
    returns (us': seq<User>, list': seq<MovieInfo>, right': Option<nat>, left': Option<nat>, count': nat)
    requires i < |us0| && us == Pass(us0, uid, i)
    requires count == |Contributions(us0[..i], uid)|
    requires SuggestState(list, right, left) == Fold(L0, Contributions(us0[..i], uid))
    ensures us' == Pass(us0, uid, i + 1)
    ensures count' == |Contributions(us0[..i + 1], uid)|
    ensures SuggestState(list', right', left') == Fold(L0, Contributions(us0[..i + 1], uid))
  {
    ContributionsStep(us0, uid, i);
    PassStep(us0, uid, i);
    ghost var cs := Contributions(us0[..i], uid);
    us', list', right', left', count' := us, list, right, left, count;
    if us[i].uid != uid {
      var p := Pop(us[i].history);
      us' := us[i := us[i].(history := p.rest)];
      if p.info.Some? && p.info.value.mid != UINT_MAX {
        count' := count + 1;
        list', right', left' := LinkSuggestion(L0, cs, list, right, left, p.info.value, count');
        assert Contributions(us0[..i + 1], uid) == cs + [p.info.value];
      } else {
        assert Offered(us0[i], uid) == [] && cs + [] == cs;
      }
    } else {
      assert Offered(us0[i], uid) == [] && cs + [] == cs;
    }
  }

  /**
   * The body of RemoveFromTable's loop for one category list: the ordered
   * scan with a trailing prev, then, if the scan stopped on `mid`, the
   * node is unlinked from the head or from behind prev.
   */
  method UnlinkFromCategory(head: seq<MovieInfo>, mid: uint32) returns (found: bool, rest: seq<MovieInfo>)
    ensures found <==> Lookup(head, mid).Some?
    ensures found ==> rest == RemoveAt(head, FirstAtLeast(head, mid))
    ensures !found ==> rest == head
  {
    var k := 0;
    var prev: Option<nat> := None;
    while k < |head| && head[k].mid < mid
      invariant k <= |head|
      invariant forall j :: 0 <= j < k ==> head[j].mid < mid
      invariant prev == if k == 0 then None else Some(k - 1)
    {
      prev := Some(k);
      k := k + 1;
    }
    FirstAtLeastIs(head, mid, k);
    if k < |head| && head[k].mid == mid {
      found := true;
      if prev.None? {
        rest := head[1..];
      } else {
        rest := head[..prev.value + 1] + head[k + 1..];
      }
    } else {
      found, rest := false, head;
    }
  }

  class StreamingService {
    /** user_list up to, not including, the guard node. */
    var users: seq<User>
    /** guard->uid: -1 except while a search has put its target there. */
    var guard: int
    /** category_array: the head of each of the six category lists. */
    const buckets: array<seq<MovieInfo>>
    /** new_movies_list. */
    var intake: seq<NewMovie>

    /** Six category lists, and the guard holds -1 between operations. */
    ghost predicate Valid()
      reads this
    {
      buckets.Length == 6 && guard == -1
    }

    /**
     * The orders the event handlers keep: no two users share an id, the
     * intake is strictly ascending by id, and so is every category list.
     * The earlier insertion without the duplicate check does not keep it.
     */
    ghost predicate Sorted()
      reads this, buckets
    {
      && UniqueUids(users)
      && Ascending(Infos(intake))
      && forall c :: 0 <= c < buckets.Length ==> Ascending(buckets[c])
    }

    /** init_structures: empty category lists, empty intake, a user list holding only the guard. */
    constructor()
      ensures Valid() && Sorted() && fresh(buckets)
      ensures users == [] && intake == []
      ensures buckets[..] == [[], [], [], [], [], []]
    {
      users := [];
      guard := -1;
      intake := [];
      buckets := new seq<MovieInfo>[6](i => []);
    }

    /** The uid of the node at position i, the guard's at the end. */
    function UidAt(i: nat): int
      reads this
      requires i <= |users|
    {
      if i < |users| then users[i].uid else guard
    }

    /** UserListSearch: puts `uid` in the guard, scans to the first node carrying it, restores the guard. */
    method UserListSearch(uid: int) returns (found: bool)
      requires Valid()
      modifies this`guard
      ensures Valid()
      ensures found <==> HasUid(users, uid)
    {
      guard := uid;
      var i := 0;
      while UidAt(i) != uid
        invariant i <= |users| && guard == uid
        invariant forall j :: 0 <= j < i ==> users[j].uid != uid
        decreases |users| - i
      {
        i := i + 1;
      }
      guard := -1;
      IndexOfIs(users, uid, i);
      found := i != |users|;
    }

    /** FindUserList: the same guard scan, handing back the node found or NULL. */
    method FindUserList(uid: int) returns (t: Option<nat>)
      requires Valid()
      modifies this`guard
      ensures Valid()
      ensures t == Find(users, uid)
    {
      guard := uid;
      var i := 0;
      while UidAt(i) != uid
        invariant i <= |users| && guard == uid
        invariant forall j :: 0 <= j < i ==> users[j].uid != uid
        decreases |users| - i
      {
        i := i + 1;
      }
      guard := -1;
      IndexOfIs(users, uid, i);
      t := if i != |users| then Some(i) else None;
    }

    /** UserListInsert (event R): refuses a taken id, otherwise links a fresh user in as the head. */
    method UserListInsert(uid: int) returns (st: Status)
      requires Valid() && Sorted()
      modifies this`users, this`guard
      ensures Valid() && Sorted()
      ensures Registered(old(users), uid).None? ==> st == Err && users == old(users)
      ensures Registered(old(users), uid).Some? ==> st == Ok && users == Registered(old(users), uid).value
    {
      RegisteredMeaning(users, uid);
      var present := UserListSearch(uid);
      if present {
        return Err;
      }
      users := [NewUser(uid)] + users;
      st := Ok;
    }

    /**
     * DeleteUser (event U): scans with a trailing prev, clears the user's
     * suggestions and history, then unlinks the node from the head or from
     * behind prev.
     */
    method DeleteUser(uid: int)
      requires Valid() && Sorted()
      modifies this`users, this`guard
      ensures Valid() && Sorted()
      ensures users == Unregistered(old(users), uid)
      ensures !HasUid(users, uid)
      ensures forall v :: v != uid ==> (HasUid(users, v) <==> HasUid(old(users), v))
    {
      UnregisteredMeaning(users, uid);
      guard := uid;
      var i := 0;
      var prev: Option<nat> := None;
      while UidAt(i) != uid
        invariant i <= |users| && guard == uid
        invariant forall j :: 0 <= j < i ==> users[j].uid != uid
        invariant prev == if i == 0 then None else Some(i - 1)
        decreases |users| - i
      {
        prev := Some(i);
        i := i + 1;
      }
      guard := -1;
      IndexOfIs(users, uid, i);
      if i == |users| {
        return;
      }
      ghost var us0 := users;
      var u := users[i];
      var sug := CleanSuggestedMovies(u.suggested);
      var hist := CleanStack(u.history);
      users := users[i := u.(suggested := sug, history := hist)];
      if prev.None? {
        users := users[1..];
      } else {
        users := users[..prev.value + 1] + users[i + 1..];
      }
      assert users == us0[..i] + us0[i + 1..];
    }

    /**
     * The scan both intake insertions start with: it walks with a trailing
     * prev while the ids are below `mid`, stopping at Slot.
     */
    method IntakeScan(mid: uint32) returns (k: nat, prev: Option<nat>)
      ensures k == Slot(intake, mid) && k <= |intake|
      ensures k < |intake| ==> intake[k].info.mid >= mid
      ensures prev == if k == 0 then None else Some(k - 1)
    {
      k := 0;
      prev := None;
      while k < |intake| && intake[k].info.mid < mid
        invariant k <= |intake|
        invariant forall j :: 0 <= j < k ==> intake[j].info.mid < mid
        invariant prev == if k == 0 then None else Some(k - 1)
      {
        prev := Some(k);
        k := k + 1;
      }
      FirstAtLeastIs(Infos(intake), mid, k);
    }

    /** NewMoviesInsertSorted (event A): splices the movie in where the ordered scan stops, refusing a repeated id. */
    method NewMoviesInsertSorted(mid: uint32, cat: Category, year: uint32) returns (st: Status)
      requires Valid() && Sorted()
      modifies this`intake
      ensures Valid() && Sorted()
      ensures var r := InsertSorted(old(intake), NewMovie(MovieInfo(mid, year), cat));
        && (r.None? ==> st == Err && intake == old(intake))
        && (r.Some? ==> st == Ok && intake == r.value)
      ensures Ascending(Infos(old(intake))) ==> Ascending(Infos(intake))
    {
      var e := NewMovie(MovieInfo(mid, year), cat);
      var k, prev := IntakeScan(mid);
      if k < |intake| && intake[k].info.mid == mid {
        return Err;
      }
      ghost var q := intake;
      if prev.None? {
        intake := [e] + intake;
      } else {
        intake := intake[..prev.value + 1] + [e] + intake[k..];
      }
      assert intake == InsertAt(q, k, e);
      InsertSortedMeaning(q, e);
      st := Ok;
    }

    /** The earlier NewMoviesInsertSorted, which splices in without refusing a repeated id. */
    method NewMoviesInsertUnchecked(mid: uint32, cat: Category, year: uint32) returns (st: Status)
      requires Valid()
      modifies this`intake
      ensures Valid()
      ensures st == Ok
      ensures intake == InsertUnchecked(old(intake), NewMovie(MovieInfo(mid, year), cat))
      ensures NonDecreasing(Infos(old(intake))) ==> NonDecreasing(Infos(intake))
    {
      var e := NewMovie(MovieInfo(mid, year), cat);
      var k, prev := IntakeScan(mid);
      if NonDecreasing(Infos(intake)) {
        InsertUncheckedMeaning(intake, e);
      }
      if prev.None? {
        intake := [e] + intake;
      } else {
        intake := intake[..prev.value + 1] + [e] + intake[k..];
      }
      st := Ok;
    }

    /**
     * split_list (event D): drains the intake in order into the category
     * lists. Each list that receives entries starts empty (see DrainIntake)
     * and gets an ascending run, so the lists stay ascending.
     */
    method SplitList()
      requires Valid() && Sorted()
      requires forall k :: 0 <= k < |intake| ==> buckets[intake[k].category.Index()] == []
      modifies this`intake, buckets
      ensures Valid() && Sorted() && intake == []
      ensures forall c :: 0 <= c < 6 ==> buckets[c] == old(buckets[c]) + CategoryEntries(old(intake), c)
    {
      forall c | 0 <= c < 6 ensures Ascending(buckets[c] + CategoryEntries(intake, c)) {
        SplitKeepsAscending(buckets[c], intake, c);
      }
      DrainIntake();
    }

    /**
     * The loop of split_list: each intake node in turn is appended at the
     * cached tail of its category's list. The tails start NULL, so a
     * receiving list must start empty.
     */
    method DrainIntake()
      requires Valid()
      requires forall k :: 0 <= k < |intake| ==> buckets[intake[k].category.Index()] == []
      modifies this`intake, buckets
      ensures Valid() && intake == []
      ensures forall c :: 0 <= c < 6 ==> buckets[c] == old(buckets[c]) + CategoryEntries(old(intake), c)
    {
      var tails := new Option<nat>[6](i => None);
      var k := 0;
      while k < |intake|
        invariant 0 <= k <= |intake| && intake == old(intake)
        invariant forall c :: 0 <= c < 6 ==> buckets[c] == old(buckets[c]) + CategoryEntries(intake[..k], c)
        invariant forall c :: 0 <= c < 6 ==>
          tails[c] == if CategoryEntries(intake[..k], c) == [] then None else LastIndex(buckets[c])
      {
        var cur := intake[k];
        var c := cur.category.Index();
        assert intake[..k + 1][..k] == intake[..k];
        var e := InsertEnd(buckets[c], tails[c], cur.info);
        buckets[c] := e.list;
        tails[c] := e.tail;
        k := k + 1;
      }
      assert intake[..k] == intake;
      intake := [];
    }

    /**
     * CategoryArraySearch: searches the lists in order 0..5 and stops at the
     * first result whose id is not -1 (UINT_MAX); the last result otherwise.
     */
    method CategoryArraySearch(mid: uint32) returns (r: Option<MovieInfo>)
      requires Valid()
      ensures r == CatalogLookup(buckets[..], mid)
      ensures r.Some? ==> r.value.mid == mid
      ensures (forall c :: 0 <= c < 6 ==> Ascending(buckets[c])) && mid != UINT_MAX ==>
        (r.Some? <==> exists c :: 0 <= c < 6 && Contains(buckets[c], mid))
    {
      ghost var bs := buckets[..];
      r := None;
      var i := 0;
      while i < 6
        invariant 0 <= i <= 6
        invariant mid != UINT_MAX ==> forall j :: 0 <= j < i ==> Lookup(bs[j], mid).None?
        invariant i > 0 ==> r == Lookup(bs[i - 1], mid)
      {
        r := CategoryListSearch(buckets[i], mid);
        if r.Some? && r.value.mid != UINT_MAX {
          assert FirstHit(bs, mid) == Some(i);
          if mid != UINT_MAX && forall c :: 0 <= c < 6 ==> Ascending(bs[c]) {
            CatalogLookupMeaning(bs, mid);
          }
          return;
        }
        i := i + 1;
      }
      if mid != UINT_MAX && forall c :: 0 <= c < 6 ==> Ascending(bs[c]) {
          CatalogLookupMeaning(bs, mid);
        }
    }

    /**
     * watch_movie (event W), and the draft `watch`: finds the user and the
     * movie and pushes the movie's info on the user's history. A search
     * result with id -1 (UINT_MAX) counts as not found.
     */
    method WatchMovie(uid: int, mid: uint32) returns (st: Status)
      requires Valid() && Sorted()
      modifies this`users, this`guard
      ensures Valid() && Sorted()
      ensures st == Err <==>
        mid == UINT_MAX || !HasUid(old(users), uid) || forall c :: 0 <= c < 6 ==> !Contains(buckets[c], mid)
      ensures var t := Find(old(users), uid); var m := CatalogLookup(buckets[..], mid);
        if t.None? || m.None? || m.value.mid == UINT_MAX then st == Err && users == old(users)
        else st == Ok && users == old(users)[t.value := old(users)[t.value].(history := Push(old(users)[t.value].history, m.value))]
    {
      var t := FindUserList(uid);
      if t.None? {
        return Err;
      }
      var m := CategoryArraySearch(mid);
      if m.None? || m.value.mid == UINT_MAX {
        return Err;
      }
      var u := users[t.value];
      ghost var us0 := users;
      users := users[t.value := u.(history := Push(u.history, m.value))];
      SameUidsUnique(us0, users);
      st := Ok;
    }

    /**
     * suggest_movies (event S), and the draft `suggest` when `draft` holds:
     * walks the users, pops the history of every user other than the
     * target, and links each popped info into the target's list, odd ones
     * right of to_right and even ones left of to_left. suggest_movies walks
     * up to the guard; `suggest` stops at the first node with uid -1.
     */
    method SuggestMovies(uid: int, draft: bool) returns (st: Status)
      requires Valid() && Sorted()
      modifies this`users, this`guard
      ensures Valid() && Sorted()
      ensures Find(old(users), uid).None? ==> st == Err && users == old(users)
      ensures Find(old(users), uid).Some? ==>
        var t := Find(old(users), uid).value;
        var n := if draft then IndexOf(old(users), -1) else |old(users)|;
        && st == Ok
        && users == Pass(old(users), uid, n)[t := old(users)[t].(suggested :=
             Shape(old(users)[t].suggested, Contributions(old(users)[..n], uid)))]
    {
      var found := FindUserList(uid);
      if found.None? {
        return Err;
      }
      var t := found.value;
      ghost var us0 := users;
      ghost var n := if draft then IndexOf(us0, -1) else |us0|;
      var list := SuggestScan(uid, t, draft);
      FoldShape(us0[t].suggested, Contributions(us0[..n], uid));
      assert users[t] == us0[t];
      users := users[t := users[t].(suggested := list)];
      SameUidsUnique(us0, users);
      st := Ok;
    }

    /**
     * The loop of `suggest`: to_right starts at the target's head and
     * to_left at its tail; each user other than the target is popped, and
     * each info popped is linked into the target's list. Returns that list.
     */
    method SuggestScan(uid: int, t: nat, draft: bool) returns (list: seq<MovieInfo>)
      requires Valid() && t < |users| && users[t].uid == uid
      modifies this`users
      ensures Valid()
      ensures var n := if draft then IndexOf(old(users), -1) else |old(users)|;
        && users == Pass(old(users), uid, n)
        && list == Fold(old(users)[t].suggested, Contributions(old(users)[..n], uid)).list
    {
      ghost var n := if draft then IndexOf(users, -1) else |users|;
      ghost var L0 := users[t].suggested;
      var us := users;
      list := users[t].suggested;
      var right: Option<nat> := if list == [] then None else Some(0);
      var left: Option<nat> := if list == [] then None else Some(|list| - 1);
      var count := 0;
      var i := 0;
      while if draft then UidAt(i) != -1 else i < |us|
        invariant 0 <= i <= n
        invariant count == |Contributions(users[..i], uid)|
        invariant SuggestState(list, right, left) == Fold(L0, Contributions(users[..i], uid))
        invariant us == Pass(users, uid, i)
        modifies {}
        decreases |us| - i
      {
        if draft {
          SentinelStop(users, guard, i);
        }
        us, list, right, left, count := SuggestVisit(users, L0, uid, i, us, list, right, left, count);
        i := i + 1;
      }
      if draft {
        SentinelStop(users, guard, i);
      }
      assert i == n;
      ghost var cs := Contributions(users[..n], uid);
      assert list == Fold(L0, cs).list;
      users := us;
    }

    /**
     * filtered_movie_search (event F): merges the two category lists into a
     * new run and appends it to the user's suggestions. Linking an empty run
     * after a non-empty list dereferences NULL, hence the precondition.
     */
    method FilteredMovieSearch(uid: int, category1: Category, category2: Category, year: uint32) returns (st: Status)
      requires Valid() && Sorted()
      requires var t := Find(users, uid);
        t.Some? && users[t.value].suggested != [] ==>
          Merge(buckets[category1.Index()], buckets[category2.Index()], year) != []
      modifies this`users, this`guard
      ensures Valid() && Sorted()
      ensures Find(old(users), uid).None? ==> st == Err && users == old(users)
      ensures Find(old(users), uid).Some? ==>
        var t := Find(old(users), uid).value;
        && st == Ok
        && users == old(users)[t := old(users)[t].(suggested := old(users)[t].suggested
             + Merge(buckets[category1.Index()], buckets[category2.Index()], year))]
      ensures NonDecreasing(Merge(buckets[category1.Index()], buckets[category2.Index()], year))
    {
      MergeNonDecreasing(buckets[category1.Index()], buckets[category2.Index()], year);
      var cat1 := buckets[category1.Index()];
      var cat2 := buckets[category2.Index()];
      var found := FindUserList(uid);
      if found.None? {
        return Err;
      }
      var t := found.value;
      var run := MergedRun(cat1, cat2, year);
      var u := users[t];
      ghost var us0 := users;
      if u.suggested == [] {
        assert u.suggested + run == run;
        users := users[t := u.(suggested := run)];
      } else {
        users := users[t := u.(suggested := u.suggested + run)];
      }
      SameUidsUnique(us0, users);
      st := Ok;
    }

    /**
     * RemoveFromTable: scans the lists in order with a trailing prev and
     * unlinks the node with `mid` from the first list whose scan stops on it.
     */
    method RemoveFromTable(mid: uint32)
      requires Valid() && Sorted()
      modifies buckets
      ensures Valid() && Sorted()
      ensures buckets[..] == TableAfterRemoval(old(buckets[..]), mid)
    {
      ghost var bs := buckets[..];
      assert forall c :: 0 <= c < |bs| ==> Ascending(bs[c]);
      TableAfterRemovalMeaning(bs, mid);
      var i := 0;
      while i < 6
        invariant 0 <= i <= 6
        invariant buckets[..] == bs
        invariant forall j :: 0 <= j < i ==> Lookup(bs[j], mid).None?
      {
        var found, rest := UnlinkFromCategory(buckets[i], mid);
        if found {
          buckets[i] := rest;
          assert FirstHit(bs, mid) == Some(i);
          assert buckets[..] == bs[i := rest];
          return;
        }
        i := i + 1;
      }
    }

    /**
     * take_off_movie (event T): removes the first node with `mid` from every
     * user's suggestion list, then from the category table.
     */
    method TakeOffMovie(mid: uint32)
      requires Valid() && Sorted()
      modifies this`users, buckets
      ensures Valid() && Sorted()
      ensures users == TakeOff(old(users), mid)
      ensures buckets[..] == TableAfterRemoval(old(buckets[..]), mid)
    {
      ghost var us0 := users;
      var i := 0;
      while i < |users|
        invariant 0 <= i <= |users| && |users| == |us0|
        invariant forall j :: 0 <= j < i ==> users[j] == us0[j].(suggested := RemoveFirst(us0[j].suggested, mid))
        invariant forall j :: i <= j < |users| ==> users[j] == us0[j]
        invariant buckets[..] == old(buckets[..])
      {
        var st, r := RemoveFromSuggList(mid, users[i].suggested);
        users := users[i := users[i].(suggested := r)];
        i := i + 1;
      }
      SameUidsUnique(us0, users);
      RemoveFromTable(mid);
    }
  }
}
