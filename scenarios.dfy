/**
 * The repository's own drivers (test_main.c, Distribute.c, UserSLL.c) as
 * facts about the model: a run of service calls in the drivers' order, and
 * the lists they print, derived from the general lemmas of the other modules.
 */
module Scenarios {
  import opened Types
  import opened SortedScan
  import opened Intake
  import opened Catalog
  import opened WatchStack
  import opened SuggestionList
  import opened Users

  /** A list strictly increasing by `key` is fixed by its elements. */
  lemma {:induction false} SameElementsSame<T>(a: seq<T>, b: seq<T>, key: T -> int)
    requires forall i, j :: 0 <= i < j < |a| ==> key(a[i]) < key(a[j])
    requires forall i, j :: 0 <= i < j < |b| ==> key(b[i]) < key(b[j])
    requires forall x :: x in a <==> x in b
    ensures a == b
    decreases |a|
  {
    HeadIn(b);
    if a != [] {
      assert a[0] in b;
      var k :| 0 <= k < |b| && b[k] == a[0];
      assert b[0] in a;
      var m :| 0 <= m < |a| && a[m] == b[0];
      assert key(b[k]) == key(a[0]) <= key(a[m]) == key(b[0]);
      assert k == 0;
      forall x | x in a[1..] ensures x in b[1..] {
        var i :| 1 <= i < |a| && a[i] == x;
        assert key(a[0]) < key(a[i]) && x in b;
        var j :| 0 <= j < |b| && b[j] == x;
        assert j != 0;
      }
      forall x | x in b[1..] ensures x in a[1..] {
        var j :| 1 <= j < |b| && b[j] == x;
        assert key(b[0]) < key(b[j]) && x in a;
        var i :| 0 <= i < |a| && a[i] == x;
        assert i != 0;
      }
      SameElementsSame(a[1..], b[1..], key);
      assert a == [a[0]] + a[1..] && b == [b[0]] + b[1..];
    }
  }

  /** A non-empty list has a member. */
  lemma HeadIn<T>(s: seq<T>)
    ensures s != [] ==> s[0] in s
  {
  }

  /** The key the intake list is ordered by. */
  function IntakeKey(e: NewMovie): int
  {
    e.info.mid
  }

  /** The key the category lists are ordered by. */
  function InfoKey(x: MovieInfo): int
  {
    x.mid
  }

  /** NewMoviesInsertSorted called for each of `es` in turn; a refused call leaves the list as it was. */
  function AddMovies(q: seq<NewMovie>, es: seq<NewMovie>): seq<NewMovie>
    decreases |es|
  {
    if es == [] then q
    else
      var q' := match InsertSorted(q, es[0]) case None => q case Some(r) => r;
      AddMovies(q', es[1..])
  }

  /** The new ids are distinct and none of them is on `q` already. */
  predicate FreshIds(q: seq<NewMovie>, es: seq<NewMovie>)
  {
    && (forall i :: 0 <= i < |es| ==> !Contains(Infos(q), es[i].info.mid))
    && (forall i, j :: 0 <= i < j < |es| ==> es[i].info.mid != es[j].info.mid)
  }

  /**
   * When no call is refused, a run of additions to an ascending list gives an
   * ascending list holding exactly the old entries and the new ones.
   */
  lemma {:induction false} AddMoviesMeaning(q: seq<NewMovie>, es: seq<NewMovie>)
    requires Ascending(Infos(q))
    requires FreshIds(q, es)
    ensures Ascending(Infos(AddMovies(q, es)))
    ensures forall x :: x in AddMovies(q, es) <==> x in q || x in es
    decreases |es|
  {
    if es != [] {
      AddFirstMovie(q, es);
      var q' := InsertSorted(q, es[0]).value;
      AddMoviesMeaning(q', es[1..]);
      forall x ensures x in AddMovies(q, es) <==> x in q || x in es {
        assert x in es <==> x == es[0] || x in es[1..] by {
          assert es == [es[0]] + es[1..];
        }
      }
    }
  }

  /** The first of a run of fresh additions is accepted, and the rest stay fresh for the list it gives. */
  lemma AddFirstMovie(q: seq<NewMovie>, es: seq<NewMovie>)
    requires Ascending(Infos(q))
    requires FreshIds(q, es) && es != []
    ensures InsertSorted(q, es[0]).Some?
    ensures var q' := InsertSorted(q, es[0]).value;
      && Ascending(Infos(q'))
      && FreshIds(q', es[1..])
      && (forall x :: x in q' <==> x in q || x == es[0])
  {
    InsertSortedMeaning(q, es[0]);
    var q' := InsertSorted(q, es[0]).value;
    assert forall x :: x in q' <==> x in q || x == es[0] by {
      forall x ensures x in q' <==> x in q || x == es[0] {
        assert x in q' <==> x in multiset(q');
        assert x in q <==> x in multiset(q);
      }
    }
    forall i | 0 <= i < |es[1..]| ensures !Contains(Infos(q'), es[1..][i].info.mid) {
      var m := es[1..][i].info.mid;
      ContainsIn(q, m);
      ContainsIn(q', m);
      assert m != es[0].info.mid by {
        assert es[1..][i] == es[i + 1];
      }
    }
  }

  /** An id is on an intake list exactly when some entry of it carries that id. */
  lemma ContainsIn(q: seq<NewMovie>, m: int)
    ensures Contains(Infos(q), m) <==> exists x :: x in q && x.info.mid == m
  {
    if Contains(Infos(q), m) {
      var k :| 0 <= k < |q| && Infos(q)[k].mid == m;
      assert q[k] in q;
    }
  }

  const D10 := NewMovie(MovieInfo(10, 1976), Drama)
  const D18 := NewMovie(MovieInfo(18, 1976), Drama)
  const C147 := NewMovie(MovieInfo(147, 2014), Comedy)
  const D4 := NewMovie(MovieInfo(4, 1976), Drama)
  const R711 := NewMovie(MovieInfo(711, 1976), Romance)
  const S235 := NewMovie(MovieInfo(235, 1976), SciFi)
  const C123 := NewMovie(MovieInfo(123, 1976), Comedy)
  const D3 := NewMovie(MovieInfo(3, 1976), Drama)
  const R71 := NewMovie(MovieInfo(71, 1976), Romance)
  const S25 := NewMovie(MovieInfo(25, 1976), SciFi)

  /** The movies test_main.c adds, in its order. */
  const TestMovies := [D10, D18, C147, D4, R711, S235, C123, D3, R71, S25]

  /** The new-movies list test_main.c prints after adding them. */
  const TestIntake := [D3, D4, D10, D18, S25, R71, C123, C147, S235, R711]

  /** test_main.c: the ten additions leave the intake list in ascending id order. */
  lemma TestDriverIntake()
    ensures AddMovies([], TestMovies) == TestIntake
  {
    assert FreshIds([], TestMovies);
    AddMoviesMeaning([], TestMovies);
    SameElementsSame(AddMovies([], TestMovies), TestIntake, IntakeKey);
  }

  /** The draft NewMoviesInsertSorted without the duplicate check, called for each of `es` in turn. */
  function AddUnchecked(q: seq<NewMovie>, es: seq<NewMovie>): seq<NewMovie>
    decreases |es|
  {
    if es == [] then q else AddUnchecked(InsertUnchecked(q, es[0]), es[1..])
  }

  /** On fresh ids the draft without the duplicate check builds the same list as the checked insertion. */
  lemma {:induction false} AddUncheckedFresh(q: seq<NewMovie>, es: seq<NewMovie>)
    requires Ascending(Infos(q))
    requires FreshIds(q, es)
    ensures AddUnchecked(q, es) == AddMovies(q, es)
    decreases |es|
  {
    if es != [] {
      AddFirstMovie(q, es);
      AscendingScanFinds(Infos(q), es[0].info.mid);
      assert InsertSorted(q, es[0]) == Some(InsertUnchecked(q, es[0]));
      AddUncheckedFresh(InsertUnchecked(q, es[0]), es[1..]);
    }
  }

  const D147 := NewMovie(MovieInfo(147, 1976), Drama)
  const D711 := NewMovie(MovieInfo(711, 1976), Drama)
  const D235 := NewMovie(MovieInfo(235, 1976), Drama)

  /** The movies the NewMoviesSLL.c driver adds, all dramas of 1976, in its order. */
  const DraftMovies := [D10, D18, D147, D4, D711, D235]

  /** The list that driver prints. */
  const DraftIntake := [D4, D10, D18, D147, D235, D711]

  /** NewMoviesSLL.c: the six additions leave the list in ascending id order. */
  lemma DraftDriverIntake()
    ensures AddUnchecked([], DraftMovies) == DraftIntake
  {
    assert FreshIds([], DraftMovies);
    AddUncheckedFresh([], DraftMovies);
    AddMoviesMeaning([], DraftMovies);
    SameElementsSame(AddMovies([], DraftMovies), DraftIntake, IntakeKey);
  }

  /** The infos of category `c` on an ascending intake list, given by their members. */
  lemma CategoryIs(q: seq<NewMovie>, c: nat, r: seq<MovieInfo>)
    requires Ascending(Infos(q)) && Ascending(r)
    requires forall x :: x in r <==> exists e :: e in q && e.info == x && e.category.Index() == c
    ensures CategoryEntries(q, c) == r
  {
    var ce := CategoryEntries(q, c);
    CategoryEntriesAscending(q, c);
    forall x ensures x in ce <==> x in r {
      CategoryEntriesMembers(q, c, x);
      if e :| e in q && e.info == x && e.category.Index() == c {
        var k :| 0 <= k < |q| && q[k] == e;
      }
      if k :| 0 <= k < |q| && q[k].info == x && q[k].category.Index() == c {
        assert q[k] in q;
      }
    }
    SameElementsSame(ce, r, InfoKey);
  }

  /** The category table test_main.c and Distribute.c print after split_list, HORROR to COMEDY. */
  const TestTable := [[], [S25.info, S235.info], [D3.info, D4.info, D10.info, D18.info],
                      [R71.info, R711.info], [], [C123.info, C147.info]]

  /**
   * split_list on the drivers' intake list into an empty table gives each
   * category its movies in ascending order.
   */
  lemma TestDriverTable()
    ensures forall c :: 0 <= c < 6 ==> CategoryEntries(TestIntake, c) == TestTable[c]
  {
    assert Ascending(Infos(TestIntake));
    forall c | 0 <= c < 6 ensures CategoryEntries(TestIntake, c) == TestTable[c] {
      assert Ascending(TestTable[c]);
      CategoryIs(TestIntake, c, TestTable[c]);
    }
  }

  /** Distribute.c: the search for the id 1 in that table finds nothing. */
  lemma TestDriverSearch()
    ensures CatalogLookup(TestTable, 1) == None
  {
  }

  /**
   * UserSLL.c: of the registrations 5, 10, 4, 4, 100 only the second 4 is
   * refused (the driver prints 1 1 1 -1 1), and every new user is put at the head.
   */
  lemma UserDriver()
    ensures Registered([], 5) == Some([NewUser(5)])
    ensures Registered([NewUser(5)], 10) == Some([NewUser(10), NewUser(5)])
    ensures Registered([NewUser(10), NewUser(5)], 4) == Some([NewUser(4), NewUser(10), NewUser(5)])
    ensures Registered([NewUser(4), NewUser(10), NewUser(5)], 4) == None
    ensures Registered([NewUser(4), NewUser(10), NewUser(5)], 100)
         == Some([NewUser(100), NewUser(4), NewUser(10), NewUser(5)])
  {
    var u1, u2, u3 := [NewUser(5)], [NewUser(10), NewUser(5)], [NewUser(4), NewUser(10), NewUser(5)];
    assert !HasUid([], 5) && [NewUser(5)] + [] == u1;
    assert !HasUid(u1, 10) && [NewUser(10)] + u1 == u2;
    assert !HasUid(u2, 4) && [NewUser(4)] + u2 == u3;
    assert u3[0].uid == 4;
    assert !HasUid(u3, 100) && [NewUser(100)] + u3 == [NewUser(100), NewUser(4), NewUser(10), NewUser(5)];
  }

  /** test_main.c: the registrations 5, 10, 4, 100, 3 all succeed and leave the order 3, 100, 4, 10, 5. */
  lemma TestDriverUsers()
    ensures Registered([NewUser(4), NewUser(10), NewUser(5)], 100)
         == Some([NewUser(100), NewUser(4), NewUser(10), NewUser(5)])
    ensures Registered([NewUser(100), NewUser(4), NewUser(10), NewUser(5)], 3)
         == Some([NewUser(3), NewUser(100), NewUser(4), NewUser(10), NewUser(5)])
  {
    var u3 := [NewUser(4), NewUser(10), NewUser(5)];
    var u4 := [NewUser(100), NewUser(4), NewUser(10), NewUser(5)];
    assert !HasUid(u3, 100) && [NewUser(100)] + u3 == u4;
    assert !HasUid(u4, 3) && [NewUser(3)] + u4 == [NewUser(3), NewUser(100), NewUser(4), NewUser(10), NewUser(5)];
  }

  /** The users of test_main.c at its first suggest(100): only user 3 has watched a movie, 147. */
  const FirstRound := [User(3, [], [C147.info]), NewUser(100), NewUser(4), NewUser(10), NewUser(5)]

  /** The users at its second suggest(100), after 3, 4, 5 and 10 watched 711, 18, 71 and 4. */
  const SecondRound := [User(3, [], [R711.info]), User(100, [C147.info], []), User(4, [], [D18.info]),
                        User(10, [], [D4.info]), User(5, [], [R71.info])]

  /** A user appended to the list adds its own offer at the end. */
  lemma ContributionsSnoc(us: seq<User>, u: User, uid: int)
    ensures Contributions(us + [u], uid) == Contributions(us, uid) + Offered(u, uid)
  {
    assert (us + [u])[..|us|] == us;
  }

  /** The contributions of five users, one user at a time. */
  lemma ContributionsOfFive(u0: User, u1: User, u2: User, u3: User, u4: User, uid: int)
    ensures Contributions([u0, u1, u2, u3, u4], uid)
         == Offered(u0, uid) + Offered(u1, uid) + Offered(u2, uid) + Offered(u3, uid) + Offered(u4, uid)
  {
    ContributionsSnoc([], u0, uid);
    assert [] + [u0] == [u0];
    ContributionsSnoc([u0], u1, uid);
    assert [u0] + [u1] == [u0, u1];
    ContributionsSnoc([u0, u1], u2, uid);
    assert [u0, u1] + [u2] == [u0, u1, u2];
    ContributionsSnoc([u0, u1, u2], u3, uid);
    assert [u0, u1, u2] + [u3] == [u0, u1, u2, u3];
    ContributionsSnoc([u0, u1, u2, u3], u4, uid);
    assert [u0, u1, u2, u3] + [u4] == [u0, u1, u2, u3, u4];
  }

  /**
   * test_main.c, first suggest(100): the draft scan runs to the guard, takes
   * 147 from user 3 and leaves every history empty; user 100's list becomes [147].
   */
  lemma SuggestDriverFirst()
    ensures IndexOf(FirstRound, -1) == |FirstRound|
    ensures Contributions(FirstRound, 100) == [C147.info]
    ensures Shape([], [C147.info]) == [C147.info]
    ensures PopOthers(FirstRound, 100) == [NewUser(3), NewUser(100), NewUser(4), NewUser(10), NewUser(5)]
  {
    ContributionsOfFive(FirstRound[0], FirstRound[1], FirstRound[2], FirstRound[3], FirstRound[4], 100);
  }

  /**
   * test_main.c, second suggest(100): 711, 18, 4 and 71 are taken in list
   * order and alternate around the 147 already on user 100's list, which
   * then reads 71, 18, 147, 711, 4.
   */
  lemma SuggestDriverSecond()
    ensures Contributions(SecondRound, 100) == [R711.info, D18.info, D4.info, R71.info]
    ensures Shape([C147.info], [R711.info, D18.info, D4.info, R71.info])
         == [R71.info, D18.info, C147.info, R711.info, D4.info]
    ensures PopOthers(SecondRound, 100)
         == [NewUser(3), User(100, [C147.info], []), NewUser(4), NewUser(10), NewUser(5)]
  {
    ContributionsOfFive(SecondRound[0], SecondRound[1], SecondRound[2], SecondRound[3], SecondRound[4], 100);
    var c1 := [R711.info];
    var c2 := [R711.info, D18.info];
    var c3 := [R711.info, D18.info, D4.info];
    var c4 := [R711.info, D18.info, D4.info, R71.info];
    assert c1[..0] == [] && c2[..1] == c1 && c3[..2] == c2 && c4[..3] == c3;
    assert Odds(c1) == [R711.info] && Evens(c1) == [];
    assert Odds(c2) == [R711.info] && Evens(c2) == [D18.info];
    assert Odds(c3) == [R711.info, D4.info] && Evens(c3) == [D18.info];
    assert Odds(c4) == [R711.info, D4.info] && Evens(c4) == [D18.info, R71.info];
    assert Reverse([D18.info, R71.info]) == [R71.info, D18.info];
  }
}
