/**
 * The user list as a value: the users in list order, without the guard node
 * that ends the C list. What registration, unregistration, suggestion and
 * take-off do to it is stated here as functions on that sequence; the
 * service's methods are proved to follow them.
 */
module Users {
  import opened Types
  import opened WatchStack
  import opened SuggestionList

  /** Some user in the list has the id `uid`. */
  predicate HasUid(us: seq<User>, uid: int)
  {
    exists k :: 0 <= k < |us| && us[k].uid == uid
  }

  /** Where the guard scan for `uid` stops: the first user with that id, or the guard's position. */
  function IndexOf(us: seq<User>, uid: int): (k: nat)
    ensures k <= |us|
    ensures forall j :: 0 <= j < k ==> us[j].uid != uid
    ensures k < |us| ==> us[k].uid == uid
    ensures k == |us| <==> !HasUid(us, uid)
  {
    if us == [] || us[0].uid == uid then 0 else 1 + IndexOf(us[1..], uid)
  }

  /** A scan that stops where its guard first fails has stopped at IndexOf. */
  lemma IndexOfIs(us: seq<User>, uid: int, k: nat)
    requires k <= |us|
    requires forall j :: 0 <= j < k ==> us[j].uid != uid
    requires k < |us| ==> us[k].uid == uid
    ensures IndexOf(us, uid) == k
  {
    if k > 0 {
      IndexOfIs(us[1..], uid, k - 1);
    }
  }

  /**
   * A scan for uid -1 that reads the guard (holding -1) past the last user
   * meets -1 at IndexOf(us, -1) and not before.
   */
  lemma SentinelStop(us: seq<User>, g: int, i: nat)
    requires g == -1 && i <= IndexOf(us, -1)
    ensures ((if i < |us| then us[i].uid else g) == -1) <==> i == IndexOf(us, -1)
  {
  }

  /** FindUserList: the position of the first user with id `uid`, nothing (NULL) if there is none. */
  function Find(us: seq<User>, uid: int): (t: Option<nat>)
    ensures t.None? <==> !HasUid(us, uid)
    ensures t.Some? ==> t.value < |us| && us[t.value].uid == uid
  {
    var k := IndexOf(us, uid);
    if k == |us| then None else Some(k)
  }

  /** No two users share an id. */
  predicate UniqueUids(us: seq<User>)
  {
    forall i, j :: 0 <= i < j < |us| ==> us[i].uid != us[j].uid
  }

  /** Rewriting user records without touching their ids keeps the ids distinct. */
  lemma SameUidsUnique(us: seq<User>, vs: seq<User>)
    requires UniqueUids(us) && |vs| == |us|
    requires forall j :: 0 <= j < |us| ==> vs[j].uid == us[j].uid
    ensures UniqueUids(vs)
  {
  }

  /** A freshly registered user: no suggestions and an empty watch history. */
  function NewUser(uid: int): User
  {
    User(uid, [], [])
  }

  /** UserListInsert: refused when the id is taken, otherwise the new user becomes the head. */
  function Registered(us: seq<User>, uid: int): Option<seq<User>>
  {
    if HasUid(us, uid) then None else Some([NewUser(uid)] + us)
  }

  /**
   * Registration is refused exactly for a taken id; an accepted one adds
   * one empty user with that id, keeps the ids distinct and keeps every
   * existing user.
   */
  lemma RegisteredMeaning(us: seq<User>, uid: int)
    ensures Registered(us, uid).None? <==> HasUid(us, uid)
    ensures Registered(us, uid).Some? ==>
      var r := Registered(us, uid).value;
      && |r| == |us| + 1
      && Find(r, uid) == Some(0) && r[0] == NewUser(uid)
      && (UniqueUids(us) ==> UniqueUids(r))
      && forall v :: v != uid ==> (HasUid(r, v) <==> HasUid(us, v))
  {
    if !HasUid(us, uid) {
      var r := [NewUser(uid)] + us;
      forall v | v != uid ensures HasUid(r, v) <==> HasUid(us, v) {
        if HasUid(r, v) {
          var k :| 0 <= k < |r| && r[k].uid == v;
          assert us[k - 1].uid == v;
        }
        if HasUid(us, v) {
          var k :| 0 <= k < |us| && us[k].uid == v;
          assert r[k + 1].uid == v;
        }
      }
    }
  }

  /** DeleteUser: the first user with id `uid` is unlinked; without one the list is unchanged. */
  function Unregistered(us: seq<User>, uid: int): seq<User>
  {
    var k := IndexOf(us, uid);
    if k == |us| then us else us[..k] + us[k + 1..]
  }

  /**
   * With distinct ids, unregistering removes the user with that id (if
   * any) and nothing else: the other users stay, in order, with their
   * suggestions and histories.
   */
  lemma UnregisteredMeaning(us: seq<User>, uid: int)
    requires UniqueUids(us)
    ensures !HasUid(us, uid) ==> Unregistered(us, uid) == us
    ensures !HasUid(Unregistered(us, uid), uid)
    ensures UniqueUids(Unregistered(us, uid))
    ensures |Unregistered(us, uid)| == |us| - (if HasUid(us, uid) then 1 else 0)
    ensures forall v :: v != uid ==> (HasUid(Unregistered(us, uid), v) <==> HasUid(us, v))
    ensures forall v :: v != uid && HasUid(us, v) ==>
      Unregistered(us, uid)[IndexOf(Unregistered(us, uid), v)] == us[IndexOf(us, v)]
  {
    var k := IndexOf(us, uid);
    var r := Unregistered(us, uid);
    if k < |us| {
      assert forall j :: 0 <= j < |r| ==> r[j] == us[if j < k then j else j + 1];
      forall v | v != uid ensures HasUid(r, v) <==> HasUid(us, v) {
        if HasUid(r, v) {
          var j :| 0 <= j < |r| && r[j].uid == v;
          assert us[if j < k then j else j + 1].uid == v;
        }
        if HasUid(us, v) {
          var j :| 0 <= j < |us| && us[j].uid == v;
          assert j != k;
          assert r[if j < k then j else j - 1].uid == v;
        }
      }
    }
    forall v | v != uid && HasUid(us, v)
      ensures r[IndexOf(r, v)] == us[IndexOf(us, v)]
    {
      UnregisteredKeepsRecord(us, uid, v);
    }
  }

  /** Another user's record is found unchanged after the removal. */
  lemma UnregisteredKeepsRecord(us: seq<User>, uid: int, v: int)
    requires UniqueUids(us) && v != uid && HasUid(us, v)
    ensures HasUid(Unregistered(us, uid), v)
    ensures Unregistered(us, uid)[IndexOf(Unregistered(us, uid), v)] == us[IndexOf(us, v)]
  {
    var k := IndexOf(us, uid);
    var r := Unregistered(us, uid);
    if k < |us| {
      var m := IndexOf(us, v);
      assert m != k;
      var jm := if m < k then m else m - 1;
      assert r[jm] == us[m];
      var j := IndexOf(r, v);
      var j' := if j < k then j else j + 1;
      assert r[j] == us[j'];
      forall i | 0 <= i < j' ensures us[i].uid != v {
        if i < k {
          assert us[i] == r[i];
        } else if i > k {
          assert us[i] == r[i - 1];
        }
      }
      IndexOfIs(us, v, j');
    }
  }

  /** What one user offers to a suggestion for `uid`: the top of its history, unless it is the target or has none to give. */
  function Offered(u: User, uid: int): seq<MovieInfo>
  {
    var p := Pop(u.history);
    if u.uid != uid && p.info.Some? && p.info.value.mid != UINT_MAX then [p.info.value] else []
  }

  /** The infos a suggestion for `uid` takes, in user-list order: one per other user with a movie to pop. */
  function Contributions(us: seq<User>, uid: int): seq<MovieInfo>
  {
    if us == [] then []
    else Contributions(us[..|us| - 1], uid) + Offered(us[|us| - 1], uid)
  }

  /** A user after the suggestion loop has passed it: every user but the target has lost its top. */
  function PoppedBy(u: User, uid: int): User
  {
    if u.uid != uid then u.(history := Pop(u.history).rest) else u
  }

  /** The users after a suggestion for `uid` has popped every other user's history. */
  function PopOthers(us: seq<User>, uid: int): seq<User>
  {
    seq(|us|, j requires 0 <= j < |us| => PoppedBy(us[j], uid))
  }

  /** The users while the suggestion loop stands at position i: those before it popped, the rest as they were. */
  function Pass(us: seq<User>, uid: int, i: nat): (r: seq<User>)
    requires i <= |us|
    ensures |r| == |us|
    ensures forall j :: 0 <= j < i ==> r[j] == PoppedBy(us[j], uid)
    ensures forall j :: i <= j < |us| ==> r[j] == us[j]
    ensures forall j :: 0 <= j < |us| ==> r[j].uid == us[j].uid
  {
    PopOthers(us[..i], uid) + us[i..]
  }

  /** Passing position i pops that user. */
  lemma PassStep(us: seq<User>, uid: int, i: nat)
    requires i < |us|
    ensures Pass(us, uid, i + 1) == Pass(us, uid, i)[i := PoppedBy(us[i], uid)]
  {
  }

  /** The contributions grow one user at a time. */
  lemma ContributionsStep(us: seq<User>, uid: int, i: nat)
    requires i < |us|
    ensures Contributions(us[..i + 1], uid) == Contributions(us[..i], uid) + Offered(us[i], uid)
  {
    assert us[..i + 1][..i] == us[..i];
  }

  /** The number of movies in all watch histories. */
  function TotalHistory(us: seq<User>): nat
  {
    if us == [] then 0 else TotalHistory(us[..|us| - 1]) + |us[|us| - 1].history|
  }

  /** Each contribution is the top of the history of a user other than the target. */
  lemma {:induction false} ContributionsSource(us: seq<User>, uid: int, x: MovieInfo)
    requires x in Contributions(us, uid)
    ensures exists j :: 0 <= j < |us| && us[j].uid != uid && us[j].history != [] && us[j].history[0] == x
  {
    var us' := us[..|us| - 1];
    if x in Contributions(us', uid) {
      ContributionsSource(us', uid, x);
      var j :| 0 <= j < |us'| && us'[j].uid != uid && us'[j].history != [] && us'[j].history[0] == x;
      assert us[j] == us'[j];
    } else {
      assert us[|us| - 1].history[0] == x;
    }
  }

  /** At most one contribution per user, and none from the target. */
  lemma {:induction false} ContributionsBound(us: seq<User>, uid: int)
    ensures |Contributions(us, uid)| <= |us| - (if HasUid(us, uid) then 1 else 0)
  {
    if us != [] {
      var us' := us[..|us| - 1];
      ContributionsBound(us', uid);
      if HasUid(us, uid) && !HasUid(us', uid) {
        forall j | 0 <= j < |us'| ensures us[j].uid != uid {
          assert us'[j] == us[j];
        }
        assert us[|us| - 1].uid == uid;
      }
      if HasUid(us', uid) {
        var k :| 0 <= k < |us'| && us'[k].uid == uid;
        assert us[k].uid == uid;
      }
    }
  }

  /** The popped lists grow one user at a time. */
  lemma PopOthersSnoc(us: seq<User>, uid: int)
    requires us != []
    ensures PopOthers(us, uid) == PopOthers(us[..|us| - 1], uid) + [PoppedBy(us[|us| - 1], uid)]
  {
  }

  /**
   * Nothing is lost or invented: when no history has UINT_MAX on top, the
   * movies popped are exactly the ones taken as contributions.
   */
  lemma {:induction false} ContributionsCount(us: seq<User>, uid: int)
    requires forall j :: 0 <= j < |us| && us[j].history != [] ==> us[j].history[0].mid != UINT_MAX
    ensures |Contributions(us, uid)| + TotalHistory(PopOthers(us, uid)) == TotalHistory(us)
  {
    if us != [] {
      var us' := us[..|us| - 1];
      ContributionsCount(us', uid);
      PopOthersSnoc(us, uid);
      var ps := PopOthers(us, uid);
      assert ps[..|ps| - 1] == PopOthers(us', uid);
    }
  }

  /** take_off_movie's effect on the users: each suggestion list loses its first node with `mid`. */
  function TakeOff(us: seq<User>, mid: int): seq<User>
  {
    seq(|us|, j requires 0 <= j < |us| => us[j].(suggested := RemoveFirst(us[j].suggested, mid)))
  }

  /**
   * Taking a movie off touches only suggestion lists: ids and histories stay,
   * a list holding `mid` loses one such node and keeps the others in order,
   * and a list holding it at most once no longer holds it.
   */
  lemma TakeOffMeaning(us: seq<User>, mid: int)
    ensures |TakeOff(us, mid)| == |us|
    ensures forall j :: 0 <= j < |us| ==>
      var u := TakeOff(us, mid)[j];
      && u.uid == us[j].uid && u.history == us[j].history
      && Occurrences(u.suggested, mid) == Occurrences(us[j].suggested, mid) - (if Contains(us[j].suggested, mid) then 1 else 0)
      && (!Contains(us[j].suggested, mid) ==> u.suggested == us[j].suggested)
      && (Occurrences(us[j].suggested, mid) <= 1 ==> !Contains(u.suggested, mid))
  {
    forall j | 0 <= j < |us|
      ensures Occurrences(RemoveFirst(us[j].suggested, mid), mid)
        == Occurrences(us[j].suggested, mid) - (if Contains(us[j].suggested, mid) then 1 else 0)
      ensures !Contains(us[j].suggested, mid) ==> RemoveFirst(us[j].suggested, mid) == us[j].suggested
      ensures Occurrences(us[j].suggested, mid) <= 1 ==> !Contains(RemoveFirst(us[j].suggested, mid), mid)
    {
      RemoveFirstMeaning(us[j].suggested, mid);
      RemoveFirstCount(us[j].suggested, mid);
      if Occurrences(us[j].suggested, mid) <= 1 {
        RemoveFirstOnce(us[j].suggested, mid);
      }
    }
  }
}
