/**
 * The watch-history stack: a singly-linked list whose head is the top. It is
 * passed by address (`struct movie **S`), so each operation hands back the
 * new stack along with its result; an empty stack yields the `{-1, -1}` info,
 * written here as None.
 */
module WatchStack {
  import opened Types

  /** IsEmptyWatchStack. */
  predicate IsEmptyWatchStack(s: seq<MovieInfo>)
  {
    s == []
  }

  /** Top: the info of the top node without removing it; nothing on an empty stack. */
  function Top(s: seq<MovieInfo>): (r: Option<MovieInfo>)
    ensures r.None? <==> IsEmptyWatchStack(s)
    ensures r.Some? ==> r.value == s[0]
  {
    if IsEmptyWatchStack(s) then None else Some(s[0])
  }

  /** Push: the new node becomes the top, above the whole old stack. */
  function Push(s: seq<MovieInfo>, info: MovieInfo): (r: seq<MovieInfo>)
    ensures Top(r) == Some(info) && r[1..] == s
  {
    [info] + s
  }

  /** Pop's two results: the info returned and the stack left behind. */
  datatype Popped = Popped(info: Option<MovieInfo>, rest: seq<MovieInfo>)

  /** Pop: removes and returns the top; an empty stack is returned unchanged with nothing. */
  function Pop(s: seq<MovieInfo>): (r: Popped)
    ensures r.info == Top(s)
    ensures IsEmptyWatchStack(s) ==> r.rest == s
    ensures !IsEmptyWatchStack(s) ==> r.rest == s[1..] && [r.info.value] + r.rest == s
  {
    if IsEmptyWatchStack(s) then Popped(None, s)
    else Popped(Top(s), s[1..])
  }

  /** Push then Pop returns the pushed info and restores the stack as it was. */
  lemma PushPop(s: seq<MovieInfo>, info: MovieInfo)
    ensures Pop(Push(s, info)) == Popped(Some(info), s)
  {
  }

  /** Pushing each of `xs` in turn. */
  function PushAll(s: seq<MovieInfo>, xs: seq<MovieInfo>): seq<MovieInfo>
    decreases |xs|
  {
    if xs == [] then s else PushAll(Push(s, xs[0]), xs[1..])
  }

  /** Popping `n` times: the infos obtained, in popping order, and the stack left. */
  function PopTimes(s: seq<MovieInfo>, n: nat): (seq<Option<MovieInfo>>, seq<MovieInfo>)
  {
    if n == 0 then ([], s)
    else
      var p := Pop(s);
      var (later, rest) := PopTimes(p.rest, n - 1);
      ([p.info] + later, rest)
  }

  /** The reversal of a sequence. */
  function Reverse<T>(xs: seq<T>): (r: seq<T>)
    ensures |r| == |xs|
    ensures forall k :: 0 <= k < |xs| ==> r[k] == xs[|xs| - 1 - k]
  {
    if xs == [] then [] else Reverse(xs[1..]) + [xs[0]]
  }

  /** Each info wrapped as a found (Some) result. */
  function Somes(xs: seq<MovieInfo>): (r: seq<Option<MovieInfo>>)
    ensures |r| == |xs|
    ensures forall k :: 0 <= k < |xs| ==> r[k] == Some(xs[k])
  {
    seq(|xs|, k requires 0 <= k < |xs| => Some(xs[k]))
  }

  /** Last in, first out: after pushing xs, popping |xs| times yields xs in reverse and restores the stack. */
  lemma {:induction false} PushAllPopTimes(s: seq<MovieInfo>, xs: seq<MovieInfo>)
    ensures PopTimes(PushAll(s, xs), |xs|) == (Somes(Reverse(xs)), s)
    decreases |xs|
  {
    if xs != [] {
      var s' := Push(s, xs[0]);
      PushAllPopTimes(s', xs[1..]);
      assert PushAll(s, xs) == PushAll(s', xs[1..]);
      PopTimesSplit(PushAll(s', xs[1..]), |xs| - 1);
      assert Pop(s') == Popped(Some(xs[0]), s);
      assert Somes(Reverse(xs)) == Somes(Reverse(xs[1..])) + [Some(xs[0])];
    }
  }

  /** Helper: one more pop after n pops. */
  lemma {:induction false} PopTimesSplit(s: seq<MovieInfo>, n: nat)
    ensures PopTimes(s, n + 1) ==
      (PopTimes(s, n).0 + [Pop(PopTimes(s, n).1).info], Pop(PopTimes(s, n).1).rest)
  {
    if n > 0 {
      var p := Pop(s);
      PopTimesSplit(p.rest, n - 1);
      var (a', rest') := PopTimes(p.rest, n - 1);
      assert PopTimes(s, n) == ([p.info] + a', rest');
      assert PopTimes(p.rest, n) == (a' + [Pop(rest').info], Pop(rest').rest);
      assert [p.info] + (a' + [Pop(rest').info]) == [p.info] + a' + [Pop(rest').info];
    } else {
      assert PopTimes(Pop(s).rest, 0) == ([], Pop(s).rest);
      assert PopTimes(s, 1) == ([Pop(s).info] + [], Pop(s).rest);
      assert [Pop(s).info] + [] == [] + [Pop(s).info];
    }
  }

  /** Pop and Top on an empty stack yield nothing and leave it empty. */
  lemma PopEmpty()
    ensures Pop([]) == Popped(None, []) && Top([]) == None
  {
  }
}
