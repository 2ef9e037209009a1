/**
 * The records of the streaming service (streaming_service.h) as values.
 */
module Types {

  /** C `unsigned`: mid and year are 32-bit unsigned numbers. */
  type uint32 = x: int | 0 <= x < 0x1_0000_0000

  /** The "absent" info `{-1, -1}` stored in unsigned fields reads as UINT_MAX. */
  const UINT_MAX: uint32 := 0xFFFF_FFFF

  datatype Option<T> = None | Some(value: T)

  /** movieCategory_t, in declaration order. */
  datatype Category = Horror | SciFi | Drama | Romance | Documentary | Comedy
  {
    /** The enum's integer value: HORROR = 0 ... COMEDY = 5, the index into category_array. */
    function Index(): (i: nat)
      ensures i < 6
    {
      match this
      case Horror => 0
      case SciFi => 1
      case Drama => 2
      case Romance => 3
      case Documentary => 4
      case Comedy => 5
    }
  }

  /** The category whose enum value is `i`. */
  function CategoryOf(i: nat): (c: Category)
    requires i < 6
    ensures c.Index() == i
  {
    if i == 0 then Horror
    else if i == 1 then SciFi
    else if i == 2 then Drama
    else if i == 3 then Romance
    else if i == 4 then Documentary
    else Comedy
  }

  /** struct movie_info. */
  datatype MovieInfo = MovieInfo(mid: uint32, year: uint32)

  /** struct new_movie without its link: an intake entry. */
  datatype NewMovie = NewMovie(info: MovieInfo, category: Category)

  /**
   * struct user without its link. `suggested` is the suggestion DLL read from
   * suggestedHead to suggestedTail; `history` is the watch stack, top first.
   */
  datatype User = User(uid: int, suggested: seq<MovieInfo>, history: seq<MovieInfo>)

  /** Outcome of an operation that can fail; the C code returns it as an int. */
  datatype Status = Ok | Err
  {
    /**
     * The returned int: -1 on failure; on success 0 in streaming_service.c
     * and 1 in the draft files.
     */
    function Code(draft: bool): int
    {
      if Err? then -1 else if draft then 1 else 0
    }
  }

  /** The infos of the intake entries, in list order. */
  function Infos(q: seq<NewMovie>): (r: seq<MovieInfo>)
    ensures |r| == |q|
    ensures forall k :: 0 <= k < |q| ==> r[k] == q[k].info
  {
    seq(|q|, k requires 0 <= k < |q| => q[k].info)
  }

  /** Some node of `s` carries the id `mid`. */
  predicate Contains(s: seq<MovieInfo>, mid: int)
  {
    exists k :: 0 <= k < |s| && s[k].mid == mid
  }

  /** Strictly increasing by mid: the order of the intake list and of each category list. */
  predicate Ascending(s: seq<MovieInfo>)
  {
    forall i, j :: 0 <= i < j < |s| ==> s[i].mid < s[j].mid
  }

  /** Non-decreasing by mid. */
  predicate NonDecreasing(s: seq<MovieInfo>)
  {
    forall i, j :: 0 <= i < j < |s| ==> s[i].mid <= s[j].mid
  }
}
