/** The shape shared by every exact lookup of the backend: a filtered
    select over a table followed by `first()`, which yields the first row
    in the storage engine's scan order that satisfies the filter. */
module Query {
  import opened Wrappers

  /** Row `i` satisfies `p` and no earlier row does. */
  ghost predicate IsFirst<T>(s: seq<T>, p: T -> bool, i: int) {
    0 <= i < |s| && p(s[i]) && forall j :: 0 <= j < i ==> !p(s[j])
  }

  /** The position of the row `first()` returns, or None when no row
      satisfies the filter. */
  function FirstIndex<T>(s: seq<T>, p: T -> bool): (r: Option<nat>)
    ensures r.None? <==> forall i :: 0 <= i < |s| ==> !p(s[i])
    ensures r.Some? ==> IsFirst(s, p, r.value)
  {
    if |s| == 0 then None
    else if p(s[0]) then Some(0)
    else match FirstIndex(s[1..], p)
      case None => None
      case Some(i) => Some(i + 1)
  }

}
