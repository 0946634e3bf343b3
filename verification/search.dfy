/**
  The driver of Python's `re.search`: the pattern is tried at every start
  position in turn, from the left, and the first position at which it matches
  determines the result.
 */
module Search {

  import opened Wrappers

  /** A match found at `start`; `parts` records where its pieces lie. */
  datatype Found<M> = Found(start: nat, parts: M)

  /** Tries `matchAt` at positions from, from + 1, ..., |t| and stops at the first success. */
  function Leftmost<M>(t: string, from: nat, matchAt: (string, nat) -> Option<M>): (r: Option<Found<M>>)
    ensures r.Some? ==> from <= r.value.start <= |t| && matchAt(t, r.value.start) == Some(r.value.parts)
    ensures r.Some? ==> forall s | from <= s < r.value.start :: matchAt(t, s).None?
    ensures r.None? ==> forall s | from <= s <= |t| :: matchAt(t, s).None?
    decreases |t| + 1 - from
  {
    if from > |t| then None
    else
      match matchAt(t, from)
      case Some(p) => Some(Found(from, p))
      case None => Leftmost(t, from + 1, matchAt)
  }

}
