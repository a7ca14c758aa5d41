/** Choosing the most specific candidate from a list: the provider scans the
    zone list once and replaces its current choice only when a matching zone
    scores strictly higher, so the first of several equally good candidates
    wins. */
module Selection {
  import opened Wrappers

  /** `i` is the chosen index among `xs`: it matches, nothing matching scores
      higher, and everything matching before it scores strictly lower. */
  predicate IsBest<T>(xs: seq<T>, ok: T -> bool, score: T -> int, i: nat) {
    i < |xs| && ok(xs[i])
    && (forall j :: 0 <= j < |xs| && ok(xs[j]) ==> score(xs[j]) <= score(xs[i]))
    && (forall j :: 0 <= j < i && ok(xs[j]) ==> score(xs[j]) < score(xs[i]))
  }

  /** The scan over the first `n` candidates. */
  function BestIn<T>(xs: seq<T>, ok: T -> bool, score: T -> int, n: nat): (r: Option<nat>)
    requires n <= |xs|
    ensures r.None? <==> forall j :: 0 <= j < n ==> !ok(xs[j])
    ensures r.Some? ==> IsBest(xs[..n], ok, score, r.value)
  {
    if n == 0 then None
    else
      var r := BestIn(xs, ok, score, n - 1);
      assert forall j :: 0 <= j < n - 1 ==> xs[..n][j] == xs[..n - 1][j];
      if ok(xs[n - 1]) && (r.None? || score(xs[n - 1]) > score(xs[r.value])) then Some(n - 1)
      else r
  }

  function SelectBest<T>(xs: seq<T>, ok: T -> bool, score: T -> int): (r: Option<nat>)
    ensures r.None? <==> forall j :: 0 <= j < |xs| ==> !ok(xs[j])
    ensures r.Some? ==> IsBest(xs, ok, score, r.value)
  {
    assert xs[..|xs|] == xs;
    BestIn(xs, ok, score, |xs|)
  }

  /** The choice is determined by its contract: at most one index is best. */
  lemma BestUnique<T>(xs: seq<T>, ok: T -> bool, score: T -> int, i: nat, j: nat)
    requires IsBest(xs, ok, score, i) && IsBest(xs, ok, score, j)
    ensures i == j
  {
  }
}
