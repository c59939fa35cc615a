/** Runs of numbered steps that may fail. */
module Folds {
  import opened Wrappers

  /** The steps of a run in order, the first numbered `first`; a failed step ends the run. */
  function Fold<S, E>(step: (S, E, int) -> Option<S>, s: S, es: seq<E>, first: int): Option<S> {
    if es == [] then Some(s)
    else
      var n := |es| - 1;
      var before := Fold(step, s, es[..n], first);
      if before.None? then None else step(before.value, es[n], first + n)
  }

  lemma FoldOneMore<S, E>(step: (S, E, int) -> Option<S>, s: S, es: seq<E>, first: int, j: int)
    requires 0 <= j < |es|
    ensures var before := Fold(step, s, es[..j], first);
      Fold(step, s, es[..j + 1], first) == if before.None? then None else step(before.value, es[j], first + j)
  {
    assert es[..j + 1][..j] == es[..j];
  }

  /** A run after a run is one run. */
  lemma {:induction false} FoldAppend<S, E>(step: (S, E, int) -> Option<S>, s: S, xs: seq<E>, ys: seq<E>, first: int)
    ensures var before := Fold(step, s, xs, first);
      Fold(step, s, xs + ys, first) ==
      if before.None? then None else Fold(step, before.value, ys, first + |xs|)
  {
    var all := xs + ys;
    if ys == [] {
      assert all == xs;
    } else {
      var n := |ys| - 1;
      FoldAppend(step, s, xs, ys[..n], first);
      assert all[..|all| - 1] == xs + ys[..n] && all[|all| - 1] == ys[n];
    }
  }
}
