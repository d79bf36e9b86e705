/**
  Scoring a guessed pattern against a target of the same length: how many
  positions hold the same node, and how many nodes of the guess occur in the
  target at another position.
 */
module Feedback {

  import opened Grid

  /** The score of a guess. The program returns the pair
      `(blacks - whites, whites)`: `misplaced` counts nodes of the guess found
      elsewhere in the target, `exact` counts positions that agree. */
  datatype Score = Score(misplaced: int, exact: int)

  /** Positions below `n` where the two paths agree. */
  function Whites(t: seq<nat>, u: seq<nat>, n: nat): (c: nat)
    requires n <= |t| == |u|
    ensures c <= n
  {
    if n == 0 then 0
    else Whites(t, u, n - 1) + (if t[n - 1] == u[n - 1] then 1 else 0)
  }

  /** Positions below `n` whose node of `t` occurs anywhere in `u`. */
  function Blacks(t: seq<nat>, u: seq<nat>, n: nat): (c: nat)
    requires n <= |t|
  {
    if n == 0 then 0
    else Blacks(t, u, n - 1) + (if t[n - 1] in u then 1 else 0)
  }

  /** Positions below `n` whose node of `t` occurs in `u`, but not there. */
  function Misplaced(t: seq<nat>, u: seq<nat>, n: nat): (c: nat)
    requires n <= |t| == |u|
    ensures c <= n
  {
    if n == 0 then 0
    else Misplaced(t, u, n - 1) + (if t[n - 1] in u && t[n - 1] != u[n - 1] then 1 else 0)
  }

  /** The score of `trial` against `target`: right node in the right place,
      and right node in the wrong place. Equal lengths are asserted by the
      program. */
  function Evaluate(trial: seq<nat>, target: seq<nat>): (r: Score)
    requires |trial| == |target|
    ensures 0 <= r.exact <= |trial| && 0 <= r.misplaced
    ensures r.exact + r.misplaced <= |trial|
    ensures r.misplaced == Misplaced(trial, target, |trial|)
    ensures r.exact == |trial| <==> trial == target
  {
    var n := |trial|;
    BlacksSplit(trial, target, n);
    CountsBounded(trial, target, n);
    AllWhiteIffEqual(trial, target);
    Score(Blacks(trial, target, n) - Whites(trial, target, n), Whites(trial, target, n))
  }

  /** The two loops of the program, counting agreements and then memberships. */
  method EvaluateLoops(trial: seq<nat>, target: seq<nat>) returns (r: Score)
    requires |trial| == |target|
    ensures r == Evaluate(trial, target)
  {
    var whites := 0;
    var i := 0;
    while i < |trial|
      invariant 0 <= i <= |trial|
      invariant whites == Whites(trial, target, i)
    {
      if trial[i] == target[i] {
        whites := whites + 1;
      }
      i := i + 1;
    }
    var blacks := 0;
    i := 0;
    while i < |trial|
      invariant 0 <= i <= |trial|
      invariant blacks == Blacks(trial, target, i)
    {
      if trial[i] in target {
        blacks := blacks + 1;
      }
      i := i + 1;
    }
    BlacksSplit(trial, target, |trial|);
    r := Score(blacks - whites, whites);
  }

  // ---------------------------------------------------------------------------
  // Counting lemmas

  /** Every agreement is also a membership, so the memberships split into
      agreements and misplacements. */
  lemma {:induction false} BlacksSplit(t: seq<nat>, u: seq<nat>, n: nat)
    requires n <= |t| == |u|
    ensures Blacks(t, u, n) == Whites(t, u, n) + Misplaced(t, u, n)
  {
    if n > 0 {
      BlacksSplit(t, u, n - 1);
      if t[n - 1] == u[n - 1] {
        assert t[n - 1] in u;
      }
    }
  }

  lemma {:induction false} CountsBounded(t: seq<nat>, u: seq<nat>, n: nat)
    requires n <= |t| == |u|
    ensures Whites(t, u, n) + Misplaced(t, u, n) <= n
  {
    if n > 0 {
      CountsBounded(t, u, n - 1);
    }
  }

  /** All positions agree exactly when the paths are equal. */
  lemma AllWhiteIffEqual(t: seq<nat>, u: seq<nat>)
    requires |t| == |u|
    ensures Whites(t, u, |t|) == |t| <==> t == u
  {
    WhitesBelow(t, u, |t|);
  }

  lemma {:induction false} WhitesBelow(t: seq<nat>, u: seq<nat>, n: nat)
    requires n <= |t| == |u|
    ensures Whites(t, u, n) <= n
    ensures Whites(t, u, n) == n <==> t[..n] == u[..n]
  {
    if n > 0 {
      WhitesBelow(t, u, n - 1);
      assert t[..n] == t[..n - 1] + [t[n - 1]];
      assert u[..n] == u[..n - 1] + [u[n - 1]];
      if t[..n] == u[..n] {
        assert t[..n - 1] == t[..n][..n - 1] && u[..n - 1] == u[..n][..n - 1];
        assert t[n - 1] == t[..n][n - 1] && u[n - 1] == u[..n][n - 1];
      }
    }
  }

  /** Scoring a path against itself: everything in place, nothing misplaced. */
  lemma EvaluateSelf(p: seq<nat>)
    ensures Evaluate(p, p) == Score(0, |p|)
  {
    SelfMisplacedZero(p, |p|);
  }

  lemma {:induction false} SelfMisplacedZero(p: seq<nat>, n: nat)
    requires n <= |p|
    ensures Misplaced(p, p, n) == 0
  {
    if n > 0 {
      SelfMisplacedZero(p, n - 1);
    }
  }

  // ---------------------------------------------------------------------------
  // Symmetry

  function Elems(t: seq<nat>): (s: set<nat>)
  {
    set x | x in t
  }

  /** On a path without repeats, the membership count is the number of nodes
      the two paths share. */
  lemma {:induction false} BlacksAreShared(t: seq<nat>, u: seq<nat>, n: nat)
    requires n <= |t| && Distinct(t)
    ensures Blacks(t, u, n) == |Elems(t[..n]) * Elems(u)|
  {
    if n == 0 {
      assert Elems(t[..0]) == {};
    } else {
      BlacksAreShared(t, u, n - 1);
      PrefixElems(t, n);
      SharedStep(Elems(t[..n - 1]), t[n - 1], Elems(u));
      assert t[n - 1] in u <==> t[n - 1] in Elems(u);
    }
  }

  /** Growing a repeat-free prefix by one adds one new node. */
  lemma PrefixElems(t: seq<nat>, n: nat)
    requires 0 < n <= |t| && Distinct(t)
    ensures Elems(t[..n]) == Elems(t[..n - 1]) + {t[n - 1]}
    ensures t[n - 1] !in Elems(t[..n - 1])
  {
    assert t[..n] == t[..n - 1] + [t[n - 1]];
  }

  lemma SharedStep(a: set<nat>, x: nat, u: set<nat>)
    requires x !in a
    ensures |(a + {x}) * u| == |a * u| + (if x in u then 1 else 0)
  {
    if x in u {
      assert (a + {x}) * u == a * u + {x};
    } else {
      assert (a + {x}) * u == a * u;
    }
  }

  lemma {:induction false} WhitesSymmetric(t: seq<nat>, u: seq<nat>, n: nat)
    requires n <= |t| == |u|
    ensures Whites(t, u, n) == Whites(u, t, n)
  {
    if n > 0 {
      WhitesSymmetric(t, u, n - 1);
    }
  }

  /** For paths without repeated nodes the score does not depend on which
      path is the guess. */
  lemma EvaluateSymmetric(t: seq<nat>, u: seq<nat>)
    requires |t| == |u| && Distinct(t) && Distinct(u)
    ensures Evaluate(t, u) == Evaluate(u, t)
  {
    BlacksSplit(t, u, |t|);
    BlacksSplit(u, t, |u|);
    BlacksAreShared(t, u, |t|);
    BlacksAreShared(u, t, |u|);
    assert t[..|t|] == t && u[..|u|] == u;
    assert Elems(t) * Elems(u) == Elems(u) * Elems(t);
    WhitesSymmetric(t, u, |t|);
  }

  /** With a repeated node the score is not symmetric. */
  lemma RepeatsBreakSymmetry()
    ensures Evaluate([0, 0], [0, 1]) == Score(1, 1)
    ensures Evaluate([0, 1], [0, 0]) == Score(0, 1)
  {
    assert Blacks([0, 0], [0, 1], 2) == 2;
    assert Blacks([0, 1], [0, 0], 2) == 1;
  }

  /** A reversed three-node path: the middle node agrees, the ends are swapped. */
  lemma ReversedExample()
    ensures Evaluate([0, 1, 2], [2, 1, 0]) == Score(2, 1)
  {
    assert Blacks([0, 1, 2], [2, 1, 0], 3) == 3;
  }
}
