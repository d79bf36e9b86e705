/**
  Narrowing the candidate patterns after a guess has been scored: keep the
  candidates that would have produced the same score against the guess.
 */
module Narrow {

  import opened Grid
  import opened Enumerate
  import opened Feedback

  /** Every candidate has the length of the guess, as scoring demands. */
  predicate SameLength(cands: seq<seq<nat>>, guess: seq<nat>)
  {
    forall i :: 0 <= i < |cands| ==> |cands[i]| == |guess|
  }

  /** The candidates, in order, whose score against `guess` is `score`. */
  function Narrow(cands: seq<seq<nat>>, guess: seq<nat>, score: Score): (r: seq<seq<nat>>)
    requires SameLength(cands, guess)
    ensures |r| <= |cands| && SameLength(r, guess)
    ensures forall c :: c in r <==> c in cands && Evaluate(c, guess) == score
  {
    if |cands| == 0 then []
    else
      var rest := Narrow(cands[1..], guess, score);
      assert forall c :: c in cands <==> c == cands[0] || c in cands[1..];
      if Evaluate(cands[0], guess) == score then [cands[0]] + rest else rest
  }

  /** Narrowing distributes over concatenation, so it keeps the candidates'
      relative order. */
  lemma {:induction false} NarrowAppend(a: seq<seq<nat>>, b: seq<seq<nat>>, guess: seq<nat>, score: Score)
    requires SameLength(a, guess) && SameLength(b, guess)
    ensures SameLength(a + b, guess)
    ensures Narrow(a + b, guess, score) == Narrow(a, guess, score) + Narrow(b, guess, score)
  {
    assert SameLength(a + b, guess) by {
      forall i | 0 <= i < |a + b|
        ensures |(a + b)[i]| == |guess|
      {
        if i >= |a| {
          assert (a + b)[i] == b[i - |a|];
        }
      }
    }
    if |a| > 0 {
      assert (a + b)[1..] == a[1..] + b;
      NarrowAppend(a[1..], b, guess, score);
    } else {
      assert a + b == b;
    }
  }

  /** Each candidate is kept as often as it occurs, or dropped entirely. */
  lemma {:induction false} NarrowCounts(cands: seq<seq<nat>>, guess: seq<nat>, score: Score, c: seq<nat>)
    requires SameLength(cands, guess) && |c| == |guess|
    ensures multiset(Narrow(cands, guess, score))[c] ==
      if Evaluate(c, guess) == score then multiset(cands)[c] else 0
  {
    if |cands| > 0 {
      NarrowCounts(cands[1..], guess, score, c);
      assert cands == [cands[0]] + cands[1..];
    }
  }

  /** Narrowing twice with the same guess and score changes nothing more. */
  lemma {:induction false} NarrowIdempotent(cands: seq<seq<nat>>, guess: seq<nat>, score: Score)
    requires SameLength(cands, guess)
    ensures Narrow(Narrow(cands, guess, score), guess, score) == Narrow(cands, guess, score)
  {
    if |cands| > 0 {
      NarrowIdempotent(cands[1..], guess, score);
    }
  }

  /** The order of two narrowing rounds does not matter. */
  lemma {:induction false} NarrowCommutes(cands: seq<seq<nat>>, g1: seq<nat>, s1: Score, g2: seq<nat>, s2: Score)
    requires SameLength(cands, g1) && SameLength(cands, g2)
    ensures SameLength(Narrow(cands, g1, s1), g2) && SameLength(Narrow(cands, g2, s2), g1)
    ensures Narrow(Narrow(cands, g1, s1), g2, s2) == Narrow(Narrow(cands, g2, s2), g1, s1)
  {
    SubsequenceSameLength(cands, g1, s1, g2);
    SubsequenceSameLength(cands, g2, s2, g1);
    if |cands| > 0 {
      NarrowCommutes(cands[1..], g1, s1, g2, s2);
    }
  }

  lemma SubsequenceSameLength(cands: seq<seq<nat>>, guess: seq<nat>, score: Score, other: seq<nat>)
    requires SameLength(cands, guess) && SameLength(cands, other)
    ensures SameLength(Narrow(cands, guess, score), other)
  {
    var r := Narrow(cands, guess, score);
    forall i | 0 <= i < |r|
      ensures |r[i]| == |other|
    {
      assert r[i] in cands;
    }
  }

  // ---------------------------------------------------------------------------
  // The hidden pattern survives

  /** The game scores a guess against the hidden pattern, then narrows with
      the candidates scored against the guess. A repeat-free hidden pattern
      among the candidates survives a repeat-free guess. */
  lemma SolutionSurvives(cands: seq<seq<nat>>, guess: seq<nat>, solution: seq<nat>)
    requires SameLength(cands, guess) && solution in cands
    requires |solution| == |guess| && Distinct(guess) && Distinct(solution)
    ensures solution in Narrow(cands, guess, Evaluate(guess, solution))
  {
    EvaluateSymmetric(guess, solution);
  }

  /** The game accepts only guesses that are patterns of the grid, and the
      hidden pattern is one too, so neither repeats a node: the hidden
      pattern survives every round. */
  lemma PatternSolutionSurvives(g: Grid, maxLen: int, cands: seq<seq<nat>>, guess: seq<nat>, solution: seq<nat>)
    requires guess in AllSols(g, maxLen) && solution in AllSols(g, maxLen)
    requires SameLength(cands, guess) && solution in cands && |solution| == |guess|
    ensures solution in Narrow(cands, guess, Evaluate(guess, solution))
  {
    EmittedWellFormed(g, maxLen, guess);
    EmittedWellFormed(g, maxLen, solution);
    SolutionSurvives(cands, guess, solution);
  }

  /** The candidates left after a series of guesses, each scored against the
      hidden pattern. */
  function Play(cands: seq<seq<nat>>, guesses: seq<seq<nat>>, solution: seq<nat>): (r: seq<seq<nat>>)
    requires forall k :: 0 <= k < |guesses| ==> |guesses[k]| == |solution|
    requires SameLength(cands, solution)
    ensures SameLength(r, solution) && |r| <= |cands|
    ensures forall c :: c in r ==> c in cands
    decreases |guesses|
  {
    if |guesses| == 0 then cands
    else
      var g := guesses[0];
      var kept := Narrow(cands, g, Evaluate(g, solution));
      assert SameLength(kept, solution);
      Play(kept, guesses[1..], solution)
  }

  /** After any series of repeat-free guesses the hidden pattern is still a
      candidate, and every remaining candidate agrees with every score seen. */
  lemma {:induction false} PlayKeepsSolution(cands: seq<seq<nat>>, guesses: seq<seq<nat>>, solution: seq<nat>)
    requires forall k :: 0 <= k < |guesses| ==> |guesses[k]| == |solution| && Distinct(guesses[k])
    requires SameLength(cands, solution) && solution in cands && Distinct(solution)
    ensures solution in Play(cands, guesses, solution)
    ensures forall c, k :: c in Play(cands, guesses, solution) && 0 <= k < |guesses| ==>
      |c| == |guesses[k]| && Evaluate(c, guesses[k]) == Evaluate(guesses[k], solution)
    decreases |guesses|
  {
    if |guesses| > 0 {
      var g := guesses[0];
      var kept := Narrow(cands, g, Evaluate(g, solution));
      SolutionSurvives(cands, g, solution);
      PlayKeepsSolution(kept, guesses[1..], solution);
      forall c, k | c in Play(cands, guesses, solution) && 0 <= k < |guesses|
        ensures |c| == |guesses[k]| && Evaluate(c, guesses[k]) == Evaluate(guesses[k], solution)
      {
        assert c in kept;
        if k > 0 {
          assert guesses[k] == guesses[1..][k - 1];
        }
      }
    }
  }
}
