/**
  Enumeration of unlock patterns: every path that starts on some node and
  moves, step by step, to a node in line of sight of the previous one, never
  revisiting a node, up to an optional maximum length. Every partial path is
  emitted, the path itself before its extensions.

  The current node is decoded with the scan's row-major numbering (the width
  as row stride). On a square grid this is the program's own decoding
  (`OptionsAreSourceOptionsOnSquare`); on other grids the program decodes
  with the height instead, and `Visibility.SourceOptions` models that.
 */
module Enumerate {

  import opened Grid
  import opened Visibility

  function Last(p: seq<nat>): (n: nat)
    requires |p| > 0
  {
    p[|p| - 1]
  }

  /** Every node of `p` is a node of the grid. */
  predicate InGrid(g: Grid, p: seq<nat>)
  {
    forall i :: 0 <= i < |p| ==> p[i] < NodeCount(g)
  }

  /** The nodes not yet on `p`; the enumeration's termination measure. */
  function Unvisited(g: Grid, p: seq<nat>): (s: set<nat>)
    ensures forall id :: id in s ==> id < NodeCount(g) && id !in p
  {
    set id: nat | id < NodeCount(g) && id !in p
  }

  lemma UnvisitedShrinks(g: Grid, p: seq<nat>, o: nat)
    requires o < NodeCount(g) && o !in p
    ensures Unvisited(g, p + [o]) < Unvisited(g, p)
  {
    assert o in Unvisited(g, p) && o !in Unvisited(g, p + [o]);
  }

  /** The options from the last node of `p`, decoded row-major. */
  function Options(g: Grid, p: seq<nat>): (r: seq<nat>)
    requires |p| > 0 && InGrid(g, p)
    ensures forall o :: o in r ==> o < NodeCount(g) && o !in p
    ensures forall o :: o in r <==> NearestOnRay(g, Last(p), p, o)
  {
    var r := OptionsFrom(g, Coord(g, Last(p)), p);
    forall o
      ensures o in r <==> NearestOnRay(g, Last(p), p, o)
    {
      VisibleIffNearestOnRay(g, Last(p), p, o);
    }
    r
  }

  /** On a square grid the two decodings of the current node agree, so these
      options are the ones the program computes from its own decoding. */
  lemma OptionsAreSourceOptionsOnSquare(g: Grid, p: seq<nat>)
    requires |p| > 0 && InGrid(g, p) && g.width == g.height
    ensures Options(g, p) == SourceOptions(g, p)
  {
    SourceCoordSquare(g, Last(p));
  }

  // ---------------------------------------------------------------------------
  // The recursion

  /** The patterns emitted from partial path `p`: `p` itself and, unless `p`
      has reached `maxLen` nodes, the patterns of each one-step extension. */
  function Sols(g: Grid, maxLen: int, p: seq<nat>): (r: seq<seq<nat>>)
    requires |p| > 0 && InGrid(g, p)
    ensures |r| >= 1 && r[0] == p
    decreases Unvisited(g, p), 1, 0
  {
    if |p| == maxLen then [p]
    else [p] + Extend(g, maxLen, p, Options(g, p))
  }

  /** The patterns emitted from `p + [o]` for each `o` of `opts`, in order. */
  function Extend(g: Grid, maxLen: int, p: seq<nat>, opts: seq<nat>): (r: seq<seq<nat>>)
    requires |p| > 0 && InGrid(g, p)
    requires forall o :: o in opts ==> o < NodeCount(g) && o !in p
    ensures |r| >= |opts|
    decreases Unvisited(g, p), 0, |opts|
  {
    if |opts| == 0 then []
    else
      var o := opts[0];
      assert o in opts;
      UnvisitedShrinks(g, p, o);
      var rest := opts[1..];
      assert forall x :: x in rest ==> x in opts;
      Sols(g, maxLen, p + [o]) + Extend(g, maxLen, p, rest)
  }

  /** The patterns emitted from the starts `0 .. n-1`, start by start. */
  function FromStarts(g: Grid, maxLen: int, n: nat): (r: seq<seq<nat>>)
    requires n <= NodeCount(g)
    ensures |r| >= n
  {
    if n == 0 then []
    else FromStarts(g, maxLen, n - 1) + Sols(g, maxLen, [n - 1])
  }

  /** Every pattern of the grid with at most `maxLen` nodes; a `maxLen` below 1
      is never reached, so it sets no cap. */
  function AllSols(g: Grid, maxLen: int): (r: seq<seq<nat>>)
    ensures |r| >= NodeCount(g)
  {
    FromStarts(g, maxLen, NodeCount(g))
  }

  // ---------------------------------------------------------------------------
  // The reference definition

  /** A pattern: a non-empty path of grid nodes, each step going to the nearest
      node not yet on the path along its ray from the previous node, and no
      longer than `maxLen` when `maxLen` is at least 1. */
  ghost predicate IsPattern(g: Grid, maxLen: int, q: seq<nat>)
  {
    && |q| >= 1
    && InGrid(g, q)
    && (forall i :: 1 <= i < |q| ==> NearestOnRay(g, q[i - 1], q[..i], q[i]))
    && (maxLen < 1 || |q| <= maxLen)
  }

  /** `q` continues the partial path `p` by steps in line of sight, without
      passing the length `maxLen`. */
  ghost predicate Extends(g: Grid, maxLen: int, p: seq<nat>, q: seq<nat>)
  {
    && 1 <= |p| <= |q|
    && q[..|p|] == p
    && InGrid(g, q)
    && (forall i :: |p| <= i < |q| ==> NearestOnRay(g, q[i - 1], q[..i], q[i]))
    && !(|p| <= maxLen < |q|)
  }

  /** What the recursion from `p` emits is exactly the continuations of `p`. */
  lemma {:induction false} SolsIff(g: Grid, maxLen: int, p: seq<nat>, q: seq<nat>)
    requires |p| > 0 && InGrid(g, p)
    ensures q in Sols(g, maxLen, p) <==> Extends(g, maxLen, p, q)
    decreases Unvisited(g, p), 1, 0
  {
    assert p[..|p|] == p;
    if |p| == maxLen {
      assert Sols(g, maxLen, p) == [p];
      if Extends(g, maxLen, p, q) {
        assert q == q[..|p|];
      }
      assert Extends(g, maxLen, p, p);
    } else {
      var opts := Options(g, p);
      assert Sols(g, maxLen, p) == [p] + Extend(g, maxLen, p, opts);
      ExtendIff(g, maxLen, p, opts, q);
      assert Extends(g, maxLen, p, p);
      if |q| > |p| {
        assert q[..|p|] == q[..|p| + 1][..|p|];
        if q[..|p|] == p && InGrid(g, q) {
          ExtendsStep(g, maxLen, p, q);
          assert q[|p|] in opts <==> NearestOnRay(g, Last(p), p, q[|p|]);
          assert q in Extend(g, maxLen, p, opts) <==> Extends(g, maxLen, p, q);
        } else {
          assert !Extends(g, maxLen, p, q);
          assert q !in Extend(g, maxLen, p, opts);
        }
      } else {
        assert q !in Extend(g, maxLen, p, opts);
        assert Extends(g, maxLen, p, q) <==> q == p;
      }
    }
  }

  /** Continuing `p` means taking one step in line of sight below the cap and
      continuing from there. */
  lemma ExtendsStep(g: Grid, maxLen: int, p: seq<nat>, q: seq<nat>)
    requires 1 <= |p| < |q| && q[..|p|] == p && InGrid(g, q) && InGrid(g, p)
    ensures Extends(g, maxLen, p, q) <==>
      NearestOnRay(g, Last(p), p, q[|p|]) && |p| != maxLen && Extends(g, maxLen, p + [q[|p|]], q)
  {
    var o := q[|p|];
    assert q[..|p| + 1] == p + [o];
    assert q[|p| - 1] == Last(p);
  }

  /** What the loop over `opts` emits is exactly the continuations of `p`
      whose next node is one of `opts`. */
  lemma {:induction false} ExtendIff(g: Grid, maxLen: int, p: seq<nat>, opts: seq<nat>, q: seq<nat>)
    requires |p| > 0 && InGrid(g, p)
    requires forall o :: o in opts ==> o < NodeCount(g) && o !in p
    ensures q in Extend(g, maxLen, p, opts) <==>
      |q| > |p| && q[|p|] in opts && Extends(g, maxLen, p + [q[|p|]], q)
    decreases Unvisited(g, p), 0, |opts|
  {
    if |opts| > 0 {
      var o := opts[0];
      var rest := opts[1..];
      assert o in opts;
      assert forall x :: x in rest ==> x in opts;
      UnvisitedShrinks(g, p, o);
      assert Extend(g, maxLen, p, opts) == Sols(g, maxLen, p + [o]) + Extend(g, maxLen, p, rest);
      SolsIff(g, maxLen, p + [o], q);
      ExtendIff(g, maxLen, p, rest, q);
      if |q| > |p| {
        if Extends(g, maxLen, p + [o], q) {
          assert q[|p|] == q[..|p| + 1][|p|];
        }
        assert q[|p|] in opts <==> q[|p|] == o || q[|p|] in rest;
      }
    }
  }

  /** A pattern starting at node `s` is a continuation of `[s]`. */
  lemma StartExtends(g: Grid, maxLen: int, s: nat, q: seq<nat>)
    ensures Extends(g, maxLen, [s], q) <==> IsPattern(g, maxLen, q) && q[0] == s
  {
    if |q| >= 1 {
      assert q[..1] == [q[0]];
    }
  }

  lemma {:induction false} FromStartsIff(g: Grid, maxLen: int, n: nat, q: seq<nat>)
    requires n <= NodeCount(g)
    ensures q in FromStarts(g, maxLen, n) <==> IsPattern(g, maxLen, q) && q[0] < n
  {
    if n > 0 {
      assert FromStarts(g, maxLen, n) == FromStarts(g, maxLen, n - 1) + Sols(g, maxLen, [n - 1]);
      FromStartsIff(g, maxLen, n - 1, q);
      SolsIff(g, maxLen, [n - 1], q);
      StartExtends(g, maxLen, n - 1, q);
      assert q in FromStarts(g, maxLen, n) <==> q in FromStarts(g, maxLen, n - 1) || q in Sols(g, maxLen, [n - 1]);
    }
  }

  /** The enumeration emits exactly the patterns. */
  lemma AllSolsIff(g: Grid, maxLen: int, q: seq<nat>)
    ensures q in AllSols(g, maxLen) <==> IsPattern(g, maxLen, q)
  {
    FromStartsIff(g, maxLen, NodeCount(g), q);
  }

  // ---------------------------------------------------------------------------
  // Consequences

  /** Every emitted pattern is non-empty, within the cap, made of distinct grid
      nodes, hence no longer than the grid, and each step lands on the nearest
      unvisited node of its ray. */
  lemma EmittedWellFormed(g: Grid, maxLen: int, q: seq<nat>)
    requires q in AllSols(g, maxLen)
    ensures 1 <= |q| && (maxLen >= 1 ==> |q| <= maxLen)
    ensures InGrid(g, q) && Distinct(q) && |q| <= NodeCount(g)
    ensures forall i :: 1 <= i < |q| ==> NearestOnRay(g, q[i - 1], q[..i], q[i])
  {
    AllSolsIff(g, maxLen, q);
    forall i, j | 0 <= i < j < |q|
      ensures q[i] != q[j]
    {
      assert NearestOnRay(g, q[j - 1], q[..j], q[j]);
      assert q[i] == q[..j][i];
    }
    DistinctBound(q, NodeCount(g));
  }

  /** Every non-empty prefix of an emitted pattern is emitted. */
  lemma PrefixClosed(g: Grid, maxLen: int, q: seq<nat>, k: nat)
    requires q in AllSols(g, maxLen) && 1 <= k <= |q|
    ensures q[..k] in AllSols(g, maxLen)
  {
    AllSolsIff(g, maxLen, q);
    AllSolsIff(g, maxLen, q[..k]);
    forall i | 1 <= i < k
      ensures NearestOnRay(g, q[..k][i - 1], q[..k][..i], q[..k][i])
    {
      assert q[..k][..i] == q[..i];
      assert NearestOnRay(g, q[i - 1], q[..i], q[i]);
    }
  }

  /** Every node on its own is emitted. */
  lemma StartsEmitted(g: Grid, maxLen: int, s: nat)
    requires s < NodeCount(g)
    ensures [s] in AllSols(g, maxLen)
  {
    AllSolsIff(g, maxLen, [s]);
  }

  /** With a cap of one node the output is the starts, in order. */
  lemma MaxLenOne(g: Grid)
    ensures AllSols(g, 1) == seq(NodeCount(g), i => [i])
  {
    StartsOnly(g, NodeCount(g));
  }

  lemma {:induction false} StartsOnly(g: Grid, n: nat)
    requires n <= NodeCount(g)
    ensures FromStarts(g, 1, n) == seq(n, i => [i])
  {
    if n > 0 {
      StartsOnly(g, n - 1);
      assert Sols(g, 1, [n - 1]) == [[n - 1]];
      assert seq(n, i => [i]) == seq(n - 1, i => [i]) + [[n - 1]];
    }
  }

  /** One step of the recursion: `p + [o]` is emitted exactly when `p` is,
      `p` is below the cap, and `o` is in line of sight of the last node of `p`. */
  lemma OneStep(g: Grid, maxLen: int, p: seq<nat>, o: nat)
    requires |p| >= 1 && InGrid(g, p)
    ensures p + [o] in AllSols(g, maxLen) <==>
      p in AllSols(g, maxLen) && |p| != maxLen && NearestOnRay(g, Last(p), p, o)
  {
    var q := p + [o];
    AllSolsIff(g, maxLen, p);
    AllSolsIff(g, maxLen, q);
    assert q[..|p|] == p;
    forall i | 1 <= i < |p|
      ensures NearestOnRay(g, q[i - 1], q[..i], q[i]) == NearestOnRay(g, p[i - 1], p[..i], p[i])
    {
      assert q[..i] == p[..i];
    }
    if IsPattern(g, maxLen, q) {
      assert NearestOnRay(g, q[|p| - 1], q[..|p|], q[|p|]);
    }
  }

  /** The one-step extensions emitted from an emitted path below the cap are
      exactly its options. */
  lemma ChildrenAreOptions(g: Grid, maxLen: int, p: seq<nat>, o: nat)
    requires p in AllSols(g, maxLen) && InGrid(g, p) && |p| >= 1 && |p| != maxLen
    ensures p + [o] in AllSols(g, maxLen) <==> o in Options(g, p)
  {
    OneStep(g, maxLen, p, o);
  }

  /** Every direction from the last node of `p` that holds an unvisited node
      has exactly one option, and it is no farther than any unvisited node of
      that direction. */
  lemma OptionPerDirection(g: Grid, p: seq<nat>, m: nat) returns (opt: nat)
    requires InGrid(g, p) && |p| >= 1
    requires m < NodeCount(g) && m !in p
    ensures opt in Options(g, p) && opt < NodeCount(g)
    ensures OnSameRay(g, Last(p), opt, m)
    ensures DistAt(g, Coord(g, Last(p)), opt) <= DistAt(g, Coord(g, Last(p)), m)
    ensures forall o :: o in Options(g, p) && OnSameRay(g, Last(p), o, m) ==> o == opt
  {
    var cur := Last(p);
    var at := Coord(g, cur);
    assert cur in p;
    opt := OneOptionPerDirection(g, at, p, m);
    assert opt != cur && m != cur;
    KeyAndDistanceDetermineNode(g, cur, opt, m);
    forall o | o in Options(g, p) && OnSameRay(g, cur, o, m)
      ensures o == opt
    {
      assert o < NodeCount(g) && o != cur;
      KeyAndDistanceDetermineNode(g, cur, o, m);
    }
  }

  // ---------------------------------------------------------------------------
  // Each pattern once

  /** No element occurs twice. */
  ghost predicate NoRepeats(s: seq<seq<nat>>)
  {
    forall i, j :: 0 <= i < j < |s| ==> s[i] != s[j]
  }

  lemma NoRepeatsAppend(a: seq<seq<nat>>, b: seq<seq<nat>>)
    requires NoRepeats(a) && NoRepeats(b)
    requires forall x :: x in a ==> x !in b
    ensures NoRepeats(a + b)
  {
    forall i, j | 0 <= i < j < |a + b|
      ensures (a + b)[i] != (a + b)[j]
    {
      if j < |a| {
        assert (a + b)[i] == a[i] && (a + b)[j] == a[j];
      } else if i >= |a| {
        assert (a + b)[i] == b[i - |a|] && (a + b)[j] == b[j - |a|];
      } else {
        assert (a + b)[i] == a[i] && (a + b)[j] == b[j - |a|];
        assert a[i] in a && b[j - |a|] in b;
      }
    }
  }

  /** The options never repeat a node: each sits in its own direction. */
  lemma OptionsDistinct(g: Grid, p: seq<nat>)
    requires |p| > 0 && InGrid(g, p)
    ensures Distinct(Options(g, p))
  {
    var r := Options(g, p);
    assert r == OptionsFrom(g, Coord(g, Last(p)), p);
  }

  /** Everything emitted from `p` starts with `p`. */
  lemma SolsStartWith(g: Grid, maxLen: int, p: seq<nat>, q: seq<nat>)
    requires |p| > 0 && InGrid(g, p) && q in Sols(g, maxLen, p)
    ensures |p| <= |q| && q[..|p|] == p
  {
    SolsIff(g, maxLen, p, q);
  }

  /** The recursion from `p` emits no path twice. */
  lemma {:induction false} SolsNoRepeats(g: Grid, maxLen: int, p: seq<nat>)
    requires |p| > 0 && InGrid(g, p)
    ensures NoRepeats(Sols(g, maxLen, p))
    decreases Unvisited(g, p), 1, 0
  {
    if |p| != maxLen {
      var opts := Options(g, p);
      OptionsDistinct(g, p);
      ExtendNoRepeats(g, maxLen, p, opts);
      forall x | x in Extend(g, maxLen, p, opts)
        ensures x != p
      {
        ExtendIff(g, maxLen, p, opts, x);
      }
      NoRepeatsAppend([p], Extend(g, maxLen, p, opts));
    }
  }

  lemma {:induction false} ExtendNoRepeats(g: Grid, maxLen: int, p: seq<nat>, opts: seq<nat>)
    requires |p| > 0 && InGrid(g, p)
    requires forall o :: o in opts ==> o < NodeCount(g) && o !in p
    requires Distinct(opts)
    ensures NoRepeats(Extend(g, maxLen, p, opts))
    decreases Unvisited(g, p), 0, |opts|
  {
    if |opts| > 0 {
      var o := opts[0];
      var rest := opts[1..];
      assert o in opts;
      assert forall x :: x in rest ==> x in opts;
      assert o !in rest;
      UnvisitedShrinks(g, p, o);
      assert Extend(g, maxLen, p, opts) == Sols(g, maxLen, p + [o]) + Extend(g, maxLen, p, rest);
      SolsNoRepeats(g, maxLen, p + [o]);
      ExtendNoRepeats(g, maxLen, p, rest);
      forall x | x in Sols(g, maxLen, p + [o])
        ensures x !in Extend(g, maxLen, p, rest)
      {
        SolsStartWith(g, maxLen, p + [o], x);
        assert x[|p|] == (p + [o])[|p|];
        ExtendIff(g, maxLen, p, rest, x);
      }
      NoRepeatsAppend(Sols(g, maxLen, p + [o]), Extend(g, maxLen, p, rest));
    }
  }

  lemma {:induction false} FromStartsNoRepeats(g: Grid, maxLen: int, n: nat)
    requires n <= NodeCount(g)
    ensures NoRepeats(FromStarts(g, maxLen, n))
  {
    if n > 0 {
      var before := FromStarts(g, maxLen, n - 1);
      var here := Sols(g, maxLen, [n - 1]);
      assert FromStarts(g, maxLen, n) == before + here;
      FromStartsNoRepeats(g, maxLen, n - 1);
      SolsNoRepeats(g, maxLen, [n - 1]);
      forall x | x in before
        ensures x !in here
      {
        StartsBelow(g, maxLen, n - 1, x);
        if x in here {
          SolsStartWith(g, maxLen, [n - 1], x);
        }
      }
      NoRepeatsAppend(before, here);
    }
  }

  /** What the starts `0 .. n-1` emit begins below `n`. */
  lemma StartsBelow(g: Grid, maxLen: int, n: nat, x: seq<nat>)
    requires n <= NodeCount(g) && x in FromStarts(g, maxLen, n)
    ensures |x| >= 1 && x[0] < n && x[..1] == [x[0]]
  {
    FromStartsIff(g, maxLen, n, x);
  }

  /** The enumeration emits every pattern exactly once. */
  lemma EachPatternOnce(g: Grid, maxLen: int, q: seq<nat>)
    ensures NoRepeats(AllSols(g, maxLen))
    ensures multiset(AllSols(g, maxLen))[q] == if IsPattern(g, maxLen, q) then 1 else 0
  {
    FromStartsNoRepeats(g, maxLen, NodeCount(g));
    AllSolsIff(g, maxLen, q);
    CountOfNoRepeats(AllSols(g, maxLen), q);
  }

  /** In a sequence without repeats an element occurs once or not at all. */
  lemma {:induction false} CountOfNoRepeats(s: seq<seq<nat>>, q: seq<nat>)
    requires NoRepeats(s)
    ensures multiset(s)[q] == if q in s then 1 else 0
  {
    if |s| > 0 {
      assert s == [s[0]] + s[1..];
      assert NoRepeats(s[1..]) by {
        forall i, j | 0 <= i < j < |s[1..]|
          ensures s[1..][i] != s[1..][j]
        {
          assert s[1..][i] == s[i + 1] && s[1..][j] == s[j + 1];
        }
      }
      CountOfNoRepeats(s[1..], q);
      if s[0] == q {
        forall k | 0 <= k < |s[1..]|
          ensures s[1..][k] != q
        {
          assert s[1..][k] == s[k + 1];
        }
      }
    }
  }

  // ---------------------------------------------------------------------------
  // Counting

  /** Distinct nodes below `n` number at most `n`. */
  lemma {:induction false} DistinctBound(q: seq<nat>, n: nat)
    requires Distinct(q) && forall i :: 0 <= i < |q| ==> q[i] < n
    ensures |q| <= n
  {
    assert |q| == 0 || q[0] < n;
    if n > 0 {
      if j :| 0 <= j < |q| && q[j] == n - 1 {
        var r := q[..j] + q[j + 1..];
        assert forall i :: 0 <= i < |r| ==> r[i] == if i < j then q[i] else q[i + 1];
        assert forall i :: 0 <= i < |r| ==> r[i] != n - 1;
        DistinctBound(r, n - 1);
      } else {
        assert forall i :: 0 <= i < |q| ==> q[i] != n - 1;
        DistinctBound(q, n - 1);
      }
    }
  }
}
