/**
  Which nodes the pattern may move to next.

  The enumerator scans every node in id order, skips the nodes already on the
  pattern, and files each remaining node under the direction of its offset from
  the current node, keeping per direction the nearest one (on a tie the one
  scanned first). The table is an insertion-ordered dictionary, modelled here
  as an association list of entries; the options are its values in order.
  Visited nodes never enter the table, so they never block a move.
 */
module Visibility {

  import opened Arith
  import opened Direction
  import opened Grid

  /** One dictionary entry: the direction key, the squared distance and the node. */
  datatype Entry = Entry(key: Dir, dist: nat, node: nat)

  /** Squared Euclidean distance from `o` to `p`. */
  function DistSq(o: Point, p: Point): (d: nat)
  {
    (p.x - o.x) * (p.x - o.x) + (p.y - o.y) * (p.y - o.y)
  }

  /** The direction key of `p` as seen from `o`. */
  function KeyOf(o: Point, p: Point): (k: Dir)
  {
    Key(p.x - o.x, p.y - o.y)
  }

  /** The direction key of node `id` as seen from `o`. */
  function KeyAt(g: Grid, o: Point, id: nat): (k: Dir)
    requires id < NodeCount(g)
  {
    KeyOf(o, Coord(g, id))
  }

  /** The squared distance of node `id` from `o`. */
  function DistAt(g: Grid, o: Point, id: nat): (d: nat)
    requires id < NodeCount(g)
  {
    DistSq(o, Coord(g, id))
  }

  /** `a` keeps its place in the table against `b`: strictly nearer, or as
      near and scanned no later. */
  predicate Wins(g: Grid, o: Point, a: nat, b: nat)
    requires a < NodeCount(g) && b < NodeCount(g)
  {
    DistAt(g, o, a) < DistAt(g, o, b) || (DistAt(g, o, a) == DistAt(g, o, b) && a <= b)
  }

  /** The reference definition of an option: an unvisited node that wins
      against every unvisited node in its direction. */
  predicate Visible(g: Grid, o: Point, visited: seq<nat>, id: nat)
  {
    && id < NodeCount(g)
    && id !in visited
    && forall m: nat :: m < NodeCount(g) && m !in visited && KeyAt(g, o, m) == KeyAt(g, o, id) ==> Wins(g, o, id, m)
  }

  /** The directions filed in the table. */
  function Keys(t: seq<Entry>): (ks: set<Dir>)
  {
    set e | e in t :: e.key
  }

  /** Position of the entry filed under `k`, or `|t|` when there is none. */
  function FindKey(t: seq<Entry>, k: Dir): (i: nat)
    ensures i <= |t|
    ensures i < |t| ==> t[i].key == k
    ensures i == |t| <==> k !in Keys(t)
  {
    if |t| == 0 then 0
    else if t[0].key == k then 0
    else
      assert forall e :: e in t <==> e == t[0] || e in t[1..];
      1 + FindKey(t[1..], k)
  }

  /** The dictionary update of one scanned node: a new direction is appended,
      a strictly nearer node replaces the entry in place, anything else leaves
      the table alone. */
  function Place(t: seq<Entry>, e: Entry): (r: seq<Entry>)
    ensures Keys(r) == Keys(t) + {e.key}
    ensures |r| <= |t| + 1
  {
    var i := FindKey(t, e.key);
    if i == |t| then
      assert Keys(t + [e]) == Keys(t) + {e.key} by {
        assert forall x :: x in t + [e] <==> x in t || x == e;
      }
      t + [e]
    else if t[i].dist > e.dist then
      ReplaceKeepsKeys(t, i, e);
      t[i := e]
    else t
  }

  /** The table after scanning nodes `0 .. n-1`. */
  function Table(g: Grid, o: Point, visited: seq<nat>, n: nat): (t: seq<Entry>)
    requires n <= NodeCount(g)
    ensures |t| <= n
  {
    if n == 0 then []
    else
      var t := Table(g, o, visited, n - 1);
      var id := n - 1;
      if id in visited then t
      else Place(t, Entry(KeyAt(g, o, id), DistAt(g, o, id), id))
  }

  function Nodes(t: seq<Entry>): (r: seq<nat>)
    ensures |r| == |t| && forall i :: 0 <= i < |t| ==> r[i] == t[i].node
  {
    seq(|t|, i requires 0 <= i < |t| => t[i].node)
  }

  /** The nodes offered as the next step from position `o`, in table order. */
  function OptionsFrom(g: Grid, o: Point, visited: seq<nat>): (r: seq<nat>)
    ensures forall id :: id in r <==> Visible(g, o, visited, id)
    ensures forall i :: 0 <= i < |r| ==> r[i] < NodeCount(g) && r[i] !in visited
    ensures forall i, j :: 0 <= i < j < |r| ==> KeyAt(g, o, r[i]) != KeyAt(g, o, r[j])
  {
    var t := Table(g, o, visited, NodeCount(g));
    TableInvariant(g, o, visited, NodeCount(g));
    OptionsAreVisible(g, o, visited, t);
    Nodes(t)
  }

  // ---------------------------------------------------------------------------
  // The table invariant

  /** Every entry is a scanned unvisited node, filed under its own key and distance. */
  ghost predicate EntriesSound(g: Grid, o: Point, visited: seq<nat>, n: nat, t: seq<Entry>)
    requires n <= NodeCount(g)
  {
    forall i :: 0 <= i < |t| ==>
      && t[i].node < n && t[i].node !in visited
      && t[i].key == KeyAt(g, o, t[i].node) && t[i].dist == DistAt(g, o, t[i].node)
  }

  /** One entry per direction. */
  ghost predicate KeysDistinct(t: seq<Entry>)
  {
    forall i, j :: 0 <= i < j < |t| ==> t[i].key != t[j].key
  }

  /** Every scanned unvisited node has its direction filed. */
  ghost predicate DirectionsFiled(g: Grid, o: Point, visited: seq<nat>, n: nat, t: seq<Entry>)
    requires n <= NodeCount(g)
  {
    forall m: nat :: m < n && m !in visited ==> KeyAt(g, o, m) in Keys(t)
  }

  /** The filed node wins against every scanned unvisited node of its direction. */
  ghost predicate EntriesWin(g: Grid, o: Point, visited: seq<nat>, n: nat, t: seq<Entry>)
    requires n <= NodeCount(g)
    requires EntriesSound(g, o, visited, n, t)
  {
    forall i, m: nat :: 0 <= i < |t| && m < n && m !in visited && KeyAt(g, o, m) == t[i].key ==>
      Wins(g, o, t[i].node, m)
  }

  /** What the table holds after scanning nodes `0 .. n-1`. */
  ghost predicate TableInv(g: Grid, o: Point, visited: seq<nat>, n: nat, t: seq<Entry>)
    requires n <= NodeCount(g)
  {
    && EntriesSound(g, o, visited, n, t)
    && KeysDistinct(t)
    && DirectionsFiled(g, o, visited, n, t)
    && EntriesWin(g, o, visited, n, t)
  }

  lemma {:induction false} TableInvariant(g: Grid, o: Point, visited: seq<nat>, n: nat)
    requires n <= NodeCount(g)
    ensures TableInv(g, o, visited, n, Table(g, o, visited, n))
  {
    if n > 0 {
      var id := n - 1;
      TableInvariant(g, o, visited, id);
      var t := Table(g, o, visited, id);
      if id in visited {
        assert Table(g, o, visited, n) == t;
        SkipKeepsInvariant(g, o, visited, id, t);
      } else {
        assert Table(g, o, visited, n) == Place(t, Entry(KeyAt(g, o, id), DistAt(g, o, id), id));
        PlaceKeepsInvariant(g, o, visited, id, t);
      }
    }
  }

  lemma SkipKeepsInvariant(g: Grid, o: Point, visited: seq<nat>, id: nat, t: seq<Entry>)
    requires id < NodeCount(g) && id in visited
    requires TableInv(g, o, visited, id, t)
    ensures TableInv(g, o, visited, id + 1, t)
  {
    assert DirectionsFiled(g, o, visited, id + 1, t) by {
      forall m: nat | m < id + 1 && m !in visited
        ensures KeyAt(g, o, m) in Keys(t)
      {
        assert m < id;
      }
    }
    assert EntriesWin(g, o, visited, id + 1, t) by {
      forall i, m: nat | 0 <= i < |t| && m < id + 1 && m !in visited && KeyAt(g, o, m) == t[i].key
        ensures Wins(g, o, t[i].node, m)
      {
        assert m < id;
      }
    }
  }

  lemma PlaceKeepsInvariant(g: Grid, o: Point, visited: seq<nat>, id: nat, t: seq<Entry>)
    requires id < NodeCount(g) && id !in visited
    requires TableInv(g, o, visited, id, t)
    ensures TableInv(g, o, visited, id + 1, Place(t, Entry(KeyAt(g, o, id), DistAt(g, o, id), id)))
  {
    var e := Entry(KeyAt(g, o, id), DistAt(g, o, id), id);
    var i := FindKey(t, e.key);
    if i == |t| {
      AppendKeepsInvariant(g, o, visited, id, t);
    } else if t[i].dist > e.dist {
      ReplaceKeepsInvariant(g, o, visited, id, t, i);
    } else {
      KeepKeepsInvariant(g, o, visited, id, t, i);
    }
  }

  /** A node of a new direction is appended. */
  lemma AppendKeepsInvariant(g: Grid, o: Point, visited: seq<nat>, id: nat, t: seq<Entry>)
    requires id < NodeCount(g) && id !in visited
    requires TableInv(g, o, visited, id, t)
    requires KeyAt(g, o, id) !in Keys(t)
    ensures TableInv(g, o, visited, id + 1, t + [Entry(KeyAt(g, o, id), DistAt(g, o, id), id)])
  {
    var e := Entry(KeyAt(g, o, id), DistAt(g, o, id), id);
    var t' := t + [e];
    assert EntriesSound(g, o, visited, id + 1, t') by {
      forall j | 0 <= j < |t'|
        ensures t'[j].node < id + 1 && t'[j].node !in visited
        ensures t'[j].key == KeyAt(g, o, t'[j].node) && t'[j].dist == DistAt(g, o, t'[j].node)
      {
        if j < |t| {
          assert t'[j] == t[j];
        }
      }
    }
    AppendKeysDistinct(t, e);
    assert Keys(t') == Keys(t) + {e.key};
    AppendWins(g, o, visited, id, t);
  }

  lemma AppendKeysDistinct(t: seq<Entry>, e: Entry)
    requires KeysDistinct(t) && e.key !in Keys(t)
    ensures KeysDistinct(t + [e])
  {
    var t' := t + [e];
    forall i, j | 0 <= i < j < |t'| ensures t'[i].key != t'[j].key {
      assert t'[i] == t[i];
      if j == |t| {
        assert t[i] in t;
      } else {
        assert t'[j] == t[j];
      }
    }
  }

  /** The appended node wins in its own direction, as no scanned node shares it. */
  lemma AppendWins(g: Grid, o: Point, visited: seq<nat>, id: nat, t: seq<Entry>)
    requires id < NodeCount(g) && id !in visited
    requires TableInv(g, o, visited, id, t)
    requires KeyAt(g, o, id) !in Keys(t)
    ensures EntriesSound(g, o, visited, id + 1, t)
    ensures EntriesWin(g, o, visited, id + 1, t + [Entry(KeyAt(g, o, id), DistAt(g, o, id), id)])
  {
    var e := Entry(KeyAt(g, o, id), DistAt(g, o, id), id);
    var t' := t + [e];
    forall j, m: nat | 0 <= j < |t'| && m < id + 1 && m !in visited && KeyAt(g, o, m) == t'[j].key
      ensures Wins(g, o, t'[j].node, m)
    {
      if j < |t| {
        assert t'[j] == t[j];
        assert t[j] in t;
        assert m != id;
      } else if m < id {
        assert false;
      }
    }
  }

  /** A strictly nearer node of a known direction replaces the entry in place. */
  lemma ReplaceKeepsInvariant(g: Grid, o: Point, visited: seq<nat>, id: nat, t: seq<Entry>, i: nat)
    requires id < NodeCount(g) && id !in visited
    requires TableInv(g, o, visited, id, t)
    requires i < |t| && t[i].key == KeyAt(g, o, id) && t[i].dist > DistAt(g, o, id)
    ensures TableInv(g, o, visited, id + 1, t[i := Entry(KeyAt(g, o, id), DistAt(g, o, id), id)])
  {
    var e := Entry(KeyAt(g, o, id), DistAt(g, o, id), id);
    var t' := t[i := e];
    ReplaceKeepsKeys(t, i, e);
    assert EntriesWin(g, o, visited, id + 1, t') by {
      forall j, m: nat | 0 <= j < |t'| && m < id + 1 && m !in visited && KeyAt(g, o, m) == t'[j].key
        ensures Wins(g, o, t'[j].node, m)
      {
        if j == i && m < id {
          assert Wins(g, o, t[i].node, m);
        }
      }
    }
  }

  /** Replacing an entry by one of the same key keeps the set of keys. */
  lemma ReplaceKeepsKeys(t: seq<Entry>, i: nat, e: Entry)
    requires i < |t| && t[i].key == e.key
    ensures Keys(t[i := e]) == Keys(t)
  {
    var t' := t[i := e];
    forall k | k in Keys(t) ensures k in Keys(t') {
      var j :| 0 <= j < |t| && t[j].key == k;
      assert t'[j].key == k;
    }
    forall k | k in Keys(t') ensures k in Keys(t) {
      var j :| 0 <= j < |t'| && t'[j].key == k;
      assert t[j].key == k;
    }
  }

  /** A node no nearer than the filed one leaves the table unchanged. */
  lemma KeepKeepsInvariant(g: Grid, o: Point, visited: seq<nat>, id: nat, t: seq<Entry>, i: nat)
    requires id < NodeCount(g) && id !in visited
    requires TableInv(g, o, visited, id, t)
    requires i < |t| && t[i].key == KeyAt(g, o, id) && t[i].dist <= DistAt(g, o, id)
    ensures TableInv(g, o, visited, id + 1, t)
  {
    assert DirectionsFiled(g, o, visited, id + 1, t) by {
      assert t[i] in t;
    }
    assert EntriesWin(g, o, visited, id + 1, t) by {
      forall j, m: nat | 0 <= j < |t| && m < id + 1 && m !in visited && KeyAt(g, o, m) == t[j].key
        ensures Wins(g, o, t[j].node, m)
      {
        if m == id {
          assert j == i;
        }
      }
    }
  }

  /** The table's nodes are exactly the visible nodes. */
  lemma OptionsAreVisible(g: Grid, o: Point, visited: seq<nat>, t: seq<Entry>)
    requires TableInv(g, o, visited, NodeCount(g), t)
    ensures forall id :: id in Nodes(t) <==> Visible(g, o, visited, id)
    ensures forall i :: 0 <= i < |t| ==> t[i].node < NodeCount(g) && t[i].node !in visited
  {
    var r := Nodes(t);
    forall id | id in r
      ensures Visible(g, o, visited, id)
    {
      var i :| 0 <= i < |t| && t[i].node == id;
    }
    forall id | Visible(g, o, visited, id)
      ensures id in r
    {
      var k := KeyAt(g, o, id);
      assert k in Keys(t);
      var i :| 0 <= i < |t| && t[i].key == k;
      assert Wins(g, o, t[i].node, id) && Wins(g, o, id, t[i].node);
      assert r[i] == id;
    }
  }

  /** Every direction that holds an unvisited node has exactly one option,
      and that option wins against every unvisited node of the direction. */
  lemma OneOptionPerDirection(g: Grid, o: Point, visited: seq<nat>, m: nat) returns (opt: nat)
    requires m < NodeCount(g) && m !in visited
    ensures opt in OptionsFrom(g, o, visited)
    ensures KeyAt(g, o, opt) == KeyAt(g, o, m) && Wins(g, o, opt, m)
    ensures forall other :: other in OptionsFrom(g, o, visited) && KeyAt(g, o, other) == KeyAt(g, o, m) ==> other == opt
  {
    var t := Table(g, o, visited, NodeCount(g));
    TableInvariant(g, o, visited, NodeCount(g));
    var i :| 0 <= i < |t| && t[i].key == KeyAt(g, o, m);
    opt := t[i].node;
    var r := OptionsFrom(g, o, visited);
    assert r == Nodes(t);
    assert r[i] == opt;
  }

  // ---------------------------------------------------------------------------
  // The scan as the program writes it: rows outside, columns inside

  /** Scans the grid row by row, numbering the nodes as it goes, and returns
      the values of the resulting direction table. */
  method ScanOptions(g: Grid, o: Point, visited: seq<nat>) returns (opts: seq<nat>)
    ensures opts == OptionsFrom(g, o, visited)
    ensures forall id :: id in opts <==> Visible(g, o, visited, id)
  {
    var table: seq<Entry> := [];
    var id := 0;
    var y := 0;
    while y < g.height
      invariant 0 <= y <= g.height
      invariant id == y * g.width && id <= NodeCount(g)
      invariant table == Table(g, o, visited, id)
    {
      MulStep(y, g.width);
      MulMono(y + 1, g.height, g.width);
      table, id := ScanRow(g, o, visited, y, table, id);
      y := y + 1;
    }
    assert id == NodeCount(g) by {
      assert y == g.height;
    }
    opts := Nodes(table);
  }

  /** The inner loop: scans row `y` left to right, numbering its nodes from `start`. */
  method ScanRow(g: Grid, o: Point, visited: seq<nat>, y: nat, table: seq<Entry>, start: nat)
    returns (table': seq<Entry>, next: nat)
    requires y < g.height && start == y * g.width && start + g.width <= NodeCount(g)
    requires table == Table(g, o, visited, start)
    ensures next == start + g.width && table' == Table(g, o, visited, next)
  {
    table' := table;
    next := start;
    var x := 0;
    while x < g.width
      invariant 0 <= x <= g.width && next == start + x
      invariant table' == Table(g, o, visited, next)
    {
      var p := Point(x, y);
      TableStep(g, o, visited, p, next);
      if next !in visited {
        table' := Place(table', Entry(KeyOf(o, p), DistSq(o, p), next));
      }
      next := next + 1;
      x := x + 1;
    }
  }

  /** Scanning node `id` at position `p` extends the table by that node. */
  lemma TableStep(g: Grid, o: Point, visited: seq<nat>, p: Point, id: nat)
    requires InBounds(g, p) && id == p.y * g.width + p.x
    ensures id < NodeCount(g)
    ensures Table(g, o, visited, id + 1) ==
      if id in visited then Table(g, o, visited, id)
      else Place(Table(g, o, visited, id), Entry(KeyOf(o, p), DistSq(o, p), id))
  {
    RowMajorBound(g, p);
    CoordOfIdOf(g, p);
    assert IdOf(g, p) == id;
  }

  // ---------------------------------------------------------------------------
  // Visibility in geometric terms, from the node the pattern stands on

  /** `a` and `b` lie on one ray leaving node `cur`. */
  predicate OnSameRay(g: Grid, cur: nat, a: nat, b: nat)
    requires cur < NodeCount(g) && a < NodeCount(g) && b < NodeCount(g)
  {
    var o := Coord(g, cur);
    var p := Coord(g, a);
    var q := Coord(g, b);
    SameRay(p.x - o.x, p.y - o.y, q.x - o.x, q.y - o.y)
  }

  /** The line-of-sight rule: `id` is unvisited and every other unvisited node
      on its ray from `cur` is strictly farther. */
  ghost predicate NearestOnRay(g: Grid, cur: nat, visited: seq<nat>, id: nat)
    requires cur < NodeCount(g)
  {
    && id < NodeCount(g)
    && id !in visited
    && forall m: nat :: m < NodeCount(g) && m !in visited && m != id && OnSameRay(g, cur, m, id) ==>
         DistAt(g, Coord(g, cur), id) < DistAt(g, Coord(g, cur), m)
  }

  /** Seen from a node other than `a` and `b`, one direction and one distance
      pin down one node. */
  lemma KeyAndDistanceDetermineNode(g: Grid, cur: nat, a: nat, b: nat)
    requires cur < NodeCount(g) && a < NodeCount(g) && b < NodeCount(g)
    requires a != cur && b != cur
    ensures KeyAt(g, Coord(g, cur), a) == KeyAt(g, Coord(g, cur), b) <==> OnSameRay(g, cur, a, b)
    ensures (KeyAt(g, Coord(g, cur), a) == KeyAt(g, Coord(g, cur), b)
             && DistAt(g, Coord(g, cur), a) == DistAt(g, Coord(g, cur), b)) ==> a == b
  {
    var o := Coord(g, cur);
    var p := Coord(g, a);
    var q := Coord(g, b);
    CoordInjective(g, a, cur);
    CoordInjective(g, b, cur);
    CoordInjective(g, a, b);
    KeyIffSameRay(p.x - o.x, p.y - o.y, q.x - o.x, q.y - o.y);
    if KeyAt(g, o, a) == KeyAt(g, o, b) && DistAt(g, o, a) == DistAt(g, o, b) {
      SameKeySameLength(p.x - o.x, p.y - o.y, q.x - o.x, q.y - o.y);
    }
  }

  /** From a visited node, the table's rule is exactly the line-of-sight rule:
      an option is an unvisited node with no other unvisited node on its ray
      at the same or a smaller distance. */
  lemma VisibleIffNearestOnRay(g: Grid, cur: nat, visited: seq<nat>, id: nat)
    requires cur < NodeCount(g) && cur in visited
    ensures Visible(g, Coord(g, cur), visited, id) <==> NearestOnRay(g, cur, visited, id)
  {
    var o := Coord(g, cur);
    if id < NodeCount(g) && id !in visited {
      forall m: nat | m < NodeCount(g) && m !in visited
        ensures KeyAt(g, o, m) == KeyAt(g, o, id) <==> OnSameRay(g, cur, m, id)
        ensures KeyAt(g, o, m) == KeyAt(g, o, id) && DistAt(g, o, m) == DistAt(g, o, id) ==> m == id
      {
        KeyAndDistanceDetermineNode(g, cur, m, id);
      }
    }
  }

  // ---------------------------------------------------------------------------
  // The options as the program computes them from its own decoding

  /** The options offered from the last node of `path` when the current node
      is decoded with the height as row stride. */
  function SourceOptions(g: Grid, path: seq<nat>): (r: seq<nat>)
    requires |path| > 0 && path[|path| - 1] < NodeCount(g)
    ensures forall id :: id in r <==> Visible(g, SourceCoord(g, path[|path| - 1]), path, id)
  {
    OptionsFrom(g, SourceCoord(g, path[|path| - 1]), path)
  }

  /** On a 3-wide, 2-tall grid, from node 2 at (2, 0), the program looks
      from (0, 1) instead: it offers node 0 and never offers node 5. */
  lemma SourceOptionsWrongOnWideGrid()
    ensures 0 in SourceOptions(Grid(3, 2), [2]) && 5 !in SourceOptions(Grid(3, 2), [2])
  {
    assert SourceCoord(Grid(3, 2), 2) == Point(0, 1);
    SourceOffersZero();
    SourceHidesFive();
  }

  /** The same start with the row-major decoding: node 0 is hidden behind
      unvisited node 1, and the adjacent node 5 is offered. */
  lemma RowMajorOptionsOnWideGrid()
    ensures 0 !in OptionsFrom(Grid(3, 2), Coord(Grid(3, 2), 2), [2])
    ensures 5 in OptionsFrom(Grid(3, 2), Coord(Grid(3, 2), 2), [2])
  {
    assert Coord(Grid(3, 2), 2) == Point(2, 0);
    RowMajorHidesZero();
    RowMajorOffersFive();
  }

  /** In line-of-sight terms: the node 0 that the program offers from node 2
      breaks the rule, and the node 5 it withholds obeys it. */
  lemma SourceBreaksLineOfSight()
    ensures !NearestOnRay(Grid(3, 2), 2, [2], 0)
    ensures NearestOnRay(Grid(3, 2), 2, [2], 5)
  {
    RowMajorOptionsOnWideGrid();
    VisibleIffNearestOnRay(Grid(3, 2), 2, [2], 0);
    VisibleIffNearestOnRay(Grid(3, 2), 2, [2], 5);
  }

  /** A direction or distance seen from `o`, evaluated one fact at a time. */
  lemma KeyValue(g: Grid, o: Point, id: nat, p: Point, k: Dir)
    requires id < NodeCount(g) && Coord(g, id) == p && Key(p.x - o.x, p.y - o.y) == k
    ensures KeyAt(g, o, id) == k
  {}

  /** An unvisited node of the same direction that `id` does not win against
      keeps `id` out of the options. */
  lemma Blocked(g: Grid, o: Point, visited: seq<nat>, id: nat, m: nat)
    requires id < NodeCount(g) && m < NodeCount(g) && m !in visited
    requires KeyAt(g, o, m) == KeyAt(g, o, id) && !Wins(g, o, id, m)
    ensures !Visible(g, o, visited, id)
  {}

  /** Only the point itself is at distance zero. */
  lemma DistZero(o: Point, p: Point)
    ensures DistSq(o, p) == 0 <==> o == p
  {
    if p.x != o.x { assert (p.x - o.x) * (p.x - o.x) > 0; }
    if p.y != o.y { assert (p.y - o.y) * (p.y - o.y) > 0; }
  }

  /** Along a row, the point fewer columns away is nearer. */
  lemma RowDist(o: Point, p: Point, q: Point)
    requires p.y == o.y && q.y == o.y && Abs(p.x - o.x) < Abs(q.x - o.x)
    ensures DistSq(o, p) < DistSq(o, q)
  {
    SquareMono(Abs(p.x - o.x), Abs(q.x - o.x));
    assert Abs(p.x - o.x) * Abs(p.x - o.x) == (p.x - o.x) * (p.x - o.x);
    assert Abs(q.x - o.x) * Abs(q.x - o.x) == (q.x - o.x) * (q.x - o.x);
  }

  lemma SourceOffersZero()
    ensures Visible(Grid(3, 2), Point(0, 1), [2], 0)
  {
    var g := Grid(3, 2);
    var o := Point(0, 1);
    assert KeyAt(g, o, 0) == Dir(0, -1) by { KeyValue(g, o, 0, Point(0, 0), Dir(0, -1)); }
    assert KeyAt(g, o, 1) == Dir(1, -1) by { KeyValue(g, o, 1, Point(1, 0), Dir(1, -1)); }
    assert KeyAt(g, o, 3) == Dir(1, 0) by { KeyValue(g, o, 3, Point(0, 1), Dir(1, 0)); }
    assert KeyAt(g, o, 4) == Dir(1, 0) by { KeyValue(g, o, 4, Point(1, 1), Dir(1, 0)); }
    assert KeyAt(g, o, 5) == Dir(1, 0) by {
      assert Gcd(2, 0) == 2;
      KeyValue(g, o, 5, Point(2, 1), Dir(1, 0));
    }
    forall m: nat | m < 6 && m !in [2]
      ensures KeyAt(g, o, m) == KeyAt(g, o, 0) ==> Wins(g, o, 0, m)
    {
      assert m == 0 || m == 1 || m == 3 || m == 4 || m == 5;
    }
  }

  lemma SourceHidesFive()
    ensures !Visible(Grid(3, 2), Point(0, 1), [2], 5)
  {
    var g := Grid(3, 2);
    var o := Point(0, 1);
    assert KeyAt(g, o, 5) == Dir(1, 0) by {
      assert Gcd(2, 0) == 2;
      KeyValue(g, o, 5, Point(2, 1), Dir(1, 0));
    }
    OwnPositionBlocks(g, o, [2], 3, 5);
  }

  /** When the position looked from is itself an unvisited node, that node sits
      at distance zero with the key of the zero offset, and hides every other
      node in that direction. */
  lemma OwnPositionBlocks(g: Grid, o: Point, visited: seq<nat>, m: nat, id: nat)
    requires m < NodeCount(g) && id < NodeCount(g) && m !in visited && m != id
    requires Coord(g, m) == o && KeyAt(g, o, id) == Key(0, 0)
    ensures !Visible(g, o, visited, id)
  {
    CoordInjective(g, m, id);
    DistZero(o, Coord(g, m));
    DistZero(o, Coord(g, id));
    Blocked(g, o, visited, id, m);
  }

  lemma RowMajorHidesZero()
    ensures !Visible(Grid(3, 2), Point(2, 0), [2], 0)
  {
    var g := Grid(3, 2);
    assert Coord(g, 0) == Point(0, 0) && Coord(g, 1) == Point(1, 0);
    NearerOnRowBlocks(g, Point(2, 0), [2], 0, 1);
  }

  /** An unvisited node between `o` and `id`, on the row of `o` to its left,
      hides `id`. */
  lemma NearerOnRowBlocks(g: Grid, o: Point, visited: seq<nat>, id: nat, m: nat)
    requires id < NodeCount(g) && m < NodeCount(g) && m !in visited
    requires Coord(g, m).y == o.y && Coord(g, id).y == o.y
    requires Coord(g, id).x < Coord(g, m).x < o.x
    ensures !Visible(g, o, visited, id)
  {
    LeftKey(o.x - Coord(g, m).x);
    LeftKey(o.x - Coord(g, id).x);
    RowDist(o, Coord(g, m), Coord(g, id));
    Blocked(g, o, visited, id, m);
  }

  /** Every offset straight to the left has the key (-1, 0). */
  lemma LeftKey(k: int)
    requires k > 0
    ensures Key(-k, 0) == Dir(-1, 0)
  {
    assert Gcd(Abs(-k), Abs(0)) == k;
    DivModUnique(-k, k, -1, 0);
    DivModUnique(0, k, 0, 0);
  }

  lemma RowMajorOffersFive()
    ensures Visible(Grid(3, 2), Point(2, 0), [2], 5)
  {
    var g := Grid(3, 2);
    var o := Point(2, 0);
    assert KeyAt(g, o, 0) == Dir(-1, 0) by {
      assert Gcd(2, 0) == 2;
      KeyValue(g, o, 0, Point(0, 0), Dir(-1, 0));
    }
    assert KeyAt(g, o, 1) == Dir(-1, 0) by { KeyValue(g, o, 1, Point(1, 0), Dir(-1, 0)); }
    assert KeyAt(g, o, 3) == Dir(-2, 1) by { KeyValue(g, o, 3, Point(0, 1), Dir(-2, 1)); }
    assert KeyAt(g, o, 4) == Dir(-1, 1) by { KeyValue(g, o, 4, Point(1, 1), Dir(-1, 1)); }
    assert KeyAt(g, o, 5) == Dir(0, 1) by { KeyValue(g, o, 5, Point(2, 1), Dir(0, 1)); }
    forall m: nat | m < 6 && m !in [2]
      ensures KeyAt(g, o, m) == KeyAt(g, o, 5) ==> Wins(g, o, 5, m)
    {
      assert m == 0 || m == 1 || m == 3 || m == 4 || m == 5;
    }
  }
}
