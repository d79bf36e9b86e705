# breaklock-solver: a Dafny model of the pattern enumerator and the scorer

The program solves "Breaklock", a Mastermind-like game played on the unlock
grid of a phone. A hidden unlock pattern is a path over a `W × H` grid of
nodes. Each guess is scored with a pair: how many nodes of the guess sit in
the right place, and how many occur in the hidden pattern but elsewhere. The
solver enumerates every legal pattern, then after each scored guess keeps only
the candidates that would have produced the same score.

The model covers the three pure pieces of `main.py`:

- **Enumeration** (`get_all_sols` and its inner `r_sols`). A pattern starts
  on any node. Each step goes to a node "in line of sight" of the previous one:
  for every direction, the nearest node not yet on the path. Nodes already on
  the path are skipped, so they never block a move. Every partial path is
  emitted before its extensions, and the recursion stops at `max_len` nodes.
- **Scoring** (`evaluate`): the count of positions that agree, and the count
  of nodes of the guess found elsewhere in the target.
- **Narrowing** (`narrow_sols`): an order-preserving filter on that score.

Modules, one per concern:

- `Arith`: small non-linear arithmetic facts.
- `Direction`: exact direction keys. An offset's key is the offset divided by
  the gcd of its coordinates' magnitudes. The program keys directions by a
  floating-point `atan2`; for integer offsets, equal keys here mean exactly
  "same ray", which is what equal angles mean.
- `Grid`: node numbering. The scan numbers node `(x, y)` as `y * W + x`.
- `Visibility`: the per-direction table the enumerator builds. It is modelled
  as an insertion-ordered association list. It is proved equal to a reference
  definition (`Visible`) and to a geometric line-of-sight rule (`NearestOnRay`).
  It also holds the program's own decoding of the current node (see Findings).
- `Enumerate`: the recursion, and a proof that it emits exactly the patterns.
- `Feedback`: scoring.
- `Narrow`: filtering, and the guarantee that the hidden pattern survives.

## Model

| member | source | states |
|---|---|---|
| Grid.CoordOfIdOf | main.py:35-37 | decoding the id the row-major scan gives position `(x, y)` returns `(x, y)` |
| Grid.IdOfCoord | main.py:35-37 | numbering the decoded position of a node gives the node back, so ids and positions are in bijection |
| Grid.CoordInjective | main.py:35-37 | two nodes share a position exactly when they are the same node |
| Grid.SourceCoordSquare | main.py:30-31 | on a square grid the program's height-stride decoding of the current node agrees with the scan's numbering |
| Grid.SourceCoordWrongOnWideGrid | main.py:30-31 | on a 3-wide, 2-tall grid the program decodes node 2 to (0, 1), the position of node 3, though node 2 is at (2, 0) |
| Direction.KeyIffSameRay | main.py:41 | two non-zero offsets get the same direction key exactly when one is a positive multiple of the other |
| Direction.SameKeySameLength | main.py:40-41 | two offsets with the same key and the same squared distance are the same offset |
| Direction.KeyScale | main.py:41 | a non-zero offset is a positive multiple of its key, and the key's coordinates are coprime |
| Grid.IdOf | main.py:33-37 | the scan's number for an in-grid position is a node id below `W * H`; `CoordOfIdOf` and `IdOfCoord` show it is a bijection |
| Grid.SourceCoord | main.py:30-31 | the program's decoding yields a column below `H` and a row with `row * H + column == id`, i.e. it uses the height as row stride |
| Direction.Key | main.py:41 | a direction key is never the zero vector; `KeyIffSameRay` and `KeyScale` say which offsets share it |
| Visibility.Place | main.py:46 | one table update keeps the old keys and adds the new node's key, and grows the table by at most one entry; `PlaceKeepsInvariant` states which entry wins |
| Visibility.Table | main.py:35-46 | after scanning `n` nodes the table has at most `n` entries; `TableInvariant` states its full contents |
| Visibility.TableInvariant | main.py:35-46 | after scanning nodes `0..n-1`, the table holds one entry per direction seen, each a scanned unvisited node with its own key and distance, and each entry is no farther than any scanned unvisited node of its direction (on a tie, the earlier one) |
| Visibility.OptionsFrom | main.py:32-46 | the table's values are exactly the visible nodes, all in the grid and unvisited, no two in the same direction |
| Visibility.OneOptionPerDirection | main.py:38-46 | every direction that holds an unvisited node yields exactly one option, and that option is no farther than any unvisited node of the direction |
| Visibility.ScanOptions | main.py:32-46 | the nested loop over rows and columns returns the same options as the reference table, so the options are exactly the visible nodes |
| Visibility.ScanRow | main.py:36-46 | scanning one row extends the table by exactly that row's nodes, numbered from `y * W` |
| Visibility.KeyAndDistanceDetermineNode | main.py:40-41 | seen from another node, two nodes have the same key exactly when they lie on one ray, and key plus distance identify the node |
| Visibility.VisibleIffNearestOnRay | main.py:38-46 | from a node on the path, a node is offered exactly when it is unvisited and every other unvisited node on its ray is strictly farther |
| Visibility.SourceOptions | main.py:30-46 | with the program's own decoding, the options are the visible nodes as seen from the height-stride position of the current node |
| Visibility.SourceOptionsWrongOnWideGrid | main.py:30-46 | on the 3×2 grid, from path `[2]`, the program offers node 0 and never offers node 5 |
| Visibility.RowMajorOptionsOnWideGrid | main.py:35-46 | with the scan's numbering, from path `[2]` node 0 is not offered (node 1 hides it) and node 5 is |
| Visibility.SourceBreaksLineOfSight | main.py:30-46 | the node 0 the program offers from node 2 breaks the line-of-sight rule, and the node 5 it withholds obeys it |
| Enumerate.Options | main.py:32-46 | the options from the last node of a path are exactly the nodes nearest on their ray among the unvisited nodes; none is on the path |
| Enumerate.OptionsAreSourceOptionsOnSquare | main.py:30-46 | on a square grid the options from the row-major decoding are exactly the options the program computes from its own decoding |
| Enumerate.Sols | main.py:55-61 | the recursion from a partial path emits at least one path, and the first is the partial path itself |
| Enumerate.SolsIff | main.py:55-61 | the recursion from `p` emits exactly the continuations of `p` by line-of-sight steps that do not pass `max_len` |
| Enumerate.Extend | main.py:59-60 | the loop over the options emits at least one path per option; `ExtendIff` states exactly which |
| Enumerate.ExtendIff | main.py:59-60 | the loop over the options emits exactly the continuations whose next node is one of the options |
| Enumerate.FromStarts | main.py:63-64 | the loop over the starts `0..n-1` emits at least `n` paths; `FromStartsIff` and `FromStartsNoRepeats` state exactly which, each once |
| Enumerate.FromStartsIff | main.py:63-64 | the starts `0..n-1` together emit exactly the patterns that begin below `n` |
| Enumerate.AllSols | main.py:21-65 | the enumeration emits at least one path per node; `AllSolsIff` and `EachPatternOnce` state that it emits every pattern exactly once and nothing else |
| Enumerate.AllSolsIff | main.py:21-65 | the enumeration emits a path exactly when it is a pattern: non-empty, in the grid, every step to the nearest unvisited node of its ray, at most `max_len` nodes when `max_len >= 1` |
| Enumerate.EachPatternOnce | main.py:21-65 | the output has no repeated path, and every pattern occurs in it exactly once (every other path not at all) |
| Enumerate.SolsNoRepeats | main.py:55-61 | the recursion from a partial path never emits the same path twice |
| Enumerate.ExtendNoRepeats | main.py:59-60 | over a repeat-free list of options, the recursive calls emit disjoint, repeat-free blocks |
| Enumerate.FromStartsNoRepeats | main.py:63-64 | the blocks emitted from different starts are disjoint, so the starts `0..n-1` emit no path twice |
| Enumerate.OptionsDistinct | main.py:46 | the options from a node never list the same node twice |
| Enumerate.EmittedWellFormed | main.py:35-60 | every emitted path has between 1 and `max_len` nodes, distinct node ids below `W * H`, at most `W * H` nodes, and no unvisited node strictly nearer on any step's ray |
| Enumerate.PrefixClosed | main.py:55-60 | every non-empty prefix of an emitted path is emitted |
| Enumerate.StartsEmitted | main.py:63-64 | every single node is emitted as a one-node path |
| Enumerate.MaxLenOne | main.py:55-64 | with `max_len = 1` the output is exactly `[[0], [1], ..., [W*H-1]]`, in that order |
| Enumerate.OneStep | main.py:55-60 | `p + [o]` is emitted exactly when `p` is emitted, `p` is below the cap, and `o` is nearest on its ray from the last node of `p` |
| Enumerate.ChildrenAreOptions | main.py:59-60 | from an emitted path below the cap, the emitted one-step extensions are exactly those by an option |
| Enumerate.OptionPerDirection | main.py:38-46 | for every unvisited node `m`, exactly one option lies on the ray through `m`, and it is no farther than `m` |
| Feedback.Evaluate | main.py:68-78 | both counts lie in `0..len`, their sum is at most `len`, the first counts the guess's nodes found in the target but not in place, and all positions agree exactly when the paths are equal |
| Feedback.Whites | main.py:70-72 | the agreement count over the first `n` positions is at most `n`; `EvaluateLoops` ties it to the program's loop |
| Feedback.Blacks | main.py:73-76 | no contract of its own: `BlacksSplit` and `BlacksAreShared` state that it counts the guess's nodes found anywhere in the target, and `EvaluateLoops` ties it to the program's loop |
| Feedback.EvaluateLoops | main.py:70-78 | the program's two counting loops compute the same score as the recursive counts |
| Feedback.BlacksSplit | main.py:70-78 | the membership count is the agreement count plus the misplaced count, so `blacks - whites` never goes negative |
| Feedback.EvaluateSelf | main.py:68-78 | a path scored against itself gets `(0, len)` |
| Feedback.EvaluateSymmetric | main.py:68-78 | for paths without repeated nodes, swapping guess and target does not change the score |
| Feedback.RepeatsBreakSymmetry | main.py:68-78 | with a repeated node the score is not symmetric: `[0, 0]` against `[0, 1]` gives `(1, 1)`, the reverse gives `(0, 1)` |
| Feedback.ReversedExample | main.py:68-78 | `[0, 1, 2]` against `[2, 1, 0]` scores `(2, 1)` |
| Narrow.Narrow | main.py:81-83 | the result is no longer than the input, and a path is kept exactly when it is a candidate whose score against the guess is the observed score |
| Narrow.NarrowAppend | main.py:81-83 | filtering distributes over concatenation, so the kept candidates keep their relative order |
| Narrow.NarrowCounts | main.py:81-83 | each candidate is kept as many times as it occurs when its score matches, and dropped otherwise |
| Narrow.NarrowIdempotent | main.py:81-83 | filtering twice with the same guess and score gives the same result as filtering once |
| Narrow.NarrowCommutes | main.py:81-83 | two filtering rounds give the same result in either order |
| Narrow.SolutionSurvives | main.py:171-172 | the hidden pattern is kept when the game scores the guess against it and then filters by scoring the candidates against the guess, provided neither path repeats a node |
| Narrow.PatternSolutionSurvives | main.py:167-172 | a guess that is a legal pattern never filters out a hidden pattern that is also legal |
| Narrow.Play | main.py:135-172 | after any series of guesses the candidates left are a subset of the candidates, all of the hidden pattern's length |
| Narrow.PlayKeepsSolution | main.py:135-172 | after any series of repeat-free guesses the hidden pattern is still a candidate, and every remaining candidate matches every score seen |

## Left out

- Rendering (`draw_sol`) and the interactive `main`: console input, random choice of guesses and hidden pattern, timing, redirected output, plotting, the walkthrough and cheat modes. These are I/O, randomness and clocks. `Narrow.Play` takes the guesses and the hidden pattern as parameters instead.
- The length buckets `1..9` of `main`: they are a grouping of the enumerator's output by length for a 3×3 grid, not part of the enumeration.
- The floating-point `atan2` key: it is replaced by the exact gcd-reduced direction. For the zero offset, which only arises with the program's own decoding, the key of `(1, 0)` is used, as `atan2(0, 0) == atan2(0, k)` for `k > 0`.
- Integer widths: Python integers are unbounded, so there is nothing to wrap. Grid sizes are naturals; negative sizes are not modelled.
- A `max_len` below 1 is never reached by the stop test, so it sets no cap; the model keeps this behaviour.
- The enumeration's output order is modelled (the table is insertion-ordered and the starts run in id order), but beyond `MaxLenOne` the contracts speak of membership, not order.
- Enumerate.Options: the enumeration (`Options`, `Sols`, `Extend`, `FromStarts`, `AllSols` and the lemmas about them) decodes the current node with the width as row stride, which is the corrected program of the Findings row. It computes what main.py computes only when `W == H` (`OptionsAreSourceOptionsOnSquare`); on other grids the program as written offers different nodes (`SourceOptionsWrongOnWideGrid`), and its whole enumeration is not modelled.
- Feedback.Evaluate: it states the exact count only for the misplaced part. `EvaluateLoops` pins the whole score to the program's loops.
- Scores are compared only when lengths match: `evaluate` fails on unequal lengths, so `Evaluate` and `Narrow` require equal lengths.

## Findings

| source | as written | input that shows it | evidently intended | confidence | as-written member | corrected member |
|---|---|---|---|---|---|---|
| main.py:30-31 | the current node is decoded with the grid height as row stride, while the scan at main.py:35-37 numbers nodes with the width as stride | a 3-wide, 2-tall grid and path `[2]`: node 2 sits at (2, 0) but is decoded to (0, 1), so node 0 is offered although unvisited node 1 lies between them, and the adjacent node 5 is never offered | decode with the width: row `id // W`, column `id % W` | high on non-square grids; the default 3×3 grid is unaffected; not executed | Visibility.SourceOptionsWrongOnWideGrid | Visibility.RowMajorOptionsOnWideGrid |
