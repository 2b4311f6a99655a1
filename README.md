# nyctelios hexagonal automaton, modelled in Dafny

nyctelios runs a "Generations"-style cellular automaton on a hexagonal disc
of radius R: every cell is `Off` or `On(age)`, where the age (vitality) runs
from 1 to `states - 1`. The disc wraps around: a neighbour that falls just
outside the disc, on the ring of radius R+1, is replaced by a cell on the
opposite edge. The replacement is read from the table `edge_lookup`. To build
it, each ring coordinate is moved by the first of six "mirror" centres whose
disc of radius R contains it.

One step is synchronous. For every cell it:

- resolves the six neighbours through the table;
- counts the live ones;
- applies the rule:
  - a live cell whose count is in `survival` gains vitality, capped at `states - 1`;
  - any other live cell loses one, and turns off at zero;
  - an off cell whose count is in `birth` comes on with vitality 1.

The new states go into a fresh map. Cells that were off and stay off are not
inserted. The fresh map is then merged over the old one.

The project has two files:

- `hexgrid.dfy` (module `HexGrid`) defines the coordinates the program takes from
  the `hexgrid` crate:
  - axial `(q, r)` with `s = -q - r`;
  - difference, hex distance and the six neighbours;
  - the ring at a given distance.

  It also proves the facts about them that the automaton needs.
- `hex.dfy` (module `Hex`) models `src/hex.rs`:
  - the `Type` and `Rule` data (src/hex.rs:140-143 and src/hex.rs:16-20), as the
    datatypes `Hex.Type` and `Hex.Rule`, with `u8` as a newtype of `0..255`;
  - the disc fill;
  - the mirror centres and the wraparound table;
  - the per-cell neighbour fold and transition;
  - the class `World`. Its constructor runs the two construction loops, and its
    `Iterate` method runs the step loop and the merge.

Three results carry the model:

- The disc has `3R²+3R+1` cells, and each is seeded by its own draw: distinct
  cells have distinct positions in the visiting order.
- The mirror discs are pairwise disjoint and cover the ring of radius R+1.
  Hence every ring coordinate gets exactly one table entry, which lands on the
  disc boundary, and the order of the mirrors does not matter. The wrapped
  adjacency is symmetric: stepping from a cell in one direction and then back
  in the opposite direction returns to the cell, across the wrap too.
- `Iterate` computes every new state from the snapshot taken before the step,
  whatever order the cells are visited in. It also keeps every cell's neighbour
  lookups inside the disc and every vitality in range.

On a radius-1 disc, the three outward neighbours of a ring cell wrap onto the
three ring cells that are not adjacent to it. A ring cell therefore sees all
five other ring cells, not only its two ring neighbours: with the whole ring
live it counts 5. The model follows the code here. The wrap targets follow from
`Hex.EdgeTableShape`; this instance is not stated as a separate lemma.

## Model

| member | source | states |
|---|---|---|
| Hex.DiscIndexInjective | src/hex.rs:44-56 | Two disc cells visited at the same position of the fill order are the same cell, so no two cells share a draw |
| Hex.DiscIndexBound | src/hex.rs:44-56 | Every disc cell's position in the fill order is below `3R²+3R+1`, the number of draws |
| Hex.FilledMono | src/hex.rs:44-47 | The number of cells filled before row q never decreases as q grows |
| Hex.Seed | src/hex.rs:49-53 | A drawn cell is `Off` or `On(states - 1)`, and it is live exactly when its coin is true |
| Hex.FillDisc | src/hex.rs:44-56 | The filled map's keys are exactly the coordinates with `\|q\|, \|r\|, \|q+r\| <= R`. It has `3R²+3R+1` entries. The k-th cell visited (rows by q, then by r) holds `Seed` of the k-th coin |
| Hex.FillRow | src/hex.rs:45-55 | Filling row q, from `max(-R, -q-R)` to `min(R, -q+R)`, extends the filled prefix of the visiting order by that row, one coin per cell |
| Hex.FillCell | src/hex.rs:48-54 | Inserting cell (q, r) adds a new key (the map grows by one) and extends the visited prefix by exactly that cell, with its own coin |
| Hex.FillDone | src/hex.rs:44-56 | After the last row, the filled prefix is the whole disc, of `3R²+3R+1` cells |
| Hex.DiscSize | src/hex.rs:44-47 | The row lengths of the fill loop add up to `3R²+3R+1` |
| Hex.FilledLowerHalf | src/hex.rs:44-47 | The rows `q <= 0` hold the trapezoid count `(q+R)(3R+1+q)/2` |
| Hex.FilledUpperHalf | src/hex.rs:44-47 | The rows before `q >= 1` hold `((R+1)(3R+2) + (q-1)(4R+2-q))/2` cells |
| HexGrid.InDiscLength | src/hex.rs:44-47 | The fill loop's bounds on q, r and q+r describe exactly the coordinates at hex distance at most R |
| Hex.RowBounds | src/hex.rs:44-47 | A coordinate is in the disc exactly when its q is in `[-R, R]` and its r lies between the row bounds the loop computes |
| Hex.Mirrors | src/hex.rs:35-42 | There are six mirror centres. Their geometry is stated by the next three rows |
| Hex.MirrorOpposite | src/hex.rs:35-42 | Mirror centres i and i+3 (mod 6) are negatives of each other |
| Hex.MirrorLength | src/hex.rs:35-42 | Every mirror centre is at hex distance 2R+1 from the origin |
| Hex.MirrorsApart | src/hex.rs:35-42 | Any two of the six mirror centres are at hex distance at least 2R+1 |
| Hex.MirrorUnique | src/hex.rs:35-42 | No coordinate is within distance R of two different mirror centres |
| Hex.FirstMirror | src/hex.rs:61-65 | The search returns the first mirror index within distance R of the coordinate, with every earlier index farther than R, or `None` when no mirror qualifies |
| Hex.FarFromMirror | src/hex.rs:35-47 | Every cell of the disc is at distance at least R+1 from every mirror centre |
| Hex.RingSideMirror | src/hex.rs:60-62 | Every coordinate at distance R+1 lies at distance exactly R from some mirror centre |
| Hex.RingHasMirror | src/hex.rs:60-65 | Every coordinate at distance R+1 has a mirror within R, and subtracting the first such mirror lands at distance exactly R |
| Hex.EdgeEntry | src/hex.rs:58-67 | Every ring-(R+1) coordinate is a key of the table. Its value is at distance R, and key minus value is one of the mirrors |
| Hex.EdgeKeys | src/hex.rs:60-63 | Only coordinates at distance R+1 are keys of the table |
| Hex.EdgeTableShape | src/hex.rs:58-67 | The keys are exactly the ring of radius R+1. Any mirror whose disc holds a key gives that key's value, so the order the mirrors are tried in is irrelevant |
| Hex.EdgeBy | src/hex.rs:60-64 | A ring coordinate within R of mirror i gets the entry "coordinate minus mirror i", whichever mirror the search tries first |
| Hex.WrapBack | src/hex.rs:58-67 | A disc cell moved by mirror i onto the ring of radius R+1 is sent straight back to that cell by the table |
| Hex.BuildEdgeLookup | src/hex.rs:58-67 | The nested loop with its early `break`, run over the ring in any order, builds exactly the wraparound table |
| HexGrid.Ring | src/hex.rs:60 | The ring of radius k is exactly the set of coordinates at hex distance k |
| HexGrid.Neighbours | src/hex.rs:85 | There are six neighbours, and directions k and k+3 are opposite offsets from the cell |
| HexGrid.NeighboursOpposite | src/hex.rs:85 | Stepping in direction k and then in direction k+3 (mod 6) returns to the cell |
| HexGrid.NeighboursShift | src/hex.rs:85 | Translating a cell translates each of its neighbours by the same offset |
| HexGrid.NeighboursAreAdjacent | src/hex.rs:85 | The six neighbours are pairwise distinct and are exactly the coordinates at distance 1 |
| HexGrid.NeighbourLength | src/hex.rs:85 | A neighbour is at most one step farther from the origin than its cell |
| HexGrid.DistHalfSum | src/hex.rs:62 | Hex distance is half the sum of the absolute differences of q, r and s |
| HexGrid.LengthHalfSum | src/hex.rs:62 | The largest absolute cube component of a coordinate is half the sum of all three |
| HexGrid.DistSymmetric | src/hex.rs:62 | Hex distance is symmetric |
| HexGrid.DistTriangle | src/hex.rs:62 | Hex distance obeys the triangle inequality |
| Hex.ResolvedNeighbourInDisc | src/hex.rs:85-95 | Each resolved neighbour of a disc cell lies in the disc. It is either the raw neighbour or the raw neighbour moved by one mirror offset |
| Hex.ResolvedNeighbours | src/hex.rs:86-95 | Every cell has six resolved neighbours, one per direction |
| Hex.WrapSymmetric | src/hex.rs:86-95 | From a disc cell, the resolved neighbour in direction k has the cell itself as its resolved neighbour in direction k+3 (mod 6), whether or not the step wrapped |
| Hex.DiscClosed | src/hex.rs:97-100 | For the disc and its table, every resolved neighbour of every cell is a key of the map, so the `unwrap` lookups of the step cannot fail |
| Hex.CountOn | src/hex.rs:97-103 | The fold's count is at most the number of neighbours folded |
| Hex.CountOnIsLivePositions | src/hex.rs:97-103 | The fold counts exactly the positions whose cell is `On(_)`, whatever its vitality |
| Hex.AliveCount | src/hex.rs:97-103 | The live-neighbour count fits in `u8` and lies in `0..6` |
| Hex.AliveCountIsLiveNeighbours | src/hex.rs:86-103 | The live-neighbour count is the number of directions whose resolved neighbour is live |
| Hex.AliveCountOrderFree | src/hex.rs:84-103 | The live count is the number of coordinates at hex distance 1 whose resolved cell is live, a set that no order of the directions enters |
| Hex.Next | src/hex.rs:105-133 | A surviving live cell becomes `On(min(age+1, states-1))`. A non-surviving live cell becomes `On(age-1)`, or `Off` at age 1. An off cell comes on exactly when the count is in `birth`, at vitality 1. Vitalities in `[1, states-1]` stay there |
| Hex.Step | src/hex.rs:84-134 | The step has a state for exactly the cells of the snapshot |
| Hex.StepKeepsAges | src/hex.rs:105-133 | After a step, every live cell's vitality is still in `[1, states-1]` |
| Hex.StepRecorded | src/hex.rs:105-131 | Handling one more cell extends the fresh map correctly: its new state is inserted unless the cell was off and stays off, and a left-out cell keeps its state in the step |
| Hex.MergeIsStep | src/hex.rs:127-136 | Merging the fresh map over the snapshot yields the full step. A cell that stays off, and so was never inserted, keeps its old value |
| Hex.World.constructor | src/hex.rs:23-79 | The world is valid: its keys are the disc, the table is the wraparound table, lookups are closed and vitalities are in range. It has `3R²+3R+1` cells, each seeded from its own draw |
| Hex.World.Default | src/hex.rs:23-32 | The built-in world (radius 20, survival {2, 1}, birth {2}, 3 states) has 1261 cells, each `Off` or `On(2)` |
| Hex.World.Iterate | src/hex.rs:81-137 | The new cells are the step of the old cells, computed from the pre-step snapshot. The key set and the table are unchanged, and validity, including the vitality bounds, is preserved |

## Left out

- `src/main.rs` (the Bevy app, window, camera, mesh triangulation and colour mapping) is rendering and floating point, so it is not modelled.
- The `size` and `spacing` fields of `World` are rendering geometry, so they are not modelled either.
- The random number generator is not modelled. `SmallRng::from_entropy` and `gen_bool(0.5)` become an injected sequence of coins, and no distribution is claimed.
- The `hexgrid` crate is re-defined rather than modelled:
  - Its `Coordinate` is re-defined as two unbounded integers.
  - The order of its `neighbors()` and `ring_iter` is not modelled. The live count does not depend on the neighbour order (`Hex.AliveCountOrderFree`), and the table is proved the same for every ring order (`Hex.BuildEdgeLookup`).
- `HashMap` iteration order is not modelled. `Iterate` picks the cells in an arbitrary order, and its contract holds for every order.
- `i32` overflow of the radius and of coordinate arithmetic is not modelled. Radius and coordinates are unbounded integers. The program hard-codes radius 20, far from any overflow.
- Hex.World.constructor requires `radius >= 1` and `states >= 2`, because the program validates nothing. With `states` 0 or 1, the source's `states - 1` and `s - 1` on `u8` would underflow.
- Hex.Next requires a live cell to have vitality at least 1. The source's `s - 1` on `u8` would underflow at 0, and a valid world never holds such a cell.
- Hex.Next states the survival case only for vitalities in `[1, states-1]`, the range a valid world keeps. For a larger vitality the source keeps the value, and so does the model's body.
