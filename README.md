# pizza.py in Dafny

A model of `pizza.py`, a Hash Code 2017 practice file
("pizza": cut a grid of tomato `T` and mushroom `M` cells into slices). The
file holds four small pieces, each modelled here with its properties proved:

- `gcd` (module `Euclid`, `euclid.dfy`): Euclid's algorithm as plain
  recursion over Python's floored `%`. The model works on all integers,
  proves termination (the remainder is strictly smaller than the divisor in
  absolute value), that the result divides both arguments, that every common
  divisor divides it, and that on natural numbers it is a natural number with
  `gcd(a, 0) == a`.
- `Position` (module `Positions`, `positions.dfy`): a cell with structural
  equality on (row, column), and `neighbours(R, C)`, which appends the down,
  up, right and left cells when their guards hold, in that order. The left
  guard is `column - 1 < C`, so a cell of column 0 gets a neighbour at column
  -1; the model keeps that guard (see "Findings").
- The grid scan of `Pizza.__init__` (modules `Scan`, `scan.dfy`, and
  `Pizza`, `pizza.dfy`): each line after the header is stripped of its
  newlines, adds its `T` and `M` counts, and adds one position per character
  — to the tomatoes for `T`, to the mushrooms for any other character — in
  row-major order. `Pizza.FromLines` is the loop itself; `Scan` holds the
  functions that say what it computes and the lemmas about them.
- `Pizza.slices` (modules `Matching`, `matching.dfy`, and `Pizza`): the
  scarcer ingredient `a` (tomatoes on a tie) is paired greedily: each of its
  positions, in order, takes the first of its neighbours that is a position
  of the other ingredient `b` and not yet used. `Matching.Match` is the rule
  as a function; `Pizza.Slices` is the nested loop with its `break`, proved
  to compute it; `Pizza.SlicesProperties` and the lemmas of `Matching` state
  what the rule guarantees: the pairs join adjacent cells, use each `b`
  position at most once, follow the order of `a`'s positions, and cannot be
  extended by one more pair.

`Ingredient` and `Pizza` are datatypes: the source sets their attributes in
the constructor and never changes them afterwards.

The code counts only `M` characters for the mushroom count but files every
non-`T` character as a mushroom position; the two agree exactly when every
line holds only `T` and `M` (`Scan.MushroomCountAgrees`).

## Model

| member | source | states |
|---|---|---|
| `Euclid.FloorMod` | pizza.py:9 | Python's `a % b`: the remainder lies between 0 and `b` (0 included) and `a` minus it is a multiple of `b` |
| `Euclid.Gcd` | pizza.py:5-10 | the recursion terminates (on the absolute value of `b`) and the result divides both `a` and `b` |
| `Euclid.GcdIsGreatest` | pizza.py:5-10 | every common divisor of `a` and `b` divides `gcd(a, b)` |
| `Euclid.GcdOfNaturals` | pizza.py:5-10 | for natural numbers the result is natural, `gcd(a, 0) == a`, and it is 0 only when both arguments are 0 |
| `Positions.PositionEquality` | pizza.py:33-34 | `Positions.Position`, the `Position` class as a datatype: two positions are equal exactly when their rows and their columns are equal |
| `Positions.NeighboursSpec` | pizza.py:18-28 | `Positions.Neighbours` is `neighbours(R, C)` as written; its facts: at most four neighbours, each one step away in one coordinate, in the order down, up, right, left; down present iff `row+1 < R`, up iff `row-1 >= 0`, right iff `column+1 < C`, left iff `column-1 < C` |
| `Positions.NeighboursOfGridCell` | pizza.py:20-27 | for a cell inside the grid every neighbour has a row inside the grid and a column below C; the only neighbour outside the grid is the left one of a column-0 cell, at column -1, and it is always there |
| `Positions.LeftEdgeNeighbourOffGrid` | pizza.py:26-27 | the single cell of a 1 x 1 grid has exactly one neighbour, `(0, -1)`, which lies outside the grid |
| `Positions.NeighboursInGridSpec` | pizza.py:18-28 | with the left guard `column-1 >= 0` (`Positions.NeighboursInGrid`): for a grid cell, the list holds exactly the adjacent cells that lie in the grid, in the order down, up, right, left |
| `Positions.NeighboursDifferOnlyAtLeftEdge` | pizza.py:24-27 | for a column of at most C, the as-written and corrected lists agree from column 1 on, and otherwise differ only by the trailing left cell |
| `Positions.NeighboursBeyondRightEdge` | pizza.py:26-27 | for a cell of column greater than C and at least 1 the as-written list has no left neighbour, while the corrected list has it |
| `Scan.RStripNewlines` | pizza.py:61 | `rstrip('\n')` keeps a prefix of the line that does not end in a newline, and everything it drops is a newline |
| `Scan.Occurrences` | pizza.py:62-63 | `count(c)` is at most the line's length and is 0 exactly when `c` does not occur |
| `Scan.RowCellsSpec` | pizza.py:64-68 | `Scan.RowCells` is the inner loop's positions for one line; its facts: a row lists position `(r, i)` exactly when character `i` is filed under that ingredient, left to right; tomato positions number the `T`s, mushroom positions the `M`s plus the other characters |
| `Scan.GridCellsSpec` | pizza.py:60-69 | `Scan.GridCells` is the positions the whole loop collects; its facts: a position is listed exactly when its row is a line index, its column indexes that (stripped) line and its character is filed under the ingredient; the list is strictly increasing in row-major order |
| `Scan.GridCellsCount` | pizza.py:60-71 | the tomato count equals the number of tomato positions, the two position lists together hold one position per character, and the mushroom positions are at least the mushroom count |
| `Scan.GridCellsNonEmpty` | pizza.py:64-69 | an ingredient's position list is non-empty exactly when some character of the grid is filed under it, so the `Ingredient` docstring's "at least one position" (pizza.py:38) holds exactly for such grids |
| `Scan.NoTomatoesInAllMushroomGrid` | pizza.py:64-69 | the one-line grid `M` gives no tomato position and the single mushroom position `(0, 0)` |
| `Scan.PartitionOfRow` | pizza.py:62-68 | every character of a line is a `T`, an `M` or another character, so the three counts add up to its length |
| `Scan.MushroomCountAgrees` | pizza.py:62-71 | the mushroom count equals the number of mushroom positions exactly when every line holds only `T` and `M` |
| `Pizza.FromLines` | pizza.py:55-71 | the header values are kept, and tomatoes and mushrooms are the total `T` and `M` counts with the row-major tomato and non-tomato positions |
| `Pizza.Scarcer` | pizza.py:84-91 | `a` has the smaller count, and it is the mushrooms only when the tomato count is not the minimum (tomatoes win ties) |
| `Pizza.Slices` | pizza.py:83-101 | the result is exactly the pairs of the greedy rule (`Matching.Match`) run over the positions of `a` and `b` with `neighbours(rows, columns)` and nothing seen at the start |
| `Pizza.SlicesProperties` | pizza.py:95-101 | each pair joins a position of `a` to a neighbour that is a position of `b`; no `b` position is used twice; the sources follow `a`'s order, so there are at most `len(a.positions)` pairs; an unpaired `a` position has all its `b` neighbours used |
| `Pizza.ScannedSlicesUnaffectedByLeftGuard` | pizza.py:95-97 | on a pizza read from lines of at most `columns` characters, the pairs are the same with the as-written and the corrected left guard |
| `Matching.FirstFree` | pizza.py:96-100 | the chosen neighbour is a `b` position not yet seen and every earlier neighbour is not; none is chosen only when every neighbour in `b` is already seen |
| `Matching.MatchSound` | pizza.py:95-101 | `Matching.Match` is the pairing rule as a function; its facts: every pair `(i, j)` has `i` in `a`'s positions, `j` in `b`'s positions, `j` among `i`'s neighbours and `j` not in the `seen` given at the start |
| `Matching.MatchTargetsDistinct` | pizza.py:97-99 | no `j` occurs in two pairs |
| `Matching.MatchFollowsSources` | pizza.py:95-100 | the pairs' sources are a subsequence of `a`'s positions, so there are at most as many pairs as positions |
| `Matching.MatchMaximal` | pizza.py:95-100 | a source that got no pair has every neighbour that is a `b` position already used |
| `Matching.LeftGuardIrrelevant` | pizza.py:96-97 | when every `b` position has a non-negative column and every `a` position a column of at most C, both left guards give the same pairs |

## Left out

- Opening and reading the file and parsing the header line (pizza.py:50-54) are I/O: `rows`, `columns`, `L`, `H` and the lines after the header are parameters of `Pizza.FromLines`.
- The constructor branch without `data` (pizza.py:72-75) sets arbitrary attributes by reflection; it has no behaviour to state.
- The `__repr__` methods (pizza.py:30-31, 43-44, 77-81) and the `print` in `slices` (pizza.py:92) only format text for the console.
- The identity test `a == self.tomatoes` (pizza.py:88) is modelled as which of the two ingredients was chosen (`Pizza.Kind`).
- Positions are Python objects; the model treats them as values, which is observably the same because no position is ever changed after it is created.
- `gcd` on non-integer arguments (Python would also accept floats) is not modelled; the model is over unbounded integers.
- pizza.py has no code that cuts rectangular slices; `slices` only pairs adjacent cells, and the model adds nothing beyond it.
- The docstring of `Ingredient` (pizza.py:38) promises at least one position, but the scan gives an ingredient that no character is filed under an empty position list (`Scan.NoTomatoesInAllMushroomGrid`); the model, like the code, allows that, and `Scan.GridCellsNonEmpty` states exactly when the promise holds.

## Findings

| source | as written | input that shows it | evidently intended | confidence | as-written member | corrected member |
|---|---|---|---|---|---|---|
| pizza.py:26 | the left neighbour is kept when `column-1 < C` | `Position(0, 0).neighbours(1, 1)` gives `[Position(0, -1)]`, a cell outside the grid | `column-1 >= 0`, the lower-bound test the up guard (pizza.py:22) makes for rows | not executed; high | `Positions.LeftEdgeNeighbourOffGrid` | `Positions.NeighboursInGridSpec` |

`Pizza.Slices` keeps the as-written neighbour list. On a pizza read from
lines of at most `columns` characters the difference never reaches its
result: `Matching.LeftGuardIrrelevant` and
`Pizza.ScannedSlicesUnaffectedByLeftGuard` prove that it then pairs exactly
as it would with the corrected `Positions.NeighboursInGrid`, because no
ingredient position has a negative column and none lies beyond column
`columns`. On longer lines the two differ the other way: for a cell beyond
column `columns` the as-written guard drops the left neighbour that the
corrected guard keeps (`Positions.NeighboursBeyondRightEdge`).
