/** `Ingredient` and `Pizza` of pizza.py: building a pizza from its grid
    lines, and the greedy `slices` pairing of the scarcer ingredient with
    the other one. */
module Pizza {
  import opened Positions
  import opened Scan
  import opened Matching

  /** An ingredient: how many cells hold it, and where. */
  datatype Ingredient = Ingredient(count: int, positions: seq<Position>)

  /** A pizza: its header values and its two ingredients. It is built once
      and never changed afterwards. */
  datatype Pizza = Pizza(rows: int, columns: int, L: int, H: int, tomatoes: Ingredient, mushrooms: Ingredient)

  /** The data branch of `Pizza.__init__`, from the header values onwards:
      `lines` are the lines after the header, as read from the file. Each
      line, stripped of its newline, adds its 'T' and 'M' counts, and each
      of its characters adds a position (row = line index, column =
      character index) to the tomatoes if it is 'T' and to the mushrooms
      otherwise. */
  method FromLines(rows: int, columns: int, L: int, H: int, lines: seq<string>) returns (pizza: Pizza)
    ensures pizza.rows == rows && pizza.columns == columns && pizza.L == L && pizza.H == H
    ensures pizza.tomatoes == Ingredient(TotalOccurrences(lines, 'T'), GridCells(lines, true))
    ensures pizza.mushrooms == Ingredient(TotalOccurrences(lines, 'M'), GridCells(lines, false))
  {
    var r := 0;
    var t, m := 0, 0;
    var tPos: seq<Position> := [];
    var mPos: seq<Position> := [];
    while r < |lines|
      invariant 0 <= r <= |lines|
      invariant t == TotalOccurrences(lines[..r], 'T') && m == TotalOccurrences(lines[..r], 'M')
      invariant tPos == GridCells(lines[..r], true) && mPos == GridCells(lines[..r], false)
    {
      var line := RStripNewlines(lines[r]);
      assert lines[..r + 1][..r] == lines[..r];
      t := t + Occurrences(line, 'T');
      m := m + Occurrences(line, 'M');
      for i := 0 to |line|
        invariant tPos == GridCells(lines[..r], true) + RowCells(line[..i], r, true)
        invariant mPos == GridCells(lines[..r], false) + RowCells(line[..i], r, false)
      {
        assert line[..i + 1][..i] == line[..i];
        if line[i] == 'T' {
          tPos := tPos + [Position(r, i)];
        } else {
          mPos := mPos + [Position(r, i)];
        }
      }
      assert line[..|line|] == line;
      r := r + 1;
    }
    assert lines[..r] == lines;
    pizza := Pizza(rows, columns, L, H, Ingredient(t, tPos), Ingredient(m, mPos));
  }

  /** Which of the two ingredients. */
  datatype Kind = Tomato | Mushroom

  function Amount(p: Pizza, k: Kind): Ingredient {
    if k == Tomato then p.tomatoes else p.mushrooms
  }

  function Other(k: Kind): Kind {
    if k == Tomato then Mushroom else Tomato
  }

  /** The ingredient `slices` calls `a`: the first of [tomatoes, mushrooms]
      whose count is the minimum of the two counts, so tomatoes on a tie. */
  function Scarcer(p: Pizza): (k: Kind)
    ensures Amount(p, k).count <= Amount(p, Other(k)).count
    ensures k == Mushroom ==> p.tomatoes.count != Amount(p, k).count
  {
    if p.tomatoes.count <= p.mushrooms.count then Tomato else Mushroom
  }

  /** The positions of `a` and `b` in `slices`. */
  function APositions(p: Pizza): seq<Position> { Amount(p, Scarcer(p)).positions }
  function BPositions(p: Pizza): seq<Position> { Amount(p, Other(Scarcer(p))).positions }

  /** `Pizza.slices`: for each position `i` of the scarcer ingredient `a`,
      in order, pair it with the first of `i.neighbours(rows, columns)`
      that is a position of the other ingredient `b` and is not yet in
      `seen`, record that neighbour in `seen`, and go on with the next `i`. */
  method Slices(p: Pizza) returns (result: seq<Pair>)
    ensures result == Match(APositions(p), BPositions(p), NeighboursIn(p.rows, p.columns), [])
  {
    var a, b := APositions(p), BPositions(p);
    ghost var nbrs := NeighboursIn(p.rows, p.columns);
    result := [];
    var seen: seq<Position> := [];
    for k := 0 to |a|
      invariant result + Match(a[k..], b, nbrs, seen) == Match(a, b, nbrs, [])
      invariant seen == Seconds(result)
    {
      var i := a[k];
      MatchAdvance(a, k, b, nbrs, seen, result);
      var ns := Neighbours(i, p.rows, p.columns);
      ghost var choice := FirstFree(ns, b, seen);
      ghost var before, seenBefore := result, seen;
      var n := 0;
      while n < |ns|
        invariant 0 <= n <= |ns|
        invariant FirstFree(ns[n..], b, seen) == choice
        invariant result == before && seen == seenBefore
      {
        var j := ns[n];
        if j in b && j !in seen {
          assert choice == Some(j);
          result := result + [(i, j)];
          seen := seen + [j];
          break;
        }
        assert ns[n..][1..] == ns[n + 1..];
        n := n + 1;
      }
      assert n == |ns| ==> ns[n..] == [];
    }
    assert a[|a|..] == [];
  }

  /** What `slices` promises about its pairs `(i, j)`: `i` is a position
      of `a` and `j` a neighbour of `i` that is a position of `b`; no `j`
      is used twice; the `i`s follow the order of `a.positions`, each
      position giving at most one pair; and a position of `a` left without
      a pair has every neighbour that is a position of `b` already used. */
  lemma SlicesProperties(p: Pizza)
    ensures var ps := Match(APositions(p), BPositions(p), NeighboursIn(p.rows, p.columns), []);
      && (forall pair :: pair in ps ==>
            pair.0 in APositions(p) && pair.1 in BPositions(p) && pair.1 in Neighbours(pair.0, p.rows, p.columns))
      && Distinct(Seconds(ps))
      && IsSubsequence(Firsts(ps), APositions(p))
      && |ps| <= |APositions(p)|
      && forall i :: i in APositions(p) ==>
           i in Firsts(ps) || forall j :: j in Neighbours(i, p.rows, p.columns) && j in BPositions(p) ==> j in Seconds(ps)
  {
    var a, b, nbrs := APositions(p), BPositions(p), NeighboursIn(p.rows, p.columns);
    MatchSound(a, b, nbrs, []);
    MatchTargetsDistinct(a, b, nbrs, []);
    MatchFollowsSources(a, b, nbrs, []);
    MatchMaximal(a, b, nbrs, []);
    assert [] + Seconds(Match(a, b, nbrs, [])) == Seconds(Match(a, b, nbrs, []));
  }

  /** On a pizza read from lines of at most `columns` characters (plus
      newlines), the off-grid left neighbour of `Position.neighbours` never
      matters: `slices` pairs exactly as it would with the corrected left
      guard, whichever ingredient is the scarcer. */
  lemma ScannedSlicesUnaffectedByLeftGuard(rows: int, columns: int, L: int, H: int, lines: seq<string>, p: Pizza)
    requires forall r :: 0 <= r < |lines| ==> |Row(lines, r)| <= columns
    requires p == Pizza(rows, columns, L, H,
                        Ingredient(TotalOccurrences(lines, 'T'), GridCells(lines, true)),
                        Ingredient(TotalOccurrences(lines, 'M'), GridCells(lines, false)))
    ensures Match(APositions(p), BPositions(p), NeighboursIn(rows, columns), []) ==
            Match(APositions(p), BPositions(p), NeighboursInGridIn(rows, columns), [])
  {
    GridCellsSpec(lines, true);
    GridCellsSpec(lines, false);
    LeftGuardIrrelevant(APositions(p), BPositions(p), rows, columns);
  }
}
