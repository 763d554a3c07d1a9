/** The greedy pairing rule of `Pizza.slices` (pizza.py), as functions: each
    source position, in order, is paired with its first neighbour that is a
    target position not yet used. The neighbour function is a parameter so
    that the rule can be compared under two neighbour definitions. */
module Matching {
  import opened Positions

  datatype Option<T> = None | Some(value: T)

  type Pair = (Position, Position)

  /** `q` is a target that has not been used yet. */
  predicate Free(q: Position, targets: seq<Position>, seen: seq<Position>) {
    q in targets && q !in seen
  }

  /** The first of `candidates` that is in `targets` and not in `seen`. */
  function FirstFree(candidates: seq<Position>, targets: seq<Position>, seen: seq<Position>): (o: Option<Position>)
    ensures o.Some? ==>
      exists k :: 0 <= k < |candidates| && candidates[k] == o.value && Free(o.value, targets, seen) &&
        forall x :: 0 <= x < k ==> !Free(candidates[x], targets, seen)
    ensures o.None? ==> forall q :: q in candidates ==> !Free(q, targets, seen)
  {
    if candidates == [] then None
    else if Free(candidates[0], targets, seen) then
      Some(candidates[0])
    else
      var o := FirstFree(candidates[1..], targets, seen);
      if o.Some? then
        var k :| 0 <= k < |candidates[1..]| && candidates[1..][k] == o.value &&
          Free(o.value, targets, seen) && (forall x :: 0 <= x < k ==> !Free(candidates[1..][x], targets, seen));
        assert candidates[k + 1] == o.value;
        assert forall x :: 0 <= x < k + 1 ==> !Free(candidates[x], targets, seen) by {
          forall x | 0 <= x < k + 1 ensures !Free(candidates[x], targets, seen) {
            if x > 0 { assert candidates[x] == candidates[1..][x - 1]; }
          }
        }
        o
      else
        assert forall q :: q in candidates ==> q == candidates[0] || q in candidates[1..];
        o
  }

  /** The pairs the rule produces for `sources`, starting with the targets
      in `seen` already used. */
  function Match(sources: seq<Position>, targets: seq<Position>, nbrs: Position -> seq<Position>,
                 seen: seq<Position>): seq<Pair>
  {
    if sources == [] then []
    else
      match FirstFree(nbrs(sources[0]), targets, seen)
      case None => Match(sources[1..], targets, nbrs, seen)
      case Some(j) => [(sources[0], j)] + Match(sources[1..], targets, nbrs, seen + [j])
  }

  function Firsts(ps: seq<Pair>): (r: seq<Position>)
    ensures |r| == |ps| && forall k :: 0 <= k < |ps| ==> r[k] == ps[k].0
  {
    if ps == [] then [] else [ps[0].0] + Firsts(ps[1..])
  }

  function Seconds(ps: seq<Pair>): (r: seq<Position>)
    ensures |r| == |ps| && forall k :: 0 <= k < |ps| ==> r[k] == ps[k].1
  {
    if ps == [] then [] else [ps[0].1] + Seconds(ps[1..])
  }

  lemma SecondsAppend(ps: seq<Pair>, p: Pair)
    ensures Seconds(ps + [p]) == Seconds(ps) + [p.1]
  {
    assert forall k :: 0 <= k < |ps| ==> (ps + [p])[k] == ps[k];
  }

  /** One step of the rule, at source index `k`. */
  lemma MatchStep(sources: seq<Position>, k: nat, targets: seq<Position>,
                  nbrs: Position -> seq<Position>, seen: seq<Position>)
    requires k < |sources|
    ensures Match(sources[k..], targets, nbrs, seen) ==
      match FirstFree(nbrs(sources[k]), targets, seen)
      case None => Match(sources[k + 1..], targets, nbrs, seen)
      case Some(j) => [(sources[k], j)] + Match(sources[k + 1..], targets, nbrs, seen + [j])
  {
    assert sources[k..][1..] == sources[k + 1..];
  }

  /** What a loop that has produced `done` for the sources before index
      `k` produces after handling source `k`. */
  lemma MatchAdvance(sources: seq<Position>, k: nat, targets: seq<Position>,
                     nbrs: Position -> seq<Position>, seen: seq<Position>, done: seq<Pair>)
    requires k < |sources|
    requires done + Match(sources[k..], targets, nbrs, seen) == Match(sources, targets, nbrs, [])
    requires seen == Seconds(done)
    ensures match FirstFree(nbrs(sources[k]), targets, seen)
      case None =>
        done + Match(sources[k + 1..], targets, nbrs, seen) == Match(sources, targets, nbrs, [])
      case Some(j) =>
        && (done + [(sources[k], j)]) + Match(sources[k + 1..], targets, nbrs, seen + [j]) == Match(sources, targets, nbrs, [])
        && seen + [j] == Seconds(done + [(sources[k], j)])
  {
    MatchStep(sources, k, targets, nbrs, seen);
    match FirstFree(nbrs(sources[k]), targets, seen)
    case None =>
    case Some(j) =>
      SecondsAppend(done, (sources[k], j));
      assert (done + [(sources[k], j)]) + Match(sources[k + 1..], targets, nbrs, seen + [j]) ==
             done + ([(sources[k], j)] + Match(sources[k + 1..], targets, nbrs, seen + [j]));
  }

  /** `xs` is `ys` with some elements left out, the rest kept in order. */
  predicate IsSubsequence(xs: seq<Position>, ys: seq<Position>) {
    if xs == [] then true
    else if ys == [] then false
    else (xs[0] == ys[0] && IsSubsequence(xs[1..], ys[1..])) || IsSubsequence(xs, ys[1..])
  }

  lemma {:induction false} SubsequenceLength(xs: seq<Position>, ys: seq<Position>)
    requires IsSubsequence(xs, ys)
    ensures |xs| <= |ys|
  {
    if xs != [] {
      if xs[0] == ys[0] && IsSubsequence(xs[1..], ys[1..]) {
        SubsequenceLength(xs[1..], ys[1..]);
      } else {
        SubsequenceLength(xs, ys[1..]);
      }
    }
  }

  /** Every pair joins a source to one of its neighbours that is a target
      not used before the rule started. */
  lemma {:induction false} MatchSound(sources: seq<Position>, targets: seq<Position>,
                                      nbrs: Position -> seq<Position>, seen: seq<Position>)
    ensures forall p :: p in Match(sources, targets, nbrs, seen) ==>
      p.0 in sources && p.1 in targets && p.1 in nbrs(p.0) && p.1 !in seen
  {
    if sources != [] {
      match FirstFree(nbrs(sources[0]), targets, seen)
      case None =>
        MatchSound(sources[1..], targets, nbrs, seen);
      case Some(j) =>
        MatchSound(sources[1..], targets, nbrs, seen + [j]);
    }
  }

  /** No position occurs twice. */
  predicate Distinct(s: seq<Position>) {
    forall x, y :: 0 <= x < y < |s| ==> s[x] != s[y]
  }

  /** No target is used by two pairs. */
  lemma {:induction false} MatchTargetsDistinct(sources: seq<Position>, targets: seq<Position>,
                                                nbrs: Position -> seq<Position>, seen: seq<Position>)
    ensures Distinct(Seconds(Match(sources, targets, nbrs, seen)))
  {
    if sources != [] {
      match FirstFree(nbrs(sources[0]), targets, seen)
      case None =>
        MatchTargetsDistinct(sources[1..], targets, nbrs, seen);
      case Some(j) =>
        var rest := Match(sources[1..], targets, nbrs, seen + [j]);
        MatchTargetsDistinct(sources[1..], targets, nbrs, seen + [j]);
        MatchSound(sources[1..], targets, nbrs, seen + [j]);
        var s := Seconds([(sources[0], j)] + rest);
        assert j !in Seconds(rest);
        assert s == [j] + Seconds(rest);
    }
  }

  /** The pairs follow the order of the sources, each source occurrence
      giving at most one pair; hence there are at most as many pairs as
      sources. */
  lemma {:induction false} MatchFollowsSources(sources: seq<Position>, targets: seq<Position>,
                                               nbrs: Position -> seq<Position>, seen: seq<Position>)
    ensures IsSubsequence(Firsts(Match(sources, targets, nbrs, seen)), sources)
    ensures |Match(sources, targets, nbrs, seen)| <= |sources|
  {
    var ps := Match(sources, targets, nbrs, seen);
    if sources != [] {
      match FirstFree(nbrs(sources[0]), targets, seen)
      case None =>
        MatchFollowsSources(sources[1..], targets, nbrs, seen);
      case Some(j) =>
        var rest := Match(sources[1..], targets, nbrs, seen + [j]);
        MatchFollowsSources(sources[1..], targets, nbrs, seen + [j]);
        assert Firsts(ps) == [sources[0]] + Firsts(rest);
        assert Firsts(ps)[1..] == Firsts(rest);
    }
    SubsequenceLength(Firsts(ps), sources);
  }

  /** The matching cannot be extended by one more pair: a source that got
      no pair has every one of its target neighbours already used. */
  lemma {:induction false} MatchMaximal(sources: seq<Position>, targets: seq<Position>,
                                        nbrs: Position -> seq<Position>, seen: seq<Position>)
    ensures var ps := Match(sources, targets, nbrs, seen);
      forall i :: i in sources ==>
        i in Firsts(ps) || forall j :: j in nbrs(i) && j in targets ==> j in seen + Seconds(ps)
  {
    if sources != [] {
      var ps := Match(sources, targets, nbrs, seen);
      match FirstFree(nbrs(sources[0]), targets, seen)
      case None =>
        MatchMaximal(sources[1..], targets, nbrs, seen);
        assert sources == [sources[0]] + sources[1..];
      case Some(j) =>
        var rest := Match(sources[1..], targets, nbrs, seen + [j]);
        MatchMaximal(sources[1..], targets, nbrs, seen + [j]);
        assert Firsts(ps) == [sources[0]] + Firsts(rest);
        assert Seconds(ps) == [j] + Seconds(rest);
        forall i | i in sources && i !in Firsts(ps)
          ensures forall j' :: j' in nbrs(i) && j' in targets ==> j' in seen + Seconds(ps)
        {
          assert i in sources[1..] by { assert sources == [sources[0]] + sources[1..]; }
          assert i !in Firsts(rest);
        }
    }
  }

  /** Appending a candidate that is not a target does not change the first
      free candidate. */
  lemma {:induction false} FirstFreeIgnoresNonTarget(candidates: seq<Position>, extra: Position,
                                                     targets: seq<Position>, seen: seq<Position>)
    requires extra !in targets
    ensures FirstFree(candidates + [extra], targets, seen) == FirstFree(candidates, targets, seen)
  {
    if candidates != [] {
      assert (candidates + [extra])[1..] == candidates[1..] + [extra];
      FirstFreeIgnoresNonTarget(candidates[1..], extra, targets, seen);
    }
  }

  /** Two neighbour functions that give the same first free target for
      every source (whatever has been used) give the same matching. */
  lemma {:induction false} MatchSameChoices(sources: seq<Position>, targets: seq<Position>,
                                            n1: Position -> seq<Position>, n2: Position -> seq<Position>,
                                            seen: seq<Position>)
    requires forall i, s :: i in sources ==> FirstFree(n1(i), targets, s) == FirstFree(n2(i), targets, s)
    ensures Match(sources, targets, n1, seen) == Match(sources, targets, n2, seen)
  {
    if sources != [] {
      assert forall i :: i in sources[1..] ==> i in sources;
      assert FirstFree(n1(sources[0]), targets, seen) == FirstFree(n2(sources[0]), targets, seen);
      match FirstFree(n1(sources[0]), targets, seen)
      case None =>
        MatchSameChoices(sources[1..], targets, n1, n2, seen);
      case Some(j) =>
        MatchSameChoices(sources[1..], targets, n1, n2, seen + [j]);
    }
  }

  /** The off-grid left neighbour that `Position.neighbours` yields for
      column 0 never changes the matching: when every target has a
      non-negative column and every source a column of at most C, the
      as-written and the corrected neighbour lists give the same pairs. */
  lemma LeftGuardIrrelevant(sources: seq<Position>, targets: seq<Position>, R: int, C: int)
    requires forall i :: i in sources ==> i.column <= C
    requires forall j :: j in targets ==> j.column >= 0
    ensures Match(sources, targets, NeighboursIn(R, C), []) == Match(sources, targets, NeighboursInGridIn(R, C), [])
  {
    var n1, n2 := NeighboursIn(R, C), NeighboursInGridIn(R, C);
    forall i, s | i in sources ensures FirstFree(n1(i), targets, s) == FirstFree(n2(i), targets, s) {
      NeighboursDifferOnlyAtLeftEdge(i, R, C);
      if i.column < 1 {
        FirstFreeIgnoresNonTarget(NeighboursInGrid(i, R, C), Left(i), targets, s);
      }
    }
    MatchSameChoices(sources, targets, n1, n2, []);
  }
}
