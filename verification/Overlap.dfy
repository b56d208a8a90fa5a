/** Reconciling the spans of detectors that are blind to each other. */
module Overlap {
  import opened Models
  import opened Ranking
  import opened Selection

  function Extents(cands: seq<Candidate>): (r: seq<Interval>)
    ensures |r| == |cands|
  {
    seq(|cands|, i requires 0 <= i < |cands| => Interval(cands[i].start, cands[i].end))
  }

  /** Highest confidence first, then the longer span, then the earlier start. */
  function RankKeys(cands: seq<Candidate>): (r: seq<Key>)
    ensures |r| == |cands|
  {
    seq(|cands|, i requires 0 <= i < |cands| =>
      Key(-cands[i].confidence, -(cands[i].end - cands[i].start), cands[i].start))
  }

  function StartKeys(cands: seq<Candidate>): (r: seq<Key>)
    ensures |r| == |cands|
  {
    seq(|cands|, i requires 0 <= i < |cands| => Key(0.0, 0, cands[i].start))
  }

  predicate Disjoint(cands: seq<Candidate>) {
    forall a, b :: 0 <= a < b < |cands| ==>
      !Overlaps(Interval(cands[a].start, cands[a].end), Interval(cands[b].start, cands[b].end))
  }

  predicate ByStart(cands: seq<Candidate>) {
    forall a, b :: 0 <= a < b < |cands| ==> cands[a].start <= cands[b].start
  }

  predicate Clash(a: Candidate, b: Candidate) { a.start < b.end && b.start < a.end }

  /** More confident; or as confident and longer; or as long too and earlier in the text; or as
      early too and earlier in the input. */
  predicate Outranks(cands: seq<Candidate>, j: nat, i: nat) {
    && j < |cands| && i < |cands|
    && var (a, b) := (cands[j], cands[i]);
       || a.confidence > b.confidence
       || (a.confidence == b.confidence && a.end - a.start > b.end - b.start)
       || (a.confidence == b.confidence && a.end - a.start == b.end - b.start && a.start < b.start)
       || (a.confidence == b.confidence && a.end - a.start == b.end - b.start && a.start == b.start && j < i)
  }

  /** A candidate is kept exactly when no kept one that outranks it clashes with it. */
  ghost predicate KeptByRank(cands: seq<Candidate>, kept: set<nat>) {
    && (forall i :: i in kept ==> i < |cands|)
    && (forall i: nat :: i < |cands| ==>
         (i in kept <==> !exists j :: j in kept && Outranks(cands, j, i) && Clash(cands[j], cands[i])))
  }

  /** The ranking by keys, in the fields of the candidates. */
  lemma {:induction false} RankedByFields(cands: seq<Candidate>, kept: set<nat>)
    ensures IsSelection(Extents(cands), RankKeys(cands), kept) <==> KeptByRank(cands, kept)
  {
    forall j: nat, i: nat | j < |cands| && i < |cands|
      ensures Beats(Extents(cands), RankKeys(cands), j, i) <==> Outranks(cands, j, i) && Clash(cands[j], cands[i])
    {
    }
    forall i: nat | i < |cands| && forall k :: k in kept ==> k < |cands|
      ensures Beaten(Extents(cands), RankKeys(cands), kept, i)
         <==> exists j :: j in kept && Outranks(cands, j, i) && Clash(cands[j], cands[i])
    {
      if j :| j in kept && Outranks(cands, j, i) && Clash(cands[j], cands[i]) {
        assert Beats(Extents(cands), RankKeys(cands), j, i);
      }
    }
  }

  /** The resolution keeps exactly the candidates that the ranking keeps, once each, ordered by
      start. */
  ghost predicate IsResolution(cands: seq<Candidate>, kept: seq<nat>, result: seq<Candidate>) {
    && KeptByRank(cands, Elements(kept))
    && (forall a :: 0 <= a < |kept| ==> kept[a] < |cands|)
    && Distinct(kept)
    && result == Pick(cands, kept)
    && ByStart(result)
    && Disjoint(result)
  }

  ghost predicate IsResolved(cands: seq<Candidate>, result: seq<Candidate>) {
    exists kept :: IsResolution(cands, kept, result)
  }

  method ResolveOverlaps(candidates: seq<Candidate>) returns (result: seq<Candidate>, ghost kept: seq<nat>)
    ensures IsResolution(candidates, kept, result) && IsResolved(candidates, result)
  {
    var chosen;
    ghost var picks;
    chosen, picks := Choose(candidates);
    var byStart := Rank(StartKeys(chosen));
    result := Pick(chosen, byStart);
    kept := Pick(picks, byStart);
    ResolutionOf(candidates, picks, chosen, byStart);
  }

  /** The loop over the ranked candidates. */
  method Choose(candidates: seq<Candidate>) returns (chosen: seq<Candidate>, ghost picks: seq<nat>)
    ensures IsSelection(Extents(candidates), RankKeys(candidates), Elements(picks))
    ensures (forall k :: 0 <= k < |picks| ==> picks[k] < |candidates|) && Distinct(picks)
    ensures chosen == Pick(candidates, picks)
  {
    hide Greedy, Meets, IsSelection;
    var all, order := Extents(candidates), Rank(RankKeys(candidates));
    GreedyNone(all, order);
    var ordered := Pick(candidates, order);
    chosen, picks := [], [];
    var occupied: seq<Interval> := [];
    for n := 0 to |ordered|
      invariant picks == Greedy(all, order, n)
      invariant forall k :: 0 <= k < |picks| ==> picks[k] < |candidates|
      invariant chosen == Pick(candidates, picks)
      invariant occupied == Pick(all, picks)
    {
      var candidate := ordered[n];
      var extent := Interval(candidate.start, candidate.end);
      assert extent == all[order[n]];
      OccupiedDecides(all, picks, occupied, order[n]);
      GreedyStep(all, order, n);
      if !exists k :: 0 <= k < |occupied| && Overlaps(extent, occupied[k]) {
        chosen := chosen + [candidate];
        occupied := occupied + [extent];
        picks := picks + [order[n]];
      }
    }
    GreedySelects(all, RankKeys(candidates));
    DistinctRanking(RankKeys(candidates), order);
    GreedyDistinct(all, order, |candidates|);
  }

  /** Sorting the greedy choice by start gives the resolution. */
  lemma {:induction false} ResolutionOf(candidates: seq<Candidate>, picks: seq<nat>, chosen: seq<Candidate>, order: seq<nat>)
    requires IsSelection(Extents(candidates), RankKeys(candidates), Elements(picks))
    requires forall k :: 0 <= k < |picks| ==> picks[k] < |candidates|
    requires Distinct(picks)
    requires chosen == Pick(candidates, picks)
    requires IsRanking(StartKeys(chosen), order) && |order| == |chosen|
    ensures IsResolution(candidates, Pick(picks, order), Pick(chosen, order))
  {
    var kept, result := Pick(picks, order), Pick(chosen, order);
    SameMembers(StartKeys(chosen), picks, order);
    assert Elements(kept) == Elements(picks);
    PickDistinct(StartKeys(chosen), picks, order);
    assert result == Pick(candidates, kept);
    SortedByStart(chosen, order);
    KeptDisjoint(candidates, kept, result);
    RankedByFields(candidates, Elements(kept));
  }

  lemma {:induction false} KeptDisjoint(cands: seq<Candidate>, kept: seq<nat>, result: seq<Candidate>)
    requires IsSelection(Extents(cands), RankKeys(cands), Elements(kept))
    requires forall a :: 0 <= a < |kept| ==> kept[a] < |cands|
    requires Distinct(kept)
    requires result == Pick(cands, kept)
    ensures Disjoint(result)
  {
    var all := Extents(cands);
    SelectionDisjoint(all, RankKeys(cands), Elements(kept));
    forall a, b | 0 <= a < b < |result|
      ensures !Overlaps(Interval(result[a].start, result[a].end), Interval(result[b].start, result[b].end))
    {
      assert kept[a] in Elements(kept) && kept[b] in Elements(kept);
      assert !Overlaps(all[kept[a]], all[kept[b]]);
    }
  }

  lemma {:induction false} PickDistinct(keys: seq<Key>, s: seq<nat>, order: seq<nat>)
    requires IsRanking(keys, order) && |keys| == |s| == |order|
    requires Distinct(s)
    ensures Distinct(Pick(s, order))
  {
    forall a, b | 0 <= a < b < |s| ensures s[order[a]] != s[order[b]] {
      assert Precedes(keys, order[a], order[b]);
    }
  }

  lemma {:induction false} SortedByStart(chosen: seq<Candidate>, order: seq<nat>)
    requires IsRanking(StartKeys(chosen), order)
    ensures ByStart(Pick(chosen, order))
  {
    forall a, b | 0 <= a < b < |order| ensures chosen[order[a]].start <= chosen[order[b]].start {
      assert Precedes(StartKeys(chosen), order[a], order[b]);
    }
  }

  lemma {:induction false} SameMembers(keys: seq<Key>, s: seq<nat>, order: seq<nat>)
    requires IsRanking(keys, order) && |keys| == |s| == |order|
    ensures forall x: nat :: x in Pick(s, order) <==> x in s
  {
    forall x: nat | x in s ensures x in Pick(s, order) {
      var i :| 0 <= i < |s| && s[i] == x;
      assert i in order;
      var a :| 0 <= a < |order| && order[a] == i;
      assert Pick(s, order)[a] == x;
    }
  }

  lemma {:induction false} GreedyDistinct(all: seq<Interval>, order: seq<nat>, n: nat)
    requires n <= |order|
    requires Distinct(order)
    ensures Distinct(Greedy(all, order, n))
  {
    if n > 0 {
      var before, last := Greedy(all, order, n - 1), order[n - 1];
      GreedyDistinct(all, order, n - 1);
      GreedyGrows(all, order, 0, n - 1);
      forall a | 0 <= a < |before| ensures before[a] != last {
        assert before[a] in before;
      }
    }
  }
}
