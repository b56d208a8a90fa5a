/** The pipeline from detector output to a reversible transform.

    What detectors find, how each candidate is judged, how mentions are keyed to identities,
    what a mapping contains and what replaces an occurrence are all parameters. */
module Pipeline {
  import opened Engine
  import opened Identity
  import opened Models
  import opened Occurrences
  import opened Ranking
  import opened Surrogates
  import opened Weaving
  import Overlap
  import Selection

  predicate WellPlaced(text: string, cands: seq<Candidate>) {
    forall c :: c in cands ==> c.start < c.end <= |text|
  }

  function CandidatesOf(decisions: seq<Decision>): (r: seq<Candidate>)
    ensures |r| == |decisions|
  {
    seq(|decisions|, i requires 0 <= i < |decisions| => decisions[i].candidate)
  }

  /** The positions of the MASK decisions among the first `n`. */
  function Personal(decisions: seq<Decision>, n: nat): (r: seq<nat>)
    requires n <= |decisions|
    ensures forall d: nat :: d in r <==> d < n && decisions[d].verdict.Mask?
    ensures Distinct(r)
    ensures forall k :: 0 <= k < |r| ==> r[k] < n
  {
    if n == 0 then []
    else
      var before := Personal(decisions, n - 1);
      if decisions[n - 1].verdict.Mask? then before + [n - 1] else before
  }

  function PositionKeys(decisions: seq<Decision>, who: seq<nat>): (r: seq<Key>)
    requires forall k :: 0 <= k < |who| ==> who[k] < |decisions|
    ensures |r| == |who|
  {
    seq(|who|, k requires 0 <= k < |who| => Key(0.0, 0, decisions[who[k]].candidate.start))
  }

  /** The MASK decisions, sorted by start. */
  function Visit(decisions: seq<Decision>): (r: seq<nat>)
    ensures forall k :: 0 <= k < |r| ==> r[k] < |decisions|
  {
    var who := Personal(decisions, |decisions|);
    Pick(who, Rank(PositionKeys(decisions, who)))
  }

  /** `who` lists every MASK decision once, from left to right. */
  ghost predicate ListsMasked(decisions: seq<Decision>, who: seq<nat>) {
    && (forall d: nat :: d in who <==> d < |decisions| && decisions[d].verdict.Mask?)
    && Distinct(who)
    && (forall k :: 0 <= k < |who| ==> who[k] < |decisions|)
    && (forall j, k :: 0 <= j < k < |who| ==>
         decisions[who[j]].candidate.start <= decisions[who[k]].candidate.start)
  }

  lemma {:induction false} VisitLists(decisions: seq<Decision>)
    ensures ListsMasked(decisions, Visit(decisions))
  {
    var who := Personal(decisions, |decisions|);
    var keys := PositionKeys(decisions, who);
    var order := Rank(keys);
    Overlap.PickDistinct(keys, who, order);
    Overlap.SameMembers(keys, who, order);
    forall j, k | 0 <= j < k < |order|
      ensures decisions[who[order[j]]].candidate.start <= decisions[who[order[k]]].candidate.start
    {
      assert Precedes(keys, order[j], order[k]);
    }
  }

  /** The mark of decision `d`. */
  function MarkOf(decisions: seq<Decision>, replace: (nat, Mapping) -> string, mappingOf: string -> Mapping,
                  keyOf: nat -> string, d: nat): Marked
    requires d < |decisions|
  {
    var c := decisions[d].candidate;
    var m := mappingOf(keyOf(d));
    Marked(Span(c.start, c.end, replace(d, m)), m.entityId)
  }

  function MarksOf(decisions: seq<Decision>, replace: (nat, Mapping) -> string, mappingOf: string -> Mapping,
                   keyOf: nat -> string, who: seq<nat>): (r: seq<Marked>)
    requires forall k :: 0 <= k < |who| ==> who[k] < |decisions|
    ensures |r| == |who|
  {
    seq(|who|, k requires 0 <= k < |who| => MarkOf(decisions, replace, mappingOf, keyOf, who[k]))
  }

  /** Marks of disjoint, non-empty, in-range candidates are in order. */
  lemma {:induction false} MarksInOrder(text: string, decisions: seq<Decision>, replace: (nat, Mapping) -> string,
                     mappingOf: string -> Mapping, keyOf: nat -> string, who: seq<nat>)
    requires ListsMasked(decisions, who)
    requires WellPlaced(text, CandidatesOf(decisions)) && Overlap.Disjoint(CandidatesOf(decisions))
    ensures InOrder(SpansIn(MarksOf(decisions, replace, mappingOf, keyOf, who)), 0, |text|)
  {
    var cands := CandidatesOf(decisions);
    var spans := SpansIn(MarksOf(decisions, replace, mappingOf, keyOf, who));
    forall k | 0 <= k < |spans| ensures spans[k].start < spans[k].end <= |text| {
      assert cands[who[k]] in cands;
    }
    forall j, k | 0 <= j < k < |spans| ensures spans[j].end <= spans[k].start {
      assert who[j] != who[k];
      var a, b := cands[who[j]], cands[who[k]];
      assert !Selection.Overlaps(Selection.Interval(a.start, a.end), Selection.Interval(b.start, b.end));
      assert spans[k].start < spans[k].end;
    }
    AscendingIsInOrder(spans, 0, |text|);
  }

  function Kinds(decisions: seq<Decision>): nat -> PiiType {
    (d: nat) => if d < |decisions| then decisions[d].candidate.kind else FullName
  }

  /** The surface of an entity's first mention. */
  function FirstValue(decisions: seq<Decision>, g: Group): string {
    if g.members != [] && g.members[0] < |decisions| then decisions[g.members[0]].candidate.value else ""
  }

  /** One mapping per entity. */
  function MappingsOf(decisions: seq<Decision>, groups: seq<Group>, synth: seq<string>): (r: seq<Mapping>)
    requires |synth| == |groups|
    ensures |r| == |groups|
    ensures forall i :: 0 <= i < |r| ==>
              r[i] == Mapping(groups[i].entityId, FirstValue(decisions, groups[i]), TokenFor(groups[i].entityId), synth[i])
  {
    seq(|groups|, i requires 0 <= i < |groups| =>
      Mapping(groups[i].entityId, FirstValue(decisions, groups[i]), TokenFor(groups[i].entityId), synth[i]))
  }

  /** The dictionary from identity keys to mappings. */
  function ByKey(groups: seq<Group>, mappings: seq<Mapping>): (r: map<string, Mapping>)
    requires |groups| == |mappings|
  {
    if groups == [] then map[]
    else
      var n := |groups| - 1;
      ByKey(groups[..n], mappings[..n])[groups[n].key := mappings[n]]
  }

  function LookUp(mappings: map<string, Mapping>): string -> Mapping {
    (key: string) => if key in mappings then mappings[key] else Mapping("", "", "", "")
  }

  lemma {:induction false} ByKeyFinds(groups: seq<Group>, mappings: seq<Mapping>, i: nat)
    requires |groups| == |mappings| && i < |groups|
    requires forall j, k :: 0 <= j < k < |groups| ==> groups[j].key != groups[k].key
    ensures LookUp(ByKey(groups, mappings))(groups[i].key) == mappings[i]
    decreases |groups|
  {
    var n := |groups| - 1;
    if i < n {
      assert groups[..n][i] == groups[i] && mappings[..n][i] == mappings[i];
      ByKeyFinds(groups[..n], mappings[..n], i);
    }
  }

  /** What `build_transform_result` promises: the MASK decisions are grouped into entities; each
      entity has one mapping, with the surface of its first mention, its token and its surrogate;
      and the text is masked at exactly their spans, each by what `replace` makes of its mapping. */
  ghost predicate IsTransformOf(text: string, decisions: seq<Decision>, keyOf: nat -> string,
                                replace: (nat, Mapping) -> string, groups: seq<Group>, synth: seq<string>, t: Transform) {
    && IsGrouping(Visit(decisions), keyOf, Kinds(decisions), groups)
    && |synth| == |groups|
    && t.mappings == MappingsOf(decisions, groups, synth)
    && IsMasking(text, MarksOf(decisions, replace, LookUp(ByKey(groups, t.mappings)), keyOf, Visit(decisions)),
                 t.text, t.occurrences)
  }

  method BuildTransformResult(text: string, decisions: seq<Decision>, keyOf: nat -> string,
                              replace: (nat, Mapping) -> string, draw: (nat, nat) -> string, shapeCollides: (nat, nat) -> bool)
    returns (t: Transform, groups: seq<Group>, synth: seq<string>, fallback: seq<bool>)
    requires WellPlaced(text, CandidatesOf(decisions)) && Overlap.Disjoint(CandidatesOf(decisions))
    ensures IsTransformOf(text, decisions, keyOf, replace, groups, synth, t)
    ensures AllChosen(groups, text, draw, shapeCollides, synth, fallback)
  {
    VisitLists(decisions);
    var visit := Visit(decisions);
    groups := GroupPersonalDecisions(visit, keyOf, Kinds(decisions));
    synth, fallback := ChooseSurrogates(groups, text, draw, shapeCollides);
    var mappings := MappingsOf(decisions, groups, synth);
    var mappingOf := LookUp(ByKey(groups, mappings));
    var spans := CollectMarks(decisions, replace, mappingOf, keyOf);
    var sorted := Pick(spans, Rank(StartKeys(SpansIn(spans))));
    SortedMarks(decisions, replace, mappingOf, keyOf, spans);
    MarksInOrder(text, decisions, replace, mappingOf, keyOf, visit);
    var masked, occurrences := SpliceSpans(text, sorted);
    t := Transform(masked, mappings, occurrences);
  }

  /** The loop visits the decisions in their own order; the spans are sorted afterwards. */
  method CollectMarks(decisions: seq<Decision>, replace: (nat, Mapping) -> string, mappingOf: string -> Mapping,
                      keyOf: nat -> string)
    returns (spans: seq<Marked>)
    ensures spans == MarksOf(decisions, replace, mappingOf, keyOf, Personal(decisions, |decisions|))
  {
    spans := [];
    for n := 0 to |decisions|
      invariant spans == MarksOf(decisions, replace, mappingOf, keyOf, Personal(decisions, n))
    {
      if decisions[n].verdict.Mask? {
        spans := spans + [MarkOf(decisions, replace, mappingOf, keyOf, n)];
      }
    }
  }

  /** Sorting the marks is the same as marking the sorted decisions. */
  lemma {:induction false} SortedMarks(decisions: seq<Decision>, replace: (nat, Mapping) -> string, mappingOf: string -> Mapping,
                    keyOf: nat -> string, spans: seq<Marked>)
    requires spans == MarksOf(decisions, replace, mappingOf, keyOf, Personal(decisions, |decisions|))
    ensures Pick(spans, Rank(StartKeys(SpansIn(spans))))
         == MarksOf(decisions, replace, mappingOf, keyOf, Visit(decisions))
  {
    assert StartKeys(SpansIn(spans)) == PositionKeys(decisions, Personal(decisions, |decisions|));
  }

  /** Each mapping tells how its entity is written where it first appears among the masked
      decisions. */
  lemma {:induction false} FirstMentionIsRecorded(text: string, decisions: seq<Decision>, keyOf: nat -> string,
                          replace: (nat, Mapping) -> string, groups: seq<Group>, synth: seq<string>, t: Transform, d: nat)
    returns (i: nat, first: nat)
    requires IsTransformOf(text, decisions, keyOf, replace, groups, synth, t)
    requires d < |decisions| && decisions[d].verdict.Mask?
    ensures i < |t.mappings| == |groups| && groups[i].key == keyOf(d)
    ensures first < |decisions| && decisions[first].verdict.Mask? && keyOf(first) == keyOf(d)
    ensures t.mappings[i].original == decisions[first].candidate.value
    ensures forall e: nat :: e < |decisions| && decisions[e].verdict.Mask? && keyOf(e) == keyOf(d) ==>
              decisions[first].candidate.start <= decisions[e].candidate.start
  {
    hide IsMasking, Visit, MarksOf, FirstSeen, Members;
    var visit, kindOf := Visit(decisions), Kinds(decisions);
    VisitLists(decisions);
    i := GroupOf(visit, keyOf, kindOf, groups, d);
    first := FirstOfKey(decisions, visit, keyOf, d);
    assert IsGroup(visit, keyOf, kindOf, groups, i);
  }

  lemma {:induction false} FirstOfKey(decisions: seq<Decision>, visit: seq<nat>, keyOf: nat -> string, d: nat) returns (first: nat)
    requires ListsMasked(decisions, visit) && d in visit
    ensures Members(visit, keyOf, keyOf(d)) != [] && first == Members(visit, keyOf, keyOf(d))[0]
    ensures first < |decisions| && decisions[first].verdict.Mask? && keyOf(first) == keyOf(d)
    ensures forall e: nat :: e < |decisions| && decisions[e].verdict.Mask? && keyOf(e) == keyOf(d) ==>
              decisions[first].candidate.start <= decisions[e].candidate.start
  {
    hide Members;
    assert d in Members(visit, keyOf, keyOf(d));
    first := Members(visit, keyOf, keyOf(d))[0];
    assert first in Members(visit, keyOf, keyOf(d));
    forall e: nat | e < |decisions| && decisions[e].verdict.Mask? && keyOf(e) == keyOf(d)
      ensures decisions[first].candidate.start <= decisions[e].candidate.start
    {
      assert e in visit;
      var a, b := FirstMemberIsFirst(visit, keyOf, keyOf(d), e);
    }
  }

  /** Each MASK decision has its occurrence: at its span, with what stood there, with the
      replacement made of the mapping of its entity, and with the entity's identifier. There are
      no other occurrences. */
  lemma {:induction false} MaskedDecisionIsRecorded(text: string, decisions: seq<Decision>, keyOf: nat -> string,
                          replace: (nat, Mapping) -> string, groups: seq<Group>, synth: seq<string>, t: Transform, d: nat)
    returns (i: nat, k: nat)
    requires IsTransformOf(text, decisions, keyOf, replace, groups, synth, t)
    requires d < |decisions| && decisions[d].verdict.Mask?
    ensures |t.occurrences| == |Visit(decisions)| && k < |t.occurrences| && Visit(decisions)[k] == d
    ensures i < |t.mappings| == |groups| && groups[i].key == keyOf(d)
    ensures var o, c := t.occurrences[k], decisions[d].candidate;
            && o.originalStart == c.start && o.originalEnd == c.end && c.start <= c.end <= |text|
            && o.original == text[c.start..c.end]
            && o.entityId == t.mappings[i].entityId && o.masked == replace(d, t.mappings[i])
            && o.maskedStart <= o.maskedEnd <= |t.text| && t.text[o.maskedStart..o.maskedEnd] == o.masked
  {
    hide IsMasking;
    var visit, mappingOf := Visit(decisions), LookUp(ByKey(groups, t.mappings));
    var marks := MarksOf(decisions, replace, mappingOf, keyOf, visit);
    VisitLists(decisions);
    assert d in visit;
    k :| 0 <= k < |visit| && visit[k] == d;
    MaskingLocates(text, marks, t.text, t.occurrences, k);
    i := GroupOf(visit, keyOf, Kinds(decisions), groups, d);
    ByKeyFinds(groups, t.mappings, i);
  }

  lemma {:induction false} GroupOf(visit: seq<nat>, keyOf: nat -> string, kindOf: nat -> PiiType, groups: seq<Group>, d: nat)
    returns (i: nat)
    requires IsGrouping(visit, keyOf, kindOf, groups) && d in visit
    ensures i < |groups| && groups[i].key == keyOf(d)
    ensures forall a, b :: 0 <= a < b < |groups| ==> groups[a].key != groups[b].key
  {
    var seen := FirstSeen(visit, keyOf);
    assert keyOf(d) in seen;
    i :| 0 <= i < |groups| && seen[i] == keyOf(d);
    forall a | 0 <= a < |groups| ensures groups[a].key == seen[a] {
      assert IsGroup(visit, keyOf, kindOf, groups, a);
    }
  }

  /** Whatever was masked, the record rebuilds each text from the other; with no mapping there
      was nothing to mask. */
  lemma {:induction false} TransformReverses(text: string, decisions: seq<Decision>, keyOf: nat -> string,
                          replace: (nat, Mapping) -> string, groups: seq<Group>, synth: seq<string>, t: Transform)
    requires IsTransformOf(text, decisions, keyOf, replace, groups, synth, t)
    ensures Reversible(text, t)
  {
    var visit := Visit(decisions);
    var marks := MarksOf(decisions, replace, LookUp(ByKey(groups, t.mappings)), keyOf, visit);
    MaskingReverses(text, marks, t.text, t.occurrences);
    if t.mappings == [] {
      NoGroupNoMark(visit, keyOf, Kinds(decisions), groups);
      assert marks == [];
      assert Texts(SpansIn(marks)) == [];
      assert text[0..] == text;
    }
  }

  lemma {:induction false} NoGroupNoMark(visit: seq<nat>, keyOf: nat -> string, kindOf: nat -> PiiType, groups: seq<Group>)
    requires IsGrouping(visit, keyOf, kindOf, groups) && groups == []
    ensures visit == []
  {
    if visit != [] {
      GroupsPartition(visit, keyOf, kindOf, groups, visit[0]);
    }
  }

  /** Detectors, overlap resolution, verdicts, grouping, surrogates and splicing, end to end: for
      any candidates that are non-empty and inside the text, any verdicts, keys, draws and
      renderings, the transform masks exactly the MASK candidates that survived, records one
      mapping per entity, and is reversible. */
  method Process(text: string, candidates: seq<Candidate>, verdictOf: Candidate -> Verdict, keyOf: nat -> string,
                 replace: (nat, Mapping) -> string, draw: (nat, nat) -> string, shapeCollides: (nat, nat) -> bool)
    returns (t: Transform, groups: seq<Group>, synth: seq<string>, fallback: seq<bool>,
             ghost kept: seq<nat>, decisions: seq<Decision>)
    requires WellPlaced(text, candidates)
    ensures Overlap.IsResolution(candidates, kept, CandidatesOf(decisions))
    ensures forall d :: d in decisions ==> d.verdict == verdictOf(d.candidate)
    ensures IsTransformOf(text, decisions, keyOf, replace, groups, synth, t)
    ensures AllChosen(groups, text, draw, shapeCollides, synth, fallback)
    ensures Reversible(text, t)
  {
    var resolved;
    resolved, kept := Overlap.ResolveOverlaps(candidates);
    decisions := seq(|resolved|, i requires 0 <= i < |resolved| => Decision(resolved[i], verdictOf(resolved[i])));
    assert CandidatesOf(decisions) == resolved;
    assert WellPlaced(text, resolved) by {
      forall c | c in resolved ensures c.start < c.end <= |text| {
        var k :| 0 <= k < |resolved| && resolved[k] == c;
        assert c == candidates[kept[k]];
        assert c in candidates;
      }
    }
    t, groups, synth, fallback := BuildTransformResult(text, decisions, keyOf, replace, draw, shapeCollides);
    TransformReverses(text, decisions, keyOf, replace, groups, synth, t);
  }
}
