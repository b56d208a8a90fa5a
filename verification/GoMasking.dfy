/** The transform of the Go service and its two splices. Positions are byte offsets; the marks
    are gathered entity by entity and sorted before the text is spliced. */
module GoMasking {
  import opened Engine
  import opened GoSurrogates
  import opened Identity
  import opened Models
  import opened Occurrences
  import opened Pipeline
  import opened Ranking
  import opened Weaving
  import DemaskExactness
  import GoOverlap
  import Overlap
  import Selection

  // Building the transform.

  /** The decisions of the first `n` groups, group after group. */
  function GroupOrder(groups: seq<Group>, n: nat): (r: seq<nat>)
    requires n <= |groups|
    ensures forall d: nat :: d in r <==> exists i :: 0 <= i < n && d in groups[i].members
  {
    if n == 0 then [] else GroupOrder(groups, n - 1) + groups[n - 1].members
  }

  predicate Inside(who: seq<nat>, n: nat) {
    forall k :: 0 <= k < |who| ==> who[k] < n
  }

  /** The types and first surfaces of the groups. */
  function KindsOf(decided: seq<Decision>, groups: seq<Group>): (r: seq<PiiType>)
    ensures |r| == |groups|
  {
    seq(|groups|, i requires 0 <= i < |groups| =>
      if groups[i].members == [] then FullName else Kinds(decided)(groups[i].members[0]))
  }

  function OriginalsOf(decided: seq<Decision>, groups: seq<Group>): (r: seq<string>)
    ensures |r| == |groups|
  {
    seq(|groups|, i requires 0 <= i < |groups| => FirstValue(decided, groups[i]))
  }

  /** The decisions come in the order of their spans, as overlap resolution leaves them.
      `replace` is the switch over the masking modes. */
  method BuildTransform(text: string, decided: seq<Decision>, keyOf: nat -> string,
                        replace: (nat, Mapping) -> string, draw: nat -> nat -> string)
    returns (t: Transform, groups: seq<Group>, synth: seq<string>)
    requires WellPlaced(text, CandidatesOf(decided)) && Overlap.Disjoint(CandidatesOf(decided))
    requires Overlap.ByStart(CandidatesOf(decided))
    ensures IsTransformOf(text, decided, keyOf, replace, groups, synth, t)
    ensures AreChoices(KindsOf(decided, groups), OriginalsOf(decided, groups), draw, synth)
    ensures Reversible(text, t)
  {
    var personal := CollectPersonal(decided);
    VisitIsPersonal(decided);
    VisitLists(decided);
    groups := GroupByKey(personal, keyOf, Kinds(decided));
    synth := ChooseSurrogates(KindsOf(decided, groups), OriginalsOf(decided, groups), draw);
    var mappings := MappingsOf(decided, groups, synth);
    GroupOrderLists(decided, keyOf, groups);
    var spans := CollectByGroup(decided, keyOf, replace, groups, mappings);
    var sorted := Pick(spans, Rank(StartKeys(SpansIn(spans))));
    ghost var mappingOf := LookUp(ByKey(groups, mappings));
    SortedByGroup(text, decided, replace, mappingOf, keyOf, GroupOrder(groups, |groups|), spans);
    MarksInOrder(text, decided, replace, mappingOf, keyOf, Visit(decided));
    var masked, occurrences := SpliceSpans(text, sorted);
    t := Transform(masked, mappings, occurrences);
    TransformReverses(text, decided, keyOf, replace, groups, synth, t);
  }

  /** The whole Go pipeline: the candidates are resolved in their own array, judged, and masked. */
  method Process(text: string, candidates: array<Candidate>, sorted: seq<Candidate>, verdictOf: Candidate -> Verdict,
                 keyOf: nat -> string, replace: (nat, Mapping) -> string, draw: nat -> nat -> string)
    returns (t: Transform, groups: seq<Group>, synth: seq<string>, decided: seq<Decision>, ghost kept: seq<nat>)
    requires GoOverlap.IsSorting(candidates[..], sorted) && WellPlaced(text, sorted)
    modifies candidates
    ensures GoOverlap.IsCompaction(sorted, kept, CandidatesOf(decided))
    ensures forall d :: d in decided ==> d.verdict == verdictOf(d.candidate)
    ensures IsTransformOf(text, decided, keyOf, replace, groups, synth, t)
    ensures AreChoices(KindsOf(decided, groups), OriginalsOf(decided, groups), draw, synth)
    ensures Reversible(text, t)
  {
    assert GoOverlap.NonEmpty(sorted) by {
      forall i | 0 <= i < |sorted| ensures sorted[i].start < sorted[i].end {
        assert sorted[i] in sorted;
      }
    }
    var n;
    n, kept := GoOverlap.ResolveOverlaps(candidates, sorted);
    var resolved := candidates[..n];
    decided := seq(n, i requires 0 <= i < n => Decision(resolved[i], verdictOf(resolved[i])));
    assert CandidatesOf(decided) == resolved;
    assert WellPlaced(text, resolved) by {
      forall c | c in resolved ensures c.start < c.end <= |text| {
        var k :| 0 <= k < |resolved| && resolved[k] == c;
        assert c == sorted[kept[k]];
        assert c in sorted;
      }
    }
    t, groups, synth := BuildTransform(text, decided, keyOf, replace, draw);
  }

  /** The grouping loop: a slice of groups and an index from keys into it. */
  method GroupByKey(personal: seq<nat>, keyOf: nat -> string, kindOf: nat -> PiiType) returns (groups: seq<Group>)
    ensures IsGrouping(personal, keyOf, kindOf, groups)
  {
    hide Tracks;
    groups := [];
    var byKey: map<string, nat> := map[];
    var counters: map<string, nat> := map[];
    ghost var order: seq<string> := [];
    ghost var table: map<string, Group> := map[];
    NothingTracked(keyOf, kindOf);
    assert personal[..0] == [];
    for n := 0 to |personal|
      invariant Tracks(personal[..n], keyOf, kindOf, order, table, counters, groups) && |groups| == |order|
      invariant byKey.Keys == table.Keys
      invariant forall k :: k in byKey ==> byKey[k] < |order| && order[byKey[k]] == k
    {
      var d := personal[n];
      var key := keyOf(d);
      assert personal[..n + 1] == personal[..n] + [d];
      if key !in byKey {
        var prefix := TokenPrefix(kindOf(d));
        var number := (if prefix in counters then counters[prefix] else 0) + 1;
        var g := Group(EntityId(prefix, number), key, prefix, number, [d]);
        TracksNew(personal[..n], d, keyOf, kindOf, order, table, counters, groups, g);
        counters := counters[prefix := number];
        byKey := byKey[key := |groups|];
        groups := groups + [g];
        table, order := table[key := g], order + [key];
      } else {
        var at := byKey[key];
        ghost var i := TracksOld(personal[..n], d, keyOf, kindOf, order, table, counters, groups);
        SameIndex(personal[..n], keyOf, kindOf, order, table, counters, groups, at, i);
        var g := groups[at].(members := groups[at].members + [d]);
        groups := groups[at := g];
        table := table[key := g];
      }
    }
    assert personal[..|personal|] == personal;
    TracksGroups(personal, keyOf, kindOf, order, table, counters, groups);
  }

  lemma {:induction false} NothingTracked(keyOf: nat -> string, kindOf: nat -> PiiType)
    ensures Tracks([], keyOf, kindOf, [], map[], map[], [])
  {
  }

  lemma {:induction false} TracksGroups(visit: seq<nat>, keyOf: nat -> string, kindOf: nat -> PiiType, order: seq<string>,
                                        table: map<string, Group>, counters: map<string, nat>, groups: seq<Group>)
    requires Tracks(visit, keyOf, kindOf, order, table, counters, groups)
    ensures IsGrouping(visit, keyOf, kindOf, groups)
  {
  }

  lemma {:induction false} SameIndex(before: seq<nat>, keyOf: nat -> string, kindOf: nat -> PiiType, order: seq<string>,
                                     table: map<string, Group>, counters: map<string, nat>, groups: seq<Group>, at: nat, i: nat)
    requires Tracks(before, keyOf, kindOf, order, table, counters, groups)
    requires at < |order| && i < |groups| && order[at] in table && groups[i] == table[order[at]]
    ensures at == i
  {
    assert groups[at] == table[order[at]];
    assert IsGroup(before, keyOf, kindOf, groups, at) && IsGroup(before, keyOf, kindOf, groups, i);
  }

  method CollectPersonal(decided: seq<Decision>) returns (personal: seq<nat>)
    ensures personal == Personal(decided, |decided|)
  {
    personal := [];
    for i := 0 to |decided|
      invariant personal == Personal(decided, i)
    {
      if decided[i].verdict.Mask? {
        personal := personal + [i];
      }
    }
  }

  /** The outer loop over the groups. */
  method CollectByGroup(decided: seq<Decision>, keyOf: nat -> string, replace: (nat, Mapping) -> string,
                        groups: seq<Group>, mappings: seq<Mapping>)
    returns (spans: seq<Marked>)
    requires IsGrouping(Visit(decided), keyOf, Kinds(decided), groups) && |mappings| == |groups|
    requires forall i :: 0 <= i < |groups| ==> mappings[i].entityId == groups[i].entityId
    requires Inside(GroupOrder(groups, |groups|), |decided|)
    ensures spans == MarksOf(decided, replace, LookUp(ByKey(groups, mappings)), keyOf, GroupOrder(groups, |groups|))
  {
    hide IsGrouping, ByKey, LookUp;
    spans := [];
    ghost var mappingOf := LookUp(ByKey(groups, mappings));
    ghost var who: seq<nat> := [];
    for n := 0 to |groups|
      invariant who == GroupOrder(groups, n) && Inside(who, |decided|)
      invariant spans == MarksOf(decided, replace, mappingOf, keyOf, who)
    {
      GroupItems(decided, keyOf, groups, mappings, n);
      var more := CollectItems(decided, keyOf, replace, groups[n], mappings[n], mappingOf);
      MarksConcat(decided, replace, mappingOf, keyOf, who, groups[n].members);
      spans := spans + more;
      who := who + groups[n].members;
    }
  }

  /** The inner loop over the items of one group. */
  method CollectItems(decided: seq<Decision>, keyOf: nat -> string, replace: (nat, Mapping) -> string, g: Group,
                      m: Mapping, ghost mappingOf: string -> Mapping)
    returns (spans: seq<Marked>)
    requires Inside(g.members, |decided|) && m.entityId == g.entityId
    requires forall k :: 0 <= k < |g.members| ==> mappingOf(keyOf(g.members[k])) == m
    ensures spans == MarksOf(decided, replace, mappingOf, keyOf, g.members)
  {
    spans := [];
    for k := 0 to |g.members|
      invariant |spans| == k
      invariant forall j :: 0 <= j < k ==> spans[j] == MarkOf(decided, replace, mappingOf, keyOf, g.members[j])
    {
      var d := g.members[k];
      var c := decided[d].candidate;
      spans := spans + [Marked(Span(c.start, c.end, replace(d, m)), g.entityId)];
    }
  }

  lemma {:induction false} MarksConcat(decided: seq<Decision>, replace: (nat, Mapping) -> string, mappingOf: string -> Mapping,
                                       keyOf: nat -> string, who: seq<nat>, more: seq<nat>)
    requires Inside(who, |decided|) && Inside(more, |decided|)
    ensures Inside(who + more, |decided|)
    ensures MarksOf(decided, replace, mappingOf, keyOf, who + more)
         == MarksOf(decided, replace, mappingOf, keyOf, who) + MarksOf(decided, replace, mappingOf, keyOf, more)
  {
  }

  /** The items of group `n` are decisions, and their key leads back to this group's mapping. */
  lemma {:induction false} GroupItems(decided: seq<Decision>, keyOf: nat -> string, groups: seq<Group>, mappings: seq<Mapping>, n: nat)
    requires IsGrouping(Visit(decided), keyOf, Kinds(decided), groups) && |mappings| == |groups| && n < |groups|
    requires Inside(GroupOrder(groups, |groups|), |decided|)
    ensures Inside(groups[n].members, |decided|)
    ensures forall k :: 0 <= k < |groups[n].members| ==>
              LookUp(ByKey(groups, mappings))(keyOf(groups[n].members[k])) == mappings[n]
  {
    var visit := Visit(decided);
    assert IsGroup(visit, keyOf, Kinds(decided), groups, n);
    DistinctKeys(visit, keyOf, Kinds(decided), groups);
    ByKeyFinds(groups, mappings, n);
    forall k | 0 <= k < |groups[n].members|
      ensures groups[n].members[k] < |decided| && keyOf(groups[n].members[k]) == groups[n].key
    {
      assert groups[n].members[k] in Members(visit, keyOf, groups[n].key);
      assert groups[n].members[k] in visit;
    }
  }

  lemma {:induction false} DistinctKeys(visit: seq<nat>, keyOf: nat -> string, kindOf: nat -> PiiType, groups: seq<Group>)
    requires IsGrouping(visit, keyOf, kindOf, groups)
    ensures forall i, j :: 0 <= i < j < |groups| ==> groups[i].key != groups[j].key
  {
    forall i, j | 0 <= i < j < |groups| ensures groups[i].key != groups[j].key {
      assert IsGroup(visit, keyOf, kindOf, groups, i) && IsGroup(visit, keyOf, kindOf, groups, j);
    }
  }

  /** When the decisions come by start, sorting the MASK decisions by start changes nothing. */
  lemma {:induction false} VisitIsPersonal(decided: seq<Decision>)
    requires Overlap.ByStart(CandidatesOf(decided))
    ensures Visit(decided) == Personal(decided, |decided|)
  {
    var who := Personal(decided, |decided|);
    PersonalAscends(decided, |decided|);
    var keys := PositionKeys(decided, who);
    forall a, b | 0 <= a < b < |keys| ensures !Less(keys[b], keys[a]) {
      assert CandidatesOf(decided)[who[a]].start <= CandidatesOf(decided)[who[b]].start;
    }
    AscendingStays(keys);
  }

  lemma {:induction false} PersonalAscends(decided: seq<Decision>, n: nat)
    requires n <= |decided|
    ensures forall a, b :: 0 <= a < b < |Personal(decided, n)| ==> Personal(decided, n)[a] < Personal(decided, n)[b]
  {
    if n > 0 {
      PersonalAscends(decided, n - 1);
    }
  }

  /** Group after group, every MASK decision comes up exactly once. */
  lemma {:induction false} GroupOrderLists(decided: seq<Decision>, keyOf: nat -> string, groups: seq<Group>)
    requires IsGrouping(Visit(decided), keyOf, Kinds(decided), groups)
    ensures forall d: nat :: d in GroupOrder(groups, |groups|) <==> d in Visit(decided)
    ensures Inside(GroupOrder(groups, |groups|), |decided|)
    ensures Distinct(GroupOrder(groups, |groups|))
  {
    var visit, who := Visit(decided), GroupOrder(groups, |groups|);
    forall d: nat ensures d in who <==> d in visit {
      if d in visit {
        GroupsPartition(visit, keyOf, Kinds(decided), groups, d);
      }
      if d in who {
        var i :| 0 <= i < |groups| && d in groups[i].members;
        assert IsGroup(visit, keyOf, Kinds(decided), groups, i);
      }
    }
    forall k | 0 <= k < |who| ensures who[k] < |decided| {
      assert who[k] in who;
      assert who[k] in visit;
    }
    VisitLists(decided);
    GroupOrderDistinct(visit, keyOf, Kinds(decided), groups, |groups|);
  }

  lemma {:induction false} MembersDistinct(visit: seq<nat>, keyOf: nat -> string, key: string)
    requires Distinct(visit)
    ensures Distinct(Members(visit, keyOf, key))
  {
    if visit != [] {
      var before, d := visit[..|visit| - 1], visit[|visit| - 1];
      MembersDistinct(before, keyOf, key);
      var m := Members(before, keyOf, key);
      forall a | 0 <= a < |m| ensures m[a] != d {
        assert m[a] in m;
        assert m[a] in before;
      }
    }
  }

  lemma {:induction false} GroupOrderDistinct(visit: seq<nat>, keyOf: nat -> string, kindOf: nat -> PiiType, groups: seq<Group>, n: nat)
    requires IsGrouping(visit, keyOf, kindOf, groups) && Distinct(visit) && n <= |groups|
    ensures Distinct(GroupOrder(groups, n))
  {
    if n > 0 {
      var before, items := GroupOrder(groups, n - 1), groups[n - 1].members;
      GroupOrderDistinct(visit, keyOf, kindOf, groups, n - 1);
      assert IsGroup(visit, keyOf, kindOf, groups, n - 1);
      MembersDistinct(visit, keyOf, groups[n - 1].key);
      forall a, b | 0 <= a < |before| && 0 <= b < |items| ensures before[a] != items[b] {
        assert before[a] in before && items[b] in items;
        var i :| 0 <= i < n - 1 && before[a] in groups[i].members;
        assert IsGroup(visit, keyOf, kindOf, groups, i);
        DistinctKeys(visit, keyOf, kindOf, groups);
      }
    }
  }

  /** All decisions keyed by their start. */
  function DecisionKeys(decided: seq<Decision>): (r: seq<Key>)
    ensures |r| == |decided|
  {
    seq(|decided|, d requires 0 <= d < |decided| => Key(0.0, 0, decided[d].candidate.start))
  }

  /** Two MASK decisions never start at the same place. */
  lemma {:induction false} StartsApart(text: string, decided: seq<Decision>, d: nat, e: nat)
    requires WellPlaced(text, CandidatesOf(decided)) && Overlap.Disjoint(CandidatesOf(decided))
    requires d < |decided| && e < |decided| && d != e
    ensures decided[d].candidate.start != decided[e].candidate.start
  {
    var c := CandidatesOf(decided);
    assert c[d] in c && c[e] in c;
    var i, j := if d < e then d else e, if d < e then e else d;
    assert !Selection.Overlaps(Selection.Interval(c[i].start, c[i].end), Selection.Interval(c[j].start, c[j].end));
  }

  /** Marks gathered in any order and sorted by start are the marks from left to right. */
  lemma {:induction false} SortedByGroup(text: string, decided: seq<Decision>, replace: (nat, Mapping) -> string,
                                         mappingOf: string -> Mapping, keyOf: nat -> string, who: seq<nat>, spans: seq<Marked>)
    requires WellPlaced(text, CandidatesOf(decided)) && Overlap.Disjoint(CandidatesOf(decided))
    requires Inside(who, |decided|) && Distinct(who) && forall d: nat :: d in who <==> d in Visit(decided)
    requires spans == MarksOf(decided, replace, mappingOf, keyOf, who)
    ensures Pick(spans, Rank(StartKeys(SpansIn(spans))))
         == MarksOf(decided, replace, mappingOf, keyOf, Visit(decided))
  {
    var keys := PositionKeys(decided, who);
    assert StartKeys(SpansIn(spans)) == keys;
    var order := Rank(keys);
    var again := Pick(who, order);
    Overlap.SameMembers(keys, who, order);
    Overlap.PickDistinct(keys, who, order);
    forall a, b | 0 <= a < b < |again|
      ensures decided[again[a]].candidate.start <= decided[again[b]].candidate.start
    {
      assert Precedes(keys, order[a], order[b]);
    }
    VisitLists(decided);
    ListedOnce(text, decided, again);
    ListedOnce(text, decided, Visit(decided));
    OrderedUnique(DecisionKeys(decided), again, Visit(decided));
  }

  lemma {:induction false} ListedOnce(text: string, decided: seq<Decision>, who: seq<nat>)
    requires WellPlaced(text, CandidatesOf(decided)) && Overlap.Disjoint(CandidatesOf(decided))
    requires Inside(who, |decided|) && Distinct(who)
    requires forall a, b :: 0 <= a < b < |who| ==> decided[who[a]].candidate.start <= decided[who[b]].candidate.start
    ensures Ordered(DecisionKeys(decided), who)
  {
    forall a, b | 0 <= a < b < |who| ensures Precedes(DecisionKeys(decided), who[a], who[b]) {
      StartsApart(text, decided, who[a], who[b]);
    }
  }

  // The two splices, which trust the stored order and do not sort.

  lemma {:induction false} TurnInOrder(payload: string, spans: seq<Span>, k: nat, cursor: nat)
    requires k < |spans| && InOrder(spans[k..], cursor, |payload|)
    ensures cursor <= spans[k].start <= spans[k].end <= |payload|
    ensures InOrder(spans[k + 1..], spans[k].end, |payload|)
    ensures Slice(payload, cursor, spans[k].start) == payload[cursor..spans[k].start]
  {
    InOrderStaysInside(spans[k..], cursor, |payload|);
    assert spans[k..][1..] == spans[k + 1..];
  }

  lemma {:induction false} TurnsDone(payload: string, spans: seq<Span>, cursor: nat)
    requires InOrder(spans[|spans|..], cursor, |payload|)
    ensures cursor <= |payload| && Splice(payload, spans[|spans|..], cursor) == payload[cursor..]
  {
  }

  /** Slices taken left to right; slicing out of order would panic, so the payload must be the
      one the occurrences were recorded for. */
  method SpliceInOrder(payload: string, spans: seq<Span>) returns (result: string)
    requires InOrder(spans, 0, |payload|)
    ensures result == Weave(Literals(payload, spans, 0), Texts(spans))
  {
    hide Splice, InOrder, Literals, Weave;
    result := "";
    var cursor: nat := 0;
    assert spans[0..] == spans;
    assert result + Splice(payload, spans[0..], cursor) == Splice(payload, spans, 0);
    for k := 0 to |spans|
      invariant InOrder(spans[k..], cursor, |payload|)
      invariant result + Splice(payload, spans[k..], cursor) == Splice(payload, spans, 0)
    {
      SpliceTurn(payload, result, spans, k, cursor);
      TurnInOrder(payload, spans, k, cursor);
      result := result + payload[cursor..spans[k].start];
      result := result + spans[k].text;
      cursor := spans[k].end;
    }
    TurnsDone(payload, spans, cursor);
    result := result + payload[cursor..];
    SplicesAgree(payload, spans);
  }

  method SpliceMaskedToOriginal(payload: string, occs: seq<Occurrence>) returns (result: string)
    requires InOrder(MaskedSpans(occs), 0, |payload|)
    ensures result == Weave(Literals(payload, MaskedSpans(occs), 0), Texts(MaskedSpans(occs)))
  {
    result := SpliceInOrder(payload, MaskedSpans(occs));
  }

  method SpliceOriginalToMasked(payload: string, occs: seq<Occurrence>) returns (result: string)
    requires InOrder(OriginalSpans(occs), 0, |payload|)
    ensures result == Weave(Literals(payload, OriginalSpans(occs), 0), Texts(OriginalSpans(occs)))
  {
    result := SpliceInOrder(payload, OriginalSpans(occs));
  }

  /** For the occurrences of any masking the splices are applicable and inverse to each other. */
  lemma {:induction false} GoSplicesInvert(text: string, marks: seq<Marked>, masked: string, occs: seq<Occurrence>)
    requires IsMasking(text, marks, masked, occs)
    ensures InOrder(OriginalSpans(occs), 0, |text|) && InOrder(MaskedSpans(occs), 0, |masked|)
    ensures Weave(Literals(text, OriginalSpans(occs), 0), Texts(OriginalSpans(occs))) == masked
    ensures Weave(Literals(masked, MaskedSpans(occs), 0), Texts(MaskedSpans(occs))) == text
  {
    var spans := SpansIn(marks);
    var lits, mids, reps := Literals(text, spans, 0), Middles(text, spans, 0), Texts(spans);
    CutIsWeave(text, spans, 0);
    assert text[0..] == text && masked[0..] == masked;
    OriginalSpansAre(lits, mids, reps, IdsIn(marks), 0, 0);
    MaskedSpansAre(lits, mids, reps, IdsIn(marks), 0, 0);
    DemaskExactness.WeaveSpansInOrder(text, lits, mids, reps, 0);
    DemaskExactness.WeaveSpansInOrder(masked, lits, reps, mids, 0);
    SplicesAgree(text, OriginalSpans(occs));
    SplicesAgree(masked, MaskedSpans(occs));
    SpliceSwapsMiddles(text, lits, mids, reps, 0);
    SpliceSwapsMiddles(masked, lits, reps, mids, 0);
  }
}
