/** The resolver as it is written: persons and the components of mentions are updated in place.
    Every method is proved to do what the rule in Persons says. */
module Resolver {
  import opened Models
  import opened Persons
  import opened Ranking
  import PersonTheorems

  /** `metadata["name_parts"]` of a decision and its gender; resolution writes roles into it. */
  class NameMention {
    const start: nat
    const gender: Option<string>
    var components: seq<Component>

    constructor (start: nat, gender: Option<string>, components: seq<Component>)
      ensures this.start == start && this.gender == gender && this.components == components
    {
      this.start, this.gender, this.components := start, gender, components;
    }

    function View(): Mention
      reads this
    {
      Mention(components, gender)
    }

    method AnnotateRoles(assignment: map<nat, Role>)
      modifies this
      ensures components == Annotate(old(components), assignment)
    {
      components := Annotate(components, assignment);
    }
  }

  class ResolvedPerson {
    const ordinal: nat
    var decisions: seq<nat>     // positions of its mentions in the sorted list
    var parts: seq<Part>
    var gender: Option<string>

    constructor (ordinal: nat, gender: Option<string>)
      ensures View() == Person(ordinal, [], [], gender)
    {
      this.ordinal, this.gender := ordinal, gender;
      decisions, parts := [], [];
    }

    function View(): Person
      reads this
    {
      Person(ordinal, decisions, parts, gender)
    }

    method MatchMentionWords(comps: seq<Component>) returns (m: Option<Match>)
      ensures m == MatchWords(parts, comps, |comps|)
    {
      var found := NO_MATCH;
      for i := 0 to |comps|
        invariant MatchWords(parts, comps, i) == Some(found)
      {
        if Named(comps[i]) {
          var next := AssignWord(parts, comps[i], i, found);
          if next.None? {
            StaysUnmatched(parts, comps, i + 1, |comps|);
            return None;
          }
          found := next.value;
        }
      }
      m := Some(found);
    }

    method MatchMentionInitials(comps: seq<Component>, upper: string -> string, assignment: map<nat, Role>)
      returns (r: Option<map<nat, Role>>)
      ensures r == MatchInitials(parts, comps, upper, |comps|, assignment)
    {
      var a, n := assignment, 0;
      for i := 0 to |comps|
        invariant n == InitialCount(comps, i)
        invariant MatchInitials(parts, comps, upper, i, assignment) == Some(a)
      {
        if comps[i].Initial? {
          var fits := false;
          if n < 2 {
            var known := Known(parts, Expected(n).value);
            fits := known.Some? && known.value != "" && upper(known.value[..1]) == upper(comps[i].letter);
          }
          if !fits {
            StaysUnverified(parts, comps, upper, assignment, i + 1, |comps|);
            return None;
          }
          a, n := a[i := Expected(n).value], n + 1;
        }
      }
      r := Some(a);
    }

    method IsCompatible(m: NameMention, upper: string -> string) returns (a: Option<map<nat, Role>>)
      ensures a == Compatible(View(), m.View(), upper)
      ensures PersonTheorems.PartsDistinct(parts) ==> (a.Some? <==> PersonTheorems.MayBe(View(), m.View(), upper))
    {
      PersonTheorems.CompatibleIfDistinct(View(), m.View(), upper);
      if GenderConflict(gender, m.gender) {
        return None;
      }
      var comps := m.components;
      var words := MatchMentionWords(comps);
      if words.None? {
        return None;
      }
      var w := words.value;
      if Surname !in w.matched {
        return None;
      }
      if InitialCount(comps, |comps|) > 0 {
        a := MatchMentionInitials(comps, upper, w.assignment);
        return;
      }
      if First !in w.matched && Patronymic !in w.matched {
        return None;
      }
      a := Some(w.assignment + w.newInfo);
    }

    method Absorb(d: nat, m: NameMention)
      modifies this
      ensures View() == Absorbed(old(View()), d, m.View())
    {
      var comps := m.components;
      decisions := decisions + [d];
      if gender.None? && m.gender.Some? && m.gender.value != "" {
        gender := m.gender;
      }
      ghost var before := parts;
      for i := 0 to |comps|
        invariant parts == Learned(before, comps, i)
        invariant decisions == old(decisions) + [d]
        invariant gender == Absorbed(old(View()), d, m.View()).gender
      {
        var c := comps[i];
        if Named(c) && c.role.Some? && Known(parts, c.role.value).None? {
          parts := parts + [Part(c.role.value, c.normalized)];
        }
      }
    }
  }

  lemma {:induction false} StaysUnmatched(parts: seq<Part>, comps: seq<Component>, n: nat, n': nat)
    requires n <= n' <= |comps| && MatchWords(parts, comps, n).None?
    ensures MatchWords(parts, comps, n').None?
    decreases n'
  {
    if n < n' {
      StaysUnmatched(parts, comps, n, n' - 1);
    }
  }

  lemma {:induction false} StaysUnverified(parts: seq<Part>, comps: seq<Component>, upper: string -> string,
                                           assignment: map<nat, Role>, n: nat, n': nat)
    requires n <= n' <= |comps| && MatchInitials(parts, comps, upper, n, assignment).None?
    ensures MatchInitials(parts, comps, upper, n', assignment).None?
    decreases n'
  {
    if n < n' {
      StaysUnverified(parts, comps, upper, assignment, n, n' - 1);
    }
  }

  function Views(entities: seq<ResolvedPerson>): (r: seq<Person>)
    reads entities
    ensures |r| == |entities| && forall i :: 0 <= i < |r| ==> r[i] == entities[i].View()
  {
    seq(|entities|, i requires 0 <= i < |entities| reads entities => entities[i].View())
  }

  function Mentions(s: seq<NameMention>): (r: seq<Mention>)
    reads s
    ensures |r| == |s| && forall d :: 0 <= d < |r| ==> r[d] == s[d].View()
  {
    seq(|s|, d requires 0 <= d < |s| reads s => s[d].View())
  }

  method FindMatches(entities: seq<ResolvedPerson>, m: NameMention, upper: string -> string) returns (found: seq<nat>)
    ensures found == Matches(Views(entities), m.View(), upper, |entities|)
  {
    found := [];
    ghost var persons := Views(entities);
    for i := 0 to |entities|
      invariant found == Matches(persons, m.View(), upper, i)
    {
      var a := entities[i].IsCompatible(m, upper);
      if a.Some? {
        found := found + [i];
      }
    }
  }

  /** One mention: exactly one match absorbs it; none or several make a new person. */
  method PlaceMention(entities: seq<ResolvedPerson>, d: nat, m: NameMention, upper: string -> string, ghost run: Run)
    returns (after: seq<ResolvedPerson>)
    requires Separate(entities) && Views(entities) == run.persons && |run.comps| == d
    modifies entities, m
    ensures Separate(after) && forall i :: 0 <= i < |after| ==> after[i] in entities || fresh(after[i])
    ensures Views(after) == Place(run, old(m.View()), upper).persons
    ensures run.comps + [m.components] == Place(run, old(m.View()), upper).comps
  {
    hide Compatible, Absorbed, Annotate, Matches;
    var found := FindMatches(entities, m, upper);
    if |found| == 1 {
      var entity := entities[found[0]];
      var assignment := entity.IsCompatible(m, upper);
      m.AnnotateRoles(assignment.value);
      entity.Absorb(d, m);
      after := entities;
    } else {
      var entity := new ResolvedPerson(|entities| + 1, m.gender);
      entity.Absorb(d, m);
      after := entities + [entity];
    }
  }

  function StartKeys(decisions: seq<NameMention>): (r: seq<Key>)
    ensures |r| == |decisions|
  {
    seq(|decisions|, d requires 0 <= d < |decisions| => Key(0.0, 0, decisions[d].start))
  }

  function ByStart(decisions: seq<NameMention>): seq<NameMention> {
    Pick(decisions, Rank(StartKeys(decisions)))
  }

  /** Every mention once, by start, and those with equal starts as they came. */
  lemma {:induction false} SortedMentions(decisions: seq<NameMention>) returns (order: seq<nat>)
    ensures |order| == |decisions| && Distinct(order)
    ensures forall k :: 0 <= k < |order| ==> order[k] < |decisions|
    ensures ByStart(decisions) == seq(|order|, k requires 0 <= k < |order| => decisions[order[k]])
    ensures forall a, b :: 0 <= a < b < |order| ==>
              var (m, n) := (decisions[order[a]], decisions[order[b]]);
              m.start < n.start || (m.start == n.start && order[a] < order[b])
  {
    var keys := StartKeys(decisions);
    order := Rank(keys);
    forall a, b | 0 <= a < b < |order|
      ensures order[a] != order[b]
      ensures var (m, n) := (decisions[order[a]], decisions[order[b]]);
              m.start < n.start || (m.start == n.start && order[a] < order[b])
    {
      assert Precedes(keys, order[a], order[b]);
    }
  }

  /** The persons and the annotated components at the end are those of a run of the rule over
      the mentions as they were, in order of their starts. */
  method ResolvePersonEntities(decisions: seq<NameMention>, upper: string -> string)
    returns (entities: seq<ResolvedPerson>, ghost trace: seq<Run>)
    requires Separate(decisions)
    modifies decisions
    ensures IsTrace(old(Mentions(ByStart(decisions))), upper, trace) && |trace| == |decisions| + 1
    ensures Views(entities) == trace[|decisions|].persons
    ensures Annotated(ByStart(decisions), trace[|decisions|].comps, |decisions|)
  {
    hide Place, ByStart;
    var sorted := ByStart(decisions);
    SortedSeparate(decisions);
    ghost var ms := Mentions(sorted);
    entities, trace := [], [NOBODY];
    for d := 0 to |sorted|
      invariant |trace| == d + 1 && IsTrace(ms, upper, trace)
      invariant Separate(entities) && forall i :: 0 <= i < |entities| ==> fresh(entities[i])
      invariant Views(entities) == trace[d].persons
      invariant Annotated(sorted, trace[d].comps, d)
      invariant forall k :: d <= k < |sorted| ==> sorted[k].View() == ms[k]
    {
      ghost var run := trace[d];
      assert sorted[d] in ByStart(decisions);
      assert sorted[d] in decisions;
      entities := PlaceMention(entities, d, sorted[d], upper, run);
      ghost var next := Place(run, ms[d], upper);
      TraceGrows(ms, upper, trace, next);
      trace := trace + [next];
    }
  }

  ghost predicate Annotated(sorted: seq<NameMention>, comps: seq<seq<Component>>, n: nat)
    reads sorted
  {
    |comps| == n <= |sorted| && forall k :: 0 <= k < n ==> sorted[k].components == comps[k]
  }

  lemma {:induction false} TraceGrows(ms: seq<Mention>, upper: string -> string, trace: seq<Run>, next: Run)
    requires IsTrace(ms, upper, trace) && |trace| <= |ms| && next == Place(trace[|trace| - 1], ms[|trace| - 1], upper)
    ensures IsTrace(ms, upper, trace + [next])
  {
    hide Place;
    forall k: nat | k + 1 < |trace| + 1 ensures PlacedNext(ms, upper, trace + [next], k) {
      if k + 1 < |trace| {
        assert PlacedNext(ms, upper, trace, k);
      }
    }
  }

  lemma {:induction false} SortedSeparate(decisions: seq<NameMention>)
    requires Separate(decisions)
    ensures |ByStart(decisions)| == |decisions| && Separate(ByStart(decisions))
    ensures forall m :: m in ByStart(decisions) ==> m in decisions
  {
    var keys := StartKeys(decisions);
    var order := Rank(keys);
    forall a, b | 0 <= a < b < |order| ensures decisions[order[a]] != decisions[order[b]] {
      assert Precedes(keys, order[a], order[b]);
    }
  }
}
