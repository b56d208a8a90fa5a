/** Masking and demasking by value put together: what the pipeline records is what the demasker
    needs, so any rewording of the masked text is restored from the record alone. */
module RoundTrips {
  import opened DemaskExactness
  import opened Demasking
  import opened Engine
  import opened Identity
  import opened Models
  import opened Pipeline
  import opened Surrogates
  import opened TokenDemasking
  import opened Weaving

  /** The recorded mappings have minted tokens, no two alike. */
  lemma {:induction false} RecordedTokens(text: string, decisions: seq<Decision>, keyOf: nat -> string,
                                          replace: (nat, Mapping) -> string, groups: seq<Group>, synth: seq<string>, t: Transform)
    requires IsTransformOf(text, decisions, keyOf, replace, groups, synth, t)
    ensures Mapped(t.mappings)
  {
    var visit, kindOf := Visit(decisions), Kinds(decisions);
    forall i | 0 <= i < |groups| ensures IsToken(t.mappings[i].token) {
      assert IsGroup(visit, keyOf, kindOf, groups, i);
      MintedIsToken(kindOf(groups[i].members[0]), groups[i].number);
    }
    forall i, j | 0 <= i < j < |groups| ensures t.mappings[i].token != t.mappings[j].token {
      TokensDistinct(visit, keyOf, kindOf, groups, i, j);
    }
  }

  // A rewording: `owner[k]` is the mapping that piece `k` stands for.

  predicate Owners(mappings: seq<Mapping>, owner: seq<nat>) {
    forall k :: 0 <= k < |owner| ==> owner[k] < |mappings|
  }

  function TokensAt(mappings: seq<Mapping>, owner: seq<nat>): (r: seq<string>)
    requires Owners(mappings, owner)
    ensures |r| == |owner|
  {
    seq(|owner|, k requires 0 <= k < |owner| => mappings[owner[k]].token)
  }

  function OriginalsAt(mappings: seq<Mapping>, owner: seq<nat>): (r: seq<string>)
    requires Owners(mappings, owner)
    ensures |r| == |owner|
  {
    seq(|owner|, k requires 0 <= k < |owner| => mappings[owner[k]].original)
  }

  /** Tokens in any text of token-free literals are restored from the record, each to the
      original of its entity. */
  lemma {:induction false} TokensRestored(
      text: string, decisions: seq<Decision>, keyOf: nat -> string, replace: (nat, Mapping) -> string,
      groups: seq<Group>, synth: seq<string>, t: Transform, alternatives: seq<string>, lits: seq<string>, owner: seq<nat>)
    requires IsTransformOf(text, decisions, keyOf, replace, groups, synth, t)
    requires Owners(t.mappings, owner) && |lits| == |owner| + 1
    requires forall x :: x in alternatives <==> x in OriginalsByToken(t.mappings)
    requires forall k :: 0 <= k < |lits| ==> TokenFree(lits[k], alternatives)
    ensures Scan(alternatives, OriginalsByToken(t.mappings), Weave(lits, TokensAt(t.mappings, owner)))
         == Weave(lits, OriginalsAt(t.mappings, owner))
  {
    var originals := OriginalsByToken(t.mappings);
    RecordedTokens(text, decisions, keyOf, replace, groups, synth, t);
    forall x | x in alternatives ensures IsToken(x) {
      OriginalsOf(t.mappings, x);
    }
    forall k | 0 <= k < |owner|
      ensures t.mappings[owner[k]].token in originals && originals[t.mappings[owner[k]].token] == t.mappings[owner[k]].original
    {
      OriginalsOf(t.mappings, t.mappings[owner[k]].token);
    }
    ScanIsExact(alternatives, originals, lits, TokensAt(t.mappings, owner), OriginalsAt(t.mappings, owner));
  }

  lemma {:induction false} OwnerOf(visit: seq<nat>, keyOf: nat -> string, kindOf: nat -> PiiType, groups: seq<Group>, d: nat)
    returns (i: nat)
    requires IsGrouping(visit, keyOf, kindOf, groups) && d in visit
    ensures i < |groups| && d in groups[i].members && groups[i].key == keyOf(d)
  {
    GroupsPartition(visit, keyOf, kindOf, groups, d);
    i :| i < |groups| && d in groups[i].members;
    assert IsGroup(visit, keyOf, kindOf, groups, i);
  }

  /** The group of each visited decision. */
  lemma {:induction false} OwnersOfVisit(visit: seq<nat>, keyOf: nat -> string, kindOf: nat -> PiiType, groups: seq<Group>)
    returns (owner: seq<nat>)
    requires IsGrouping(visit, keyOf, kindOf, groups)
    ensures |owner| == |visit|
    ensures forall k :: 0 <= k < |owner| ==> owner[k] < |groups| && visit[k] in groups[owner[k]].members
                                             && groups[owner[k]].key == keyOf(visit[k])
  {
    hide IsGrouping;
    owner := [];
    for n := 0 to |visit|
      invariant |owner| == n
      invariant forall k :: 0 <= k < n ==> owner[k] < |groups| && visit[k] in groups[owner[k]].members
                                           && groups[owner[k]].key == keyOf(visit[k])
    {
      var i := OwnerOf(visit, keyOf, kindOf, groups, visit[n]);
      owner := owner + [i];
    }
  }

  lemma {:induction false} TokenOwners(
      text: string, decisions: seq<Decision>, keyOf: nat -> string, replace: (nat, Mapping) -> string,
      groups: seq<Group>, synth: seq<string>, t: Transform)
    returns (owner: seq<nat>)
    requires IsTransformOf(text, decisions, keyOf, replace, groups, synth, t)
    ensures |owner| == |Visit(decisions)| && Owners(t.mappings, owner) && |t.mappings| == |groups|
    ensures forall k :: 0 <= k < |owner| ==> owner[k] < |groups| && Visit(decisions)[k] in groups[owner[k]].members
                                             && groups[owner[k]].key == keyOf(Visit(decisions)[k])
  {
    hide IsGrouping, IsMasking, Visit, Kinds;
    owner := OwnersOfVisit(Visit(decisions), keyOf, Kinds(decisions), groups);
  }

  /** The masked text shows the owners' tokens between the literals. */
  lemma {:induction false} TokenModeText(
      text: string, decisions: seq<Decision>, keyOf: nat -> string, replace: (nat, Mapping) -> string,
      groups: seq<Group>, synth: seq<string>, t: Transform, owner: seq<nat>)
    requires IsTransformOf(text, decisions, keyOf, replace, groups, synth, t)
    requires forall d, m :: replace(d, m) == m.token
    requires |owner| == |Visit(decisions)| && |t.mappings| == |groups| && Owners(t.mappings, owner)
    requires forall k :: 0 <= k < |owner| ==> owner[k] < |groups| && groups[owner[k]].key == keyOf(Visit(decisions)[k])
    ensures var spans := SpansIn(MarksOf(decisions, replace, LookUp(ByKey(groups, t.mappings)), keyOf, Visit(decisions)));
            && InOrder(spans, 0, |text|) && |spans| == |Visit(decisions)|
            && t.text == Weave(Literals(text, spans, 0), TokensAt(t.mappings, owner))
            && forall k :: 0 <= k < |spans| ==>
                 && spans[k].start == decisions[Visit(decisions)[k]].candidate.start
                 && spans[k].end == decisions[Visit(decisions)[k]].candidate.end
  {
    hide IsGrouping, Weave, Literals, ByKey, Visit, Kinds, InOrder;
    TokensInPlace(decisions, keyOf, replace, groups, synth, t.mappings, owner);
  }

  /** Token mode, end to end: the scan of the masked text gives back the text with every masked
      span as its entity was first written; so exactly the text, when entities recur unchanged. */
  lemma {:induction false} TokenModeRoundTrip(
      text: string, decisions: seq<Decision>, keyOf: nat -> string, replace: (nat, Mapping) -> string,
      groups: seq<Group>, synth: seq<string>, t: Transform, alternatives: seq<string>)
    returns (spans: seq<Span>, owner: seq<nat>)
    requires IsTransformOf(text, decisions, keyOf, replace, groups, synth, t)
    requires forall d, m :: replace(d, m) == m.token
    requires forall x :: x in alternatives <==> x in OriginalsByToken(t.mappings)
    ensures InOrder(spans, 0, |text|) && |owner| == |spans| == |Visit(decisions)| && Owners(t.mappings, owner)
    ensures forall k :: 0 <= k < |spans| ==>
              && spans[k].start == decisions[Visit(decisions)[k]].candidate.start
              && spans[k].end == decisions[Visit(decisions)[k]].candidate.end
              && owner[k] < |groups| && Visit(decisions)[k] in groups[owner[k]].members
    ensures (forall k :: 0 <= k <= |spans| ==> TokenFree(Literals(text, spans, 0)[k], alternatives)) ==>
              var restored := Scan(alternatives, OriginalsByToken(t.mappings), t.text);
              && restored == Weave(Literals(text, spans, 0), OriginalsAt(t.mappings, owner))
              && (OriginalsAt(t.mappings, owner) == Middles(text, spans, 0) ==> restored == text)
  {
    hide IsTransformOf, Scan, Weave, ByKey, Literals, Middles, Visit, MarksOf;
    owner := TokenOwners(text, decisions, keyOf, replace, groups, synth, t);
    spans := SpansIn(MarksOf(decisions, replace, LookUp(ByKey(groups, t.mappings)), keyOf, Visit(decisions)));
    TokenModeText(text, decisions, keyOf, replace, groups, synth, t, owner);
    if forall k :: 0 <= k <= |spans| ==> TokenFree(Literals(text, spans, 0)[k], alternatives) {
      TokensRestored(text, decisions, keyOf, replace, groups, synth, t, alternatives, Literals(text, spans, 0), owner);
    }
    SplicesAgree(text, spans);
  }

  /** In token mode the replacements are the tokens of the owners. */
  lemma {:induction false} TokensInPlace(
      decisions: seq<Decision>, keyOf: nat -> string, replace: (nat, Mapping) -> string,
      groups: seq<Group>, synth: seq<string>, mappings: seq<Mapping>, owner: seq<nat>)
    requires IsGrouping(Visit(decisions), keyOf, Kinds(decisions), groups) && |mappings| == |groups|
    requires forall d, m :: replace(d, m) == m.token
    requires |owner| == |Visit(decisions)|
    requires forall k :: 0 <= k < |owner| ==> owner[k] < |groups| && groups[owner[k]].key == keyOf(Visit(decisions)[k])
    ensures Owners(mappings, owner)
    ensures Texts(SpansIn(MarksOf(decisions, replace, LookUp(ByKey(groups, mappings)), keyOf, Visit(decisions))))
         == TokensAt(mappings, owner)
  {
    var visit := Visit(decisions);
    var marks := MarksOf(decisions, replace, LookUp(ByKey(groups, mappings)), keyOf, visit);
    KeysApart(visit, keyOf, Kinds(decisions), groups);
    forall k | 0 <= k < |visit| ensures marks[k].span.text == mappings[owner[k]].token {
      ByKeyFinds(groups, mappings, owner[k]);
    }
  }

  lemma {:induction false} KeysApart(visit: seq<nat>, keyOf: nat -> string, kindOf: nat -> PiiType, groups: seq<Group>)
    requires IsGrouping(visit, keyOf, kindOf, groups)
    ensures forall i, j :: 0 <= i < j < |groups| ==> groups[i].key != groups[j].key
  {
    forall i, j | 0 <= i < j < |groups| ensures groups[i].key != groups[j].key {
      assert IsGroup(visit, keyOf, kindOf, groups, i) && IsGroup(visit, keyOf, kindOf, groups, j);
    }
  }

  // Surrogates.

  /** The needles of `_demask_synthetic`: per mapping its token and its surrogate. */
  function NeedlesOf(mappings: seq<Mapping>): (r: seq<Needle>)
    ensures forall n :: n in r <==>
              exists i :: 0 <= i < |mappings| && n.original == mappings[i].original && n.text != ""
                && (n.text == mappings[i].token || n.text == mappings[i].synthetic)
  {
    if mappings == [] then []
    else
      var before, m := mappings[..|mappings| - 1], mappings[|mappings| - 1];
      assert mappings == before + [m];
      NeedlesOf(before)
      + (if m.token != "" then [Needle(m.token, m.original)] else [])
      + (if m.synthetic != "" then [Needle(m.synthetic, m.original)] else [])
  }

  /** With surrogates chosen as the pipeline does, from draws that are never tokens, a recorded
      needle stands for one original. */
  lemma {:induction false} RecordedNeedles(
      text: string, decisions: seq<Decision>, keyOf: nat -> string, replace: (nat, Mapping) -> string,
      groups: seq<Group>, synth: seq<string>, t: Transform,
      draw: (nat, nat) -> string, shapeCollides: (nat, nat) -> bool, fallback: seq<bool>)
    requires IsTransformOf(text, decisions, keyOf, replace, groups, synth, t)
    requires AllChosen(groups, text, draw, shapeCollides, synth, fallback)
    requires forall i: nat, j: nat, k: nat :: i < |groups| && j < |groups| ==> draw(i, k) != TokenFor(groups[j].entityId)
    ensures Functional(NeedlesOf(t.mappings))
    ensures forall i :: 0 <= i < |synth| ==> synth[i] != ""
  {
    forall i, j | 0 <= i < j < |groups| ensures groups[i].entityId != groups[j].entityId {
      TokensDistinct(Visit(decisions), keyOf, Kinds(decisions), groups, i, j);
    }
    hide NeedlesOf, AllChosen, IsGrouping, Functional;
    SurrogatesDistinct(groups, text, draw, shapeCollides, synth, fallback);
    RecordedTokens(text, decisions, keyOf, replace, groups, synth, t);
    forall i | 0 <= i < |groups|
      ensures synth[i] != "" && forall j :: 0 <= j < |groups| && synth[i] == t.mappings[j].token ==> i == j
    {
      ChosenNotForeign(groups, text, draw, shapeCollides, synth, fallback, i);
      assert forall j :: 0 <= j < |groups| ==> t.mappings[j].token == TokenFor(groups[j].entityId);
      assert forall j :: 0 <= j < |groups| && j != i ==> t.mappings[j].token != t.mappings[i].token;
    }
    NeedlesFunctional(t.mappings);
  }

  /** A chosen surrogate is not empty, and no token but perhaps its own. */
  lemma {:induction false} ChosenNotForeign(groups: seq<Group>, text: string, draw: (nat, nat) -> string,
                                            shapeCollides: (nat, nat) -> bool, synth: seq<string>, fallback: seq<bool>, i: nat)
    requires AllChosen(groups, text, draw, shapeCollides, synth, fallback) && i < |groups|
    requires forall i: nat, j: nat, k: nat :: i < |groups| && j < |groups| ==> draw(i, k) != TokenFor(groups[j].entityId)
    ensures synth[i] != ""
    ensures forall j :: 0 <= j < |groups| && synth[i] == TokenFor(groups[j].entityId) ==> synth[i] == TokenFor(groups[i].entityId)
  {
    assert Chosen(groups, text, draw, shapeCollides, synth, fallback, i);
  }

  /** Distinct tokens, distinct surrogates, and no surrogate that is another's token. */
  lemma {:induction false} NeedlesFunctional(mappings: seq<Mapping>)
    requires forall i, j :: 0 <= i < j < |mappings| ==>
               mappings[i].token != mappings[j].token && mappings[i].synthetic != mappings[j].synthetic
    requires forall i :: 0 <= i < |mappings| ==> forall j :: 0 <= j < |mappings| && mappings[i].synthetic == mappings[j].token ==> i == j
    ensures Functional(NeedlesOf(mappings))
  {
    forall a, b | a in NeedlesOf(mappings) && b in NeedlesOf(mappings) && a.text == b.text ensures a.original == b.original {
      var i :| 0 <= i < |mappings| && a.original == mappings[i].original && a.text != ""
               && (a.text == mappings[i].token || a.text == mappings[i].synthetic);
      var j :| 0 <= j < |mappings| && b.original == mappings[j].original && b.text != ""
               && (b.text == mappings[j].token || b.text == mappings[j].synthetic);
      assert i == j;
    }
  }

  /** What stands in the text for each piece: the surrogate of its entity, or its token where the
      morphology was not trusted. */
  function Shown(mappings: seq<Mapping>, owner: seq<nat>, viaToken: seq<bool>): (r: seq<string>)
    requires Owners(mappings, owner) && |viaToken| == |owner|
    ensures |r| == |owner|
  {
    seq(|owner|, k requires 0 <= k < |owner| =>
      if viaToken[k] then mappings[owner[k]].token else mappings[owner[k]].synthetic)
  }

  /** Surrogates and tokens in any reworded text are restored from the record, as long as each
      stands between non-word characters and nothing else in the text looks like one. */
  lemma {:induction false} SurrogatesRestored(
      text: string, decisions: seq<Decision>, keyOf: nat -> string, replace: (nat, Mapping) -> string,
      groups: seq<Group>, synth: seq<string>, t: Transform,
      draw: (nat, nat) -> string, shapeCollides: (nat, nat) -> bool, fallback: seq<bool>,
      lits: seq<string>, owner: seq<nat>, viaToken: seq<bool>, isWord: char -> bool)
    requires IsTransformOf(text, decisions, keyOf, replace, groups, synth, t)
    requires AllChosen(groups, text, draw, shapeCollides, synth, fallback)
    requires forall i: nat, j: nat, k: nat :: i < |groups| && j < |groups| ==> draw(i, k) != TokenFor(groups[j].entityId)
    requires Owners(t.mappings, owner) && |viaToken| == |owner| && |lits| == |owner| + 1
    requires var shown := Shown(t.mappings, owner, viaToken);
             var places := SpansOf(lits, shown, OriginalsAt(t.mappings, owner), 0);
             && (forall k :: 0 <= k < |places| ==> IsMatch(Weave(lits, shown), isWord, shown[k], places[k].start))
             && NothingElseMatches(Weave(lits, shown), isWord, NeedlesOf(t.mappings), places)
    ensures var shown := Shown(t.mappings, owner, viaToken);
            Resolved(Weave(lits, shown), AllMatches(Weave(lits, shown), isWord, NeedlesOf(t.mappings)))
            == Weave(lits, OriginalsAt(t.mappings, owner))
  {
    var shown, originals := Shown(t.mappings, owner, viaToken), OriginalsAt(t.mappings, owner);
    RecordedNeedles(text, decisions, keyOf, replace, groups, synth, t, draw, shapeCollides, fallback);
    RecordedTokens(text, decisions, keyOf, replace, groups, synth, t);
    forall k | 0 <= k < |shown| ensures shown[k] != "" && Needle(shown[k], originals[k]) in NeedlesOf(t.mappings) {
      var m := t.mappings[owner[k]];
      assert m.token != "" && m.synthetic == synth[owner[k]];
    }
    DemaskIsExact(lits, shown, originals, isWord, NeedlesOf(t.mappings));
  }
}
