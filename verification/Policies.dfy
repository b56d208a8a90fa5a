/** The consumer's policy over contextual decisions: it can only take a mask away. */
module Policies {
  import opened Models
  import opened Substrings
  import opened Weaving

  datatype Rule = Rule(whenKind: PiiType, requiresNearby: PiiType, windowChars: int)

  /** Close enough, and in the same blank-line separated paragraph. */
  predicate Nearby(rule: Rule, text: string, a: Candidate, b: Candidate) {
    var gapLeft := if b.end < a.end then b.end else a.end;
    var gapRight := if a.start < b.start then b.start else a.start;
    && !(gapLeft < gapRight && Contains(Slice(text, gapLeft, gapRight), "\n\n"))
    && a.start - b.end <= rule.windowChars && b.start - a.end <= rule.windowChars && 0 <= rule.windowChars
  }

  /** Some other candidate of the required kind is near. */
  predicate Satisfied(rule: Rule, text: string, all: seq<Candidate>, k: nat)
    requires k < |all|
  {
    exists j :: 0 <= j < |all| && j != k && all[j].kind == rule.requiresNearby && Nearby(rule, text, all[k], all[j])
  }

  predicate MeetsRules(rules: seq<Rule>, text: string, all: seq<Candidate>, k: nat)
    requires k < |all|
  {
    forall r :: 0 <= r < |rules| && rules[r].whenKind == all[k].kind ==> Satisfied(rules[r], text, all, k)
  }

  /** The two passes of `evaluate`; decision `k` is about candidate `k`. */
  function Evaluate(rules: seq<Rule>, wanted: PiiType -> bool, text: string, decisions: seq<Decision>, all: seq<Candidate>)
    : (r: seq<Decision>)
    requires |all| == |decisions|
    ensures |r| == |decisions|
  {
    var related := seq(|decisions|, k requires 0 <= k < |decisions| =>
      if decisions[k].verdict.Mask? && !MeetsRules(rules, text, all, k) then decisions[k].(verdict := Keep) else decisions[k]);
    seq(|decisions|, k requires 0 <= k < |decisions| =>
      if related[k].verdict.Mask? && !wanted(related[k].candidate.kind) then related[k].(verdict := Keep) else related[k])
  }

  /** Candidates and their spans pass through; a mask survives exactly when every rule about its
      kind is met and the consumer wants the kind masked; everything else keeps its verdict. */
  lemma {:induction false} OnlyMasksFall(rules: seq<Rule>, wanted: PiiType -> bool, text: string,
                                         decisions: seq<Decision>, all: seq<Candidate>, k: nat)
    requires |all| == |decisions| && k < |decisions| && all[k] == decisions[k].candidate
    ensures var r := Evaluate(rules, wanted, text, decisions, all);
            && r[k].candidate == decisions[k].candidate
            && (!decisions[k].verdict.Mask? ==> r[k].verdict == decisions[k].verdict)
            && (decisions[k].verdict.Mask? ==>
                 r[k].verdict == if MeetsRules(rules, text, all, k) && wanted(all[k].kind) then Mask else Keep)
  {
  }

  // When two candidates are near.

  /** A blank line stands between the positions `x` and `y`. */
  predicate BreakBetween(text: string, x: nat, y: nat) {
    exists p: nat :: x <= p && p + 2 <= y && p + 2 <= |text| && text[p] == '\n' && text[p + 1] == '\n'
  }

  /** One stands before the other, at most `window` characters away and without a blank line
      between them; or the two spans meet. */
  predicate Close(text: string, a: Candidate, b: Candidate, window: int) {
    || (b.end <= a.start && a.start - b.end <= window && !BreakBetween(text, b.end, a.start))
    || (a.end <= b.start && b.start - a.end <= window && !BreakBetween(text, a.end, b.start))
    || (a.start < b.end && b.start < a.end)
  }

  lemma {:induction false} NearbyMeans(rule: Rule, text: string, a: Candidate, b: Candidate)
    requires a.start < a.end <= |text| && b.start < b.end <= |text| && 0 <= rule.windowChars
    ensures Nearby(rule, text, a, b) <==> Close(text, a, b, rule.windowChars)
  {
    if b.end <= a.start {
      BreakRead(text, b.end, a.start);
    } else if a.end <= b.start {
      BreakRead(text, a.end, b.start);
    }
  }

  lemma {:induction false} BreakRead(text: string, x: nat, y: nat)
    requires x <= y <= |text|
    ensures Contains(Slice(text, x, y), "\n\n") <==> BreakBetween(text, x, y)
  {
    var gap := Slice(text, x, y);
    if at :| 0 <= at <= |gap| && OccursAt(gap, "\n\n", at) {
      assert gap[at..at + 2][0] == text[x + at] && gap[at..at + 2][1] == text[x + at + 1];
    }
    if p: nat :| x <= p && p + 2 <= y && p + 2 <= |text| && text[p] == '\n' && text[p + 1] == '\n' {
      assert gap[p - x..p - x + 2] == "\n\n";
      assert OccursAt(gap, "\n\n", p - x);
    }
  }

  /** The rules of the service: a PIN is personal only near a card number. */
  const DEFAULT_RULES: seq<Rule> := [Rule(Pin, CardNumber, 300)]

  /** A masked PIN the consumer wants masked falls to KEEP exactly when no other candidate is a card
      number within 300 characters of it in the same paragraph. */
  lemma {:induction false} LonePinIsKept(wanted: PiiType -> bool, text: string, decisions: seq<Decision>, all: seq<Candidate>, k: nat)
    requires |all| == |decisions| && k < |decisions| && all[k] == decisions[k].candidate
    requires forall j :: 0 <= j < |all| ==> all[j].start < all[j].end <= |text|
    requires decisions[k].verdict.Mask? && all[k].kind.Pin? && wanted(Pin)
    ensures Evaluate(DEFAULT_RULES, wanted, text, decisions, all)[k].verdict
         == if exists j :: 0 <= j < |all| && j != k && all[j].kind.CardNumber? && Close(text, all[k], all[j], 300) then Mask else Keep
  {
    OnlyMasksFall(DEFAULT_RULES, wanted, text, decisions, all, k);
    forall j | 0 <= j < |all| ensures Nearby(DEFAULT_RULES[0], text, all[k], all[j]) <==> Close(text, all[k], all[j], 300) {
      NearbyMeans(DEFAULT_RULES[0], text, all[k], all[j]);
    }
    assert MeetsRules(DEFAULT_RULES, text, all, k) <==> Satisfied(DEFAULT_RULES[0], text, all, k);
  }

  /** No rule is about any other kind: there only the consumer decides. */
  lemma {:induction false} OtherKindsAsWanted(wanted: PiiType -> bool, text: string, decisions: seq<Decision>, all: seq<Candidate>, k: nat)
    requires |all| == |decisions| && k < |decisions| && all[k] == decisions[k].candidate
    requires decisions[k].verdict.Mask? && !all[k].kind.Pin?
    ensures Evaluate(DEFAULT_RULES, wanted, text, decisions, all)[k].verdict == if wanted(all[k].kind) then Mask else Keep
  {
    OnlyMasksFall(DEFAULT_RULES, wanted, text, decisions, all, k);
  }

  /** A second evaluation changes nothing. */
  lemma {:induction false} EvaluateTwice(rules: seq<Rule>, wanted: PiiType -> bool, text: string,
                                         decisions: seq<Decision>, all: seq<Candidate>)
    requires |all| == |decisions| && forall k :: 0 <= k < |all| ==> all[k] == decisions[k].candidate
    ensures var r := Evaluate(rules, wanted, text, decisions, all); Evaluate(rules, wanted, text, r, all) == r
  {
    var r := Evaluate(rules, wanted, text, decisions, all);
    forall k | 0 <= k < |r| ensures Evaluate(rules, wanted, text, r, all)[k] == r[k] {
      OnlyMasksFall(rules, wanted, text, decisions, all, k);
      OnlyMasksFall(rules, wanted, text, r, all, k);
    }
  }
}
