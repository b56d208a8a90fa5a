/** Demasking by value is exact on reworded texts. */
module DemaskExactness {
  import opened Demasking
  import Overlap
  import opened Ranking
  import opened Selection
  import opened Substrings
  import opened Weaving

  predicate Inside(s: Span, t: Span) { t.start <= s.start && s.end <= t.end }

  /** Targets: non-empty spans, from left to right, none meeting another. */
  ghost predicate AreTargets(targets: seq<Span>) {
    && (forall t :: 0 <= t < |targets| ==> targets[t].start < targets[t].end)
    && (forall t, u :: 0 <= t < u < |targets| ==> targets[t].end <= targets[u].start)
  }

  /** Every found span is a target or lies strictly inside one, and every target is found. */
  ghost predicate Covers(found: seq<Span>, targets: seq<Span>) {
    && (forall s :: s in found ==> s.start < s.end)
    && (forall s :: s in found ==> HasTarget(s, targets))
    && (forall t :: 0 <= t < |targets| ==> IsFound(found, targets, t))
  }

  ghost predicate HasTarget(s: Span, targets: seq<Span>) {
    exists t :: 0 <= t < |targets| && Within(s, targets[t])
  }

  ghost predicate IsFound(found: seq<Span>, targets: seq<Span>, t: nat) {
    t < |targets| && targets[t] in found
  }

  predicate Within(s: Span, t: Span) {
    Inside(s, t) && (s.end - s.start == t.end - t.start ==> s == t)
  }

  /** The highest-ranked copy of a target is kept. */
  lemma {:induction false} TargetKept(found: seq<Span>, targets: seq<Span>, kept: set<nat>, t: nat) returns (i: nat)
    requires AreTargets(targets) && Covers(found, targets) && t < |targets|
    requires IsSelection(Extents(found), LengthKeys(found), kept)
    ensures i in kept && i < |found| && found[i] == targets[t]
  {
    assert IsFound(found, targets, t);
    i := FirstCopy(found, targets[t]);
    forall j | j in kept ensures !Beats(Extents(found), LengthKeys(found), j, i) {
      FirstCopyUnbeaten(found, targets, t, i, j);
    }
    assert !Beaten(Extents(found), LengthKeys(found), kept, i);
  }

  /** Only a span that is not shorter can beat a target, and there is none but its copies. */
  lemma {:induction false} FirstCopyUnbeaten(found: seq<Span>, targets: seq<Span>, t: nat, i: nat, j: nat)
    requires AreTargets(targets) && Covers(found, targets) && t < |targets|
    requires i < |found| && found[i] == targets[t] && forall j :: 0 <= j < i ==> found[j] != targets[t]
    ensures !Beats(Extents(found), LengthKeys(found), j, i)
  {
    if Beats(Extents(found), LengthKeys(found), j, i) {
      OverlapStaysInside(found, targets, j, t);
    }
  }

  lemma {:induction false} FirstCopy(found: seq<Span>, s: Span) returns (i: nat)
    requires s in found
    ensures i < |found| && found[i] == s && forall j :: 0 <= j < i ==> found[j] != s
  {
    i := 0;
    while found[i] != s
      invariant i < |found| && forall j :: 0 <= j < i ==> found[j] != s
      invariant s in found
      decreases |found| - i
    {
      i := i + 1;
      assert exists j :: 0 <= j < |found| && found[j] == s;
    }
  }

  /** A found span that meets a target lies in it. */
  lemma {:induction false} OverlapStaysInside(found: seq<Span>, targets: seq<Span>, j: nat, t: nat)
    requires AreTargets(targets) && Covers(found, targets) && j < |found| && t < |targets|
    requires targets[t].start < found[j].end && found[j].start < targets[t].end
    ensures Within(found[j], targets[t])
  {
    assert found[j] in found && HasTarget(found[j], targets);
    var u :| 0 <= u < |targets| && Within(found[j], targets[u]);
    assert u == t;
  }

  /** Nothing but targets is kept: a shorter span loses to the target around it. */
  lemma {:induction false} OnlyTargetsKept(found: seq<Span>, targets: seq<Span>, kept: set<nat>, i: nat)
    requires AreTargets(targets) && Covers(found, targets)
    requires IsSelection(Extents(found), LengthKeys(found), kept) && i in kept
    ensures found[i] in targets
  {
    assert found[i] in found && HasTarget(found[i], targets);
    var t :| 0 <= t < |targets| && Within(found[i], targets[t]);
    var j := TargetKept(found, targets, kept, t);
    assert found[i] == targets[t] || Beats(Extents(found), LengthKeys(found), j, i);
  }

  // The chosen spans, sorted, are the targets.

  lemma {:induction false} ChosenAreTargets(found: seq<Span>, targets: seq<Span>)
    requires AreTargets(targets) && Covers(found, targets)
    ensures forall s :: s in ChosenSpans(found) <==> s in targets
    ensures StartsDiffer(ChosenSpans(found))
  {
    var order := Rank(LengthKeys(found));
    GreedyInRange(Extents(found), order, |found|);
    GreedySelects(Extents(found), LengthKeys(found));
    SelectedAreTargets(found, targets, Greedy(Extents(found), order, |found|));
    Overlap.GreedyDistinct(Extents(found), order, |found|);
    SelectedStartsDiffer(found, Greedy(Extents(found), order, |found|));
  }

  lemma {:induction false} SelectedAreTargets(found: seq<Span>, targets: seq<Span>, picks: seq<nat>)
    requires AreTargets(targets) && Covers(found, targets)
    requires IsSelection(Extents(found), LengthKeys(found), Elements(picks))
    requires forall k :: 0 <= k < |picks| ==> picks[k] < |found|
    ensures forall s :: s in Pick(found, picks) <==> s in targets
  {
    var chosen := Pick(found, picks);
    forall a | 0 <= a < |chosen| ensures chosen[a] in targets {
      OnlyTargetsKept(found, targets, Elements(picks), picks[a]);
    }
    forall t | 0 <= t < |targets| ensures targets[t] in chosen {
      var i := TargetKept(found, targets, Elements(picks), t);
      var a :| 0 <= a < |picks| && picks[a] == i;
      assert chosen[a] == targets[t];
    }
  }

  predicate StartsDiffer(spans: seq<Span>) {
    forall a, b :: 0 <= a < b < |spans| ==> spans[a].start != spans[b].start
  }

  lemma {:induction false} SelectedStartsDiffer(found: seq<Span>, picks: seq<nat>)
    requires forall s :: s in found ==> s.start < s.end
    requires IsSelection(Extents(found), LengthKeys(found), Elements(picks)) && Distinct(picks)
    requires forall k :: 0 <= k < |picks| ==> picks[k] < |found|
    ensures StartsDiffer(Pick(found, picks))
  {
    var all := Extents(found);
    SelectionDisjoint(all, LengthKeys(found), Elements(picks));
    forall a, b | 0 <= a < b < |picks| ensures found[picks[a]].start != found[picks[b]].start {
      assert picks[a] in Elements(picks) && picks[b] in Elements(picks);
      assert found[picks[a]] in found && found[picks[b]] in found;
      assert !Overlaps(all[picks[a]], all[picks[b]]);
    }
  }

  predicate Descending(spans: seq<Span>) {
    forall a, b :: 0 <= a < b < |spans| ==> spans[b].start < spans[a].start
  }

  function Reversed(spans: seq<Span>): (r: seq<Span>)
    ensures |r| == |spans| && forall k :: 0 <= k < |r| ==> r[k] == spans[|spans| - 1 - k]
  {
    seq(|spans|, k requires 0 <= k < |spans| => spans[|spans| - 1 - k])
  }

  lemma {:induction false} DescendingUnique(a: seq<Span>, b: seq<Span>)
    requires Descending(a) && Descending(b)
    requires forall s :: s in a <==> s in b
    ensures a == b
  {
    assert |a| > 0 ==> a[0] in b;
    assert |b| > 0 ==> b[0] in a;
    if a != [] {
      assert a[0] == b[0];
      forall s ensures s in a[1..] <==> s in b[1..] {
        TailWithout(a, s);
        TailWithout(b, s);
      }
      DescendingUnique(a[1..], b[1..]);
      assert a == [a[0]] + a[1..] && b == [b[0]] + b[1..];
    }
  }

  lemma {:induction false} TailWithout(a: seq<Span>, s: Span)
    requires Descending(a) && a != []
    ensures s in a[1..] <==> s in a && s != a[0]
  {
    if s in a && s != a[0] {
      var k :| 0 <= k < |a| && a[k] == s;
      assert a[1..][k - 1] == s;
    }
  }

  lemma {:induction false} SortedDescending(chosen: seq<Span>)
    requires StartsDiffer(chosen)
    ensures Descending(Pick(chosen, Rank(DescendingKeys(chosen))))
    ensures forall s :: s in Pick(chosen, Rank(DescendingKeys(chosen))) <==> s in chosen
  {
    var keys, order := DescendingKeys(chosen), Rank(DescendingKeys(chosen));
    forall a, b | 0 <= a < b < |order| ensures chosen[order[b]].start < chosen[order[a]].start {
      assert Precedes(keys, order[a], order[b]);
    }
    forall s | s in chosen ensures s in Pick(chosen, order) {
      var i :| 0 <= i < |chosen| && chosen[i] == s;
      var a := RankPosition(keys, i);
      assert Pick(chosen, order)[a] == s;
    }
  }

  lemma {:induction false} SortedChosenAreTargets(found: seq<Span>, targets: seq<Span>)
    requires AreTargets(targets) && Covers(found, targets)
    ensures var chosen := ChosenSpans(found);
            Pick(chosen, Rank(DescendingKeys(chosen))) == Reversed(targets)
  {
    var chosen := ChosenSpans(found);
    ChosenAreTargets(found, targets);
    SortedDescending(chosen);
    ReversedDescends(targets);
    DescendingUnique(Pick(chosen, Rank(DescendingKeys(chosen))), Reversed(targets));
  }

  lemma {:induction false} ReversedDescends(targets: seq<Span>)
    requires AreTargets(targets)
    ensures Descending(Reversed(targets))
    ensures forall s :: s in targets <==> s in Reversed(targets)
  {
    var r := Reversed(targets);
    forall s | s in targets ensures s in r {
      var t :| 0 <= t < |targets| && targets[t] == s;
      assert r[|targets| - 1 - t] == s;
    }
    forall a, b | 0 <= a < b < |r| ensures r[b].start < r[a].start {
      assert targets[|targets| - 1 - b].end <= targets[|targets| - 1 - a].start;
    }
  }

  /** Sorting spans in order by descending start reverses them. */
  lemma {:induction false} InOrderReversed(spans: seq<Span>, limit: nat)
    requires InOrder(spans, 0, limit) && forall k :: 0 <= k < |spans| ==> spans[k].start < spans[k].end
    ensures Pick(spans, Rank(DescendingKeys(spans))) == Reversed(spans)
  {
    InOrderAscends(spans, 0, limit);
    SortedDescending(spans);
    ReversedDescends(spans);
    DescendingUnique(Pick(spans, Rank(DescendingKeys(spans))), Reversed(spans));
  }

  // Replacing from right to left is the back splice.

  lemma {:induction false} ReplaceEachSnoc(text: string, spans: seq<Span>, last: Span)
    ensures ReplaceEach(text, spans + [last]) == ReplaceAt(ReplaceEach(text, spans), last)
    decreases |spans|
  {
    if spans == [] {
      assert [last][1..] == [];
    } else {
      assert (spans + [last])[1..] == spans[1..] + [last];
      ReplaceEachSnoc(ReplaceAt(text, spans[0]), spans[1..], last);
    }
  }

  lemma {:induction false} ReplaceReversed(text: string, spans: seq<Span>)
    ensures ReplaceEach(text, Reversed(spans)) == BackSplice(text, spans)
  {
    if spans != [] {
      assert Reversed(spans) == Reversed(spans[1..]) + [spans[0]];
      ReplaceEachSnoc(text, Reversed(spans[1..]), spans[0]);
      ReplaceReversed(text, spans[1..]);
    }
  }

  // A reworded text: literals of any kind between the surrogates.

  /** Where the surrogates of a weave lie: what stands there, and in which order. */
  lemma {:induction false} WeavePlaces(
      text: string, lits: seq<string>, mids: seq<string>, reps: seq<string>, at: nat, k: nat)
    requires |lits| == |mids| + 1 && |reps| == |mids| && k < |mids|
    requires at <= |text| && text[at..] == Weave(lits, mids)
    ensures Placed(text, SpansOf(lits, mids, reps, at)[k], mids[k], reps[k], at)
  {
    TextAfter(text, at, lits[0], mids[0], Weave(lits[1..], mids[1..]));
    if k > 0 {
      WeavePlaces(text, lits[1..], mids[1..], reps[1..], at + |lits[0]| + |mids[0]|, k - 1);
    }
  }

  lemma {:induction false} WeaveSpansInOrder(
      text: string, lits: seq<string>, mids: seq<string>, reps: seq<string>, at: nat)
    requires |lits| == |mids| + 1 && |reps| == |mids|
    requires at <= |text| && text[at..] == Weave(lits, mids)
    ensures InOrder(SpansOf(lits, mids, reps, at), at, |text|)
  {
    if mids != [] {
      TextAfter(text, at, lits[0], mids[0], Weave(lits[1..], mids[1..]));
      WeaveSpansInOrder(text, lits[1..], mids[1..], reps[1..], at + |lits[0]| + |mids[0]|);
    }
  }

  ghost predicate Placed(text: string, s: Span, mid: string, rep: string, at: nat) {
    && at <= s.start && s.end == s.start + |mid| <= |text|
    && text[s.start..s.end] == mid
    && s.text == rep
  }

  /** A needle stands for one original. */
  ghost predicate Functional(needles: seq<Needle>) {
    forall a, b :: a in needles && b in needles && a.text == b.text ==> a.original == b.original
  }

  /** What a reworded text has to satisfy: every surrogate is a needle for its original and
      stands between non-word characters, and a needle shows up nowhere but inside surrogates. */
  ghost predicate Reworded(lits: seq<string>, surrogates: seq<string>, originals: seq<string>,
                           isWord: char -> bool, needles: seq<Needle>)
    requires |lits| == |surrogates| + 1 && |originals| == |surrogates|
  {
    var text, targets := Weave(lits, surrogates), SpansOf(lits, surrogates, originals, 0);
    && Functional(needles)
    && AreNeedles(surrogates, originals, needles)
    && (forall k :: 0 <= k < |targets| ==> IsMatch(text, isWord, surrogates[k], targets[k].start))
    && NothingElseMatches(text, isWord, needles, targets)
  }

  ghost predicate AreNeedles(surrogates: seq<string>, originals: seq<string>, needles: seq<Needle>)
    requires |originals| == |surrogates|
  {
    forall k :: 0 <= k < |surrogates| ==> surrogates[k] != "" && Needle(surrogates[k], originals[k]) in needles
  }

  ghost predicate NothingElseMatches(text: string, isWord: char -> bool, needles: seq<Needle>, targets: seq<Span>) {
    forall n, i: nat :: n in needles && n.text != "" && IsMatch(text, isWord, n.text, i) ==>
      LiesInside(i, i + |n.text|, targets)
  }

  ghost predicate LiesInside(start: nat, end: nat, targets: seq<Span>) {
    exists t :: 0 <= t < |targets| && targets[t].start <= start && end <= targets[t].end
  }

  lemma {:induction false} MatchHasTarget(lits: seq<string>, surrogates: seq<string>, originals: seq<string>,
                                          isWord: char -> bool, needles: seq<Needle>, s: Span)
    requires |lits| == |surrogates| + 1 && |originals| == |surrogates|
    requires Reworded(lits, surrogates, originals, isWord, needles)
    requires s in AllMatches(Weave(lits, surrogates), isWord, needles)
    ensures s.start < s.end && HasTarget(s, SpansOf(lits, surrogates, originals, 0))
  {
    hide Weave, SpansOf, AllMatches, HasTarget, AreNeedles, Functional;
    var text := Weave(lits, surrogates);
    AllMatchesAre(text, isWord, needles, s);
    var n :| n in needles && n.text != "" && IsMatch(text, isWord, n.text, s.start)
             && s == Span(s.start, s.start + |n.text|, n.original);
    InsideHasTarget(lits, surrogates, originals, needles, n, s);
  }

  lemma {:induction false} MatchesCover(lits: seq<string>, surrogates: seq<string>, originals: seq<string>,
                                        isWord: char -> bool, needles: seq<Needle>)
    requires |lits| == |surrogates| + 1 && |originals| == |surrogates|
    requires Reworded(lits, surrogates, originals, isWord, needles)
    ensures var targets := SpansOf(lits, surrogates, originals, 0);
            AreTargets(targets) && Covers(AllMatches(Weave(lits, surrogates), isWord, needles), targets)
  {
    hide Weave, SpansOf, AllMatches, InOrder, AreNeedles, NothingElseMatches, Functional, IsMatch;
    var text, targets := Weave(lits, surrogates), SpansOf(lits, surrogates, originals, 0);
    var found := AllMatches(text, isWord, needles);
    forall s | s in found ensures s.start < s.end && HasTarget(s, targets) {
      MatchHasTarget(lits, surrogates, originals, isWord, needles, s);
    }
    forall t | 0 <= t < |targets| ensures targets[t].start < targets[t].end && IsFound(found, targets, t) {
      SurrogateIsFound(lits, surrogates, originals, isWord, needles, t);
    }
    TargetsAscend(lits, surrogates, originals);
  }

  lemma {:induction false} TargetsAscend(lits: seq<string>, surrogates: seq<string>, originals: seq<string>)
    requires |lits| == |surrogates| + 1 && |originals| == |surrogates|
    ensures var targets := SpansOf(lits, surrogates, originals, 0);
            forall t, u :: 0 <= t < u < |targets| ==> targets[t].end <= targets[u].start
  {
    hide Weave, SpansOf;
    var text := Weave(lits, surrogates);
    assert text[0..] == text;
    WeaveSpansInOrder(text, lits, surrogates, originals, 0);
    InOrderAscends(SpansOf(lits, surrogates, originals, 0), 0, |text|);
  }

  lemma {:induction false} SurrogateIsFound(lits: seq<string>, surrogates: seq<string>, originals: seq<string>,
                                            isWord: char -> bool, needles: seq<Needle>, t: nat)
    requires |lits| == |surrogates| + 1 && |originals| == |surrogates| && t < |surrogates|
    requires AreNeedles(surrogates, originals, needles)
    requires IsMatch(Weave(lits, surrogates), isWord, surrogates[t], SpansOf(lits, surrogates, originals, 0)[t].start)
    ensures var targets := SpansOf(lits, surrogates, originals, 0);
            && targets[t].start < targets[t].end
            && IsFound(AllMatches(Weave(lits, surrogates), isWord, needles), targets, t)
  {
    var text, target := Weave(lits, surrogates), SpansOf(lits, surrogates, originals, 0)[t];
    assert text[0..] == text;
    WeavePlaces(text, lits, surrogates, originals, 0, t);
    AllMatchesAre(text, isWord, needles, target);
    var n := Needle(surrogates[t], originals[t]);
    assert n in needles && target == Span(target.start, target.start + |n.text|, n.original);
  }

  lemma {:induction false} InsideHasTarget(lits: seq<string>, surrogates: seq<string>, originals: seq<string>,
                                           needles: seq<Needle>, n: Needle, s: Span)
    requires |lits| == |surrogates| + 1 && |originals| == |surrogates|
    requires Functional(needles) && AreNeedles(surrogates, originals, needles) && n in needles
    requires OccursAt(Weave(lits, surrogates), n.text, s.start)
    requires s == Span(s.start, s.start + |n.text|, n.original)
    requires LiesInside(s.start, s.start + |n.text|, SpansOf(lits, surrogates, originals, 0))
    ensures HasTarget(s, SpansOf(lits, surrogates, originals, 0))
  {
    var text, targets := Weave(lits, surrogates), SpansOf(lits, surrogates, originals, 0);
    assert text[0..] == text;
    var t :| 0 <= t < |targets| && targets[t].start <= s.start && s.end <= targets[t].end;
    WeavePlaces(text, lits, surrogates, originals, 0, t);
    FullMatchIsTarget(text, needles, n, s, targets[t], surrogates[t], originals[t]);
  }

  lemma {:induction false} FullMatchIsTarget(text: string, needles: seq<Needle>, n: Needle, s: Span, t: Span,
                                             surrogate: string, original: string)
    requires Functional(needles) && n in needles && Needle(surrogate, original) in needles
    requires s == Span(s.start, s.start + |n.text|, n.original) && s.end <= |text| && text[s.start..s.end] == n.text
    requires Placed(text, t, surrogate, original, 0) && Inside(s, t)
    ensures Within(s, t)
  {
    if s.end - s.start == t.end - t.start {
      assert n.text == surrogate;
    }
  }

  /** `_demask_synthetic` on a given list of needles. */
  method DemaskSynthetic(text: string, isWord: char -> bool, needles: seq<Needle>) returns (result: string)
    ensures result == Resolved(text, AllMatches(text, isWord, needles))
  {
    var spans := FindAllSpans(text, isWord, needles);
    result := ResolveAndApply(text, spans);
  }

  /** Demasking by value is exact: the literals survive as they are, and every surrogate gives
      way to its own original, without any coordinates. */
  lemma {:induction false} DemaskIsExact(lits: seq<string>, surrogates: seq<string>, originals: seq<string>,
                                         isWord: char -> bool, needles: seq<Needle>)
    requires |lits| == |surrogates| + 1 && |originals| == |surrogates|
    requires Reworded(lits, surrogates, originals, isWord, needles)
    ensures var text := Weave(lits, surrogates);
            Resolved(text, AllMatches(text, isWord, needles)) == Weave(lits, originals)
  {
    var text, targets := Weave(lits, surrogates), SpansOf(lits, surrogates, originals, 0);
    MatchesCover(lits, surrogates, originals, isWord, needles);
    SortedChosenAreTargets(AllMatches(text, isWord, needles), targets);
    ReplaceReversed(text, targets);
    assert text[0..] == text && text[..0] == "";
    BackSpliceSwapsMiddles(text, lits, surrogates, originals, 0);
  }
}
