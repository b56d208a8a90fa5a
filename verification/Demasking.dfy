/** Demasking a reworded text by value: find every word-bounded needle, keep the longest
    matches, replace them from right to left.

    The needles (a surrogate in some grammatical form, and what it stands for) and the notion of
    a word character are parameters. */
module Demasking {
  import opened Ranking
  import opened Selection
  import opened Substrings
  import opened Weaving

  datatype Needle = Needle(text: string, original: string)

  predicate Bounded(text: string, isWord: char -> bool, i: nat, j: nat)
    requires i <= j <= |text|
  {
    (i == 0 || !isWord(text[i - 1])) && (j == |text| || !isWord(text[j]))
  }

  /** `needle` stands at position `i` as a whole word or words. */
  predicate IsMatch(text: string, isWord: char -> bool, needle: string, i: nat) {
    OccursAt(text, needle, i) && Bounded(text, isWord, i, i + |needle|)
  }

  /** The matches of one needle at or after position `i`, from left to right. */
  function MatchesFrom(text: string, isWord: char -> bool, n: Needle, i: nat): (r: seq<Span>)
    ensures forall s :: s in r <==>
              i <= s.start && IsMatch(text, isWord, n.text, s.start) && s == Span(s.start, s.start + |n.text|, n.original)
    decreases |text| - i
  {
    if i > |text| then []
    else
      (if IsMatch(text, isWord, n.text, i) then [Span(i, i + |n.text|, n.original)] else [])
      + MatchesFrom(text, isWord, n, i + 1)
  }

  /** The matches of all non-empty needles, needle by needle. */
  function AllMatches(text: string, isWord: char -> bool, needles: seq<Needle>): (r: seq<Span>)
  {
    if needles == [] then []
    else
      var init, n := needles[..|needles| - 1], needles[|needles| - 1];
      AllMatches(text, isWord, init) + (if n.text == "" then [] else MatchesFrom(text, isWord, n, 0))
  }

  /** `str.find`: the first occurrence at or after `from`. */
  method Find(text: string, needle: string, from: nat) returns (idx: int)
    ensures idx == -1 || from <= idx
    ensures idx == -1 ==> forall i: nat :: from <= i ==> !OccursAt(text, needle, i)
    ensures idx != -1 ==> OccursAt(text, needle, idx) && forall i: nat :: from <= i < idx ==> !OccursAt(text, needle, i)
  {
    idx := from;
    while idx + |needle| <= |text|
      invariant from <= idx
      invariant forall i: nat :: from <= i < idx ==> !OccursAt(text, needle, i)
    {
      if text[idx..idx + |needle|] == needle {
        return;
      }
      idx := idx + 1;
    }
    idx := -1;
  }

  method FindAllSpans(text: string, isWord: char -> bool, needles: seq<Needle>) returns (spans: seq<Span>)
    ensures spans == AllMatches(text, isWord, needles)
  {
    spans := [];
    for k := 0 to |needles|
      invariant spans == AllMatches(text, isWord, needles[..k])
    {
      assert needles[..k + 1][..k] == needles[..k];
      if needles[k].text != "" {
        var found := FindSpans(text, isWord, needles[k]);
        spans := spans + found;
      }
    }
    assert needles[..|needles|] == needles;
  }

  method FindSpans(text: string, isWord: char -> bool, n: Needle) returns (spans: seq<Span>)
    requires n.text != ""
    ensures spans == MatchesFrom(text, isWord, n, 0)
  {
    hide MatchesFrom, IsMatch;
    spans := [];
    var searchFrom := 0;
    while true
      invariant searchFrom <= |text|
      invariant spans + MatchesFrom(text, isWord, n, searchFrom) == MatchesFrom(text, isWord, n, 0)
      decreases |text| - searchFrom
    {
      var idx := Find(text, n.text, searchFrom);
      if idx == -1 {
        NoMatchesLeft(text, isWord, n, searchFrom);
        break;
      }
      TakeMatch(text, isWord, n, searchFrom, idx, spans);
      var end := idx + |n.text|;
      var beforeOk := idx == 0 || !isWord(text[idx - 1]);
      var afterOk := end == |text| || !isWord(text[end]);
      if beforeOk && afterOk {
        spans := spans + [Span(idx, end, n.original)];
      }
      searchFrom := idx + 1;
    }
  }

  /** One turn of the search: everything up to and including the occurrence at `idx`. */
  lemma {:induction false} TakeMatch(text: string, isWord: char -> bool, n: Needle, i: nat, idx: nat, done: seq<Span>)
    requires i <= idx && OccursAt(text, n.text, idx)
    requires forall k: nat :: i <= k < idx ==> !OccursAt(text, n.text, k)
    ensures done + MatchesFrom(text, isWord, n, i)
         == (if Bounded(text, isWord, idx, idx + |n.text|) then done + [Span(idx, idx + |n.text|, n.original)] else done)
            + MatchesFrom(text, isWord, n, idx + 1)
  {
    hide MatchesFrom;
    SkipToMatch(text, isWord, n, i, idx);
    MatchHere(text, isWord, n, idx);
    var rest := MatchesFrom(text, isWord, n, idx + 1);
    var here := if Bounded(text, isWord, idx, idx + |n.text|) then [Span(idx, idx + |n.text|, n.original)] else [];
    assert done + (here + rest) == done + here + rest;
    assert done + [] == done;
  }

  lemma {:induction false} MatchHere(text: string, isWord: char -> bool, n: Needle, idx: nat)
    requires OccursAt(text, n.text, idx)
    ensures MatchesFrom(text, isWord, n, idx)
         == (if Bounded(text, isWord, idx, idx + |n.text|) then [Span(idx, idx + |n.text|, n.original)] else [])
            + MatchesFrom(text, isWord, n, idx + 1)
  {
  }

  lemma {:induction false} NoMatchesLeft(text: string, isWord: char -> bool, n: Needle, i: nat)
    requires forall k: nat :: i <= k ==> !OccursAt(text, n.text, k)
    ensures MatchesFrom(text, isWord, n, i) == []
    decreases |text| - i
  {
    if i <= |text| {
      NoMatchesLeft(text, isWord, n, i + 1);
    }
  }

  lemma {:induction false} SkipToMatch(text: string, isWord: char -> bool, n: Needle, i: nat, j: nat)
    requires i <= j <= |text|
    requires forall k: nat :: i <= k < j ==> !OccursAt(text, n.text, k)
    ensures MatchesFrom(text, isWord, n, i) == MatchesFrom(text, isWord, n, j)
    decreases j - i
  {
    if i < j {
      SkipToMatch(text, isWord, n, i + 1, j);
    }
  }

  lemma {:induction false} AllMatchesAre(text: string, isWord: char -> bool, needles: seq<Needle>, s: Span)
    ensures s in AllMatches(text, isWord, needles) <==>
              exists n :: n in needles && n.text != "" && IsMatch(text, isWord, n.text, s.start)
                && s == Span(s.start, s.start + |n.text|, n.original)
  {
    if needles != [] {
      var init, n := needles[..|needles| - 1], needles[|needles| - 1];
      assert needles == init + [n];
      AllMatchesAre(text, isWord, init, s);
    }
  }

  /** A match, character by character: the text of a needle with no word character on either
      side. */
  lemma {:induction false} MatchesRead(text: string, isWord: char -> bool, needles: seq<Needle>, s: Span)
    ensures s in AllMatches(text, isWord, needles) <==>
              && s.start < s.end <= |text|
              && Needle(text[s.start..s.end], s.text) in needles
              && (s.start > 0 ==> !isWord(text[s.start - 1]))
              && (s.end < |text| ==> !isWord(text[s.end]))
  {
    AllMatchesAre(text, isWord, needles, s);
    if && s.start < s.end <= |text| && Needle(text[s.start..s.end], s.text) in needles
       && (s.start > 0 ==> !isWord(text[s.start - 1])) && (s.end < |text| ==> !isWord(text[s.end])) {
      var n := Needle(text[s.start..s.end], s.text);
      assert IsMatch(text, isWord, n.text, s.start);
      assert s == Span(s.start, s.start + |n.text|, n.original);
    }
  }

  // `_resolve_and_apply`

  function Extents(spans: seq<Span>): (r: seq<Interval>)
    ensures |r| == |spans|
  {
    seq(|spans|, i requires 0 <= i < |spans| => Interval(spans[i].start, spans[i].end))
  }

  /** Longest first, then leftmost. */
  function LengthKeys(spans: seq<Span>): (r: seq<Key>)
    ensures |r| == |spans|
  {
    seq(|spans|, i requires 0 <= i < |spans| => Key(0.0, -(spans[i].end - spans[i].start), spans[i].start))
  }

  function DescendingKeys(spans: seq<Span>): (r: seq<Key>)
    ensures |r| == |spans|
  {
    seq(|spans|, i requires 0 <= i < |spans| => Key(0.0, 0, 0 - spans[i].start))
  }

  lemma {:induction false} GreedyInRange(all: seq<Interval>, order: seq<nat>, n: nat)
    requires n <= |order| && forall k :: 0 <= k < |order| ==> order[k] < |all|
    ensures forall k :: 0 <= k < |Greedy(all, order, n)| ==> Greedy(all, order, n)[k] < |all|
  {
    if n > 0 {
      GreedyInRange(all, order, n - 1);
    }
  }

  function ChosenSpans(spans: seq<Span>): seq<Span> {
    var order := Rank(LengthKeys(spans));
    GreedyInRange(Extents(spans), order, |spans|);
    Pick(spans, Greedy(Extents(spans), order, |spans|))
  }

  /** Longer; or as long and further left; or as far left too and found earlier. */
  predicate GoesFirst(spans: seq<Span>, j: nat, i: nat) {
    && j < |spans| && i < |spans|
    && var (a, b) := (spans[j], spans[i]);
       || a.end - a.start > b.end - b.start
       || (a.end - a.start == b.end - b.start && a.start < b.start)
       || (a.end - a.start == b.end - b.start && a.start == b.start && j < i)
  }

  predicate Clash(a: Span, b: Span) { a.start < b.end && b.start < a.end }

  /** A match is kept exactly when no kept one that goes first clashes with it. */
  ghost predicate KeptByLength(spans: seq<Span>, kept: set<nat>) {
    && (forall i :: i in kept ==> i < |spans|)
    && (forall i: nat :: i < |spans| ==>
         (i in kept <==> !exists j :: j in kept && GoesFirst(spans, j, i) && Clash(spans[j], spans[i])))
  }

  lemma {:induction false} LongestAreChosen(spans: seq<Span>) returns (kept: seq<nat>)
    ensures forall k :: 0 <= k < |kept| ==> kept[k] < |spans|
    ensures ChosenSpans(spans) == Pick(spans, kept)
    ensures KeptByLength(spans, Elements(kept))
  {
    var all, keys := Extents(spans), LengthKeys(spans);
    GreedyInRange(all, Rank(keys), |spans|);
    GreedySelects(all, keys);
    kept := Greedy(all, Rank(keys), |spans|);
    SelectedByLength(spans, Elements(kept));
  }

  lemma {:induction false} SelectedByLength(spans: seq<Span>, kept: set<nat>)
    requires IsSelection(Extents(spans), LengthKeys(spans), kept)
    ensures KeptByLength(spans, kept)
  {
    var all, keys := Extents(spans), LengthKeys(spans);
    forall j: nat, i: nat | j < |spans| && i < |spans|
      ensures Beats(all, keys, j, i) <==> GoesFirst(spans, j, i) && Clash(spans[j], spans[i])
    {
    }
    forall i: nat | i < |spans|
      ensures Beaten(all, keys, kept, i) <==> exists j :: j in kept && GoesFirst(spans, j, i) && Clash(spans[j], spans[i])
    {
      if j :| j in kept && GoesFirst(spans, j, i) && Clash(spans[j], spans[i]) {
        assert Beats(all, keys, j, i);
      }
    }
  }

  /** Replacing in place, one span of the list after the other. */
  function ReplaceEach(text: string, spans: seq<Span>): string
    decreases |spans|
  {
    if spans == [] then text else ReplaceEach(ReplaceAt(text, spans[0]), spans[1..])
  }

  function Resolved(text: string, spans: seq<Span>): string {
    var chosen := ChosenSpans(spans);
    ReplaceEach(text, Pick(chosen, Rank(DescendingKeys(chosen))))
  }

  method ResolveAndApply(text: string, spans: seq<Span>) returns (result: string)
    ensures result == Resolved(text, spans)
  {
    var chosen := ChooseSpans(spans);
    chosen := Pick(chosen, Rank(DescendingKeys(chosen)));
    result := text;
    for k := 0 to |chosen|
      invariant ReplaceEach(result, chosen[k..]) == ReplaceEach(text, chosen)
    {
      assert chosen[k..][1..] == chosen[k + 1..];
      result := ReplaceAt(result, chosen[k]);
    }
  }

  method ChooseSpans(spans: seq<Span>) returns (chosen: seq<Span>)
    ensures chosen == ChosenSpans(spans)
  {
    hide Greedy, Meets;
    var order := Rank(LengthKeys(spans));
    ghost var all := Extents(spans);
    GreedyNone(all, order);
    var ordered := Pick(spans, order);
    chosen := [];
    var occupied: seq<Interval> := [];
    ghost var picks: seq<nat> := [];
    for n := 0 to |ordered|
      invariant picks == Greedy(all, order, n)
      invariant forall k :: 0 <= k < |picks| ==> picks[k] < |spans|
      invariant chosen == Pick(spans, picks)
      invariant occupied == Pick(all, picks)
    {
      var extent := Interval(ordered[n].start, ordered[n].end);
      assert extent == all[order[n]];
      OccupiedDecides(all, picks, occupied, order[n]);
      GreedyStep(all, order, n);
      if !exists k :: 0 <= k < |occupied| && Overlaps(extent, occupied[k]) {
        chosen := chosen + [ordered[n]];
        occupied := occupied + [extent];
        picks := picks + [order[n]];
      }
    }
  }
}
