/** The Go service's word-bounded replacement of one surrogate, and why it restores the same
    text as the Python service's search, selection and right-to-left splice. */
module GoWordBounded {
  import opened Demasking
  import opened DemaskExactness
  import opened Ranking
  import opened Selection
  import opened Substrings
  import opened Weaving

  /** Leftmost matches, each search going on behind the last one. */
  function Leftmost(text: string, isWord: char -> bool, n: Needle, i: nat): seq<Span>
    requires n.text != ""
    decreases |text| - i
  {
    if i > |text| then []
    else if IsMatch(text, isWord, n.text, i) then
      [Span(i, i + |n.text|, n.original)] + Leftmost(text, isWord, n, i + |n.text|)
    else Leftmost(text, isWord, n, i + 1)
  }

  method ReplaceWordBounded(text: string, isWord: char -> bool, n: Needle) returns (result: string)
    requires n.text != ""
    ensures result == Splice(text, Leftmost(text, isWord, n, 0), 0)
  {
    hide Splice, Leftmost, IsMatch;
    result := "";
    var idx: nat := 0;
    while true
      invariant idx <= |text|
      invariant result + Splice(text, Leftmost(text, isWord, n, idx), idx) == Splice(text, Leftmost(text, isWord, n, 0), 0)
      decreases |text| - idx
    {
      var s := Find(text, n.text, idx);
      if s < 0 {
        NothingLeft(text, isWord, n, idx);
        result := result + text[idx..];
        break;
      }
      var e := s + |n.text|;
      var okBefore := s == 0 || !isWord(text[s - 1]);
      var okAfter := e == |text| || !isWord(text[e]);
      ReplaceTurn(text, isWord, n, idx, s, result);
      if okBefore && okAfter {
        result := result + text[idx..s];
        result := result + n.original;
        idx := e;
      } else {
        result := result + text[idx..s + 1];
        idx := s + 1;
      }
    }
  }

  lemma {:induction false} NothingLeft(text: string, isWord: char -> bool, n: Needle, i: nat)
    requires n.text != "" && i <= |text| && forall k: nat :: i <= k ==> !OccursAt(text, n.text, k)
    ensures Leftmost(text, isWord, n, i) == []
    ensures Splice(text, [], i) == text[i..]
    decreases |text| - i
  {
    if i < |text| {
      NothingLeft(text, isWord, n, i + 1);
    }
  }

  /** Positions without an occurrence are passed over. */
  lemma {:induction false} LeftmostSkips(text: string, isWord: char -> bool, n: Needle, i: nat, j: nat)
    requires n.text != "" && i <= j <= |text| && forall k: nat :: i <= k < j ==> !OccursAt(text, n.text, k)
    ensures Leftmost(text, isWord, n, i) == Leftmost(text, isWord, n, j)
    decreases j - i
  {
    if i < j {
      LeftmostSkips(text, isWord, n, i + 1, j);
    }
  }

  lemma {:induction false} LeftmostInOrder(text: string, isWord: char -> bool, n: Needle, i: nat)
    requires n.text != "" && i <= |text|
    ensures InOrder(Leftmost(text, isWord, n, i), i, |text|)
    decreases |text| - i
  {
    if IsMatch(text, isWord, n.text, i) {
      LeftmostInOrder(text, isWord, n, i + |n.text|);
    } else if i < |text| {
      LeftmostInOrder(text, isWord, n, i + 1);
      Earlier(Leftmost(text, isWord, n, i + 1), i, i + 1, |text|);
    }
  }

  lemma {:induction false} Earlier(spans: seq<Span>, i: nat, j: nat, limit: nat)
    requires i <= j && InOrder(spans, j, limit)
    ensures InOrder(spans, i, limit)
  {
  }

  /** Copying some text first, then splicing on. */
  lemma {:induction false} SpliceCopies(text: string, spans: seq<Span>, i: nat, j: nat, done: string)
    requires i <= j <= |text| && InOrder(spans, j, |text|)
    ensures done + Splice(text, spans, i) == done + text[i..j] + Splice(text, spans, j)
  {
    InOrderStaysInside(spans, j, |text|);
    var k := if spans == [] then |text| else spans[0].start;
    assert text[i..k] == text[i..j] + text[j..k];
    CopyThen(text[i..j], text[j..k], text[i..k],
             if spans == [] then "" else spans[0].text + Splice(text, spans[1..], spans[0].end), done);
    StartOfSplice(text, spans, i);
    StartOfSplice(text, spans, j);
  }

  lemma {:induction false} StartOfSplice(text: string, spans: seq<Span>, i: nat)
    requires i <= |text| && InOrder(spans, i, |text|)
    ensures Splice(text, spans, i)
         == if spans == [] then text[i..|text|] + ""
            else Slice(text, i, spans[0].start) + (spans[0].text + Splice(text, spans[1..], spans[0].end))
  {
    if spans == [] {
      assert text[i..] + "" == text[i..|text|];
    } else {
      var a, b, c := Slice(text, i, spans[0].start), spans[0].text, Splice(text, spans[1..], spans[0].end);
      assert a + b + c == a + (b + c);
    }
  }

  lemma {:induction false} CopyThen(a: string, b: string, ab: string, rest: string, done: string)
    requires ab == a + b
    ensures done + (ab + rest) == done + a + (b + rest)
  {
  }

  /** One turn of the loop: the occurrence at `s` is replaced, or copied up to its first character. */
  lemma {:induction false} ReplaceTurn(text: string, isWord: char -> bool, n: Needle, i: nat, s: nat, done: string)
    requires n.text != "" && i <= s && OccursAt(text, n.text, s)
    requires forall k: nat :: i <= k < s ==> !OccursAt(text, n.text, k)
    ensures var e := s + |n.text|;
            done + Splice(text, Leftmost(text, isWord, n, i), i)
            == if Bounded(text, isWord, s, e) then done + text[i..s] + n.original + Splice(text, Leftmost(text, isWord, n, e), e)
               else done + text[i..s + 1] + Splice(text, Leftmost(text, isWord, n, s + 1), s + 1)
  {
    hide Splice;
    LeftmostSkips(text, isWord, n, i, s);
    if Bounded(text, isWord, s, s + |n.text|) {
      MatchTurn(text, Span(s, s + |n.text|, n.original), Leftmost(text, isWord, n, s + |n.text|), i, done);
    } else {
      LeftmostInOrder(text, isWord, n, s + 1);
      SpliceCopies(text, Leftmost(text, isWord, n, s + 1), i, s + 1, done);
    }
  }

  lemma {:induction false} MatchTurn(text: string, m: Span, rest: seq<Span>, i: nat, done: string)
    requires i <= m.start <= |text|
    ensures done + Splice(text, [m] + rest, i) == done + text[i..m.start] + m.text + Splice(text, rest, m.end)
  {
    SpliceStep(text, m, rest, i);
    var a, b, c := text[i..m.start], m.text, Splice(text, rest, m.end);
    assert done + (a + b + c) == done + a + b + c;
  }

  // The Python selection among the matches of one needle.

  /** Keep a span when it starts no earlier than the last kept one ends. */
  function Thin(spans: seq<Span>, lastEnd: nat): seq<Span> {
    if spans == [] then []
    else if spans[0].start >= lastEnd then [spans[0]] + Thin(spans[1..], spans[0].end)
    else Thin(spans[1..], lastEnd)
  }

  /** Equally long spans from left to right. */
  predicate Row(spans: seq<Span>, length: nat) {
    && length > 0
    && (forall k :: 0 <= k < |spans| ==> spans[k].end == spans[k].start + length)
    && (forall j, k :: 0 <= j < k < |spans| ==> spans[j].start < spans[k].start)
  }

  /** What a span-at-a-time search from `i` on adds to the one from `i + 1` on. */
  predicate AddsAt(more: seq<Span>, rest: seq<Span>, i: nat, length: nat) {
    more == rest || (more != [] && more[0].start == i && more[0].end == i + length && more[1..] == rest)
  }

  lemma {:induction false} SearchIsARow(found: nat -> seq<Span>, length: nat, limit: nat, i: nat)
    requires length > 0 && found(limit + 1) == [] && i <= limit + 1
    requires forall k: nat :: k <= limit ==> AddsAt(found(k), found(k + 1), k, length)
    ensures Row(found(i), length) && forall k :: 0 <= k < |found(i)| ==> i <= found(i)[k].start
    decreases limit + 1 - i
  {
    if i <= limit {
      SearchIsARow(found, length, limit, i + 1);
      assert AddsAt(found(i), found(i + 1), i, length);
      assert found(i) != found(i + 1) ==> forall k :: 1 <= k < |found(i)| ==> found(i)[k] == found(i + 1)[k - 1];
    }
  }

  lemma {:induction false} MatchesAdd(text: string, isWord: char -> bool, n: Needle, i: nat)
    requires i <= |text|
    ensures AddsAt(MatchesFrom(text, isWord, n, i), MatchesFrom(text, isWord, n, i + 1), i, |n.text|)
  {
    var rest := MatchesFrom(text, isWord, n, i + 1);
    assert [] + rest == rest;
    assert ([Span(i, i + |n.text|, n.original)] + rest)[1..] == rest;
  }

  lemma {:induction false} MatchesAreARow(text: string, isWord: char -> bool, n: Needle)
    requires n.text != ""
    ensures Row(MatchesFrom(text, isWord, n, 0), |n.text|)
  {
    var found := (i: nat) => MatchesFrom(text, isWord, n, i);
    forall k: nat | k <= |text| ensures AddsAt(found(k), found(k + 1), k, |n.text|) {
      MatchesAdd(text, isWord, n, k);
    }
    SearchIsARow(found, |n.text|, |text|, 0);
  }

  /** One step of the two searches from position `k`: both pass on, or both find `m` there and
      go on behind its first character, or behind its end. */
  predicate StepsTogether(found: nat -> seq<Span>, left: nat -> seq<Span>, k: nat, m: Span, length: nat) {
    || (found(k) == found(k + 1) && left(k) == left(k + 1))
    || (m.start == k && m.end == k + length && found(k) == [m] + found(k + 1) && left(k) == [m] + left(k + length))
  }

  lemma {:induction false} ThinIsLeftmost(found: nat -> seq<Span>, left: nat -> seq<Span>, at: nat -> Span,
                                          length: nat, limit: nat, i: nat, e: nat)
    requires length > 0
    requires forall k: nat :: k > limit ==> found(k) == [] && left(k) == []
    requires forall k: nat :: k <= limit ==> StepsTogether(found, left, k, at(k), length)
    ensures Thin(found(i), e) == left(if i < e then e else i)
    decreases limit - i
  {
    if i <= limit {
      assert StepsTogether(found, left, i, at(i), length);
      assert ([at(i)] + found(i + 1))[1..] == found(i + 1);
      ThinIsLeftmost(found, left, at, length, limit, i + 1, e);
      ThinIsLeftmost(found, left, at, length, limit, i + 1, i + length);
    }
  }

  lemma {:induction false} SearchesStep(text: string, isWord: char -> bool, n: Needle, i: nat)
    requires n.text != "" && i <= |text|
    ensures StepsTogether((k: nat) => MatchesFrom(text, isWord, n, k), (k: nat) => Leftmost(text, isWord, n, k), i,
                          Span(i, i + |n.text|, n.original), |n.text|)
  {
    var rest := MatchesFrom(text, isWord, n, i + 1);
    assert [] + rest == rest;
  }

  lemma {:induction false} ThinOfMatches(text: string, isWord: char -> bool, n: Needle)
    requires n.text != ""
    ensures Thin(MatchesFrom(text, isWord, n, 0), 0) == Leftmost(text, isWord, n, 0)
  {
    var found := (k: nat) => MatchesFrom(text, isWord, n, k);
    var left := (k: nat) => Leftmost(text, isWord, n, k);
    var at := (k: nat) => Span(k, k + |n.text|, n.original);
    forall k: nat | k <= |text| ensures StepsTogether(found, left, k, at(k), |n.text|) {
      SearchesStep(text, isWord, n, k);
    }
    ThinIsLeftmost(found, left, at, |n.text|, |text|, 0, 0);
  }

  /** The greedy run over a row, in order. */
  ghost function Run(spans: seq<Span>, i: nat): seq<nat>
    requires i <= |spans|
  {
    Greedy(Extents(spans), seq(|spans|, k => k), i)
  }

  /** After `i` spans: what was kept, in order, and where the last one ends. */
  ghost predicate Ran(spans: seq<Span>, i: nat, kept: seq<nat>, lastEnd: nat) {
    && i <= |spans| && kept == Run(spans, i)
    && (forall a :: 0 <= a < |kept| ==> kept[a] < i)
    && (forall a, b :: 0 <= a < b < |kept| ==> kept[a] < kept[b])
    && lastEnd == (if kept == [] then 0 else spans[kept[|kept| - 1]].end)
  }

  lemma {:induction false} RowDecides(spans: seq<Span>, length: nat, i: nat, kept: seq<nat>, lastEnd: nat)
    requires Row(spans, length) && i < |spans| && Ran(spans, i, kept, lastEnd)
    ensures if spans[i].start >= lastEnd then Ran(spans, i + 1, kept + [i], spans[i].end)
            else Ran(spans, i + 1, kept, lastEnd)
  {
    var all := Extents(spans);
    if spans[i].start < lastEnd {
      var k := kept[|kept| - 1];
      assert k in kept && Overlaps(all[i], all[k]);
    }
  }

  lemma {:induction false} RanNothing(spans: seq<Span>)
    ensures Ran(spans, 0, [], 0)
  {
  }

  lemma {:induction false} RanInside(spans: seq<Span>, i: nat, kept: seq<nat>, lastEnd: nat)
    requires Ran(spans, i, kept, lastEnd)
    ensures forall a :: 0 <= a < |kept| ==> kept[a] < |spans|
  {
  }

  lemma {:induction false} ThinStep(spans: seq<Span>, i: nat, lastEnd: nat)
    requires i < |spans|
    ensures Thin(spans[i..], lastEnd)
         == if spans[i].start >= lastEnd then [spans[i]] + Thin(spans[i + 1..], spans[i].end) else Thin(spans[i + 1..], lastEnd)
  {
    assert spans[i..][1..] == spans[i + 1..];
  }

  lemma {:induction false} PickOneMore(spans: seq<Span>, before: seq<nat>, i: nat, more: seq<Span>)
    requires i < |spans| && forall a :: 0 <= a < |before| ==> before[a] < |spans|
    ensures Pick(spans, before + [i]) + more == Pick(spans, before) + ([spans[i]] + more)
  {
    assert Pick(spans, before + [i]) == Pick(spans, before) + [spans[i]];
  }

  lemma {:induction false} RunIsThin(spans: seq<Span>, length: nat, i: nat) returns (kept: seq<nat>, lastEnd: nat)
    requires Row(spans, length) && i <= |spans|
    ensures Ran(spans, i, kept, lastEnd)
    ensures Pick(spans, kept) + Thin(spans[i..], lastEnd) == Thin(spans, 0)
  {
    hide Ran, Run, Row, Thin;
    if i == 0 {
      kept, lastEnd := [], 0;
      RanNothing(spans);
      assert spans[0..] == spans && Pick(spans, []) == [];
      assert [] + Thin(spans, 0) == Thin(spans, 0);
    } else {
      var before, e := RunIsThin(spans, length, i - 1);
      RowDecides(spans, length, i - 1, before, e);
      RanInside(spans, i - 1, before, e);
      var s := spans[i - 1];
      ThinStep(spans, i - 1, e);
      if s.start >= e {
        kept, lastEnd := before + [i - 1], s.end;
        PickOneMore(spans, before, i - 1, Thin(spans[i..], s.end));
      } else {
        kept, lastEnd := before, e;
      }
    }
  }

  lemma {:induction false} RowIsRanked(spans: seq<Span>, length: nat)
    requires Row(spans, length)
    ensures Rank(LengthKeys(spans)) == seq(|spans|, k => k)
  {
    AscendingStays(LengthKeys(spans));
  }

  lemma {:induction false} ChosenOfRow(spans: seq<Span>, length: nat)
    requires Row(spans, length)
    ensures ChosenSpans(spans) == Thin(spans, 0)
  {
    RowIsRanked(spans, length);
    var kept, lastEnd := RunIsThin(spans, length, |spans|);
    assert spans[|spans|..] == [];
    assert Pick(spans, kept) + [] == Pick(spans, kept);
  }

  lemma {:induction false} LeftmostNotEmpty(text: string, isWord: char -> bool, n: Needle, i: nat)
    requires n.text != ""
    ensures forall k :: 0 <= k < |Leftmost(text, isWord, n, i)| ==>
              Leftmost(text, isWord, n, i)[k].start < Leftmost(text, isWord, n, i)[k].end
    decreases |text| - i
  {
    if i <= |text| {
      if IsMatch(text, isWord, n.text, i) {
        LeftmostNotEmpty(text, isWord, n, i + |n.text|);
      } else {
        LeftmostNotEmpty(text, isWord, n, i + 1);
      }
    }
  }

  lemma {:induction false} OnlyNeedle(text: string, isWord: char -> bool, n: Needle)
    requires n.text != ""
    ensures AllMatches(text, isWord, [n]) == MatchesFrom(text, isWord, n, 0)
  {
    assert [n][..0] == [];
    assert AllMatches(text, isWord, []) == [];
    var m := MatchesFrom(text, isWord, n, 0);
    assert [] + m == m;
  }

  lemma {:induction false} ChosenAreLeftmost(text: string, isWord: char -> bool, n: Needle)
    requires n.text != ""
    ensures ChosenSpans(MatchesFrom(text, isWord, n, 0)) == Leftmost(text, isWord, n, 0)
  {
    var spans := MatchesFrom(text, isWord, n, 0);
    MatchesAreARow(text, isWord, n);
    ChosenOfRow(spans, |n.text|);
    ThinOfMatches(text, isWord, n);
  }

  /** One surrogate, any text, any notion of a word character: the Go loop and the Python
      service's selection restore the same text, also when occurrences run into each other. */
  lemma {:induction false} OneNeedleAgrees(text: string, isWord: char -> bool, n: Needle)
    requires n.text != ""
    ensures Splice(text, Leftmost(text, isWord, n, 0), 0) == Resolved(text, AllMatches(text, isWord, [n]))
  {
    OnlyNeedle(text, isWord, n);
    ChosenAreLeftmost(text, isWord, n);
    var chosen := Leftmost(text, isWord, n, 0);
    LeftmostInOrder(text, isWord, n, 0);
    LeftmostNotEmpty(text, isWord, n, 0);
    InOrderReversed(chosen, |text|);
    ReplaceReversed(text, chosen);
    SplicesAgree(text, chosen);
  }
}
