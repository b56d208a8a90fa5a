/** The one substitution that every splice of the repository is an implementation of.

    A text with marked pieces is a weave: literals with one middle piece between each two.
    Masking and demasking both keep the literals and swap the middle pieces. A character of a
    text stands for a code point of the Python service and for a byte of the Go service;
    nothing here depends on which. */
module Weaving {
  /** `text[start..end]` is to be replaced by `text`. */
  datatype Span = Span(start: nat, end: nat, text: string)

  function Weave(lits: seq<string>, mids: seq<string>): string
    requires |lits| == |mids| + 1
  {
    if mids == [] then lits[0] else lits[0] + mids[0] + Weave(lits[1..], mids[1..])
  }

  /** Where the middle pieces lie in a weave that starts at offset `at`, each to be replaced by
      the piece of `reps` at the same place. */
  function SpansOf(lits: seq<string>, mids: seq<string>, reps: seq<string>, at: nat): (r: seq<Span>)
    requires |lits| == |mids| + 1 && |reps| == |mids|
    ensures |r| == |mids|
  {
    if mids == [] then []
    else
      var start := at + |lits[0]|;
      var end := start + |mids[0]|;
      [Span(start, end, reps[0])] + SpansOf(lits[1..], mids[1..], reps[1..], end)
  }

  /** Spans from left to right, none meeting the next, all between `at` and `limit`. */
  predicate InOrder(spans: seq<Span>, at: nat, limit: nat) {
    if spans == [] then at <= limit
    else at <= spans[0].start <= spans[0].end && InOrder(spans[1..], spans[0].end, limit)
  }

  /** A slice as Python takes it: bounds past the end are cut back, crossed bounds give "". */
  function Slice(text: string, i: nat, j: nat): string {
    var hi := if j <= |text| then j else |text|;
    if i <= hi then text[i..hi] else ""
  }

  /** Splicing from left to right with a cursor. */
  function Splice(text: string, spans: seq<Span>, cursor: nat): string {
    if spans == [] then Slice(text, cursor, |text|)
    else Slice(text, cursor, spans[0].start) + spans[0].text + Splice(text, spans[1..], spans[0].end)
  }

  function ReplaceAt(text: string, s: Span): string {
    Slice(text, 0, s.start) + s.text + Slice(text, s.end, |text|)
  }

  /** Replacing in place from the last span back to the first. */
  function BackSplice(text: string, spans: seq<Span>): string {
    if spans == [] then text else ReplaceAt(BackSplice(text, spans[1..]), spans[0])
  }

  lemma {:induction false} WeaveUnfold(lits: seq<string>, mids: seq<string>)
    requires |lits| == |mids| + 1
    ensures mids == [] ==> Weave(lits, mids) == lits[0]
    ensures mids != [] ==> Weave(lits, mids) == lits[0] + mids[0] + Weave(lits[1..], mids[1..])
  {
  }

  lemma {:induction false} SpansUnfold(lits: seq<string>, mids: seq<string>, reps: seq<string>, at: nat)
    requires |lits| == |mids| + 1 && |reps| == |mids|
    ensures mids == [] ==> SpansOf(lits, mids, reps, at) == []
    ensures mids != [] ==>
              var start := at + |lits[0]|; var end := start + |mids[0]|;
              SpansOf(lits, mids, reps, at) == [Span(start, end, reps[0])] + SpansOf(lits[1..], mids[1..], reps[1..], end)
  {
  }

  /** Splicing at the middle pieces of a weave swaps exactly those pieces. */
  lemma {:induction false} SpliceSwapsMiddles(
      text: string, lits: seq<string>, mids: seq<string>, reps: seq<string>, at: nat)
    requires |lits| == |mids| + 1 && |reps| == |mids|
    requires at <= |text| && text[at..] == Weave(lits, mids)
    ensures Splice(text, SpansOf(lits, mids, reps, at), at) == Weave(lits, reps)
  {
    hide Splice, Weave, SpansOf;
    WeaveUnfold(lits, mids);
    WeaveUnfold(lits, reps);
    SpansUnfold(lits, mids, reps, at);
    if mids == [] {
      SpliceNothing(text, at);
    } else {
      var end := at + |lits[0]| + |mids[0]|;
      TextAfter(text, at, lits[0], mids[0], Weave(lits[1..], mids[1..]));
      SpliceSwapsMiddles(text, lits[1..], mids[1..], reps[1..], end);
      SplicePiece(text, at, lits[0], mids[0], reps[0], SpansOf(lits[1..], mids[1..], reps[1..], end), Weave(lits[1..], reps[1..]));
    }
  }

  lemma {:induction false} SpliceNothing(text: string, at: nat)
    requires at <= |text|
    ensures Splice(text, [], at) == text[at..]
  {
    assert text[at..|text|] == text[at..];
  }

  /** The first literal and the first swapped piece. */
  lemma {:induction false} SplicePiece(text: string, at: nat, lit: string, mid: string, rep: string, rest: seq<Span>, tail: string)
    requires at + |lit| + |mid| <= |text| && text[at..at + |lit|] == lit
    requires Splice(text, rest, at + |lit| + |mid|) == tail
    ensures Splice(text, [Span(at + |lit|, at + |lit| + |mid|, rep)] + rest, at) == lit + rep + tail
  {
    hide Splice;
    SpliceStep(text, Span(at + |lit|, at + |lit| + |mid|, rep), rest, at);
    assert Slice(text, at, at + |lit|) == lit;
  }

  lemma {:induction false} SpliceStep(text: string, s: Span, rest: seq<Span>, at: nat)
    ensures Splice(text, [s] + rest, at) == Slice(text, at, s.start) + s.text + Splice(text, rest, s.end)
  {
    assert ([s] + rest)[1..] == rest;
  }

  /** One turn of a splicing loop: what is built so far and what is still to come. */
  lemma {:induction false} SpliceTurn(text: string, done: string, spans: seq<Span>, k: nat, cursor: nat)
    requires k < |spans|
    ensures done + Splice(text, spans[k..], cursor)
         == done + Slice(text, cursor, spans[k].start) + spans[k].text + Splice(text, spans[k + 1..], spans[k].end)
  {
    var s, rest := spans[k], spans[k + 1..];
    assert spans[k..] == [s] + rest;
    SpliceStep(text, s, rest, cursor);
    var a, b, c := Slice(text, cursor, s.start), s.text, Splice(text, rest, s.end);
    assert done + (a + b + c) == done + a + b + c;
  }

  lemma {:induction false} TextAfter(text: string, at: nat, lit: string, mid: string, rest: string)
    requires at <= |text| && text[at..] == lit + mid + rest
    ensures at + |lit| + |mid| <= |text|
    ensures text[at..at + |lit|] == lit
    ensures text[at + |lit|..at + |lit| + |mid|] == mid
    ensures text[at + |lit| + |mid|..] == rest
  {
    var tail := text[at..];
    assert |tail| == |lit| + |mid| + |rest|;
    assert text[at..at + |lit|] == tail[..|lit|] == lit;
    assert text[at + |lit|..at + |lit| + |mid|] == tail[|lit|..|lit| + |mid|] == mid;
    assert text[at + |lit| + |mid|..] == tail[|lit| + |mid|..] == rest;
  }

  lemma {:induction false} BackSpliceNothing(text: string)
    ensures BackSplice(text, []) == text
  {
  }

  /** Replacing in place from the right swaps the same pieces and keeps what lies before. */
  lemma {:induction false} BackSpliceSwapsMiddles(
      text: string, lits: seq<string>, mids: seq<string>, reps: seq<string>, at: nat)
    requires |lits| == |mids| + 1 && |reps| == |mids|
    requires at <= |text| && text[at..] == Weave(lits, mids)
    ensures BackSplice(text, SpansOf(lits, mids, reps, at)) == text[..at] + Weave(lits, reps)
  {
    hide Weave, SpansOf, BackSplice;
    WeaveUnfold(lits, mids);
    WeaveUnfold(lits, reps);
    SpansUnfold(lits, mids, reps, at);
    if mids == [] {
      BackSpliceNothing(text);
      assert text == text[..at] + text[at..];
    } else {
      var end := at + |lits[0]| + |mids[0]|;
      TextAfter(text, at, lits[0], mids[0], Weave(lits[1..], mids[1..]));
      BackSpliceSwapsMiddles(text, lits[1..], mids[1..], reps[1..], end);
      BackSplicePiece(text, at, lits[0], mids[0], reps[0], SpansOf(lits[1..], mids[1..], reps[1..], end), Weave(lits[1..], reps[1..]));
    }
  }

  lemma {:induction false} BackSpliceStep(text: string, s: Span, rest: seq<Span>)
    ensures BackSplice(text, [s] + rest) == ReplaceAt(BackSplice(text, rest), s)
  {
    assert ([s] + rest)[1..] == rest;
  }

  lemma {:induction false} BackSplicedAround(before: string, lit: string, mid: string, rep: string, tail: string, text: string)
    requires text == before + lit + mid + tail
    ensures var start := |before| + |lit|;
            ReplaceAt(text, Span(start, start + |mid|, rep)) == before + (lit + rep + tail)
  {
    assert text[0..|before| + |lit|] == before + lit;
    assert text[|before| + |lit| + |mid|..] == tail;
  }

  lemma {:induction false} TakeThree(text: string, i: nat, j: nat, k: nat)
    requires i <= j <= k <= |text|
    ensures text[..k] == text[..i] + text[i..j] + text[j..k]
  {
  }

  lemma {:induction false} BackSplicePiece(text: string, at: nat, lit: string, mid: string, rep: string, rest: seq<Span>, tail: string)
    requires at + |lit| + |mid| <= |text| && text[at..at + |lit|] == lit
    requires BackSplice(text, rest) == text[..at + |lit| + |mid|] + tail
    ensures BackSplice(text, [Span(at + |lit|, at + |lit| + |mid|, rep)] + rest) == text[..at] + (lit + rep + tail)
  {
    var start, end := at + |lit|, at + |lit| + |mid|;
    hide BackSplice, ReplaceAt;
    BackSpliceStep(text, Span(start, end, rep), rest);
    TakeThree(text, at, start, end);
    BackSplicedAround(text[..at], lit, text[start..end], rep, tail, BackSplice(text, rest));
  }

  // Every list of spans in order cuts its text into a weave.

  function Literals(text: string, spans: seq<Span>, at: nat): (r: seq<string>)
    requires InOrder(spans, at, |text|)
    ensures |r| == |spans| + 1
  {
    InOrderStaysInside(spans, at, |text|);
    if spans == [] then [text[at..]]
    else [text[at..spans[0].start]] + Literals(text, spans[1..], spans[0].end)
  }

  function Middles(text: string, spans: seq<Span>, at: nat): (r: seq<string>)
    requires InOrder(spans, at, |text|)
    ensures |r| == |spans|
  {
    InOrderStaysInside(spans, at, |text|);
    if spans == [] then []
    else [text[spans[0].start..spans[0].end]] + Middles(text, spans[1..], spans[0].end)
  }

  function Texts(spans: seq<Span>): (r: seq<string>)
    ensures |r| == |spans| && forall k :: 0 <= k < |r| ==> r[k] == spans[k].text
  {
    seq(|spans|, k requires 0 <= k < |spans| => spans[k].text)
  }

  lemma {:induction false} InOrderStaysInside(spans: seq<Span>, at: nat, limit: nat)
    requires InOrder(spans, at, limit)
    ensures at <= limit
    ensures spans != [] ==> at <= spans[0].start <= spans[0].end <= limit
  {
    if spans != [] {
      InOrderStaysInside(spans[1..], spans[0].end, limit);
    }
  }

  lemma {:induction false} CutIsWeave(text: string, spans: seq<Span>, at: nat)
    requires InOrder(spans, at, |text|)
    ensures at <= |text| && text[at..] == Weave(Literals(text, spans, at), Middles(text, spans, at))
    ensures spans == SpansOf(Literals(text, spans, at), Middles(text, spans, at), Texts(spans), at)
  {
    hide Weave, SpansOf;
    InOrderStaysInside(spans, at, |text|);
    var lits, mids, reps := Literals(text, spans, at), Middles(text, spans, at), Texts(spans);
    WeaveUnfold(lits, mids);
    SpansUnfold(lits, mids, reps, at);
    if spans != [] {
      var s := spans[0];
      CutIsWeave(text, spans[1..], s.end);
      assert Texts(spans)[1..] == Texts(spans[1..]);
      assert text[at..] == text[at..s.start] + text[s.start..s.end] + text[s.end..];
      assert spans == [s] + spans[1..];
    }
  }

  /** The two ways of splicing agree on spans in order: every character outside the spans
      survives in its place and every span gives way to its own replacement. */
  lemma {:induction false} SplicesAgree(text: string, spans: seq<Span>)
    requires InOrder(spans, 0, |text|)
    ensures BackSplice(text, spans) == Splice(text, spans, 0)
    ensures Splice(text, spans, 0) == Weave(Literals(text, spans, 0), Texts(spans))
    ensures text == Weave(Literals(text, spans, 0), Middles(text, spans, 0))
  {
    var lits, mids := Literals(text, spans, 0), Middles(text, spans, 0);
    CutIsWeave(text, spans, 0);
    assert text[0..] == text;
    SpliceSwapsMiddles(text, lits, mids, Texts(spans), 0);
    BackSpliceSwapsMiddles(text, lits, mids, Texts(spans), 0);
    assert text[..0] == "";
  }

  /** In-order spans ascend, strictly when the earlier one is not empty. */
  lemma {:induction false} InOrderAscends(spans: seq<Span>, at: nat, limit: nat)
    requires InOrder(spans, at, limit)
    ensures forall k :: 0 <= k < |spans| ==> at <= spans[k].start <= spans[k].end <= limit
    ensures forall j, k :: 0 <= j < k < |spans| ==> spans[j].end <= spans[k].start
  {
    if spans != [] {
      InOrderStaysInside(spans, at, limit);
      InOrderAscends(spans[1..], spans[0].end, limit);
      assert forall k :: 1 <= k < |spans| ==> spans[k] == spans[1..][k - 1];
    }
  }

  /** The converse: pairwise ordered spans inside the text are in order. */
  lemma {:induction false} AscendingIsInOrder(spans: seq<Span>, at: nat, limit: nat)
    requires at <= limit
    requires forall k :: 0 <= k < |spans| ==> at <= spans[k].start <= spans[k].end <= limit
    requires forall j, k :: 0 <= j < k < |spans| ==> spans[j].end <= spans[k].start
    ensures InOrder(spans, at, limit)
  {
    if spans != [] {
      var rest := spans[1..];
      assert forall k :: 0 <= k < |rest| ==> rest[k] == spans[k + 1];
      AscendingIsInOrder(rest, spans[0].end, limit);
    }
  }
}
