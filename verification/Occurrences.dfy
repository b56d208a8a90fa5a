/** What the service keeps of a transformed document: per masked span its place in both texts.
    The record holds neither document, and still both can be rebuilt from each other. */
module Occurrences {
  import opened Models
  import opened Ranking
  import opened Weaving

  /** The occurrences of a weave whose middles `mids` were replaced by `reps`. */
  function OccurrencesOf(
      lits: seq<string>, mids: seq<string>, reps: seq<string>, ids: seq<string>, at: nat, masked: nat)
      : (r: seq<Occurrence>)
    requires |lits| == |mids| + 1 && |mids| == |reps| == |ids|
    ensures |r| == |mids|
  {
    if mids == [] then []
    else
      var start, mstart := at + |lits[0]|, masked + |lits[0]|;
      var end, mend := start + |mids[0]|, mstart + |reps[0]|;
      [Occurrence(ids[0], start, end, mstart, mend, mids[0], reps[0])]
      + OccurrencesOf(lits[1..], mids[1..], reps[1..], ids[1..], end, mend)
  }

  function OriginalSpans(occs: seq<Occurrence>): (r: seq<Span>)
    ensures |r| == |occs|
  {
    seq(|occs|, k requires 0 <= k < |occs| => Span(occs[k].originalStart, occs[k].originalEnd, occs[k].masked))
  }

  function MaskedSpans(occs: seq<Occurrence>): (r: seq<Span>)
    ensures |r| == |occs|
  {
    seq(|occs|, k requires 0 <= k < |occs| => Span(occs[k].maskedStart, occs[k].maskedEnd, occs[k].original))
  }

  function StartKeys(spans: seq<Span>): (r: seq<Key>)
    ensures |r| == |spans|
  {
    seq(|spans|, k requires 0 <= k < |spans| => Key(0.0, 0, spans[k].start))
  }

  /** `_splice`: sort by start, then splice. Total: any occurrences give some text. */
  function SortedSplice(payload: string, spans: seq<Span>): string {
    Splice(payload, Pick(spans, Rank(StartKeys(spans))), 0)
  }

  function ApplyMask(payload: string, occs: seq<Occurrence>): string {
    SortedSplice(payload, OriginalSpans(occs))
  }

  function ApplyDemask(payload: string, occs: seq<Occurrence>): string {
    SortedSplice(payload, MaskedSpans(occs))
  }

  method SpliceSorted(payload: string, spans: seq<Span>) returns (result: string)
    ensures result == SortedSplice(payload, spans)
  {
    result := SpliceLoop(payload, Pick(spans, Rank(StartKeys(spans))));
  }

  method SpliceLoop(payload: string, spans: seq<Span>) returns (result: string)
    ensures result == Splice(payload, spans, 0)
  {
    result := "";
    var cursor := 0;
    for k := 0 to |spans|
      invariant result + Splice(payload, spans[k..], cursor) == Splice(payload, spans, 0)
    {
      SpliceTurn(payload, result, spans, k, cursor);
      result := result + Slice(payload, cursor, spans[k].start);
      result := result + spans[k].text;
      cursor := spans[k].end;
    }
    result := result + Slice(payload, cursor, |payload|);
  }

  method ApplyMaskFromRecord(payload: string, occs: seq<Occurrence>) returns (result: string)
    ensures result == ApplyMask(payload, occs)
  {
    result := SpliceSorted(payload, OriginalSpans(occs));
  }

  method ApplyDemaskFromRecord(payload: string, occs: seq<Occurrence>) returns (result: string)
    ensures result == ApplyDemask(payload, occs)
  {
    result := SpliceSorted(payload, MaskedSpans(occs));
  }

  // The two coordinate systems are the two weaves.

  lemma {:induction false} OriginalSpansAre(
      lits: seq<string>, mids: seq<string>, reps: seq<string>, ids: seq<string>, at: nat, masked: nat)
    requires |lits| == |mids| + 1 && |mids| == |reps| == |ids|
    ensures OriginalSpans(OccurrencesOf(lits, mids, reps, ids, at, masked)) == SpansOf(lits, mids, reps, at)
  {
    if mids != [] {
      var end, mend := at + |lits[0]| + |mids[0]|, masked + |lits[0]| + |reps[0]|;
      OriginalSpansAre(lits[1..], mids[1..], reps[1..], ids[1..], end, mend);
      var occs := OccurrencesOf(lits, mids, reps, ids, at, masked);
      assert OriginalSpans(occs) == [OriginalSpans(occs)[0]] + OriginalSpans(occs[1..]);
    }
  }

  lemma {:induction false} MaskedSpansAre(
      lits: seq<string>, mids: seq<string>, reps: seq<string>, ids: seq<string>, at: nat, masked: nat)
    requires |lits| == |mids| + 1 && |mids| == |reps| == |ids|
    ensures MaskedSpans(OccurrencesOf(lits, mids, reps, ids, at, masked)) == SpansOf(lits, reps, mids, masked)
  {
    if mids != [] {
      var end, mend := at + |lits[0]| + |mids[0]|, masked + |lits[0]| + |reps[0]|;
      MaskedSpansAre(lits[1..], mids[1..], reps[1..], ids[1..], end, mend);
      var occs := OccurrencesOf(lits, mids, reps, ids, at, masked);
      assert MaskedSpans(occs) == [MaskedSpans(occs)[0]] + MaskedSpans(occs[1..]);
    }
  }

  /** The spans of a weave start in order, so a stable sort by start changes nothing: pieces
      that start at the same place (an empty replacement before them) keep their order. */
  lemma {:induction false} WeaveSpansAscend(
      lits: seq<string>, mids: seq<string>, reps: seq<string>, at: nat)
    requires |lits| == |mids| + 1 && |reps| == |mids|
    ensures forall j, k :: 0 <= j < k < |mids| ==>
              at <= SpansOf(lits, mids, reps, at)[j].start <= SpansOf(lits, mids, reps, at)[k].start
    ensures forall k :: 0 <= k < |mids| ==> at <= SpansOf(lits, mids, reps, at)[k].start
  {
    if mids != [] {
      var end := at + |lits[0]| + |mids[0]|;
      WeaveSpansAscend(lits[1..], mids[1..], reps[1..], end);
      var spans := SpansOf(lits, mids, reps, at);
      assert forall k :: 1 <= k < |spans| ==> spans[k] == SpansOf(lits[1..], mids[1..], reps[1..], end)[k - 1];
    }
  }

  lemma {:induction false} SortedSpliceOfWeave(lits: seq<string>, mids: seq<string>, reps: seq<string>)
    requires |lits| == |mids| + 1 && |reps| == |mids|
    ensures SortedSplice(Weave(lits, mids), SpansOf(lits, mids, reps, 0)) == Weave(lits, reps)
  {
    var text, spans := Weave(lits, mids), SpansOf(lits, mids, reps, 0);
    WeaveSpansAscend(lits, mids, reps, 0);
    AscendingStays(StartKeys(spans));
    assert Pick(spans, Rank(StartKeys(spans))) == spans;
    assert text[0..] == text;
    SpliceSwapsMiddles(text, lits, mids, reps, 0);
  }

  /** A record of occurrences rebuilds each document from the other. */
  lemma {:induction false} RecordRestores(lits: seq<string>, mids: seq<string>, reps: seq<string>, ids: seq<string>)
    requires |lits| == |mids| + 1 && |mids| == |reps| == |ids|
    ensures var occs := OccurrencesOf(lits, mids, reps, ids, 0, 0);
            && ApplyMask(Weave(lits, mids), occs) == Weave(lits, reps)
            && ApplyDemask(Weave(lits, reps), occs) == Weave(lits, mids)
  {
    OriginalSpansAre(lits, mids, reps, ids, 0, 0);
    MaskedSpansAre(lits, mids, reps, ids, 0, 0);
    SortedSpliceOfWeave(lits, mids, reps);
    SortedSpliceOfWeave(lits, reps, mids);
  }

  /** Every stored occurrence locates its original in the one text and its replacement in the
      other. */
  lemma {:induction false} OccurrencesLocate(
      text: string, masked: string, lits: seq<string>, mids: seq<string>, reps: seq<string>, ids: seq<string>,
      at: nat, mat: nat, k: nat)
    requires |lits| == |mids| + 1 && |mids| == |reps| == |ids| && k < |mids|
    requires at <= |text| && text[at..] == Weave(lits, mids)
    requires mat <= |masked| && masked[mat..] == Weave(lits, reps)
    ensures var o := OccurrencesOf(lits, mids, reps, ids, at, mat)[k];
            && o.entityId == ids[k] && o.original == mids[k] && o.masked == reps[k]
            && Slice(text, o.originalStart, o.originalEnd) == mids[k]
            && Slice(masked, o.maskedStart, o.maskedEnd) == reps[k]
            && o.originalStart <= o.originalEnd <= |text| && o.maskedStart <= o.maskedEnd <= |masked|
  {
    TextAfter(text, at, lits[0], mids[0], Weave(lits[1..], mids[1..]));
    TextAfter(masked, mat, lits[0], reps[0], Weave(lits[1..], reps[1..]));
    if k > 0 {
      var end, mend := at + |lits[0]| + |mids[0]|, mat + |lits[0]| + |reps[0]|;
      OccurrencesLocate(text, masked, lits[1..], mids[1..], reps[1..], ids[1..], end, mend, k - 1);
    }
  }
}
