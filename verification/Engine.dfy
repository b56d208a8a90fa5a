/** Turning marked spans into a masked text with its occurrences. */
module Engine {
  import opened Models
  import opened Occurrences
  import opened Weaving

  /** A span with its replacement and the entity it belongs to. */
  datatype Marked = Marked(span: Span, entityId: string)

  function SpansIn(marks: seq<Marked>): (r: seq<Span>)
    ensures |r| == |marks| && forall k :: 0 <= k < |r| ==> r[k] == marks[k].span
  {
    seq(|marks|, k requires 0 <= k < |marks| => marks[k].span)
  }

  function IdsIn(marks: seq<Marked>): (r: seq<string>)
    ensures |r| == |marks| && forall k :: 0 <= k < |r| ==> r[k] == marks[k].entityId
  {
    seq(|marks|, k requires 0 <= k < |marks| => marks[k].entityId)
  }

  /** The rest of the masked text, from offset `at` of the original on. */
  function MaskedFrom(text: string, marks: seq<Marked>, at: nat): string
    requires InOrder(SpansIn(marks), at, |text|)
  {
    Weave(Literals(text, SpansIn(marks), at), Texts(SpansIn(marks)))
  }

  /** The occurrences still to come, from offset `at` of the original and `mat` of the masked text. */
  function OccurrencesFrom(text: string, marks: seq<Marked>, at: nat, mat: nat): seq<Occurrence>
    requires InOrder(SpansIn(marks), at, |text|)
  {
    var spans := SpansIn(marks);
    OccurrencesOf(Literals(text, spans, at), Middles(text, spans, at), Texts(spans), IdsIn(marks), at, mat)
  }

  /** The masked text is the original with exactly the marked spans replaced, and the
      occurrences are those of the two weaves. */
  ghost predicate IsMasking(text: string, marks: seq<Marked>, masked: string, occs: seq<Occurrence>) {
    && InOrder(SpansIn(marks), 0, |text|)
    && masked == MaskedFrom(text, marks, 0)
    && occs == OccurrencesFrom(text, marks, 0, 0)
  }

  /** `_splice_spans`: one pass with a cursor in the original and a running offset. */
  method SpliceSpans(text: string, marks: seq<Marked>) returns (masked: string, occurrences: seq<Occurrence>)
    requires InOrder(SpansIn(marks), 0, |text|)
    ensures IsMasking(text, marks, masked, occurrences)
  {
    hide Progress, IsMasking;
    masked, occurrences := "", [];
    var cursor: nat, offset := 0, 0;
    Started(text, marks);
    for k := 0 to |marks|
      invariant Progress(text, marks, k, cursor, offset, masked, occurrences)
    {
      var s := marks[k].span;
      Turn(text, marks, k, cursor, offset, masked, occurrences);
      masked := masked + text[cursor..s.start] + s.text;
      occurrences := occurrences + [Occurrence(marks[k].entityId, s.start, s.end, s.start + offset,
                                               s.start + offset + |s.text|, text[s.start..s.end], s.text)];
      offset := offset + (|s.text| - (s.end - s.start));
      cursor := s.end;
    }
    Finished(text, marks, cursor, offset, masked, occurrences);
    masked := masked + Slice(text, cursor, |text|);
  }

  /** The loop of `SpliceSpans` after `k` marks: `offset` is masked minus original position. */
  ghost predicate Progress(text: string, marks: seq<Marked>, k: nat, cursor: nat, offset: int,
                           masked: string, occurrences: seq<Occurrence>) {
    && k <= |marks|
    && InOrder(SpansIn(marks[k..]), cursor, |text|)
    && InOrder(SpansIn(marks), 0, |text|)
    && cursor + offset == |masked|
    && masked + MaskedFrom(text, marks[k..], cursor) == MaskedFrom(text, marks, 0)
    && occurrences + OccurrencesFrom(text, marks[k..], cursor, |masked|) == OccurrencesFrom(text, marks, 0, 0)
  }

  lemma {:induction false} Turn(text: string, marks: seq<Marked>, k: nat, cursor: nat, offset: int,
             masked: string, occs: seq<Occurrence>)
    requires k < |marks| && Progress(text, marks, k, cursor, offset, masked, occs)
    ensures var s := marks[k].span;
            && cursor <= s.start <= s.end <= |text| && 0 <= s.start + offset
            && Progress(text, marks, k + 1, s.end, offset + (|s.text| - (s.end - s.start)),
                        masked + text[cursor..s.start] + s.text,
                        occs + [Occurrence(marks[k].entityId, s.start, s.end, s.start + offset,
                                           s.start + offset + |s.text|, text[s.start..s.end], s.text)])
  {
    hide MaskedFrom, OccurrencesFrom;
    var s, rest := marks[k].span, marks[k + 1..];
    assert marks[k..][1..] == rest;
    MaskedFromStep(text, marks[k..], cursor, masked);
    OccurrencesFromStep(text, marks[k..], cursor, |masked|);
    var mstart := |masked| + (s.start - cursor);
    var o := Occurrence(marks[k].entityId, s.start, s.end, mstart, mstart + |s.text|, text[s.start..s.end], s.text);
    var more := OccurrencesFrom(text, rest, s.end, mstart + |s.text|);
    assert occs + ([o] + more) == occs + [o] + more;
  }

  lemma {:induction false} Started(text: string, marks: seq<Marked>)
    requires InOrder(SpansIn(marks), 0, |text|)
    ensures Progress(text, marks, 0, 0, 0, "", [])
  {
    hide MaskedFrom, OccurrencesFrom;
    assert marks[0..] == marks;
  }

  lemma {:induction false} Finished(text: string, marks: seq<Marked>, cursor: nat, offset: int, masked: string, occs: seq<Occurrence>)
    requires Progress(text, marks, |marks|, cursor, offset, masked, occs)
    ensures IsMasking(text, marks, masked + Slice(text, cursor, |text|), occs)
  {
    assert marks[|marks|..] == [];
  }

  lemma {:induction false} SuffixInOrder(text: string, marks: seq<Marked>, at: nat)
    requires marks != [] && InOrder(SpansIn(marks), at, |text|)
    ensures at <= marks[0].span.start <= marks[0].span.end <= |text|
    ensures InOrder(SpansIn(marks[1..]), marks[0].span.end, |text|)
    ensures SpansIn(marks)[1..] == SpansIn(marks[1..]) && IdsIn(marks)[1..] == IdsIn(marks[1..])
    ensures Texts(SpansIn(marks))[1..] == Texts(SpansIn(marks[1..]))
  {
    InOrderStaysInside(SpansIn(marks), at, |text|);
    assert SpansIn(marks)[1..] == SpansIn(marks[1..]);
  }

  lemma {:induction false} MaskedFromStep(text: string, marks: seq<Marked>, at: nat, done: string)
    requires marks != [] && InOrder(SpansIn(marks), at, |text|)
    ensures var s := marks[0].span;
            && at <= s.start <= s.end <= |text| && InOrder(SpansIn(marks[1..]), s.end, |text|)
            && done + MaskedFrom(text, marks, at)
               == done + text[at..s.start] + s.text + MaskedFrom(text, marks[1..], s.end)
  {
    SuffixInOrder(text, marks, at);
    var s := marks[0].span;
    var a, b, c := text[at..s.start], s.text, MaskedFrom(text, marks[1..], s.end);
    assert MaskedFrom(text, marks, at) == a + b + c;
    assert done + (a + b + c) == done + a + b + c;
  }

  lemma {:induction false} OccurrencesFromStep(text: string, marks: seq<Marked>, at: nat, mat: nat)
    requires marks != [] && InOrder(SpansIn(marks), at, |text|)
    ensures var s := marks[0].span;
            && at <= s.start <= s.end <= |text| && InOrder(SpansIn(marks[1..]), s.end, |text|)
            && var mstart := mat + (s.start - at);
               OccurrencesFrom(text, marks, at, mat)
               == [Occurrence(marks[0].entityId, s.start, s.end, mstart, mstart + |s.text|, text[s.start..s.end], s.text)]
                  + OccurrencesFrom(text, marks[1..], s.end, mstart + |s.text|)
  {
    SuffixInOrder(text, marks, at);
  }

  /** A transform whose record rebuilds each of the two documents from the other, and which is
      the identity when it maps no entity. */
  predicate Reversible(payload: string, t: Transform) {
    && ApplyMask(payload, t.occurrences) == t.text
    && ApplyDemask(t.text, t.occurrences) == payload
    && (t.mappings == [] ==> t.text == payload)
  }

  /** Any masking is reversible from its occurrences. */
  lemma {:induction false} MaskingReverses(text: string, marks: seq<Marked>, masked: string, occs: seq<Occurrence>)
    requires IsMasking(text, marks, masked, occs)
    ensures ApplyMask(text, occs) == masked
    ensures ApplyDemask(masked, occs) == text
  {
    var spans := SpansIn(marks);
    CutIsWeave(text, spans, 0);
    assert text[0..] == text;
    RecordRestores(Literals(text, spans, 0), Middles(text, spans, 0), Texts(spans), IdsIn(marks));
  }

  /** Every stored occurrence locates its original and its replacement. */
  lemma {:induction false} MaskingPlaces(text: string, marks: seq<Marked>, at: nat, mat: nat, k: nat)
    requires InOrder(SpansIn(marks), at, |text|) && k < |marks|
    ensures |OccurrencesFrom(text, marks, at, mat)| == |marks|
    ensures var o, s := OccurrencesFrom(text, marks, at, mat)[k], marks[k].span;
            o.originalStart == s.start && o.originalEnd == s.end
  {
    hide OccurrencesFrom;
    OccurrencesFromStep(text, marks, at, mat);
    OccurrencesCounted(text, marks, at, mat);
    if k > 0 {
      var s := marks[0].span;
      MaskingPlaces(text, marks[1..], s.end, mat + (s.start - at) + |s.text|, k - 1);
    }
  }

  lemma {:induction false} OccurrencesCounted(text: string, marks: seq<Marked>, at: nat, mat: nat)
    requires InOrder(SpansIn(marks), at, |text|)
    ensures |OccurrencesFrom(text, marks, at, mat)| == |marks|
  {
  }

  lemma {:induction false} MaskingLocates(text: string, marks: seq<Marked>, masked: string, occs: seq<Occurrence>, k: nat)
    requires IsMasking(text, marks, masked, occs) && k < |marks|
    ensures |occs| == |marks| && occs[k].entityId == marks[k].entityId
    ensures occs[k].originalStart == marks[k].span.start && occs[k].originalEnd == marks[k].span.end
    ensures occs[k].originalStart <= occs[k].originalEnd <= |text|
    ensures occs[k].maskedStart <= occs[k].maskedEnd <= |masked|
    ensures text[occs[k].originalStart..occs[k].originalEnd] == occs[k].original
    ensures masked[occs[k].maskedStart..occs[k].maskedEnd] == occs[k].masked == marks[k].span.text
  {
    var spans := SpansIn(marks);
    CutIsWeave(text, spans, 0);
    assert text[0..] == text && masked[0..] == masked;
    MaskingPlaces(text, marks, 0, 0, k);
    OccurrencesLocate(text, masked, Literals(text, spans, 0), Middles(text, spans, 0), Texts(spans), IdsIn(marks), 0, 0, k);
  }
}
