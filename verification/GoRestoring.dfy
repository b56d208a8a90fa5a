/** The Go service's demasking of reworded texts, with all its passes: first the tokens, then, in
    synthetic mode, one word-bounded pass per surrogate. When it restores what was masked, and
    exactly which lists of surrogates it can restore from. */
module GoRestoring {
  import opened DemaskExactness
  import opened Demasking
  import opened GoWordBounded
  import opened Models
  import opened RoundTrips
  import opened Substrings
  import opened TokenDemasking
  import opened Weaving

  // The code.

  /** `replaceWordBounded`. */
  function WordBounded(text: string, isWord: char -> bool, n: Needle): string
    requires n.text != ""
  {
    Splice(text, Leftmost(text, isWord, n, 0), 0)
  }

  /** One pass per mapping that has a surrogate. */
  function SurrogatePasses(text: string, isWord: char -> bool, mappings: seq<Mapping>, p: nat): string
    decreases |mappings| - p
  {
    if p >= |mappings| then text else SurrogatePasses(Pass(text, isWord, mappings[p]), isWord, mappings, p + 1)
  }

  function Pass(text: string, isWord: char -> bool, m: Mapping): string {
    if m.synthetic == "" then text else WordBounded(text, isWord, Needle(m.synthetic, m.original))
  }

  method FuzzyDemask(payload: string, mappings: seq<Mapping>, mode: Mode, isWord: char -> bool) returns (result: string)
    ensures mode.Partial? ==> result == payload
    ensures mode.Token? ==> result == ReplaceMappings(payload, mappings)
    ensures mode.Synthetic? ==> result == SurrogatePasses(ReplaceMappings(payload, mappings), isWord, mappings, 0)
  {
    if mode.Partial? {
      return payload;
    }
    result := FuzzyDemaskToken(payload, mappings);
    if mode.Synthetic? {
      for p := 0 to |mappings|
        invariant SurrogatePasses(result, isWord, mappings, p)
               == SurrogatePasses(ReplaceMappings(payload, mappings), isWord, mappings, 0)
      {
        var m := mappings[p];
        if m.synthetic != "" {
          result := ReplaceWordBounded(result, isWord, Needle(m.synthetic, m.original));
        }
      }
    }
  }

  // Splicing at some of the middle pieces.

  function Where(spans: seq<Span>, flags: seq<bool>): seq<Span>
    requires |spans| == |flags|
  {
    if spans == [] then [] else (if flags[0] then [spans[0]] else []) + Where(spans[1..], flags[1..])
  }

  function Choose(mids: seq<string>, reps: seq<string>, flags: seq<bool>): (r: seq<string>)
    requires |mids| == |reps| == |flags|
    ensures |r| == |mids|
  {
    seq(|mids|, k requires 0 <= k < |mids| => if flags[k] then reps[k] else mids[k])
  }

  lemma {:induction false} WhereInOrder(spans: seq<Span>, flags: seq<bool>, at: nat, limit: nat)
    requires |spans| == |flags| && InOrder(spans, at, limit)
    ensures InOrder(Where(spans, flags), at, limit)
  {
    if spans != [] {
      WhereInOrder(spans[1..], flags[1..], spans[0].end, limit);
      if flags[0] {
        assert ([spans[0]] + Where(spans[1..], flags[1..]))[1..] == Where(spans[1..], flags[1..]);
      } else {
        assert [] + Where(spans[1..], flags[1..]) == Where(spans[1..], flags[1..]);
        Earlier(Where(spans[1..], flags[1..]), at, spans[0].end, limit);
      }
    }
  }

  lemma {:induction false} WhereHolds(spans: seq<Span>, flags: seq<bool>, s: Span)
    requires |spans| == |flags|
    ensures s in Where(spans, flags) <==> exists k :: 0 <= k < |spans| && flags[k] && spans[k] == s
  {
    if spans != [] {
      WhereHolds(spans[1..], flags[1..], s);
      if k :| 0 <= k < |spans| && flags[k] && spans[k] == s {
        assert k > 0 ==> flags[1..][k - 1] && spans[1..][k - 1] == s;
      }
      if k :| 0 <= k < |spans[1..]| && flags[1..][k] && spans[1..][k] == s {
        assert flags[k + 1] && spans[k + 1] == s;
      }
    }
  }

  lemma {:induction false} SpliceWhere(text: string, lits: seq<string>, mids: seq<string>, reps: seq<string>, flags: seq<bool>, at: nat)
    requires |lits| == |mids| + 1 && |mids| == |reps| == |flags|
    requires at <= |text| && text[at..] == Weave(lits, mids)
    ensures Splice(text, Where(SpansOf(lits, mids, reps, at), flags), at) == Weave(lits, Choose(mids, reps, flags))
  {
    hide Weave, SpansOf, Splice;
    var chosen := Choose(mids, reps, flags);
    WeaveUnfold(lits, mids);
    WeaveUnfold(lits, chosen);
    SpansUnfold(lits, mids, reps, at);
    if mids == [] {
      SpliceNothing(text, at);
    } else {
      var start := at + |lits[0]|;
      var end := start + |mids[0]|;
      TextAfter(text, at, lits[0], mids[0], Weave(lits[1..], mids[1..]));
      SpliceWhere(text, lits[1..], mids[1..], reps[1..], flags[1..], end);
      assert chosen[1..] == Choose(mids[1..], reps[1..], flags[1..]);
      var spans := SpansOf(lits[1..], mids[1..], reps[1..], end);
      var rest, tail := Where(spans, flags[1..]), Weave(lits[1..], chosen[1..]);
      WhereFirst(Span(start, end, reps[0]), spans, flags);
      if flags[0] {
        SplicePiece(text, at, lits[0], mids[0], reps[0], rest, tail);
      } else {
        WeaveSpansInOrder(text, lits[1..], mids[1..], reps[1..], end);
        WhereInOrder(spans, flags[1..], end, |text|);
        SkipPiece(text, at, lits[0], mids[0], rest, tail);
      }
    }
  }

  /** A piece that is left alone is copied with its literal. */
  lemma {:induction false} SkipPiece(text: string, at: nat, lit: string, mid: string, rest: seq<Span>, tail: string)
    requires at + |lit| + |mid| <= |text| && text[at..at + |lit|] == lit
    requires text[at + |lit|..at + |lit| + |mid|] == mid
    requires InOrder(rest, at + |lit| + |mid|, |text|) && Splice(text, rest, at + |lit| + |mid|) == tail
    ensures Splice(text, rest, at) == lit + mid + tail
  {
    hide Splice;
    var start, end := at + |lit|, at + |lit| + |mid|;
    SpliceCopies(text, rest, at, end, "");
    assert text[at..end] == text[at..start] + text[start..end];
    assert "" + Splice(text, rest, at) == Splice(text, rest, at);
    assert "" + text[at..end] + Splice(text, rest, end) == text[at..end] + Splice(text, rest, end);
  }

  lemma {:induction false} WhereFirst(s: Span, rest: seq<Span>, flags: seq<bool>)
    requires |flags| == |rest| + 1
    ensures Where([s] + rest, flags) == (if flags[0] then [s] + Where(rest, flags[1..]) else Where(rest, flags[1..]))
  {
    assert ([s] + rest)[1..] == rest;
  }

  lemma {:induction false} StartsLater(targets: seq<Span>, pos: nat)
    requires StartsOne(targets, pos) && targets[0].start < pos
    ensures StartsOne(targets[1..], pos)
  {
    var t :| 0 <= t < |targets| && targets[t].start == pos;
    assert targets[1..][t - 1].start == pos;
  }

  /** The leftmost matches are these spans when every match starts one of them. */
  lemma {:induction false} LeftmostAre(text: string, isWord: char -> bool, n: Needle, i: nat, targets: seq<Span>)
    requires n.text != "" && InOrder(targets, i, |text|)
    requires Places(text, isWord, n, targets)
    requires forall pos: nat :: i <= pos && IsMatch(text, isWord, n.text, pos) ==> StartsOne(targets, pos)
    ensures Leftmost(text, isWord, n, i) == targets
    decreases |text| - i
  {
    hide Leftmost, IsMatch, InOrder, Places, StartsOne;
    InOrderStaysInside(targets, i, |text|);
    LeftmostStep(text, isWord, n, i);
    NoRoom(text, isWord, n, targets);
    if IsMatch(text, isWord, n.text, i) {
      FirstPlace(text, isWord, n, i, targets);
      forall pos: nat | i + |n.text| <= pos && IsMatch(text, isWord, n.text, pos) ensures StartsOne(targets[1..], pos) {
        StartsLater(targets, pos);
      }
      LeftmostAre(text, isWord, n, i + |n.text|, targets[1..]);
    } else if i < |text| {
      PlacesLater(text, isWord, n, i, targets);
      LeftmostAre(text, isWord, n, i + 1, targets);
    }
  }

  predicate Places(text: string, isWord: char -> bool, n: Needle, targets: seq<Span>) {
    forall t :: 0 <= t < |targets| ==> IsPlace(text, isWord, n, targets[t])
  }

  lemma {:induction false} LeftmostStep(text: string, isWord: char -> bool, n: Needle, i: nat)
    requires n.text != "" && i <= |text|
    ensures Leftmost(text, isWord, n, i)
         == if IsMatch(text, isWord, n.text, i)
            then [Span(i, i + |n.text|, n.original)] + Leftmost(text, isWord, n, i + |n.text|)
            else if i < |text| then Leftmost(text, isWord, n, i + 1) else []
  {
  }

  lemma {:induction false} NoRoom(text: string, isWord: char -> bool, n: Needle, targets: seq<Span>)
    requires n.text != "" && Places(text, isWord, n, targets)
    ensures targets != [] ==> targets[0].start < |text|
  {
    assert targets != [] ==> IsPlace(text, isWord, n, targets[0]);
  }

  /** Where nothing matches no place starts. */
  lemma {:induction false} PlacesLater(text: string, isWord: char -> bool, n: Needle, i: nat, targets: seq<Span>)
    requires InOrder(targets, i, |text|) && Places(text, isWord, n, targets)
    requires i < |text| && !IsMatch(text, isWord, n.text, i)
    ensures InOrder(targets, i + 1, |text|)
  {
    assert targets != [] ==> IsPlace(text, isWord, n, targets[0]);
  }

  /** A match at `i` is the first place. */
  lemma {:induction false} FirstPlace(text: string, isWord: char -> bool, n: Needle, i: nat, targets: seq<Span>)
    requires n.text != "" && StartsOne(targets, i) && InOrder(targets, i, |text|) && Places(text, isWord, n, targets)
    ensures targets == [Span(i, i + |n.text|, n.original)] + targets[1..]
    ensures InOrder(targets[1..], i + |n.text|, |text|) && Places(text, isWord, n, targets[1..])
  {
    hide IsMatch;
    assert IsPlace(text, isWord, n, targets[0]);
    FirstStart(targets, i, |text|, |n.text|);
    assert forall k :: 0 <= k < |targets[1..]| ==> targets[1..][k] == targets[k + 1];
  }

  lemma {:induction false} FirstStart(targets: seq<Span>, i: nat, limit: nat, length: nat)
    requires InOrder(targets, i, limit) && StartsOne(targets, i) && length > 0
    requires targets[0].end == targets[0].start + length
    ensures targets[0].start == i
  {
    hide InOrder;
    InOrderAscends(targets, i, limit);
    var t :| 0 <= t < |targets| && targets[t].start == i;
  }

  predicate IsPlace(text: string, isWord: char -> bool, n: Needle, s: Span) {
    IsMatch(text, isWord, n.text, s.start) && s == Span(s.start, s.start + |n.text|, n.original)
  }

  predicate StartsOne(targets: seq<Span>, pos: nat) {
    exists t :: 0 <= t < |targets| && targets[t].start == pos
  }

  // Stages: before pass `p` the surrogates of the mappings before it have given way.

  /** A piece of the text: the surrogate of a mapping, or its original where a token stood. */
  datatype Mark = Surrogate(i: nat) | Spelled(i: nat)

  predicate IsMark(mappings: seq<Mapping>, mark: Mark) {
    mark.i < |mappings| && (mark.Surrogate? ==> mappings[mark.i].synthetic != "")
  }

  predicate AllMarked(mappings: seq<Mapping>, marks: seq<Mark>) {
    forall k :: 0 <= k < |marks| ==> IsMark(mappings, marks[k])
  }

  function Shows(mappings: seq<Mapping>, mark: Mark, p: nat): string
    requires IsMark(mappings, mark)
  {
    if mark.Spelled? || mark.i < p then mappings[mark.i].original else mappings[mark.i].synthetic
  }

  function Stage(mappings: seq<Mapping>, marks: seq<Mark>, p: nat): (r: seq<string>)
    requires AllMarked(mappings, marks)
    ensures |r| == |marks|
  {
    seq(|marks|, k requires 0 <= k < |marks| => Shows(mappings, marks[k], p))
  }

  predicate LeftOk(lit: string, isWord: char -> bool, first: bool) {
    if lit == "" then first else !isWord(lit[|lit| - 1])
  }

  predicate RightOk(lit: string, isWord: char -> bool, last: bool) {
    if lit == "" then last else !isWord(lit[0])
  }

  /** Every piece stands between non-word characters of the literals, or at an end of the text. */
  predicate Flanked(lits: seq<string>, isWord: char -> bool, first: bool) {
    |lits| <= 1
    || (LeftOk(lits[0], isWord, first) && RightOk(lits[1], isWord, |lits| == 2) && Flanked(lits[1..], isWord, false))
  }

  lemma {:induction false} FlankedPlace(text: string, lits: seq<string>, mids: seq<string>, reps: seq<string>, at: nat,
                                        k: nat, isWord: char -> bool, first: bool)
    requires |lits| == |mids| + 1 && |reps| == |mids| && k < |mids|
    requires at <= |text| && text[at..] == Weave(lits, mids)
    requires Flanked(lits, isWord, first) && (first ==> at == 0)
    ensures var s := SpansOf(lits, mids, reps, at)[k];
            s.start <= s.end <= |text| && Bounded(text, isWord, s.start, s.end)
  {
    hide Weave, SpansOf;
    WeaveUnfold(lits, mids);
    SpansUnfold(lits, mids, reps, at);
    var start := at + |lits[0]|;
    var end := start + |mids[0]|;
    TextAfter(text, at, lits[0], mids[0], Weave(lits[1..], mids[1..]));
    if k > 0 {
      FlankedPlace(text, lits[1..], mids[1..], reps[1..], end, k - 1, isWord, false);
    } else {
      WeaveUnfold(lits[1..], mids[1..]);
      LeftFlank(text, at, lits[0], isWord, first);
      RightFlank(text, end, lits[1], if |mids| == 1 then "" else mids[1] + Weave(lits[2..], mids[2..]), isWord, |lits| == 2);
      if |mids| > 1 {
        assert lits[1..][1..] == lits[2..] && mids[1..][1..] == mids[2..];
        assert lits[1] + mids[1] + Weave(lits[2..], mids[2..]) == lits[1] + (mids[1] + Weave(lits[2..], mids[2..]));
      } else {
        assert lits[1] + "" == lits[1];
      }
    }
  }

  lemma {:induction false} LeftFlank(text: string, at: nat, lit: string, isWord: char -> bool, first: bool)
    requires at + |lit| <= |text| && text[at..at + |lit|] == lit && LeftOk(lit, isWord, first) && (first ==> at == 0)
    ensures at + |lit| == 0 || !isWord(text[at + |lit| - 1])
  {
    if lit != "" {
      assert text[at..at + |lit|][|lit| - 1] == text[at + |lit| - 1];
    }
  }

  lemma {:induction false} RightFlank(text: string, end: nat, lit: string, rest: string, isWord: char -> bool, last: bool)
    requires end <= |text| && text[end..] == lit + rest && RightOk(lit, isWord, last) && (last ==> rest == "")
    ensures end == |text| || !isWord(text[end])
  {
    if lit != "" {
      assert text[end..][0] == text[end];
    }
  }

  /** The needle stands in the piece as whole words. */
  predicate MatchesIn(isWord: char -> bool, needle: string, piece: string) {
    exists at :: 0 <= at <= |piece| && IsMatch(piece, isWord, needle, at)
  }

  lemma {:induction false} SliceOfSlice(text: string, start: nat, end: nat, at: nat, n: nat)
    requires start + at + n <= end <= |text|
    ensures text[start..end][at..at + n] == text[start + at..start + at + n]
  {
    var one, two := text[start..end][at..at + n], text[start + at..start + at + n];
    assert |one| == |two|;
    assert forall k :: 0 <= k < n ==> one[k] == two[k];
    assert one == two;
  }

  lemma {:induction false} MatchInPiece(text: string, isWord: char -> bool, needle: string, pos: nat, start: nat, end: nat)
    requires IsMatch(text, isWord, needle, pos) && start <= pos && pos + |needle| <= end <= |text|
    ensures MatchesIn(isWord, needle, text[start..end])
  {
    var piece := text[start..end];
    var at := pos - start;
    SliceOfSlice(text, start, end, at, |needle|);
    assert at > 0 ==> piece[at - 1] == text[pos - 1];
    assert at + |needle| < |piece| ==> piece[at + |needle|] == text[pos + |needle|];
    assert Bounded(piece, isWord, at, at + |needle|);
    assert IsMatch(piece, isWord, needle, at);
  }

  // What a text must satisfy, stage by stage, and what the surrogates must.

  /** No match of the surrogate about to be replaced reaches across the border of a piece. */
  ghost predicate StaysInside(mappings: seq<Mapping>, lits: seq<string>, marks: seq<Mark>, isWord: char -> bool, p: nat)
    requires AllMarked(mappings, marks) && |lits| == |marks| + 1 && p < |mappings|
  {
    var mids := Stage(mappings, marks, p);
    forall pos: nat :: IsMatch(Weave(lits, mids), isWord, mappings[p].synthetic, pos) ==>
      LiesInside(pos, pos + |mappings[p].synthetic|, SpansOf(lits, mids, mids, 0))
  }

  /** A reworded text: its pieces stand between non-word characters, and what else looks like a
      surrogate lies inside one of them. */
  ghost predicate GoReworded(mappings: seq<Mapping>, lits: seq<string>, marks: seq<Mark>, isWord: char -> bool) {
    && AllMarked(mappings, marks) && |lits| == |marks| + 1 && Flanked(lits, isWord, true)
    && forall p: nat :: p < |mappings| && mappings[p].synthetic != "" ==> StaysInside(mappings, lits, marks, isWord, p)
  }

  /** Pass `p` finds nothing of its own in the piece: a surrogate holds none of the surrogates
      replaced before it, and what is restored none of those replaced later. An original that is
      its own surrogate is replaced by itself. */
  predicate LeftAlone(mappings: seq<Mapping>, mark: Mark, isWord: char -> bool, p: nat)
    requires IsMark(mappings, mark) && p < |mappings|
  {
    var synth, m := mappings[p].synthetic, mappings[mark.i];
    match mark
    case Surrogate(i) => (p < i ==> !MatchesIn(isWord, synth, m.synthetic)) && (i < p ==> !MatchesIn(isWord, synth, m.original))
    case Spelled(i) => MatchesIn(isWord, synth, m.original) ==> p == i && synth == m.original
  }

  predicate Survives(mappings: seq<Mapping>, mark: Mark, isWord: char -> bool)
    requires IsMark(mappings, mark)
  {
    forall p :: 0 <= p < |mappings| && mappings[p].synthetic != "" ==> LeftAlone(mappings, mark, isWord, p)
  }

  predicate AllSurvive(mappings: seq<Mapping>, marks: seq<Mark>, isWord: char -> bool)
    requires AllMarked(mappings, marks)
  {
    forall k :: 0 <= k < |marks| ==> Survives(mappings, marks[k], isWord)
  }

  // One pass.

  /** The piece is what pass `p` looks for. */
  predicate Due(mappings: seq<Mapping>, mark: Mark, p: nat)
    requires IsMark(mappings, mark)
  {
    mark.i == p && (mark.Spelled? ==> mappings[p].synthetic == mappings[p].original)
  }

  function FlagsOf(mappings: seq<Mapping>, marks: seq<Mark>, p: nat): (r: seq<bool>)
    requires AllMarked(mappings, marks)
    ensures |r| == |marks| && forall k :: 0 <= k < |r| ==> r[k] == Due(mappings, marks[k], p)
  {
    seq(|marks|, k requires 0 <= k < |marks| => Due(mappings, marks[k], p))
  }

  function Copies(s: string, n: nat): (r: seq<string>)
    ensures |r| == n && forall k :: 0 <= k < n ==> r[k] == s
  {
    seq(n, k => s)
  }

  lemma {:induction false} SameExtents(lits: seq<string>, mids: seq<string>, one: seq<string>, two: seq<string>, at: nat, k: nat)
    requires |lits| == |mids| + 1 && |one| == |two| == |mids| && k < |mids|
    ensures SpansOf(lits, mids, one, at)[k].start == SpansOf(lits, mids, two, at)[k].start
    ensures SpansOf(lits, mids, one, at)[k].end == SpansOf(lits, mids, two, at)[k].end
  {
    if k > 0 {
      SameExtents(lits[1..], mids[1..], one[1..], two[1..], at + |lits[0]| + |mids[0]|, k - 1);
    }
  }

  /** A match is a whole piece that waits for this pass. */
  lemma {:induction false} MatchIsDue(mappings: seq<Mapping>, lits: seq<string>, marks: seq<Mark>, isWord: char -> bool, p: nat, pos: nat)
    returns (k: nat)
    requires GoReworded(mappings, lits, marks, isWord) && AllSurvive(mappings, marks, isWord)
    requires p < |mappings| && mappings[p].synthetic != ""
    requires IsMatch(Weave(lits, Stage(mappings, marks, p)), isWord, mappings[p].synthetic, pos)
    ensures k < |marks| && Due(mappings, marks[k], p)
    ensures var mids := Stage(mappings, marks, p); SpansOf(lits, mids, mids, 0)[k].start == pos
  {
    hide Weave, SpansOf, MatchesIn, Flanked, Survives;
    var mids := Stage(mappings, marks, p);
    var text, places := Weave(lits, mids), SpansOf(lits, mids, mids, 0);
    var needle := mappings[p].synthetic;
    assert StaysInside(mappings, lits, marks, isWord, p);
    var t :| 0 <= t < |places| && places[t].start <= pos && pos + |needle| <= places[t].end;
    k := t;
    assert text[0..] == text;
    WeavePlaces(text, lits, mids, mids, 0, k);
    MatchInPiece(text, isWord, needle, pos, places[k].start, places[k].end);
    DueMark(mappings, marks[k], isWord, p);
  }

  lemma {:induction false} DueMark(mappings: seq<Mapping>, mark: Mark, isWord: char -> bool, p: nat)
    requires IsMark(mappings, mark) && Survives(mappings, mark, isWord) && p < |mappings| && mappings[p].synthetic != ""
    requires MatchesIn(isWord, mappings[p].synthetic, Shows(mappings, mark, p))
    ensures Due(mappings, mark, p) && Shows(mappings, mark, p) == mappings[p].synthetic
  {
    assert LeftAlone(mappings, mark, isWord, p);
  }

  lemma {:induction false} PassRestores(mappings: seq<Mapping>, lits: seq<string>, marks: seq<Mark>, isWord: char -> bool, p: nat)
    requires GoReworded(mappings, lits, marks, isWord) && AllSurvive(mappings, marks, isWord)
    requires p < |mappings|
    ensures Pass(Weave(lits, Stage(mappings, marks, p)), isWord, mappings[p]) == Weave(lits, Stage(mappings, marks, p + 1))
  {
    hide Weave, SpansOf, Where, StaysInside, Flanked, Leftmost;
    var m, mids := mappings[p], Stage(mappings, marks, p);
    if m.synthetic == "" {
      assert mids == Stage(mappings, marks, p + 1);
    } else {
      var text, reps, flags := Weave(lits, mids), Copies(m.original, |mids|), FlagsOf(mappings, marks, p);
      assert Choose(mids, reps, flags) == Stage(mappings, marks, p + 1);
      assert text[0..] == text;
      SpliceWhere(text, lits, mids, reps, flags, 0);
      DueAreLeftmost(mappings, lits, marks, isWord, p);
    }
  }

  lemma {:induction false} DueAreLeftmost(mappings: seq<Mapping>, lits: seq<string>, marks: seq<Mark>, isWord: char -> bool, p: nat)
    requires GoReworded(mappings, lits, marks, isWord) && AllSurvive(mappings, marks, isWord)
    requires p < |mappings| && mappings[p].synthetic != ""
    ensures var mids := Stage(mappings, marks, p);
            Leftmost(Weave(lits, mids), isWord, Needle(mappings[p].synthetic, mappings[p].original), 0)
            == Where(SpansOf(lits, mids, Copies(mappings[p].original, |mids|), 0), FlagsOf(mappings, marks, p))
  {
    hide Where, SpansOf, Weave, StaysInside, AllSurvive, Leftmost;
    var m, mids := mappings[p], Stage(mappings, marks, p);
    var n := Needle(m.synthetic, m.original);
    var text, reps, flags := Weave(lits, mids), Copies(m.original, |mids|), FlagsOf(mappings, marks, p);
    var spans := SpansOf(lits, mids, reps, 0);
    var targets := Where(spans, flags);
    assert text[0..] == text;
    WeaveSpansInOrder(text, lits, mids, reps, 0);
    WhereInOrder(spans, flags, 0, |text|);
    forall t | 0 <= t < |targets| ensures IsPlace(text, isWord, n, targets[t]) {
      WhereHolds(spans, flags, targets[t]);
      var k :| 0 <= k < |spans| && flags[k] && spans[k] == targets[t];
      DueIsPlace(mappings, lits, marks, isWord, p, k);
    }
    forall pos: nat | IsMatch(text, isWord, n.text, pos) ensures StartsOne(targets, pos) {
      var k := MatchIsDue(mappings, lits, marks, isWord, p, pos);
      SameExtents(lits, mids, mids, reps, 0, k);
      WhereHolds(spans, flags, spans[k]);
      assert spans[k] in targets;
      var t :| 0 <= t < |targets| && targets[t] == spans[k];
    }
    LeftmostAre(text, isWord, n, 0, targets);
  }

  /** A piece that waits for this pass stands in the text as a whole match. */
  lemma {:induction false} DueIsPlace(mappings: seq<Mapping>, lits: seq<string>, marks: seq<Mark>, isWord: char -> bool, p: nat, k: nat)
    requires GoReworded(mappings, lits, marks, isWord)
    requires p < |mappings| && mappings[p].synthetic != "" && k < |marks| && Due(mappings, marks[k], p)
    ensures var mids := Stage(mappings, marks, p);
            IsPlace(Weave(lits, mids), isWord, Needle(mappings[p].synthetic, mappings[p].original),
                    SpansOf(lits, mids, Copies(mappings[p].original, |mids|), 0)[k])
  {
    hide Weave, SpansOf, StaysInside;
    var mids := Stage(mappings, marks, p);
    var text, reps := Weave(lits, mids), Copies(mappings[p].original, |mids|);
    assert text[0..] == text;
    WeavePlaces(text, lits, mids, reps, 0, k);
    FlankedPlace(text, lits, mids, reps, 0, k, isWord, true);
  }

  /** All passes. */
  lemma {:induction false} PassesRestore(mappings: seq<Mapping>, lits: seq<string>, marks: seq<Mark>, isWord: char -> bool, p: nat)
    requires GoReworded(mappings, lits, marks, isWord) && AllSurvive(mappings, marks, isWord)
    requires p <= |mappings|
    ensures SurrogatePasses(Weave(lits, Stage(mappings, marks, p)), isWord, mappings, p)
         == Weave(lits, Stage(mappings, marks, |mappings|))
    decreases |mappings| - p
  {
    if p < |mappings| {
      PassRestores(mappings, lits, marks, isWord, p);
      PassesRestore(mappings, lits, marks, isWord, p + 1);
    }
  }

  // The whole of FuzzyDemask on a reworded text.

  function MarksFor(mappings: seq<Mapping>, owner: seq<nat>, viaToken: seq<bool>): (r: seq<Mark>)
    requires Owners(mappings, owner) && |viaToken| == |owner|
    ensures |r| == |owner|
  {
    seq(|owner|, k requires 0 <= k < |owner| =>
      if viaToken[k] then Spelled(owner[k]) else Surrogate(owner[k]))
  }

  ghost predicate BracketFree(mappings: seq<Mapping>, lits: seq<string>) {
    && (forall i :: 0 <= i < |mappings| ==> NoBrackets(mappings[i].original) && NoBrackets(mappings[i].synthetic))
    && (forall k :: 0 <= k < |lits| ==> NoBrackets(lits[k]))
  }

  /** The token passes leave the surrogates alone and restore the tokens. */
  lemma {:induction false} TokensFirst(mappings: seq<Mapping>, lits: seq<string>, owner: seq<nat>, viaToken: seq<bool>)
    requires Mapped(mappings) && Owners(mappings, owner) && |viaToken| == |owner| && |lits| == |owner| + 1
    requires BracketFree(mappings, lits) && AllMarked(mappings, MarksFor(mappings, owner, viaToken))
    ensures ReplaceMappings(Weave(lits, Shown(mappings, owner, viaToken)), mappings)
         == Weave(lits, Stage(mappings, MarksFor(mappings, owner, viaToken), 0))
  {
    var shown := Shown(mappings, owner, viaToken);
    PassesOverWeave(lits, shown, mappings);
    forall k | 0 <= k < |owner|
      ensures SwapAll(shown, mappings)[k] == Stage(mappings, MarksFor(mappings, owner, viaToken), 0)[k]
    {
      SwappedOnce(shown, mappings, k);
    }
    assert SwapAll(shown, mappings) == Stage(mappings, MarksFor(mappings, owner, viaToken), 0);
  }

  /** On any reworded text, with any mixture of tokens and surrogates and the mappings in any
      order, the passes restore every piece to its original when the entities that stand in it
      survive the passes: a condition on the mappings alone. */
  lemma {:induction false} GoRestoresReworded(mappings: seq<Mapping>, lits: seq<string>, owner: seq<nat>, viaToken: seq<bool>,
                                              isWord: char -> bool)
    requires Mapped(mappings) && Owners(mappings, owner) && |viaToken| == |owner| && |lits| == |owner| + 1
    requires BracketFree(mappings, lits)
    requires GoReworded(mappings, lits, MarksFor(mappings, owner, viaToken), isWord)
    requires AllSurvive(mappings, MarksFor(mappings, owner, viaToken), isWord)
    ensures SurrogatePasses(ReplaceMappings(Weave(lits, Shown(mappings, owner, viaToken)), mappings), isWord, mappings, 0)
         == Weave(lits, OriginalsAt(mappings, owner))
  {
    TokensFirst(mappings, lits, owner, viaToken);
    PassesRestore(mappings, lits, MarksFor(mappings, owner, viaToken), isWord, 0);
    assert Stage(mappings, MarksFor(mappings, owner, viaToken), |mappings|) == OriginalsAt(mappings, owner);
  }

  /** There both services restore the same text. */
  lemma {:induction false} ServicesAgree(mappings: seq<Mapping>, lits: seq<string>, owner: seq<nat>, viaToken: seq<bool>,
                                         isWord: char -> bool)
    requires Mapped(mappings) && Owners(mappings, owner) && |viaToken| == |owner| && |lits| == |owner| + 1
    requires BracketFree(mappings, lits)
    requires GoReworded(mappings, lits, MarksFor(mappings, owner, viaToken), isWord)
    requires AllSurvive(mappings, MarksFor(mappings, owner, viaToken), isWord)
    requires Reworded(lits, Shown(mappings, owner, viaToken), OriginalsAt(mappings, owner), isWord, NeedlesOf(mappings))
    ensures var text := Weave(lits, Shown(mappings, owner, viaToken));
            SurrogatePasses(ReplaceMappings(text, mappings), isWord, mappings, 0)
            == Resolved(text, AllMatches(text, isWord, NeedlesOf(mappings)))
  {
    GoRestoresReworded(mappings, lits, owner, viaToken, isWord);
    DemaskIsExact(lits, Shown(mappings, owner, viaToken), OriginalsAt(mappings, owner), isWord, NeedlesOf(mappings));
  }

  // Lists of surrogates that cannot be restored from.

  lemma {:induction false} LeftmostFinds(text: string, isWord: char -> bool, n: Needle, i: nat, pos: nat)
    requires n.text != "" && i <= pos && IsMatch(text, isWord, n.text, pos)
    ensures Leftmost(text, isWord, n, i) != [] && Leftmost(text, isWord, n, i)[0].text == n.original
    decreases |text| - i
  {
    if !IsMatch(text, isWord, n.text, i) {
      LeftmostFinds(text, isWord, n, i + 1, pos);
    }
  }

  lemma {:induction false} SpliceInserts(text: string, spans: seq<Span>, at: nat, c: char)
    requires spans != [] && c in spans[0].text
    ensures c in Splice(text, spans, at)
  {
    var a, b, d := Slice(text, at, spans[0].start), spans[0].text, Splice(text, spans[1..], spans[0].end);
    assert c in a + b + d;
  }

  lemma {:induction false} SpliceKeeps(text: string, spans: seq<Span>, at: nat, q: nat)
    requires InOrder(spans, at, |text|) && at <= q < |text|
    requires forall k :: 0 <= k < |spans| ==> !(spans[k].start <= q < spans[k].end)
    ensures text[q] in Splice(text, spans, at)
  {
    InOrderStaysInside(spans, at, |text|);
    if spans == [] {
      assert text[at..|text|][q - at] == text[q];
    } else {
      var a, b, d := Slice(text, at, spans[0].start), spans[0].text, Splice(text, spans[1..], spans[0].end);
      if q < spans[0].start {
        assert a[q - at] == text[q];
      } else {
        assert forall k :: 0 <= k < |spans[1..]| ==> spans[1..][k] == spans[k + 1];
        SpliceKeeps(text, spans[1..], spans[0].end, q);
      }
      assert text[q] in a || text[q] in d;
      assert text[q] in a + b + d;
    }
  }

  lemma {:induction false} LeftmostMatches(text: string, isWord: char -> bool, n: Needle, i: nat, k: nat)
    requires n.text != "" && k < |Leftmost(text, isWord, n, i)|
    ensures IsPlace(text, isWord, n, Leftmost(text, isWord, n, i)[k])
    decreases |text| - i
  {
    if IsMatch(text, isWord, n.text, i) {
      if k > 0 {
        LeftmostMatches(text, isWord, n, i + |n.text|, k - 1);
      }
    } else {
      LeftmostMatches(text, isWord, n, i + 1, k);
    }
  }

  lemma {:induction false} SliceHolds(text: string, start: nat, end: nat, q: nat)
    requires start <= end <= |text|
    ensures start <= q < end ==> text[q] in text[start..end]
  {
    if start <= q < end {
      assert text[start..end][q - start] == text[q];
    }
  }

  /** A character that occurs in no surrogate survives a pass. */
  lemma {:induction false} PassKeeps(text: string, isWord: char -> bool, m: Mapping, c: char)
    requires c in text && c !in m.synthetic
    ensures c in Pass(text, isWord, m)
  {
    if m.synthetic != "" {
      var n := Needle(m.synthetic, m.original);
      var spans := Leftmost(text, isWord, n, 0);
      var q :| 0 <= q < |text| && text[q] == c;
      LeftmostInOrder(text, isWord, n, 0);
      forall k | 0 <= k < |spans| ensures !(spans[k].start <= q < spans[k].end) {
        LeftmostMatches(text, isWord, n, 0, k);
        SliceHolds(text, spans[k].start, spans[k].end, q);
      }
      SpliceKeeps(text, spans, 0, q);
    }
  }

  lemma {:induction false} PassesKeep(text: string, isWord: char -> bool, mappings: seq<Mapping>, p: nat, c: char)
    requires c in text && forall i :: 0 <= i < |mappings| ==> c !in mappings[i].synthetic
    ensures c in SurrogatePasses(text, isWord, mappings, p)
    decreases |mappings| - p
  {
    if p < |mappings| {
      PassKeeps(text, isWord, mappings[p], c);
      PassesKeep(Pass(text, isWord, mappings[p]), isWord, mappings, p + 1, c);
    }
  }

  lemma {:induction false} NoMatchNoChange(text: string, isWord: char -> bool, m: Mapping)
    requires m.synthetic != "" ==> !MatchesIn(isWord, m.synthetic, text)
    ensures Pass(text, isWord, m) == text
  {
    if m.synthetic != "" {
      LeftmostAre(text, isWord, Needle(m.synthetic, m.original), 0, []);
      assert text[0..|text|] == text;
    }
  }

  /** The first pass from `p` on that finds its surrogate in the text leaves its mark there for good. */
  lemma {:induction false} Tainted(text: string, isWord: char -> bool, mappings: seq<Mapping>, p: nat, i: nat, c: char)
    requires p <= i < |mappings| && mappings[i].synthetic != "" && MatchesIn(isWord, mappings[i].synthetic, text)
    requires forall k :: p <= k <= i ==> c in mappings[k].original
    requires forall k :: 0 <= k < |mappings| ==> c !in mappings[k].synthetic
    ensures c in SurrogatePasses(text, isWord, mappings, p)
    decreases i - p
  {
    var m := mappings[p];
    if m.synthetic != "" && MatchesIn(isWord, m.synthetic, text) {
      var n := Needle(m.synthetic, m.original);
      var at: nat :| at <= |text| && IsMatch(text, isWord, n.text, at);
      LeftmostFinds(text, isWord, n, 0, at);
      SpliceInserts(text, Leftmost(text, isWord, n, 0), 0, c);
      PassesKeep(Pass(text, isWord, m), isWord, mappings, p + 1, c);
    } else {
      NoMatchNoChange(text, isWord, m);
      Tainted(text, isWord, mappings, p + 1, i, c);
    }
  }

  /** Passes that find nothing change nothing. */
  lemma {:induction false} PassesSkip(text: string, isWord: char -> bool, mappings: seq<Mapping>, p: nat, q: nat)
    requires p <= q <= |mappings|
    requires forall k :: p <= k < q && mappings[k].synthetic != "" ==> !MatchesIn(isWord, mappings[k].synthetic, text)
    ensures SurrogatePasses(text, isWord, mappings, p) == SurrogatePasses(text, isWord, mappings, q)
    decreases q - p
  {
    hide MatchesIn, Pass;
    if p < q {
      NoMatchNoChange(text, isWord, mappings[p]);
      PassesSkip(text, isWord, mappings, p + 1, q);
    }
  }

  lemma {:induction false} ChangedOrTainted(text: string, isWord: char -> bool, mappings: seq<Mapping>, p: nat, c: char)
    requires p <= |mappings| && forall k :: p <= k < |mappings| ==> c in mappings[k].original
    requires forall k :: 0 <= k < |mappings| ==> c !in mappings[k].synthetic
    ensures SurrogatePasses(text, isWord, mappings, p) == text || c in SurrogatePasses(text, isWord, mappings, p)
  {
    hide MatchesIn;
    if i :| p <= i < |mappings| && mappings[i].synthetic != "" && MatchesIn(isWord, mappings[i].synthetic, text) {
      Tainted(text, isWord, mappings, p, i, c);
    } else {
      PassesSkip(text, isWord, mappings, p, |mappings|);
    }
  }

  /** A surrogate alone is replaced as a whole. */
  lemma {:induction false} LonePass(isWord: char -> bool, m: Mapping)
    requires m.synthetic != ""
    ensures Pass(m.synthetic, isWord, m) == m.original
  {
    var text, n := m.synthetic, Needle(m.synthetic, m.original);
    var spans := [Span(0, |text|, m.original)];
    assert text[0..|text|] == text;
    assert IsMatch(text, isWord, text, 0);
    LeftmostAre(text, isWord, n, 0, spans);
    assert spans[1..] == [] && text[|text|..] == "";
    assert Splice(text, spans, 0) == m.original;
  }

  /** A surrogate inside its own original makes the text longer. */
  lemma {:induction false} OwnPassGrows(isWord: char -> bool, m: Mapping)
    requires m.synthetic != "" && m.synthetic != m.original && MatchesIn(isWord, m.synthetic, m.original)
    ensures |Pass(m.original, isWord, m)| > |m.original|
  {
    var text, n := m.original, Needle(m.synthetic, m.original);
    var at: nat :| at <= |text| && IsMatch(text, isWord, n.text, at);
    WholeOrPart(text, n.text, at);
    var spans := Leftmost(text, isWord, n, 0);
    LeftmostFinds(text, isWord, n, 0, at);
    LeftmostInOrder(text, isWord, n, 0);
    forall k | 0 <= k < |spans| ensures |spans[k].text| > spans[k].end - spans[k].start {
      LeftmostMatches(text, isWord, n, 0, k);
    }
    SpliceGrows(text, spans, 0);
  }

  lemma {:induction false} WholeOrPart(text: string, part: string, at: nat)
    requires at + |part| <= |text| && text[at..at + |part|] == part
    ensures |part| == |text| ==> part == text
  {
  }

  lemma {:induction false} SpliceGrows(text: string, spans: seq<Span>, at: nat)
    requires InOrder(spans, at, |text|) && at <= |text|
    requires forall k :: 0 <= k < |spans| ==> |spans[k].text| > spans[k].end - spans[k].start
    ensures |Splice(text, spans, at)| >= |text| - at + |spans|
  {
    InOrderStaysInside(spans, at, |text|);
    if spans != [] {
      assert forall k :: 0 <= k < |spans[1..]| ==> spans[1..][k] == spans[k + 1];
      SpliceGrows(text, spans[1..], spans[0].end);
    }
  }

  // Exactly when an entity comes back.

  /** The same surrogates; the originals may differ, except those of the marked entities. */
  predicate Varies(mappings: seq<Mapping>, others: seq<Mapping>, marks: seq<Mark>) {
    && |others| == |mappings|
    && (forall k :: 0 <= k < |mappings| ==> others[k].synthetic == mappings[k].synthetic)
    && forall k :: 0 <= k < |marks| && marks[k].i < |mappings| ==> others[marks[k].i].original == mappings[marks[k].i].original
  }

  ghost predicate Restores(mappings: seq<Mapping>, lits: seq<string>, marks: seq<Mark>, isWord: char -> bool)
    requires AllMarked(mappings, marks) && |lits| == |marks| + 1
  {
    SurrogatePasses(Weave(lits, Stage(mappings, marks, 0)), isWord, mappings, 0)
    == Weave(lits, Stage(mappings, marks, |mappings|))
  }

  predicate Uses(kinds: set<Mark>, marks: seq<Mark>) {
    forall k :: 0 <= k < |marks| ==> marks[k] in kinds
  }

  /** Every reworded text of such pieces is restored, whatever the originals of the entities it
      does not show. */
  ghost predicate RestoresAlways(mappings: seq<Mapping>, kinds: set<Mark>, isWord: char -> bool) {
    forall others: seq<Mapping>, lits: seq<string>, marks: seq<Mark> ::
      Uses(kinds, marks) && Varies(mappings, others, marks) && GoReworded(others, lits, marks, isWord) ==>
        Restores(others, lits, marks, isWord)
  }

  /** The text that consists of this piece alone is restored, whatever the other originals. */
  ghost predicate ComesBack(mappings: seq<Mapping>, mark: Mark, isWord: char -> bool)
    requires IsMark(mappings, mark)
  {
    forall others: seq<Mapping> :: Varies(mappings, others, [mark]) ==>
      SurrogatePasses(Shows(mappings, mark, 0), isWord, others, 0) == mappings[mark.i].original
  }

  /** Every original but the `i`-th is the letter `a`. */
  function Tagged(mappings: seq<Mapping>, i: nat, a: char): (r: seq<Mapping>)
    ensures |r| == |mappings|
    ensures forall k :: 0 <= k < |r| ==> r[k] == if k == i then mappings[k] else mappings[k].(original := [a])
  {
    seq(|mappings|, k requires 0 <= k < |mappings| => if k == i then mappings[k] else mappings[k].(original := [a]))
  }

  predicate Fresh(mappings: seq<Mapping>, a: char) {
    forall k :: 0 <= k < |mappings| ==> a !in mappings[k].synthetic && a !in mappings[k].original
  }

  lemma {:induction false} SurvivalVaries(mappings: seq<Mapping>, others: seq<Mapping>, mark: Mark, isWord: char -> bool)
    requires IsMark(mappings, mark) && Varies(mappings, others, [mark])
    ensures IsMark(others, mark) && (Survives(mappings, mark, isWord) <==> Survives(others, mark, isWord))
    ensures Shows(others, mark, 0) == Shows(mappings, mark, 0)
  {
    hide MatchesIn;
    assert [mark][0] == mark;
    forall p | 0 <= p < |mappings|
      ensures LeftAlone(mappings, mark, isWord, p) == LeftAlone(others, mark, isWord, p) {
    }
  }

  lemma {:induction false} LoneWeave(piece: string)
    ensures Weave(["", ""], [piece]) == piece
    ensures SpansOf(["", ""], [piece], [piece], 0) == [Span(0, |piece|, piece)]
  {
    assert ["", ""][1..] == [""] && [piece][1..] == [];
    assert SpansOf([""], [], [], |piece|) == [];
  }

  /** The text that consists of one piece is a reworded text. */
  lemma {:induction false} LonePiece(mappings: seq<Mapping>, mark: Mark, isWord: char -> bool)
    requires IsMark(mappings, mark)
    ensures GoReworded(mappings, ["", ""], [mark], isWord)
    ensures forall p: nat :: p <= |mappings| ==> Weave(["", ""], Stage(mappings, [mark], p)) == Shows(mappings, mark, p)
  {
    var marks, lits := [mark], ["", ""];
    assert lits[1..] == [""];
    forall p: nat | p <= |mappings|
      ensures Weave(lits, Stage(mappings, marks, p)) == Shows(mappings, mark, p)
      ensures p < |mappings| ==> StaysInside(mappings, lits, marks, isWord, p)
    {
      var mids := Stage(mappings, marks, p);
      assert mids == [Shows(mappings, mark, p)];
      LoneWeave(mids[0]);
      if p < |mappings| {
        forall pos: nat | IsMatch(Weave(lits, mids), isWord, mappings[p].synthetic, pos)
          ensures LiesInside(pos, pos + |mappings[p].synthetic|, SpansOf(lits, mids, mids, 0))
        {
          var spans := SpansOf(lits, mids, mids, 0);
          assert spans[0].start <= pos && pos + |mappings[p].synthetic| <= spans[0].end;
        }
      }
    }
  }

  /** A surrogate that does not survive: an earlier one stands in it, or a later one in its original. */
  lemma {:induction false} SurrogateBreaks(mappings: seq<Mapping>, i: nat, isWord: char -> bool, a: char)
    requires IsMark(mappings, Surrogate(i)) && !Survives(mappings, Surrogate(i), isWord) && Fresh(mappings, a)
    ensures SurrogatePasses(mappings[i].synthetic, isWord, Tagged(mappings, i, a), 0) != mappings[i].original
  {
    hide MatchesIn, SurrogatePasses;
    var others, synth, o := Tagged(mappings, i, a), mappings[i].synthetic, mappings[i].original;
    if p :| 0 <= p < i && mappings[p].synthetic != "" && MatchesIn(isWord, mappings[p].synthetic, synth) {
      Tainted(synth, isWord, others, 0, p, a);
    } else {
      var p :| 0 <= p < |mappings| && mappings[p].synthetic != "" && !LeftAlone(mappings, Surrogate(i), isWord, p);
      PassesSkip(synth, isWord, others, 0, i);
      LonePass(isWord, others[i]);
      PassesUnfold(synth, isWord, others, i);
      Tainted(o, isWord, others, i + 1, p, a);
    }
  }

  lemma {:induction false} PassesUnfold(text: string, isWord: char -> bool, mappings: seq<Mapping>, p: nat)
    requires p < |mappings|
    ensures SurrogatePasses(text, isWord, mappings, p) == SurrogatePasses(Pass(text, isWord, mappings[p]), isWord, mappings, p + 1)
  {
  }

  /** An original restored by its token that does not survive: some surrogate stands in it. */
  lemma {:induction false} SpelledBreaks(mappings: seq<Mapping>, i: nat, isWord: char -> bool, a: char)
    requires IsMark(mappings, Spelled(i)) && !Survives(mappings, Spelled(i), isWord) && Fresh(mappings, a)
    ensures SurrogatePasses(mappings[i].original, isWord, Tagged(mappings, i, a), 0) != mappings[i].original
  {
    hide MatchesIn, SurrogatePasses, Pass;
    var others, m := Tagged(mappings, i, a), mappings[i];
    if p :| 0 <= p < i && mappings[p].synthetic != "" && MatchesIn(isWord, mappings[p].synthetic, m.original) {
      Tainted(m.original, isWord, others, 0, p, a);
    } else {
      PassesSkip(m.original, isWord, others, 0, i);
      PassesUnfold(m.original, isWord, others, i);
      if m.synthetic != "" && m.synthetic != m.original && MatchesIn(isWord, m.synthetic, m.original) {
        OwnPassGrows(isWord, m);
        ChangedOrTainted(Pass(m.original, isWord, m), isWord, others, i + 1, a);
      } else {
        var p :| 0 <= p < |mappings| && mappings[p].synthetic != "" && !LeftAlone(mappings, Spelled(i), isWord, p);
        OwnPassKeeps(isWord, m);
        Tainted(m.original, isWord, others, i + 1, p, a);
      }
    }
  }

  lemma {:induction false} OwnPassKeeps(isWord: char -> bool, m: Mapping)
    requires m.synthetic != "" && MatchesIn(isWord, m.synthetic, m.original) ==> m.synthetic == m.original
    ensures Pass(m.original, isWord, m) == m.original
  {
    hide MatchesIn, Pass;
    if m.synthetic != "" && m.synthetic == m.original {
      LonePass(isWord, m);
    } else {
      NoMatchNoChange(m.original, isWord, m);
    }
  }

  lemma {:induction false} MarkBreaks(mappings: seq<Mapping>, mark: Mark, isWord: char -> bool, a: char)
    requires IsMark(mappings, mark) && !Survives(mappings, mark, isWord) && Fresh(mappings, a)
    ensures Varies(mappings, Tagged(mappings, mark.i, a), [mark])
    ensures SurrogatePasses(Shows(mappings, mark, 0), isWord, Tagged(mappings, mark.i, a), 0) != mappings[mark.i].original
  {
    hide Survives, SurrogatePasses;
    match mark
    case Surrogate(i) => SurrogateBreaks(mappings, i, isWord, a);
    case Spelled(i) => SpelledBreaks(mappings, i, isWord, a);
  }

  /** A piece alone comes back from the Go passes, whatever the other originals, if and only if
      (a surrogate) no earlier surrogate stands in it and no later one in its original, or
      (a token) no surrogate stands in its original, but for the original itself as its own
      surrogate. (`a` is any character that occurs nowhere in the mappings.) */
  lemma {:induction false} ComesBackExactlyWhen(mappings: seq<Mapping>, mark: Mark, isWord: char -> bool, a: char)
    requires IsMark(mappings, mark) && Fresh(mappings, a)
    ensures ComesBack(mappings, mark, isWord) <==> Survives(mappings, mark, isWord)
  {
    hide Survives, SurrogatePasses, GoReworded, Weave, Stage, Varies;
    if Survives(mappings, mark, isWord) {
      forall others: seq<Mapping> | Varies(mappings, others, [mark])
        ensures SurrogatePasses(Shows(mappings, mark, 0), isWord, others, 0) == mappings[mark.i].original
      {
        SurvivorComesBack(mappings, others, mark, isWord);
      }
    } else {
      MarkBreaks(mappings, mark, isWord, a);
    }
  }

  lemma {:induction false} SurvivorComesBack(mappings: seq<Mapping>, others: seq<Mapping>, mark: Mark, isWord: char -> bool)
    requires IsMark(mappings, mark) && Survives(mappings, mark, isWord) && Varies(mappings, others, [mark])
    ensures SurrogatePasses(Shows(mappings, mark, 0), isWord, others, 0) == mappings[mark.i].original
  {
    hide Survives, SurrogatePasses, GoReworded, Weave, Stage;
    SurvivalVaries(mappings, others, mark, isWord);
    LonePiece(others, mark, isWord);
    PassesRestore(others, ["", ""], [mark], isWord, 0);
    assert [mark][0] == mark;
  }

  /** For any mixture of pieces: the Go passes restore every reworded text of surrogates and
      tokens of these entities, whatever the originals of all others, if and only if each of them
      survives the passes. */
  lemma {:induction false} RestoresExactlyWhenAllSurvive(mappings: seq<Mapping>, kinds: set<Mark>, isWord: char -> bool, a: char)
    requires (forall mark :: mark in kinds ==> IsMark(mappings, mark)) && Fresh(mappings, a)
    ensures RestoresAlways(mappings, kinds, isWord) <==> forall mark :: mark in kinds ==> Survives(mappings, mark, isWord)
  {
    hide Survives, GoReworded, Varies, Restores;
    if mark :| mark in kinds && !Survives(mappings, mark, isWord) {
      LoneDoesNotRestore(mappings, mark, isWord, a);
      assert Uses(kinds, [mark]);
    } else {
      forall others: seq<Mapping>, lits: seq<string>, marks: seq<Mark> |
        Uses(kinds, marks) && Varies(mappings, others, marks) && GoReworded(others, lits, marks, isWord)
        ensures AllMarked(others, marks) && |lits| == |marks| + 1 && Restores(others, lits, marks, isWord)
      {
        SurvivorsRestore(mappings, others, lits, marks, isWord);
      }
    }
  }

  lemma {:induction false} SurvivorsRestore(mappings: seq<Mapping>, others: seq<Mapping>, lits: seq<string>, marks: seq<Mark>, isWord: char -> bool)
    requires AllMarked(mappings, marks) && AllSurvive(mappings, marks, isWord)
    requires Varies(mappings, others, marks) && GoReworded(others, lits, marks, isWord)
    ensures AllMarked(others, marks) && |lits| == |marks| + 1
    ensures Restores(others, lits, marks, isWord)
  {
    hide Survives, StaysInside, Flanked, SurrogatePasses;
    forall k | 0 <= k < |marks| ensures Survives(others, marks[k], isWord) {
      SurvivalVaries(mappings, others, marks[k], isWord);
    }
    PassesRestore(others, lits, marks, isWord, 0);
  }

  lemma {:induction false} LoneDoesNotRestore(mappings: seq<Mapping>, mark: Mark, isWord: char -> bool, a: char)
    requires IsMark(mappings, mark) && !Survives(mappings, mark, isWord) && Fresh(mappings, a)
    ensures var others := Tagged(mappings, mark.i, a);
            && Varies(mappings, others, [mark])
            && GoReworded(others, ["", ""], [mark], isWord)
            && IsMark(others, mark)
            && !Restores(others, ["", ""], [mark], isWord)
  {
    hide Survives, SurrogatePasses, GoReworded, Weave, Stage;
    var others := Tagged(mappings, mark.i, a);
    MarkBreaks(mappings, mark, isWord, a);
    SurvivalVaries(mappings, others, mark, isWord);
    LonePiece(others, mark, isWord);
  }

  /** The Python service restores every lone surrogate, as long as the surrogates differ. */
  lemma {:induction false} LoneIsFineInPython(mappings: seq<Mapping>, isWord: char -> bool, needles: seq<Needle>, j: nat)
    requires j < |mappings| && mappings[j].synthetic != ""
    requires forall i, k :: 0 <= i < k < |mappings| ==> mappings[i].synthetic != mappings[k].synthetic
    requires forall n :: n in needles <==>
               exists i :: 0 <= i < |mappings| && mappings[i].synthetic != "" && n == Needle(mappings[i].synthetic, mappings[i].original)
    ensures Resolved(mappings[j].synthetic, AllMatches(mappings[j].synthetic, isWord, needles)) == mappings[j].original
  {
    var synth, original := mappings[j].synthetic, mappings[j].original;
    var lits, surrogates, restored := ["", ""], [synth], [original];
    LoneWeave(synth);
    LoneWeave(original);
    var text, targets := Weave(lits, surrogates), SpansOf(lits, surrogates, restored, 0);
    assert surrogates[1..] == [] && lits[1..] == [""] && restored[1..] == [];
    assert targets == [Span(0, |synth|, original)];
    assert text[0..|text|] == text;
    assert IsMatch(text, isWord, surrogates[0], targets[0].start);
    forall n, i: nat | n in needles && n.text != "" && IsMatch(text, isWord, n.text, i) ensures LiesInside(i, i + |n.text|, targets) {
      assert targets[0].start <= i && i + |n.text| <= targets[0].end;
    }
    assert Needle(synth, original) in needles;
    DemaskIsExact(lits, surrogates, restored, isWord, needles);
  }

  // Both ways of going wrong are drawn.

  /** `isWordChar`, of characters: everything beyond ASCII counts as a letter. */
  function GoWordChar(): char -> bool {
    (c: char) => 'a' <= c <= 'z' || 'A' <= c <= 'Z' || '0' <= c <= '9' || c == '_' || c >= '\U{80}'
  }

  const KAZAN: string := "г. Казань"
  const ISSUER_KAZAN: string := "ГУ МВД России по г. Казань"
  const ISSUER_PERM: string := "ГУ МВД России по г. Пермь"
  const TVER: string := "г. Тверь"
  const ISSUER_BEFORE: string := "УМВД России по г. Казань"
  const ISSUER_AFTER: string := "УМВД России по г. Тверь"

  function Pair(one: Needle, two: Needle): seq<Mapping> {
    [Mapping("", one.original, "", one.text), Mapping("", two.original, "", two.text)]
  }

  lemma {:induction false} PairIsFineInPython(one: Needle, two: Needle, isWord: char -> bool, needles: seq<Needle>, j: nat)
    requires one.text != "" && two.text != "" && one.text != two.text && j < 2
    requires forall n :: n in needles <==> n == one || n == two
    ensures var m := Pair(one, two)[j]; Resolved(m.synthetic, AllMatches(m.synthetic, isWord, needles)) == m.original
  {
    hide Resolved, AllMatches;
    var mappings := Pair(one, two);
    forall n ensures n in needles <==>
      exists i :: 0 <= i < |mappings| && mappings[i].synthetic != "" && n == Needle(mappings[i].synthetic, mappings[i].original)
    {
      if n in needles {
        assert n == Needle(mappings[0].synthetic, mappings[0].original) || n == Needle(mappings[1].synthetic, mappings[1].original);
      }
    }
    LoneIsFineInPython(mappings, isWord, needles, j);
  }

  lemma {:induction false} PairNests(one: Needle, two: Needle, isWord: char -> bool, c: char)
    requires one.text != "" && two.text != "" && MatchesIn(isWord, one.text, two.text)
    requires c in one.original && c !in one.text && c !in two.text && c !in two.original
    ensures !Survives(Pair(one, two), Surrogate(1), isWord)
    ensures SurrogatePasses(two.text, isWord, Pair(one, two), 0) != two.original
  {
    hide MatchesIn, SurrogatePasses;
    var mappings := Pair(one, two);
    assert !LeftAlone(mappings, Surrogate(1), isWord, 0);
    Tainted(two.text, isWord, mappings, 0, 0, c);
  }

  lemma {:induction false} PairRescans(one: Needle, two: Needle, isWord: char -> bool)
    requires one.text != "" && two.text != "" && MatchesIn(isWord, two.text, one.original)
    ensures !Survives(Pair(one, two), Surrogate(0), isWord)
    ensures SurrogatePasses(one.text, isWord, Pair(one, two), 0) == WordBounded(one.original, isWord, two)
  {
    hide MatchesIn, SurrogatePasses, Pass;
    var mappings := Pair(one, two);
    assert !LeftAlone(mappings, Surrogate(0), isWord, 1);
    LonePass(isWord, mappings[0]);
    PassesUnfold(one.text, isWord, mappings, 0);
    PassesUnfold(one.original, isWord, mappings, 1);
    PassOfPair(one, two, isWord);
    PassesDone(WordBounded(one.original, isWord, two), isWord, mappings);
  }

  lemma {:induction false} PassOfPair(one: Needle, two: Needle, isWord: char -> bool)
    requires two.text != ""
    ensures Pass(one.original, isWord, Pair(one, two)[1]) == WordBounded(one.original, isWord, two)
  {
  }

  lemma {:induction false} PassesDone(text: string, isWord: char -> bool, mappings: seq<Mapping>)
    ensures SurrogatePasses(text, isWord, mappings, |mappings|) == text
  {
  }

  /** Nested surrogates: birth place and issuer, in this order, drawn for the same city. On the
      issuer alone the Go service replaces the birth place inside it. */
  lemma {:induction false} NestedIssuerComesBackWrong(needles: seq<Needle>)
    requires forall n :: n in needles <==> n == Needle(KAZAN, "x") || n == Needle(ISSUER_KAZAN, "y")
    ensures var mappings := Pair(Needle(KAZAN, "x"), Needle(ISSUER_KAZAN, "y"));
            && !Survives(mappings, Surrogate(1), GoWordChar())
            && SurrogatePasses(ISSUER_KAZAN, GoWordChar(), mappings, 0) != "y"
            && Resolved(ISSUER_KAZAN, AllMatches(ISSUER_KAZAN, GoWordChar(), needles)) == "y"
  {
    hide SurrogatePasses, Resolved, AllMatches, Survives, GoWordChar, MatchesIn;
    KazanNests();
    assert 'x' !in KAZAN && 'x' !in ISSUER_KAZAN;
    PairNests(Needle(KAZAN, "x"), Needle(ISSUER_KAZAN, "y"), GoWordChar(), 'x');
    PairIsFineInPython(Needle(KAZAN, "x"), Needle(ISSUER_KAZAN, "y"), GoWordChar(), needles, 1);
  }

  lemma {:induction false} KazanNests()
    ensures MatchesIn(GoWordChar(), KAZAN, ISSUER_KAZAN)
  {
    assert ISSUER_KAZAN[17..26] == KAZAN;
    assert IsMatch(ISSUER_KAZAN, GoWordChar(), KAZAN, 17);
  }

  /** Restored text rescanned, without any nesting: the surrogate of the birth place stands in the
      original issuer, and the Go service replaces it there. */
  lemma {:induction false} RescannedIssuerComesBackWrong(needles: seq<Needle>)
    requires forall n :: n in needles <==> n == Needle(ISSUER_PERM, ISSUER_BEFORE) || n == Needle(KAZAN, TVER)
    ensures var mappings := Pair(Needle(ISSUER_PERM, ISSUER_BEFORE), Needle(KAZAN, TVER));
            && !MatchesIn(GoWordChar(), ISSUER_PERM, KAZAN) && !MatchesIn(GoWordChar(), KAZAN, ISSUER_PERM)
            && !Survives(mappings, Surrogate(0), GoWordChar())
            && SurrogatePasses(ISSUER_PERM, GoWordChar(), mappings, 0) == ISSUER_AFTER
            && Resolved(ISSUER_PERM, AllMatches(ISSUER_PERM, GoWordChar(), needles)) == ISSUER_BEFORE
  {
    hide SurrogatePasses, Resolved, AllMatches, Survives, GoWordChar, MatchesIn;
    NotNested();
    KazanInIssuer();
    PairRescans(Needle(ISSUER_PERM, ISSUER_BEFORE), Needle(KAZAN, TVER), GoWordChar());
    PairIsFineInPython(Needle(ISSUER_PERM, ISSUER_BEFORE), Needle(KAZAN, TVER), GoWordChar(), needles, 0);
  }

  lemma {:induction false} NotNested()
    ensures !MatchesIn(GoWordChar(), ISSUER_PERM, KAZAN) && !MatchesIn(GoWordChar(), KAZAN, ISSUER_PERM)
  {
    hide GoWordChar;
    forall at | 0 <= at <= |ISSUER_PERM| ensures !OccursAt(ISSUER_PERM, KAZAN, at) {
      if at + 9 <= |ISSUER_PERM| {
        assert ISSUER_PERM[at..at + 9][0] == ISSUER_PERM[at];
      }
    }
  }

  lemma {:induction false} KazanInIssuer()
    ensures MatchesIn(GoWordChar(), KAZAN, ISSUER_BEFORE)
    ensures WordBounded(ISSUER_BEFORE, GoWordChar(), Needle(KAZAN, TVER)) == ISSUER_AFTER
  {
    hide Leftmost, Splice;
    var spans := [Span(15, 24, TVER)];
    assert ISSUER_BEFORE[15..24] == KAZAN;
    assert IsMatch(ISSUER_BEFORE, GoWordChar(), KAZAN, 15);
    forall pos: nat | IsMatch(ISSUER_BEFORE, GoWordChar(), KAZAN, pos) ensures StartsOne(spans, pos) {
      assert ISSUER_BEFORE[pos..pos + 9][0] == ISSUER_BEFORE[pos];
      assert spans[0].start == pos;
    }
    LeftmostAre(ISSUER_BEFORE, GoWordChar(), Needle(KAZAN, TVER), 0, spans);
    OneSplice(ISSUER_BEFORE, 15, 24, TVER);
    assert ISSUER_BEFORE[..15] + TVER + ISSUER_BEFORE[24..] == ISSUER_AFTER;
  }

  lemma {:induction false} OneSplice(text: string, start: nat, end: nat, word: string)
    requires start <= end <= |text|
    ensures Splice(text, [Span(start, end, word)], 0) == text[..start] + word + text[end..]
  {
    assert [Span(start, end, word)][1..] == [];
  }
}
