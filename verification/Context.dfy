/** Deciding from the local context of a candidate whether it is personal, and why other
    candidates cannot leak into that decision.

    The keyword lists, lower-casing and the notion of a word character are parameters. */
module Context {
  import opened Models
  import opened Selection
  import opened Substrings
  import Demasking
  import Overlap

  // Keywords in a window.

  /** At most two word characters follow position `end`. */
  predicate TailIsShort(window: string, isWord: char -> bool, end: nat) {
    exists j: nat :: end <= j <= end + 2 && WordEndsAt(window, isWord, j)
  }

  predicate WordEndsAt(window: string, isWord: char -> bool, j: nat) {
    j >= |window| || !isWord(window[j])
  }

  /** `keyword` stands at `i` at the start of a word, with a short inflection tail. */
  predicate HitAt(window: string, isWord: char -> bool, keyword: string, i: nat) {
    && OccursAt(window, keyword, i)
    && (i == 0 || !isWord(window[i - 1]))
    && TailIsShort(window, isWord, i + |keyword|)
  }

  predicate IsHit(window: string, isWord: char -> bool, keyword: string) {
    exists i :: 0 <= i <= |window| && HitAt(window, isWord, keyword, i)
  }

  method CheckTail(window: string, isWord: char -> bool, end: nat) returns (short: bool)
    ensures short == TailIsShort(window, isWord, end)
  {
    var j: nat, tail: nat := end, 0;
    while j < |window| && isWord(window[j])
      invariant tail <= 2 && j == end + tail
      invariant forall k: nat :: end <= k < j ==> !WordEndsAt(window, isWord, k)
      decreases |window| - j
    {
      j, tail := j + 1, tail + 1;
      if tail > 2 {
        return false;
      }
    }
    assert WordEndsAt(window, isWord, j);
    short := true;
  }

  method KeywordHit(window: string, isWord: char -> bool, keyword: string) returns (hit: bool)
    ensures hit == IsHit(window, isWord, keyword)
  {
    var start: nat := 0;
    while true
      invariant start <= |window| + 1
      invariant forall i: nat :: i < start ==> !HitAt(window, isWord, keyword, i)
      decreases |window| + 1 - start
    {
      var idx := Demasking.Find(window, keyword, start);
      if idx == -1 {
        return false;
      }
      var startsWord := idx == 0 || !isWord(window[idx - 1]);
      if startsWord {
        var short := CheckTail(window, isWord, idx + |keyword|);
        if short {
          assert HitAt(window, isWord, keyword, idx);
          return true;
        }
      }
      start := idx + 1;
    }
  }

  function CountHits(window: string, isWord: char -> bool, keywords: seq<string>): nat {
    if keywords == [] then 0
    else CountHits(window, isWord, keywords[..|keywords| - 1])
         + (if IsHit(window, isWord, keywords[|keywords| - 1]) then 1 else 0)
  }

  // The window.

  predicate IsStop(c: char) { c == '.' || c == '!' || c == '?' || c == '\n' }

  function LowerBound(start: nat, radius: nat): nat { if start < radius then 0 else start - radius }

  function UpperBound(text: string, end: nat, radius: nat): nat { if |text| < end + radius then |text| else end + radius }

  /** `left` is the last sentence end before the span and inside the radius, or the radius. */
  predicate IsSentenceStart(text: string, start: nat, radius: nat, left: nat)
    requires start <= |text|
  {
    && LowerBound(start, radius) <= left <= start
    && (forall p :: left <= p < start ==> !IsStop(text[p]))
    && (left == LowerBound(start, radius) || IsStop(text[left - 1]))
  }

  predicate IsSentenceEnd(text: string, end: nat, radius: nat, right: nat)
    requires end <= |text|
  {
    && end <= right <= UpperBound(text, end, radius)
    && (forall p :: end <= p < right - 1 ==> !IsStop(text[p]))
    && ((right > end && IsStop(text[right - 1])) || right == UpperBound(text, end, radius))
  }

  method SentenceBounds(text: string, start: nat, end: nat, radius: nat) returns (left: nat, right: nat)
    requires start <= end <= |text|
    ensures IsSentenceStart(text, start, radius, left) && IsSentenceEnd(text, end, radius, right)
  {
    var leftBound, rightBound := LowerBound(start, radius), UpperBound(text, end, radius);
    left := leftBound;
    for p := leftBound to start
      invariant leftBound <= left <= p
      invariant forall q :: left <= q < p ==> !IsStop(text[q])
      invariant left == leftBound || IsStop(text[left - 1])
    {
      if IsStop(text[p]) {
        left := p + 1;
      }
    }
    right := end;
    while right < rightBound && !IsStop(text[right])
      invariant end <= right <= rightBound
      invariant forall q :: end <= q < right ==> !IsStop(text[q])
    {
      right := right + 1;
    }
    if right < rightBound {
      right := right + 1;
    }
  }

  /** `left` is the nearest of: the radius, a sentence end, the end of another candidate. */
  predicate IsLeft(text: string, start: nat, others: seq<Interval>, radius: nat, left: nat)
    requires start <= |text|
  {
    && LowerBound(start, radius) <= left <= start
    && (forall p :: left <= p < start ==> !IsStop(text[p]))
    && (forall o :: o in others && o.end <= start ==> o.end <= left)
    && (left == LowerBound(start, radius) || IsStop(text[left - 1]) || exists o :: o in others && o.end == left)
  }

  /** `right` is the nearest of: the radius, the position behind a sentence end, the start of
      another candidate. */
  predicate IsRight(text: string, start: nat, end: nat, others: seq<Interval>, radius: nat, right: nat)
    requires end <= |text|
  {
    && end <= right <= UpperBound(text, end, radius)
    && (forall p :: end <= p < right - 1 ==> !IsStop(text[p]))
    && (forall o :: o in others && o.end > start && o.start >= end ==> right <= o.start)
    && (right == UpperBound(text, end, radius) || (right > end && IsStop(text[right - 1]))
        || exists o :: o in others && o.end > start && o.start == right)
  }

  lemma {:induction false} NoOthers(text: string, start: nat, end: nat, radius: nat, left: nat, right: nat)
    requires start <= end <= |text|
    requires IsSentenceStart(text, start, radius, left) && IsSentenceEnd(text, end, radius, right)
    ensures IsLeft(text, start, [], radius, left) && IsRight(text, start, end, [], radius, right)
  {
  }

  lemma {:induction false} WindowInside(text: string, start: nat, end: nat, others: seq<Interval>, radius: nat, left: nat, right: nat)
    requires start <= end <= |text|
    requires IsLeft(text, start, others, radius, left) && IsRight(text, start, end, others, radius, right)
    ensures left <= start && end <= right <= |text|
  {
  }

  /** The borders with one more candidate. */
  lemma {:induction false} OneMoreOther(text: string, start: nat, end: nat, others: seq<Interval>, o: Interval, radius: nat, left: nat, right: nat)
    requires start <= end <= |text|
    requires IsLeft(text, start, others, radius, left) && IsRight(text, start, end, others, radius, right)
    ensures IsLeft(text, start, others + [o], radius, if o.end <= start && left < o.end then o.end else left)
    ensures IsRight(text, start, end, others + [o], radius, if !(o.end <= start) && end <= o.start < right then o.start else right)
  {
    LeftOneMore(text, start, others, o, radius, left);
    assert (others + [o])[|others|] == o;
  }

  lemma {:induction false} LeftOneMore(text: string, start: nat, others: seq<Interval>, o: Interval, radius: nat, left: nat)
    requires start <= |text| && IsLeft(text, start, others, radius, left)
    ensures IsLeft(text, start, others + [o], radius, if o.end <= start && left < o.end then o.end else left)
  {
    assert (others + [o])[|others|] == o;
  }

  method AttributedWindow(text: string, start: nat, end: nat, others: seq<Interval>, radius: nat)
    returns (window: string, left: nat, right: nat)
    requires start <= end <= |text|
    ensures IsLeft(text, start, others, radius, left) && IsRight(text, start, end, others, radius, right)
    ensures window == text[left..right]
  {
    hide IsLeft, IsRight, IsSentenceStart, IsSentenceEnd;
    left, right := SentenceBounds(text, start, end, radius);
    NoOthers(text, start, end, radius, left, right);
    assert others[..0] == [];
    for k := 0 to |others|
      invariant IsLeft(text, start, others[..k], radius, left)
      invariant start <= end && IsRight(text, start, end, others[..k], radius, right)
    {
      var o := others[k];
      assert others[..k + 1] == others[..k] + [o];
      OneMoreOther(text, start, end, others[..k], o, radius, left, right);
      if o.end <= start {
        left := if left < o.end then o.end else left;
      } else if o.start >= end {
        right := if o.start < right then o.start else right;
      }
    }
    assert others[..|others|] == others;
    WindowInside(text, start, end, others, radius, left, right);
    window := text[left..right];
  }

  /** The borders in characters and distances: at most the radius away, with no sentence end in
      between, and no nearer than the text, the radius, a sentence end or another candidate asks. */
  lemma {:induction false} WindowRead(text: string, start: nat, end: nat, others: seq<Interval>, radius: nat, left: nat, right: nat)
    requires start <= end <= |text|
    requires IsLeft(text, start, others, radius, left) && IsRight(text, start, end, others, radius, right)
    ensures 0 <= start - left <= radius && 0 <= right - end <= radius && right <= |text|
    ensures forall p :: left <= p < start ==> text[p] !in ['.', '!', '?', '\n']
    ensures forall p :: end <= p < right - 1 ==> text[p] !in ['.', '!', '?', '\n']
    ensures left == 0 || start - left == radius || text[left - 1] in ['.', '!', '?', '\n'] || exists o :: o in others && o.end == left
    ensures right == |text| || right - end == radius || (right > end && text[right - 1] in ['.', '!', '?', '\n'])
            || exists o :: o in others && o.start == right
  {
  }

  // What the window can depend on.

  predicate Apart(o: Interval, start: nat, end: nat) { o.end <= start || o.start >= end }

  /** The window holds the candidate, meets no other candidate and is at most two radii longer. */
  lemma {:induction false} WindowIsLocal(text: string, start: nat, end: nat, others: seq<Interval>, radius: nat, left: nat, right: nat, o: Interval)
    requires start <= end <= |text|
    requires IsLeft(text, start, others, radius, left) && IsRight(text, start, end, others, radius, right)
    requires o in others && Apart(o, start, end)
    ensures left <= start && end <= right <= |text|
    ensures o.end <= left || right <= o.start
    ensures right - left <= (end - start) + 2 * radius
  {
  }

  /** Position `p` belongs to some other candidate. */
  ghost predicate Covered(others: seq<Interval>, p: nat) {
    exists o :: o in others && o.start <= p < o.end
  }

  ghost predicate AgreeOutside(text: string, text': string, others: seq<Interval>) {
    |text| == |text'| && forall p: nat :: p < |text| && !Covered(others, p) ==> text[p] == text'[p]
  }

  predicate AllApart(others: seq<Interval>, start: nat, end: nat) {
    forall o :: o in others ==> Apart(o, start, end)
  }

  /** No position of the window belongs to another candidate. */
  lemma {:induction false} WindowUncovered(text: string, start: nat, end: nat, others: seq<Interval>, radius: nat, left: nat, right: nat, p: nat)
    requires start < end <= |text| && AllApart(others, start, end)
    requires IsLeft(text, start, others, radius, left) && IsRight(text, start, end, others, radius, right)
    requires left <= p < right
    ensures !Covered(others, p)
  {
    forall o | o in others ensures !(o.start <= p < o.end) {
      assert Apart(o, start, end);
      WindowIsLocal(text, start, end, others, radius, left, right, o);
    }
  }

  /** A window that starts further left would have missed a sentence end in a covered place. */
  lemma {:induction false} SameLeft(text: string, text': string, start: nat, others: seq<Interval>, radius: nat, left: nat, left': nat)
    requires start <= |text| == |text'|
    requires forall p :: left <= p < start ==> text[p] == text'[p]
    requires IsLeft(text, start, others, radius, left) && IsLeft(text', start, others, radius, left')
    ensures left' <= left
  {
  }

  lemma {:induction false} SameRight(text: string, text': string, start: nat, end: nat, others: seq<Interval>, radius: nat, right: nat, right': nat)
    requires end <= |text| == |text'|
    requires forall p :: end <= p < right <= |text| ==> text[p] == text'[p]
    requires IsRight(text, start, end, others, radius, right) && IsRight(text', start, end, others, radius, right')
    ensures right <= right'
  {
  }

  lemma {:induction false} WindowAgrees(text: string, text': string, start: nat, end: nat, others: seq<Interval>, radius: nat, left: nat, right: nat)
    requires start < end <= |text| && AllApart(others, start, end) && AgreeOutside(text, text', others)
    requires IsLeft(text, start, others, radius, left) && IsRight(text, start, end, others, radius, right)
    ensures left <= start && end <= right <= |text| == |text'|
    ensures forall p :: left <= p < right ==> text[p] == text'[p]
  {
    forall p: nat | left <= p < right ensures text[p] == text'[p] {
      WindowUncovered(text, start, end, others, radius, left, right, p);
    }
  }

  /** Texts of equal length that differ only inside other candidates give the same window. */
  lemma {:induction false} SameWindow(
      text: string, text': string, start: nat, end: nat, others: seq<Interval>, radius: nat,
      left: nat, right: nat, left': nat, right': nat)
    requires start < end <= |text| && AllApart(others, start, end) && AgreeOutside(text, text', others)
    requires IsLeft(text, start, others, radius, left) && IsRight(text, start, end, others, radius, right)
    requires IsLeft(text', start, others, radius, left') && IsRight(text', start, end, others, radius, right')
    ensures left == left' && right == right' && left <= right <= |text|
    ensures text[left..right] == text'[left..right]
  {
    WindowAgrees(text, text', start, end, others, radius, left, right);
    WindowAgrees(text', text, start, end, others, radius, left', right');
    SameLeft(text, text', start, others, radius, left, left');
    SameLeft(text', text, start, others, radius, left', left);
    SameRight(text, text', start, end, others, radius, right, right');
    SameRight(text', text, start, end, others, radius, right', right);
  }

  // The decision.

  datatype Lexicon = Lexicon(
    personalRoles: seq<string>, privateActions: seq<string>, bankConcepts: seq<string>, strongPii: seq<string>,
    publicMarkers: seq<string>, orgAddress: seq<string>, personalAddress: seq<string>)

  /** What stays the same in all calls of one engine. */
  datatype Engine = Engine(radius: nat, emitUncertain: bool, lexicon: Lexicon, lower: string -> string, isWord: char -> bool) {
    function Hits(window: string, keywords: seq<string>): nat {
      CountHits(window, isWord, keywords)
    }

    function PrivateScore(w: string): nat {
      Hits(w, lexicon.personalRoles) * 2 + Hits(w, lexicon.privateActions) * 2
      + Hits(w, lexicon.bankConcepts) + Hits(w, lexicon.strongPii) * 3
    }

    function NoSignal(): Verdict {
      if emitUncertain then Uncertain else Mask
    }

    function FullNameVerdict(w: string, knownPublic: bool): Verdict {
      if PrivateScore(w) > 0 then Mask
      else if Hits(w, lexicon.publicMarkers) * 2 + (if knownPublic then 2 else 0) > 0 then Keep
      else NoSignal()
    }

    function AddressVerdict(w: string, value: string): Verdict {
      if Hits(w, lexicon.personalAddress) > 0 then Mask
      else if Hits(w, lexicon.orgAddress) + Hits(lower(value), lexicon.orgAddress) > 0 then Keep
      else NoSignal()
    }

    function VerdictIn(window: string, c: Candidate, knownPublic: bool): Verdict {
      var w := lower(window);
      if c.kind.FullName? then FullNameVerdict(w, knownPublic)
      else if c.kind.Address? then AddressVerdict(w, c.value)
      else Mask
    }

    /** `decide`: the text is read through the attributed window only. */
    method Decide(text: string, c: Candidate, others: seq<Interval>, knownPublic: bool)
      returns (v: Verdict, left: nat, right: nat)
      requires c.start <= c.end <= |text|
      ensures IsLeft(text, c.start, others, radius, left) && IsRight(text, c.start, c.end, others, radius, right)
      ensures v == VerdictIn(text[left..right], c, knownPublic)
      ensures c.kind.FullName? ==> IsNameVerdict(lower(text[left..right]), knownPublic, v)
      ensures c.kind.Address? ==> IsAddressVerdict(lower(text[left..right]), lower(c.value), v)
      ensures !c.kind.FullName? && !c.kind.Address? ==> v == Mask
    {
      var window;
      window, left, right := AttributedWindow(text, c.start, c.end, others, radius);
      v := VerdictIn(window, c, knownPublic);
      if c.kind.FullName? {
        NameVerdictRead(lower(window), knownPublic);
      } else if c.kind.Address? {
        AddressVerdictRead(lower(window), c.value);
      }
    }

    /** Some keyword of the list stands in the window. */
    predicate Says(window: string, keywords: seq<string>) {
      exists k :: 0 <= k < |keywords| && IsHit(window, isWord, keywords[k])
    }

    /** Private context masks a name whatever speaks for a public figure; without it a public
        marker or a known public figure keeps the name; without either it is masked, or left open
        where that is configured. */
    predicate IsNameVerdict(window: string, knownPublic: bool, v: Verdict) {
      if || Says(window, lexicon.personalRoles) || Says(window, lexicon.privateActions)
         || Says(window, lexicon.bankConcepts) || Says(window, lexicon.strongPii) then v == Mask
      else if Says(window, lexicon.publicMarkers) || knownPublic then v == Keep
      else v == if emitUncertain then Uncertain else Mask
    }

    /** A personal marker masks an address; else an organizational one, in the window or in the
        address itself, keeps it. */
    predicate IsAddressVerdict(window: string, value: string, v: Verdict) {
      if Says(window, lexicon.personalAddress) then v == Mask
      else if Says(window, lexicon.orgAddress) || Says(value, lexicon.orgAddress) then v == Keep
      else v == if emitUncertain then Uncertain else Mask
    }

    lemma {:induction false} HitsTell(window: string, keywords: seq<string>)
      ensures Hits(window, keywords) > 0 <==> Says(window, keywords)
    {
      if keywords != [] {
        var init := keywords[..|keywords| - 1];
        HitsTell(window, init);
        assert forall k :: 0 <= k < |init| ==> init[k] == keywords[k];
        if Says(window, init) {
          var k :| 0 <= k < |init| && IsHit(window, isWord, init[k]);
          assert IsHit(window, isWord, keywords[k]);
        }
      }
    }

    lemma {:induction false} NameVerdictRead(w: string, knownPublic: bool)
      ensures IsNameVerdict(w, knownPublic, FullNameVerdict(w, knownPublic))
    {
      hide Says, Hits;
      HitsTell(w, lexicon.personalRoles);
      HitsTell(w, lexicon.privateActions);
      HitsTell(w, lexicon.bankConcepts);
      HitsTell(w, lexicon.strongPii);
      HitsTell(w, lexicon.publicMarkers);
    }

    lemma {:induction false} AddressVerdictRead(w: string, value: string)
      ensures IsAddressVerdict(w, lower(value), AddressVerdict(w, value))
    {
      hide Says, Hits;
      HitsTell(w, lexicon.personalAddress);
      HitsTell(w, lexicon.orgAddress);
      HitsTell(lower(value), lexicon.orgAddress);
    }
  }

  /** The other candidates of a resolved list. */
  function OthersOf(cands: seq<Candidate>, i: nat): (r: seq<Interval>)
    requires i < |cands|
    ensures |r| == |cands| - 1
    ensures forall k :: 0 <= k < |r| ==>
              var c := cands[if k < i then k else k + 1]; r[k] == Interval(c.start, c.end)
  {
    seq(|cands| - 1, k requires 0 <= k < |cands| - 1 =>
      var c := cands[if k < i then k else k + 1]; Interval(c.start, c.end))
  }

  lemma {:induction false} ResolvedAreApart(cands: seq<Candidate>, i: nat)
    requires Overlap.Disjoint(cands) && i < |cands|
    requires forall k :: 0 <= k < |cands| ==> cands[k].start < cands[k].end
    ensures AllApart(OthersOf(cands, i), cands[i].start, cands[i].end)
  {
    var others := OthersOf(cands, i);
    forall o | o in others ensures Apart(o, cands[i].start, cands[i].end) {
      var k :| 0 <= k < |others| && others[k] == o;
      var j := if k < i then k else k + 1;
      var a, b := if j < i then j else i, if j < i then i else j;
      assert !Overlaps(Interval(cands[a].start, cands[a].end), Interval(cands[b].start, cands[b].end));
    }
  }

  /** Non-interference: with overlap-free candidates, what the other candidates say has no
      influence on the decision about this one. Two texts of equal length that differ only
      inside other candidates get the same verdict for it. */
  lemma {:induction false} OthersDoNotInterfere(
      e: Engine, text: string, text': string, cands: seq<Candidate>, i: nat, knownPublic: bool,
      left: nat, right: nat, left': nat, right': nat)
    requires Overlap.Disjoint(cands) && i < |cands|
    requires forall k :: 0 <= k < |cands| ==> cands[k].start < cands[k].end <= |text|
    requires AgreeOutside(text, text', OthersOf(cands, i))
    requires var (c, o) := (cands[i], OthersOf(cands, i));
             && IsLeft(text, c.start, o, e.radius, left) && IsRight(text, c.start, c.end, o, e.radius, right)
             && IsLeft(text', c.start, o, e.radius, left') && IsRight(text', c.start, c.end, o, e.radius, right')
    ensures left <= right <= |text| && left' <= right' <= |text'|
    ensures e.VerdictIn(text[left..right], cands[i], knownPublic) == e.VerdictIn(text'[left'..right'], cands[i], knownPublic)
  {
    ResolvedAreApart(cands, i);
    SameWindow(text, text', cands[i].start, cands[i].end, OthersOf(cands, i), e.radius, left, right, left', right');
  }
}
