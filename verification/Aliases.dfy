/** The needles of the Python demasker: per mapping its token, and its surrogate or, for a name,
    every alias shape of the synthetic identity in every grammatical case, paired with the same
    shape and case of the original identity. Inflection of a word is a parameter. */
module Aliases {
  import opened DemaskExactness
  import opened Demasking
  import opened Models
  import opened Weaving

  /** An identity; "" is a part that is not known. */
  datatype Parts = Parts(surname: string, first: string, patronymic: string, gender: string)

  datatype Symbol = Surname | First | Patronymic | FirstInitial | PatronymicInitial

  predicate IsInitial(s: Symbol) { s.FirstInitial? || s.PatronymicInitial? }

  function WordOf(s: Symbol, parts: Parts): string {
    match s
    case Surname => parts.surname
    case First => parts.first
    case FirstInitial => parts.first
    case _ => parts.patronymic
  }

  const CASES: seq<string> := ["nomn", "gent", "datv", "accs", "ablt", "loct"]

  const WORD_SHAPES: seq<seq<Symbol>> :=
    [[Surname, First, Patronymic], [First, Patronymic, Surname], [First, Surname], [Surname, First], [First, Patronymic]]

  const INITIAL_SHAPES: seq<seq<Symbol>> :=
    [[FirstInitial, PatronymicInitial, Surname], [Surname, FirstInitial, PatronymicInitial], [FirstInitial, Surname]]

  /** How a name is to be written. */
  datatype Ask = Ask(gramCase: string, shape: seq<Symbol>, compact: bool)

  type Inflection = (string, string, string) -> string   // word, case, gender

  // One surface.

  predicate Knows(parts: Parts, shape: seq<Symbol>) {
    forall k :: 0 <= k < |shape| ==> WordOf(shape[k], parts) != ""
  }

  function PieceOf(s: Symbol, parts: Parts, gramCase: string, gender: string, inflect: Inflection): string
    requires WordOf(s, parts) != ""
  {
    if IsInitial(s) then [WordOf(s, parts)[0]] + "." else inflect(WordOf(s, parts), gramCase, gender)
  }

  /** The pieces of the first `n` symbols; compact initials stick to the initial before them. */
  function PiecesOf(shape: seq<Symbol>, n: nat, parts: Parts, gramCase: string, gender: string, compact: bool, inflect: Inflection)
    : (r: seq<string>)
    requires n <= |shape| && Knows(parts, shape)
    ensures n > 0 ==> r != []
    ensures !compact ==> |r| == n && forall k :: 0 <= k < n ==> r[k] == PieceOf(shape[k], parts, gramCase, gender, inflect)
  {
    if n == 0 then []
    else
      var before := PiecesOf(shape, n - 1, parts, gramCase, gender, compact, inflect);
      var piece := PieceOf(shape[n - 1], parts, gramCase, gender, inflect);
      if compact && n > 1 && IsInitial(shape[n - 1]) && IsInitial(shape[n - 2])
      then before[..|before| - 1] + [before[|before| - 1] + piece]
      else before + [piece]
  }

  function Join(words: seq<string>): string {
    if words == [] then ""
    else if |words| == 1 then words[0]
    else words[0] + " " + Join(words[1..])
  }

  /** The surface in this shape, if all its parts are known. */
  function Rendered(ask: Ask, parts: Parts, gender: string, inflect: Inflection): Option<string> {
    if !Knows(parts, ask.shape) then None
    else Some(Join(PiecesOf(ask.shape, |ask.shape|, parts, ask.gramCase, gender, ask.compact, inflect)))
  }

  method RenderShape(shape: seq<Symbol>, parts: Parts, gramCase: string, gender: string, compact: bool, inflect: Inflection)
    returns (surface: Option<string>)
    ensures surface == Rendered(Ask(gramCase, shape, compact), parts, gender, inflect)
  {
    var out: seq<string> := [];
    var pendingInitial := false;
    for k := 0 to |shape|
      invariant forall j :: 0 <= j < k ==> WordOf(shape[j], parts) != ""
      invariant pendingInitial == (k > 0 && IsInitial(shape[k - 1]))
      invariant Knows(parts, shape) ==> out == PiecesOf(shape, k, parts, gramCase, gender, compact, inflect)
      invariant k > 0 ==> out != []
    {
      var word := WordOf(shape[k], parts);
      if word == "" {
        return None;
      }
      if IsInitial(shape[k]) {
        var token := [word[0]] + ".";
        if pendingInitial && compact {
          out := out[..|out| - 1] + [out[|out| - 1] + token];
        } else {
          out := out + [token];
        }
        pendingInitial := true;
      } else {
        out := out + [inflect(word, gramCase, gender)];
        pendingInitial := false;
      }
    }
    surface := Some(Join(out));
  }

  function Reduced(shape: seq<Symbol>, parts: Parts): (r: seq<Symbol>)
    ensures Knows(parts, r)
    ensures Knows(parts, shape) ==> r == shape
  {
    if shape == [] then []
    else
      assert Knows(parts, shape) ==> forall k :: 0 <= k < |shape[1..]| ==> shape[1..][k] == shape[k + 1];
      (if WordOf(shape[0], parts) != "" then [shape[0]] else []) + Reduced(shape[1..], parts)
  }

  /** The original in the same shape and case; parts the original lacks are dropped. */
  function OriginalLike(ask: Ask, original: Parts, gender: string, inflect: Inflection): Option<string> {
    var shape := Reduced(ask.shape, original);
    if shape == [] then None else Rendered(Ask(ask.gramCase, shape, false), original, gender, inflect)
  }

  lemma {:induction false} JoinTwo(a: string, b: string)
    ensures Join([a, b]) == a + " " + b
  {
    assert [a, b][1..] == [b];
  }

  lemma {:induction false} JoinThree(a: string, b: string, c: string)
    ensures Join([a, b, c]) == a + " " + (b + " " + c)
  {
    JoinTwo(b, c);
    assert [a, b, c][1..] == [b, c];
  }

  predicate FullyKnown(parts: Parts) { parts.surname != "" && parts.first != "" && parts.patronymic != "" }

  /** How each shape of words reads. */
  lemma {:induction false} WordShapesRead(parts: Parts, gramCase: string, gender: string, compact: bool, inflect: Inflection)
    requires FullyKnown(parts)
    ensures var s, f, p := inflect(parts.surname, gramCase, gender), inflect(parts.first, gramCase, gender),
                           inflect(parts.patronymic, gramCase, gender);
            && Rendered(Ask(gramCase, WORD_SHAPES[0], compact), parts, gender, inflect) == Some(s + " " + (f + " " + p))
            && Rendered(Ask(gramCase, WORD_SHAPES[1], compact), parts, gender, inflect) == Some(f + " " + (p + " " + s))
            && Rendered(Ask(gramCase, WORD_SHAPES[2], compact), parts, gender, inflect) == Some(f + " " + s)
            && Rendered(Ask(gramCase, WORD_SHAPES[3], compact), parts, gender, inflect) == Some(s + " " + f)
            && Rendered(Ask(gramCase, WORD_SHAPES[4], compact), parts, gender, inflect) == Some(f + " " + p)
  {
    hide Join;
    ThreePieces(Surname, First, Patronymic, parts, gramCase, gender, compact, inflect);
    ThreePieces(First, Patronymic, Surname, parts, gramCase, gender, compact, inflect);
    TwoPieces(First, Surname, parts, gramCase, gender, compact, inflect);
    TwoPieces(Surname, First, parts, gramCase, gender, compact, inflect);
    TwoPieces(First, Patronymic, parts, gramCase, gender, compact, inflect);
  }

  /** How each shape with initials reads: the first letters of first name and patronymic, with full
      stops, together when compact. */
  lemma {:induction false} InitialShapesRead(parts: Parts, gramCase: string, gender: string, inflect: Inflection)
    requires FullyKnown(parts)
    ensures var s, f, p := inflect(parts.surname, gramCase, gender), [parts.first[0]] + ".", [parts.patronymic[0]] + ".";
            && Rendered(Ask(gramCase, INITIAL_SHAPES[0], false), parts, gender, inflect) == Some(f + " " + (p + " " + s))
            && Rendered(Ask(gramCase, INITIAL_SHAPES[0], true), parts, gender, inflect) == Some(f + p + " " + s)
            && Rendered(Ask(gramCase, INITIAL_SHAPES[1], false), parts, gender, inflect) == Some(s + " " + (f + " " + p))
            && Rendered(Ask(gramCase, INITIAL_SHAPES[1], true), parts, gender, inflect) == Some(s + " " + (f + p))
            && Rendered(Ask(gramCase, INITIAL_SHAPES[2], false), parts, gender, inflect) == Some(f + " " + s)
            && Rendered(Ask(gramCase, INITIAL_SHAPES[2], true), parts, gender, inflect) == Some(f + " " + s)
  {
    hide Join;
    ThreePieces(FirstInitial, PatronymicInitial, Surname, parts, gramCase, gender, false, inflect);
    ThreePieces(Surname, FirstInitial, PatronymicInitial, parts, gramCase, gender, false, inflect);
    TwoPieces(FirstInitial, Surname, parts, gramCase, gender, false, inflect);
    TwoPieces(FirstInitial, Surname, parts, gramCase, gender, true, inflect);
    CompactPieces(parts, gramCase, gender, inflect);
  }

  lemma {:induction false} TwoPieces(a: Symbol, b: Symbol, parts: Parts, gramCase: string, gender: string, compact: bool, inflect: Inflection)
    requires FullyKnown(parts) && !(compact && IsInitial(a) && IsInitial(b))
    ensures Rendered(Ask(gramCase, [a, b], compact), parts, gender, inflect)
         == Some(PieceOf(a, parts, gramCase, gender, inflect) + " " + PieceOf(b, parts, gramCase, gender, inflect))
  {
    hide Join, PieceOf;
    var shape := [a, b];
    var one, two := PieceOf(a, parts, gramCase, gender, inflect), PieceOf(b, parts, gramCase, gender, inflect);
    assert PiecesOf(shape, 1, parts, gramCase, gender, compact, inflect) == [one];
    assert PiecesOf(shape, 2, parts, gramCase, gender, compact, inflect) == [one, two];
    JoinTwo(one, two);
  }

  lemma {:induction false} ThreePieces(a: Symbol, b: Symbol, c: Symbol, parts: Parts, gramCase: string, gender: string, compact: bool,
                                       inflect: Inflection)
    requires FullyKnown(parts) && !(compact && IsInitial(b) && (IsInitial(a) || IsInitial(c)))
    ensures Rendered(Ask(gramCase, [a, b, c], compact), parts, gender, inflect)
         == Some(PieceOf(a, parts, gramCase, gender, inflect) + " "
                 + (PieceOf(b, parts, gramCase, gender, inflect) + " " + PieceOf(c, parts, gramCase, gender, inflect)))
  {
    hide Join, PieceOf;
    var shape := [a, b, c];
    var one, two, three := PieceOf(a, parts, gramCase, gender, inflect), PieceOf(b, parts, gramCase, gender, inflect),
                           PieceOf(c, parts, gramCase, gender, inflect);
    assert PiecesOf(shape, 1, parts, gramCase, gender, compact, inflect) == [one];
    assert PiecesOf(shape, 2, parts, gramCase, gender, compact, inflect) == [one, two];
    assert PiecesOf(shape, 3, parts, gramCase, gender, compact, inflect) == [one, two, three];
    JoinThree(one, two, three);
  }

  lemma {:induction false} CompactPieces(parts: Parts, gramCase: string, gender: string, inflect: Inflection)
    requires FullyKnown(parts)
    ensures var s, f, p := inflect(parts.surname, gramCase, gender), [parts.first[0]] + ".", [parts.patronymic[0]] + ".";
            && Rendered(Ask(gramCase, INITIAL_SHAPES[0], true), parts, gender, inflect) == Some(f + p + " " + s)
            && Rendered(Ask(gramCase, INITIAL_SHAPES[1], true), parts, gender, inflect) == Some(s + " " + (f + p))
  {
    hide Join;
    var s, f, p := inflect(parts.surname, gramCase, gender), [parts.first[0]] + ".", [parts.patronymic[0]] + ".";
    var one, two := INITIAL_SHAPES[0], INITIAL_SHAPES[1];
    assert PiecesOf(one, 1, parts, gramCase, gender, true, inflect) == [f];
    assert PiecesOf(one, 2, parts, gramCase, gender, true, inflect) == [f + p];
    assert PiecesOf(one, 3, parts, gramCase, gender, true, inflect) == [f + p, s];
    assert PiecesOf(two, 1, parts, gramCase, gender, true, inflect) == [s];
    assert PiecesOf(two, 2, parts, gramCase, gender, true, inflect) == [s, f];
    assert PiecesOf(two, 3, parts, gramCase, gender, true, inflect) == [s, f + p];
    JoinTwo(f + p, s);
    JoinTwo(s, f + p);
  }

  // All surfaces of one name.

  /** What an identity and the original it stands for give for one way of writing. */
  function PairOf(ask: Ask, identity: Parts, original: Parts, inflect: Inflection): Option<Needle> {
    var synGender := if identity.gender == "" then "masc" else identity.gender;
    var gender := if original.gender == "" then synGender else original.gender;
    var needle, restored := Rendered(ask, identity, synGender, inflect), OriginalLike(ask, original, gender, inflect);
    if needle.None? || needle.value == "" || restored.None? || restored.value == "" then None
    else Some(Needle(needle.value, restored.value))
  }

  function AsksOfCase(gramCase: string): seq<Ask> {
    seq(|WORD_SHAPES|, k requires 0 <= k < |WORD_SHAPES| => Ask(gramCase, WORD_SHAPES[k], false))
    + seq(2 * |INITIAL_SHAPES|, k requires 0 <= k < 2 * |INITIAL_SHAPES| => Ask(gramCase, INITIAL_SHAPES[k / 2], k % 2 == 1))
  }

  /** All ways of writing, in the order in which the demasker tries them. */
  function AsksFrom(c: nat): seq<Ask>
    decreases |CASES| - c
  {
    if c >= |CASES| then [] else AsksOfCase(CASES[c]) + AsksFrom(c + 1)
  }

  /** The order within a case: the five shapes of words, then each shape with initials, spaced
      before compact. */
  lemma {:induction false} AsksOfCaseAre(g: string)
    ensures AsksOfCase(g) == [
              Ask(g, [Surname, First, Patronymic], false), Ask(g, [First, Patronymic, Surname], false),
              Ask(g, [First, Surname], false), Ask(g, [Surname, First], false), Ask(g, [First, Patronymic], false),
              Ask(g, [FirstInitial, PatronymicInitial, Surname], false), Ask(g, [FirstInitial, PatronymicInitial, Surname], true),
              Ask(g, [Surname, FirstInitial, PatronymicInitial], false), Ask(g, [Surname, FirstInitial, PatronymicInitial], true),
              Ask(g, [FirstInitial, Surname], false), Ask(g, [FirstInitial, Surname], true)]
  {
    assert |AsksOfCase(g)| == 11;
  }

  lemma {:induction false} AsksAre()
    ensures AsksFrom(0) == AsksOfCase("nomn") + (AsksOfCase("gent") + (AsksOfCase("datv")
                           + (AsksOfCase("accs") + (AsksOfCase("ablt") + AsksOfCase("loct")))))
  {
    hide AsksOfCase, AsksFrom;
    AsksStep(0);
    AsksStep(1);
    AsksStep(2);
    AsksStep(3);
    AsksStep(4);
    AsksStep(5);
    AsksStep(6);
    assert AsksFrom(5) == AsksOfCase("loct");
  }

  lemma {:induction false} AsksStep(c: nat)
    requires c <= 6
    ensures AsksFrom(c) == if c == 6 then [] else AsksOfCase(CASES[c]) + AsksFrom(c + 1)
  {
    hide AsksOfCase;
  }

  predicate Has(pairs: seq<Needle>, text: string) {
    exists k :: 0 <= k < |pairs| && pairs[k].text == text
  }

  /** `dict.setdefault`. */
  function Kept(pairs: seq<Needle>, pair: Option<Needle>): seq<Needle> {
    if pair.None? || Has(pairs, pair.value.text) then pairs else pairs + [pair.value]
  }

  /** The dictionary after these ways of writing. */
  function Collected(pairs: seq<Needle>, asks: seq<Ask>, identity: Parts, original: Parts, inflect: Inflection): seq<Needle>
    decreases |asks|
  {
    if asks == [] then pairs
    else Collected(Kept(pairs, PairOf(asks[0], identity, original, inflect)), asks[1..], identity, original, inflect)
  }

  method CollectShapePair(pairs: seq<Needle>, ask: Ask, identity: Parts, original: Parts, inflect: Inflection)
    returns (after: seq<Needle>)
    ensures after == Kept(pairs, PairOf(ask, identity, original, inflect))
  {
    var synGender := if identity.gender == "" then "masc" else identity.gender;
    var gender := if original.gender == "" then synGender else original.gender;
    after := pairs;
    var needle := RenderShape(ask.shape, identity, ask.gramCase, synGender, ask.compact, inflect);
    if needle.None? || needle.value == "" {
      return;
    }
    var shape := Reduced(ask.shape, original);
    var restored: Option<string> := None;
    if shape != [] {
      restored := RenderShape(shape, original, ask.gramCase, gender, false, inflect);
    }
    if restored.Some? && restored.value != "" {
      if !(exists k | 0 <= k < |pairs| :: pairs[k].text == needle.value) {
        after := pairs + [Needle(needle.value, restored.value)];
      }
    }
  }

  method PairsOfCase(before: seq<Needle>, gramCase: string, identity: Parts, original: Parts, inflect: Inflection)
    returns (pairs: seq<Needle>)
    ensures pairs == Collected(before, AsksOfCase(gramCase), identity, original, inflect)
  {
    hide Collected, Kept, PairOf;
    ghost var asks := AsksOfCase(gramCase);
    pairs := before;
    assert asks[0..] == asks;
    for k := 0 to |WORD_SHAPES|
      invariant Collected(pairs, asks[k..], identity, original, inflect) == Collected(before, asks, identity, original, inflect)
    {
      CollectedStep(pairs, asks, k, identity, original, inflect);
      pairs := CollectShapePair(pairs, Ask(gramCase, WORD_SHAPES[k], false), identity, original, inflect);
    }
    for k := 0 to |INITIAL_SHAPES|
      invariant Collected(pairs, asks[|WORD_SHAPES| + 2 * k..], identity, original, inflect)
             == Collected(before, asks, identity, original, inflect)
    {
      ghost var at := |WORD_SHAPES| + 2 * k;
      CollectedStep(pairs, asks, at, identity, original, inflect);
      pairs := CollectShapePair(pairs, Ask(gramCase, INITIAL_SHAPES[k], false), identity, original, inflect);
      CollectedStep(pairs, asks, at + 1, identity, original, inflect);
      pairs := CollectShapePair(pairs, Ask(gramCase, INITIAL_SHAPES[k], true), identity, original, inflect);
    }
    CollectedNothing(pairs, asks, identity, original, inflect);
  }

  lemma {:induction false} CollectedStep(pairs: seq<Needle>, asks: seq<Ask>, k: nat, identity: Parts, original: Parts, inflect: Inflection)
    requires k < |asks|
    ensures Collected(pairs, asks[k..], identity, original, inflect)
         == Collected(Kept(pairs, PairOf(asks[k], identity, original, inflect)), asks[k + 1..], identity, original, inflect)
  {
    assert asks[k..][1..] == asks[k + 1..];
  }

  lemma {:induction false} CollectedNothing(pairs: seq<Needle>, asks: seq<Ask>, identity: Parts, original: Parts, inflect: Inflection)
    ensures Collected(pairs, asks[|asks|..], identity, original, inflect) == pairs
  {
  }

  method AliasShapePairs(identity: Parts, original: Parts, inflect: Inflection) returns (pairs: seq<Needle>)
    ensures pairs == Collected([], AsksFrom(0), identity, original, inflect)
  {
    hide Collected, AsksOfCase;
    pairs := [];
    for c := 0 to |CASES|
      invariant Collected(pairs, AsksFrom(c), identity, original, inflect) == Collected([], AsksFrom(0), identity, original, inflect)
    {
      CollectedInTurn(pairs, AsksOfCase(CASES[c]), AsksFrom(c + 1), identity, original, inflect);
      pairs := PairsOfCase(pairs, CASES[c], identity, original, inflect);
    }
    CollectedNothing(pairs, AsksFrom(|CASES|), identity, original, inflect);
  }

  lemma {:induction false} CollectedInTurn(pairs: seq<Needle>, one: seq<Ask>, two: seq<Ask>, identity: Parts, original: Parts, inflect: Inflection)
    ensures Collected(pairs, one + two, identity, original, inflect)
         == Collected(Collected(pairs, one, identity, original, inflect), two, identity, original, inflect)
    decreases |one|
  {
    if one == [] {
      assert [] + two == two;
    } else {
      assert (one + two)[1..] == one[1..] + two;
      CollectedInTurn(Kept(pairs, PairOf(one[0], identity, original, inflect)), one[1..], two, identity, original, inflect);
    }
  }

  /** A pair of full identities: both sides in the same shape and case, each in its own gender; an
      original without one takes the synthetic gender, which is masculine if not given. */
  lemma {:induction false} PairReads(identity: Parts, original: Parts, gramCase: string, inflect: Inflection, g: string, h: string)
    requires FullyKnown(identity) && FullyKnown(original)
    requires g == (if identity.gender == "" then "masc" else identity.gender) && h == if original.gender == "" then g else original.gender
    requires forall w, x :: inflect(w, gramCase, x) != ""
    ensures PairOf(Ask(gramCase, [First, Surname], false), identity, original, inflect)
         == Some(Needle(inflect(identity.first, gramCase, g) + " " + inflect(identity.surname, gramCase, g),
                        inflect(original.first, gramCase, h) + " " + inflect(original.surname, gramCase, h)))
    ensures PairOf(Ask(gramCase, [FirstInitial, PatronymicInitial, Surname], true), identity, original, inflect)
         == Some(Needle([identity.first[0]] + "." + ([identity.patronymic[0]] + ".") + " " + inflect(identity.surname, gramCase, g),
                        [original.first[0]] + "." + " " + ([original.patronymic[0]] + "." + " " + inflect(original.surname, gramCase, h))))
  {
    hide Rendered;
    WordShapesRead(identity, gramCase, g, false, inflect);
    WordShapesRead(original, gramCase, h, false, inflect);
    InitialShapesRead(identity, gramCase, g, inflect);
    InitialShapesRead(original, gramCase, h, inflect);
    assert Knows(original, [First, Surname]) && Knows(original, [FirstInitial, PatronymicInitial, Surname]);
  }

  // What the dictionary means.

  /** The first way of writing that gives this surface. */
  predicate Foremost(asks: seq<Ask>, k: nat, identity: Parts, original: Parts, inflect: Inflection, n: Needle) {
    && k < |asks| && PairOf(asks[k], identity, original, inflect) == Some(n)
    && forall m :: 0 <= m < k ==> !Gives(asks[m], identity, original, inflect, n.text)
  }

  predicate Gives(ask: Ask, identity: Parts, original: Parts, inflect: Inflection, text: string) {
    PairOf(ask, identity, original, inflect).Some? && PairOf(ask, identity, original, inflect).value.text == text
  }

  /** The dictionary holds exactly: what it held, and each new surface with the restoration of the
      first way of writing that gives it. */
  lemma {:induction false} CollectedAre(pairs: seq<Needle>, asks: seq<Ask>, identity: Parts, original: Parts, inflect: Inflection, n: Needle)
    ensures n in Collected(pairs, asks, identity, original, inflect)
       <==> n in pairs || (!Has(pairs, n.text) && exists k: nat :: Foremost(asks, k, identity, original, inflect, n))
    decreases |asks|
  {
    hide PairOf, Collected;
    if asks == [] {
      assert Collected(pairs, asks, identity, original, inflect) == pairs by { CollectedNothing(pairs, asks, identity, original, inflect); }
    } else {
      var p := PairOf(asks[0], identity, original, inflect);
      var more := Kept(pairs, p);
      CollectedStep(pairs, asks, 0, identity, original, inflect);
      assert asks[0..] == asks;
      CollectedAre(more, asks[1..], identity, original, inflect, n);
      KeptHas(pairs, p, n.text);
      ForemostShifts(asks, identity, original, inflect, n);
      assert n in more <==> n in pairs || (!Has(pairs, n.text) && p == Some(n));
    }
  }

  lemma {:induction false} KeptHas(pairs: seq<Needle>, p: Option<Needle>, text: string)
    ensures Has(Kept(pairs, p), text) <==> Has(pairs, text) || (p.Some? && p.value.text == text)
  {
    var more := Kept(pairs, p);
    if k :| 0 <= k < |pairs| && pairs[k].text == text {
      assert more[k].text == text;
    } else if p.Some? && p.value.text == text {
      assert more[|pairs|].text == text;
    }
  }

  lemma {:induction false} ForemostShifts(asks: seq<Ask>, identity: Parts, original: Parts, inflect: Inflection, n: Needle)
    requires asks != []
    ensures (exists k: nat :: Foremost(asks, k, identity, original, inflect, n))
       <==> || PairOf(asks[0], identity, original, inflect) == Some(n)
            || (!Gives(asks[0], identity, original, inflect, n.text) && exists k: nat :: Foremost(asks[1..], k, identity, original, inflect, n))
  {
    hide PairOf;
    if k: nat :| Foremost(asks, k, identity, original, inflect, n) {
      if k > 0 {
        assert forall m :: 0 <= m < k - 1 ==> asks[1..][m] == asks[m + 1];
        assert Foremost(asks[1..], k - 1, identity, original, inflect, n);
        assert !Gives(asks[0], identity, original, inflect, n.text);
      }
    }
    if PairOf(asks[0], identity, original, inflect) == Some(n) {
      assert Foremost(asks, 0, identity, original, inflect, n);
    } else if !Gives(asks[0], identity, original, inflect, n.text) {
      if k: nat :| Foremost(asks[1..], k, identity, original, inflect, n) {
        assert forall m :: 0 < m <= k ==> asks[m] == asks[1..][m - 1];
        assert Foremost(asks, k + 1, identity, original, inflect, n);
      }
    }
  }

  // The whole list.

  /** What a mapping says about a name: nothing (not a name), at most its nominal form, pairs of
      whole inflected names, or both identities. */
  datatype NameInfo =
    | NoName
    | Nominal(nominal: Option<Needle>)
    | Legacy(pairs: seq<Needle>)
    | Identified(identity: Parts, original: Parts)

  function NeedlesFor(m: Mapping, info: NameInfo, inflect: Inflection): seq<Needle> {
    (if m.token != "" then [Needle(m.token, m.original)] else [])
    + match info
      case NoName => if m.synthetic != "" then [Needle(m.synthetic, m.original)] else []
      case Nominal(n) => if n.Some? then [n.value] else []
      case Legacy(pairs) => pairs
      case Identified(identity, original) => Collected([], AsksFrom(0), identity, original, inflect)
  }

  function NeedleList(mappings: seq<Mapping>, infos: seq<NameInfo>, inflect: Inflection, n: nat): seq<Needle>
    requires n <= |mappings| == |infos|
  {
    if n == 0 then [] else NeedleList(mappings, infos, inflect, n - 1) + NeedlesFor(mappings[n - 1], infos[n - 1], inflect)
  }

  method NameNeedleReplacements(info: NameInfo, inflect: Inflection) returns (needles: seq<Needle>)
    requires !info.NoName?
    ensures forall m: Mapping :: m.token == "" ==> needles == NeedlesFor(m, info, inflect)
  {
    match info
    case Nominal(n) => needles := if n.Some? then [n.value] else [];
    case Legacy(pairs) => needles := pairs;
    case Identified(identity, original) => needles := AliasShapePairs(identity, original, inflect);
  }

  /** `_demask_synthetic`. */
  method DemaskNames(text: string, mappings: seq<Mapping>, infos: seq<NameInfo>, isWord: char -> bool, inflect: Inflection)
    returns (result: string)
    requires |mappings| == |infos|
    ensures result == Resolved(text, AllMatches(text, isWord, NeedleList(mappings, infos, inflect, |mappings|)))
  {
    var needles: seq<Needle> := [];
    for i := 0 to |mappings|
      invariant needles == NeedleList(mappings, infos, inflect, i)
    {
      var m := mappings[i];
      if m.token != "" {
        needles := needles + [Needle(m.token, m.original)];
      }
      if !infos[i].NoName? {
        var more := NameNeedleReplacements(infos[i], inflect);
        assert more == NeedlesFor(m.(token := ""), infos[i], inflect);
        needles := needles + more;
      } else if m.synthetic != "" {
        needles := needles + [Needle(m.synthetic, m.original)];
      }
    }
    result := DemaskSynthetic(text, isWord, needles);
  }

  lemma {:induction false} InNeedleList(mappings: seq<Mapping>, infos: seq<NameInfo>, inflect: Inflection, n: nat, x: Needle)
    requires n <= |mappings| == |infos|
    ensures x in NeedleList(mappings, infos, inflect, n)
       <==> exists i :: 0 <= i < n && x in NeedlesFor(mappings[i], infos[i], inflect)
  {
    hide NeedlesFor;
    if n > 0 {
      InNeedleList(mappings, infos, inflect, n - 1, x);
    }
  }

  // What comes back.

  /** How an entity stands in the text. */
  datatype Way = ViaToken | ViaSurrogate | ViaNominal | ViaPair(k: nat) | ViaAlias(k: nat)

  /** Written this way the entity shows `n.text`, and is to come back as `n.original`. An alias
      comes back in the first shape and case that looks like it. */
  predicate Writes(m: Mapping, info: NameInfo, way: Way, inflect: Inflection, n: Needle) {
    match way
    case ViaToken => m.token != "" && n == Needle(m.token, m.original)
    case ViaSurrogate => info.NoName? && m.synthetic != "" && n == Needle(m.synthetic, m.original)
    case ViaNominal => info.Nominal? && info.nominal == Some(n) && n.text != ""
    case ViaPair(k) => info.Legacy? && k < |info.pairs| && info.pairs[k] == n && n.text != ""
    case ViaAlias(k) => info.Identified? && Foremost(AsksFrom(0), k, info.identity, info.original, inflect, n)
  }

  lemma {:induction false} WrittenIsNeedle(m: Mapping, info: NameInfo, way: Way, inflect: Inflection, n: Needle)
    requires Writes(m, info, way, inflect, n)
    ensures n.text != "" && n in NeedlesFor(m, info, inflect)
  {
    hide Collected, AsksFrom;
    if way.ViaAlias? {
      CollectedAre([], AsksFrom(0), info.identity, info.original, inflect, n);
    }
  }

  /** Any mixture of tokens, surrogates and alias shapes of names in any reworded text comes back,
      as long as no needle stands for two originals and nothing else looks like a needle. */
  lemma {:induction false} NamesComeBack(
      mappings: seq<Mapping>, infos: seq<NameInfo>, inflect: Inflection, isWord: char -> bool,
      lits: seq<string>, shown: seq<string>, restored: seq<string>, owner: seq<nat>, ways: seq<Way>)
    requires |mappings| == |infos| && |lits| == |shown| + 1 && |owner| == |ways| == |shown| == |restored|
    requires forall k :: 0 <= k < |shown| ==>
               owner[k] < |mappings| && Writes(mappings[owner[k]], infos[owner[k]], ways[k], inflect, Needle(shown[k], restored[k]))
    requires var needles, places := NeedleList(mappings, infos, inflect, |mappings|), SpansOf(lits, shown, restored, 0);
             && Functional(needles)
             && (forall k :: 0 <= k < |places| ==> IsMatch(Weave(lits, shown), isWord, shown[k], places[k].start))
             && NothingElseMatches(Weave(lits, shown), isWord, needles, places)
    ensures var text := Weave(lits, shown);
            Resolved(text, AllMatches(text, isWord, NeedleList(mappings, infos, inflect, |mappings|))) == Weave(lits, restored)
  {
    hide NeedlesFor, NeedleList, Weave, SpansOf, Resolved, AllMatches, Writes, IsMatch, Functional, NothingElseMatches;
    var needles := NeedleList(mappings, infos, inflect, |mappings|);
    forall k | 0 <= k < |shown| ensures shown[k] != "" && Needle(shown[k], restored[k]) in needles {
      WrittenIsNeedle(mappings[owner[k]], infos[owner[k]], ways[k], inflect, Needle(shown[k], restored[k]));
      InNeedleList(mappings, infos, inflect, |mappings|, Needle(shown[k], restored[k]));
    }
    assert AreNeedles(shown, restored, needles);
    DemaskIsExact(lits, shown, restored, isWord, needles);
  }

  /** Two entities that can be written alike but stand for different originals make the list
      ambiguous. */
  lemma {:induction false} SharedNeedle(
      mappings: seq<Mapping>, infos: seq<NameInfo>, inflect: Inflection, i: nat, j: nat, a: Needle, b: Needle, one: Way, two: Way)
    requires i < |mappings| == |infos| && j < |mappings| && a.text == b.text && a.original != b.original
    requires Writes(mappings[i], infos[i], one, inflect, a) && Writes(mappings[j], infos[j], two, inflect, b)
    ensures !Functional(NeedleList(mappings, infos, inflect, |mappings|))
  {
    hide Writes, NeedlesFor, NeedleList;
    WrittenIsNeedle(mappings[i], infos[i], one, inflect, a);
    WrittenIsNeedle(mappings[j], infos[j], two, inflect, b);
    InNeedleList(mappings, infos, inflect, |mappings|, a);
    InNeedleList(mappings, infos, inflect, |mappings|, b);
  }

  // Different surrogates of two people can share an alias.

  /** Words stay as they are in the nominative. */
  ghost predicate NominativeStays(inflect: Inflection) {
    forall word, gender :: inflect(word, "nomn", gender) == word
  }

  lemma {:induction false} TwoWords(parts: Parts, gender: string, inflect: Inflection)
    requires NominativeStays(inflect) && parts.first != "" && parts.surname != ""
    ensures Rendered(Ask("nomn", [First, Surname], false), parts, gender, inflect) == Some(parts.first + " " + parts.surname)
  {
    hide Join;
    var shape := [First, Surname];
    assert Knows(parts, shape) && |shape| == 2;
    assert PiecesOf(shape, 2, parts, "nomn", gender, false, inflect) == [parts.first, parts.surname];
    JoinTwo(parts.first, parts.surname);
  }

  lemma {:induction false} ThreeWords(shape: seq<Symbol>, parts: Parts, gender: string, inflect: Inflection)
    requires NominativeStays(inflect) && |shape| == 3 && Knows(parts, shape)
    requires forall k :: 0 <= k < 3 ==> !IsInitial(shape[k])
    ensures Rendered(Ask("nomn", shape, false), parts, gender, inflect)
         == Some(WordOf(shape[0], parts) + " " + (WordOf(shape[1], parts) + " " + WordOf(shape[2], parts)))
  {
    hide Join;
    var words := [WordOf(shape[0], parts), WordOf(shape[1], parts), WordOf(shape[2], parts)];
    assert PiecesOf(shape, 3, parts, "nomn", gender, false, inflect) == words;
    JoinThree(words[0], words[1], words[2]);
  }

  lemma {:induction false} FirstAsks()
    ensures |AsksFrom(0)| > 2
    ensures AsksFrom(0)[0] == Ask("nomn", [Surname, First, Patronymic], false)
    ensures AsksFrom(0)[1] == Ask("nomn", [First, Patronymic, Surname], false)
    ensures AsksFrom(0)[2] == Ask("nomn", [First, Surname], false)
  {
    assert AsksFrom(0) == AsksOfCase("nomn") + AsksFrom(1);
  }

  /** First name and surname are a needle of every full identity. */
  lemma {:induction false} ShortAlias(identity: Parts, original: Parts, inflect: Inflection)
    requires NominativeStays(inflect) && Knows(identity, [Surname, First, Patronymic])
    requires original.first != "" && original.surname != ""
    ensures Foremost(AsksFrom(0), 2, identity, original, inflect,
                     Needle(identity.first + " " + identity.surname, original.first + " " + original.surname))
  {
    hide Rendered, AsksFrom, NominativeStays;
    FirstAsks();
    PartsKnown(identity);
    var synGender := if identity.gender == "" then "masc" else identity.gender;
    var gender := if original.gender == "" then synGender else original.gender;
    ThreeWords([Surname, First, Patronymic], identity, synGender, inflect);
    ThreeWords([First, Patronymic, Surname], identity, synGender, inflect);
    TwoWords(identity, synGender, inflect);
    TwoWords(original, gender, inflect);
    assert Knows(original, [First, Surname]);
  }

  lemma {:induction false} PartsKnown(p: Parts)
    requires Knows(p, [Surname, First, Patronymic])
    ensures p.surname != "" && p.first != "" && p.patronymic != "" && Knows(p, [First, Patronymic, Surname])
  {
    var shape := [Surname, First, Patronymic];
    assert WordOf(shape[0], p) != "" && WordOf(shape[1], p) != "" && WordOf(shape[2], p) != "";
  }

  /** Two people whose synthetic identities agree in first name and surname: their surrogates (the
      full names) differ as soon as the patronymics do, so both are drawn; yet the list is
      ambiguous, and a reply that writes one of them by first name and surname is not restored
      rightly for both. */
  lemma {:induction false} PeopleShareAnAlias(
      mappings: seq<Mapping>, infos: seq<NameInfo>, inflect: Inflection, isWord: char -> bool, i: nat, j: nat, one: Parts, two: Parts,
      o1: Parts, o2: Parts)
    requires NominativeStays(inflect) && i < |mappings| == |infos| && j < |mappings|
    requires infos[i] == Identified(one, o1) && infos[j] == Identified(two, o2)
    requires Knows(one, [Surname, First, Patronymic]) && Knows(two, [Surname, First, Patronymic])
    requires one.first == two.first && one.surname == two.surname
    requires o1.first != "" && o1.surname != "" && o2.first != "" && o2.surname != ""
    requires o1.first + " " + o1.surname != o2.first + " " + o2.surname
    ensures !Functional(NeedleList(mappings, infos, inflect, |mappings|))
    ensures one.patronymic != two.patronymic ==>
              Rendered(Ask("nomn", [Surname, First, Patronymic], false), one, one.gender, inflect)
              != Rendered(Ask("nomn", [Surname, First, Patronymic], false), two, two.gender, inflect)
    ensures var alias := one.first + " " + one.surname;
            var result := Resolved(alias, AllMatches(alias, isWord, NeedleList(mappings, infos, inflect, |mappings|)));
            result != o1.first + " " + o1.surname || result != o2.first + " " + o2.surname
  {
    hide Foremost, NeedleList, Rendered, Functional, NominativeStays, Resolved, AllMatches, AsksFrom;
    ShortAlias(one, o1, inflect);
    ShortAlias(two, o2, inflect);
    var alias := one.first + " " + one.surname;
    SharedNeedle(mappings, infos, inflect, i, j, Needle(alias, o1.first + " " + o1.surname),
                 Needle(alias, o2.first + " " + o2.surname), ViaAlias(2), ViaAlias(2));
    ThreeWords([Surname, First, Patronymic], one, one.gender, inflect);
    ThreeWords([Surname, First, Patronymic], two, two.gender, inflect);
    if one.patronymic != two.patronymic {
      Apart(one.surname + " " + (one.first + " "), one.patronymic, two.patronymic);
      Regroup(one.surname, one.first, one.patronymic);
      Regroup(two.surname, two.first, two.patronymic);
    }
  }

  lemma {:induction false} Apart(p: string, a: string, b: string)
    requires a != b
    ensures p + a != p + b
  {
    assert (p + a)[|p|..] == a && (p + b)[|p|..] == b;
  }

  lemma {:induction false} Regroup(a: string, b: string, c: string)
    ensures a + " " + (b + " " + c) == a + " " + (b + " ") + c
  {
  }
}
