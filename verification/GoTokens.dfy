/** When the Go service's passes over tokens restore what the Python scan restores, exactly.

    Originals may hold tokens themselves. A text whose opening brackets all open bracketed words is
    written as atoms (characters, tokens of the mappings, other words), which can be read back. */
module GoTokens {
  import opened Identity
  import opened Models
  import opened Substrings
  import opened TokenDemasking

  datatype Atom = Plain(c: char) | Word(s: string) | Tok(i: nat)

  predicate Fits(a: Atom, mappings: seq<Mapping>) {
    match a
    case Plain(c) => c != '<'
    case Word(s) => IsToken(s) && forall i :: 0 <= i < |mappings| ==> mappings[i].token != s
    case Tok(i) => i < |mappings|
  }

  predicate AllFit(x: seq<Atom>, mappings: seq<Mapping>) {
    forall k :: 0 <= k < |x| ==> Fits(x[k], mappings)
  }

  function Piece(a: Atom, mappings: seq<Mapping>): string
    requires Fits(a, mappings)
  {
    match a
    case Plain(c) => [c]
    case Word(s) => s
    case Tok(i) => mappings[i].token
  }

  function Render(x: seq<Atom>, mappings: seq<Mapping>): string
    requires AllFit(x, mappings)
  {
    if x == [] then "" else Piece(x[0], mappings) + Render(x[1..], mappings)
  }

  /** Each original is such a text, `parts[i]`, and not empty. */
  ghost predicate Structured(mappings: seq<Mapping>, parts: seq<seq<Atom>>) {
    && Mapped(mappings) && |parts| == |mappings|
    && forall i :: 0 <= i < |parts| ==>
         parts[i] != [] && AllFit(parts[i], mappings) && mappings[i].original == Render(parts[i], mappings)
  }

  lemma {:induction false} SplitFirst(x: seq<Atom>, y: seq<Atom>)
    requires x != []
    ensures x + y != [] && (x + y)[0] == x[0] && (x + y)[1..] == x[1..] + y
  {
  }

  lemma {:induction false} Associate(p: string, q: string, r: string)
    ensures p + (q + r) == p + q + r
  {
  }

  lemma {:induction false} RenderConcat(x: seq<Atom>, y: seq<Atom>, mappings: seq<Mapping>)
    requires AllFit(x, mappings) && AllFit(y, mappings)
    ensures AllFit(x + y, mappings) && Render(x + y, mappings) == Render(x, mappings) + Render(y, mappings)
  {
    if x == [] {
      assert [] + y == y;
    } else {
      hide Render, Piece;
      SplitFirst(x, y);
      RenderConcat(x[1..], y, mappings);
      RenderUnfold(x, mappings);
      RenderUnfold(x + y, mappings);
      Associate(Piece(x[0], mappings), Render(x[1..], mappings), Render(y, mappings));
    }
  }

  lemma {:induction false} RenderUnfold(x: seq<Atom>, mappings: seq<Mapping>)
    requires AllFit(x, mappings) && x != []
    ensures Render(x, mappings) == Piece(x[0], mappings) + Render(x[1..], mappings)
    ensures Mapped(mappings) ==> Piece(x[0], mappings) != ""
  {
  }

  /** The atoms can be read back from the text. */
  lemma {:induction false} RenderInjective(x: seq<Atom>, y: seq<Atom>, mappings: seq<Mapping>)
    requires Mapped(mappings) && AllFit(x, mappings) && AllFit(y, mappings)
    requires Render(x, mappings) == Render(y, mappings)
    ensures x == y
  {
    if x != [] {
      RenderUnfold(x, mappings);
    }
    if y != [] {
      RenderUnfold(y, mappings);
    }
    if x != [] && y != [] {
      hide Render, Piece, Mapped;
      var text, p, q := Render(x, mappings), Piece(x[0], mappings), Piece(y[0], mappings);
      assert p <= text && q <= text;
      SameHead(x[0], y[0], mappings, text);
      assert text[|p|..] == Render(x[1..], mappings) && text[|p|..] == Render(y[1..], mappings);
      RenderInjective(x[1..], y[1..], mappings);
      assert x == [x[0]] + x[1..] && y == [y[0]] + y[1..];
    }
  }

  lemma {:induction false} SameHead(a: Atom, b: Atom, mappings: seq<Mapping>, text: string)
    requires Mapped(mappings) && Fits(a, mappings) && Fits(b, mappings)
    requires Piece(a, mappings) <= text && Piece(b, mappings) <= text
    ensures a == b
  {
    assert text[0] == Piece(a, mappings)[0] == Piece(b, mappings)[0];
    if !a.Plain? && !b.Plain? {
      TokensArePrefixFree(Piece(a, mappings), Piece(b, mappings), text);
    }
  }

  // The two ways of restoring, on atoms.

  /** One pass. */
  function Subst(x: seq<Atom>, j: nat, part: seq<Atom>): seq<Atom> {
    if x == [] then [] else (if x[0] == Tok(j) then part else [x[0]]) + Subst(x[1..], j, part)
  }

  /** All passes from the `p`-th mapping on. */
  function Passes(x: seq<Atom>, parts: seq<seq<Atom>>, p: nat): seq<Atom>
    decreases |parts| - p
  {
    if p >= |parts| then x else Passes(Subst(x, p, parts[p]), parts, p + 1)
  }

  /** Every token of the mappings `q` to `p` gives way to its original, once. */
  function Expand(x: seq<Atom>, parts: seq<seq<Atom>>, q: nat, p: nat): seq<Atom>
    requires p <= |parts|
  {
    if x == [] then []
    else (if x[0].Tok? && q <= x[0].i < p then parts[x[0].i] else [x[0]]) + Expand(x[1..], parts, q, p)
  }

  lemma {:induction false} SubstFits(x: seq<Atom>, j: nat, part: seq<Atom>, mappings: seq<Mapping>)
    requires AllFit(x, mappings) && AllFit(part, mappings)
    ensures AllFit(Subst(x, j, part), mappings)
  {
    if x != [] {
      SubstFits(x[1..], j, part, mappings);
    }
  }

  lemma {:induction false} ExpandFits(x: seq<Atom>, parts: seq<seq<Atom>>, q: nat, p: nat, mappings: seq<Mapping>)
    requires AllFit(x, mappings) && p <= |parts| && forall i :: 0 <= i < |parts| ==> AllFit(parts[i], mappings)
    ensures AllFit(Expand(x, parts, q, p), mappings)
  {
    if x != [] {
      ExpandFits(x[1..], parts, q, p, mappings);
    }
  }

  lemma {:induction false} PassRenders(x: seq<Atom>, mappings: seq<Mapping>, parts: seq<seq<Atom>>, j: nat)
    requires Structured(mappings, parts) && AllFit(x, mappings) && j < |mappings|
    ensures AllFit(Subst(x, j, parts[j]), mappings)
    ensures ReplaceAll(Render(x, mappings), mappings[j].token, mappings[j].original) == Render(Subst(x, j, parts[j]), mappings)
  {
    var t, o := mappings[j].token, mappings[j].original;
    SubstFits(x, j, parts[j], mappings);
    if x != [] {
      var rest := Render(x[1..], mappings);
      PassRenders(x[1..], mappings, parts, j);
      SubstFits(x[1..], j, parts[j], mappings);
      HeadPass(x[0], rest, mappings, j);
      var head := if x[0] == Tok(j) then parts[j] else [x[0]];
      RenderConcat(head, Subst(x[1..], j, parts[j]), mappings);
      assert [x[0]][1..] == [];
      assert Piece(x[0], mappings) + "" == Piece(x[0], mappings);
    }
  }

  lemma {:induction false} HeadPass(a: Atom, rest: string, mappings: seq<Mapping>, j: nat)
    requires Mapped(mappings) && Fits(a, mappings) && j < |mappings|
    ensures var t, o := mappings[j].token, mappings[j].original;
            ReplaceAll(Piece(a, mappings) + rest, t, o)
            == (if a == Tok(j) then o else Piece(a, mappings)) + ReplaceAll(rest, t, o)
  {
    var t, o := mappings[j].token, mappings[j].original;
    if a.Plain? {
      SkipNoOpening([a.c], rest, t, o);
    } else {
      PassOverToken(Piece(a, mappings), rest, t, o);
    }
  }

  /** `FuzzyDemask` is the passes. */
  lemma {:induction false} GoRenders(x: seq<Atom>, mappings: seq<Mapping>, parts: seq<seq<Atom>>, p: nat)
    requires Structured(mappings, parts) && AllFit(x, mappings) && p <= |mappings|
    ensures AllFit(Passes(x, parts, p), mappings)
    ensures ReplaceMappings(Render(x, mappings), mappings[p..]) == Render(Passes(x, parts, p), mappings)
    decreases |mappings| - p
  {
    hide Render, Subst, ReplaceAll;
    if p < |mappings| {
      assert mappings[p..][0].token != "";
      PassRenders(x, mappings, parts, p);
      assert mappings[p..][1..] == mappings[p + 1..];
      GoRenders(Subst(x, p, parts[p]), mappings, parts, p + 1);
    }
  }

  /** The Python scan is the expansion. */
  lemma {:induction false} ScanRenders(x: seq<Atom>, mappings: seq<Mapping>, parts: seq<seq<Atom>>, alternatives: seq<string>)
    requires Structured(mappings, parts) && AllFit(x, mappings)
    requires forall t :: t in alternatives <==> t in OriginalsByToken(mappings)
    ensures AllFit(Expand(x, parts, 0, |parts|), mappings)
    ensures Scan(alternatives, OriginalsByToken(mappings), Render(x, mappings)) == Render(Expand(x, parts, 0, |parts|), mappings)
  {
    hide Scan, OriginalsByToken, Mapped, Piece;
    ExpandFits(x, parts, 0, |parts|, mappings);
    if x == [] {
      NoPattern(mappings, alternatives);
    } else {
      var rest := Render(x[1..], mappings);
      ScanRenders(x[1..], mappings, parts, alternatives);
      ExpandFits(x[1..], parts, 0, |parts|, mappings);
      HeadScan(x[0], rest, mappings, alternatives);
      var head := if x[0].Tok? then parts[x[0].i] else [x[0]];
      RenderConcat(head, Expand(x[1..], parts, 0, |parts|), mappings);
      RenderOne(x[0], mappings);
    }
  }

  lemma {:induction false} NoPattern(mappings: seq<Mapping>, alternatives: seq<string>)
    requires Mapped(mappings) && forall t :: t in alternatives <==> t in OriginalsByToken(mappings)
    ensures ValidPattern(alternatives, OriginalsByToken(mappings)) && Scan(alternatives, OriginalsByToken(mappings), "") == ""
  {
    forall t | t in alternatives ensures t != "" {
      OriginalsOf(mappings, t);
    }
  }

  lemma {:induction false} RenderOne(a: Atom, mappings: seq<Mapping>)
    requires Fits(a, mappings)
    ensures Render([a], mappings) == Piece(a, mappings)
  {
    assert [a][1..] == [];
    assert Piece(a, mappings) + "" == Piece(a, mappings);
  }

  lemma {:induction false} HeadScan(a: Atom, rest: string, mappings: seq<Mapping>, alternatives: seq<string>)
    requires Mapped(mappings) && Fits(a, mappings)
    requires forall t :: t in alternatives <==> t in OriginalsByToken(mappings)
    ensures Scan(alternatives, OriginalsByToken(mappings), Piece(a, mappings) + rest)
         == (if a.Tok? then mappings[a.i].original else Piece(a, mappings)) + Scan(alternatives, OriginalsByToken(mappings), rest)
  {
    hide Scan, OriginalsByToken, IsToken;
    var originals := OriginalsByToken(mappings);
    forall t | t in alternatives ensures IsToken(t) && t != "" && t in originals {
      OriginalsOf(mappings, t);
    }
    if a.Tok? {
      OriginalsOf(mappings, mappings[a.i].token);
      ScanTokenFirst(alternatives, originals, mappings[a.i].token, rest);
    } else if a.Plain? {
      ScanNoOpening(alternatives, originals, [a.c], rest);
    } else {
      forall t | t in alternatives ensures t != a.s {
        OriginalsOf(mappings, t);
      }
      ScanOtherWord(alternatives, originals, a.s, rest);
    }
  }

  /** A bracketed word that is no alternative stays. */
  lemma {:induction false} ScanOtherWord(alternatives: seq<string>, originals: map<string, string>, word: string, rest: string)
    requires ValidPattern(alternatives, originals) && forall t :: t in alternatives ==> IsToken(t)
    requires IsToken(word) && word !in alternatives
    ensures Scan(alternatives, originals, word + rest) == word + Scan(alternatives, originals, rest)
  {
    hide Scan, IsToken;
    WordBody(word);
    var text, body := word + rest, word[1..];
    assert text[0] == word[0] && text[1..] == body + rest;
    forall t | t in alternatives ensures !(t <= text) {
      if t <= text {
        TokensArePrefixFree(t, word, text);
      }
    }
    ScanSkips(alternatives, originals, text);
    ScanNoOpening(alternatives, originals, body, rest);
    AddFirst(word, Scan(alternatives, originals, rest));
  }

  lemma {:induction false} WordBody(word: string)
    requires IsToken(word)
    ensures word != "" && NoOpening(word[1..])
  {
  }

  lemma {:induction false} AddFirst(word: string, r: string)
    requires word != ""
    ensures [word[0]] + (word[1..] + r) == word + r
  {
  }

  /** Where no bracket opens nothing is replaced. */
  lemma {:induction false} ScanNoOpening(alternatives: seq<string>, originals: map<string, string>, s: string, rest: string)
    requires ValidPattern(alternatives, originals) && NoOpening(s) && forall t :: t in alternatives ==> IsToken(t)
    ensures Scan(alternatives, originals, s + rest) == s + Scan(alternatives, originals, rest)
    decreases |s|
  {
    if s == "" {
      assert s + rest == rest;
    } else {
      var text := s + rest;
      assert text[0] == s[0] && text[1..] == s[1..] + rest;
      assert FirstMatch(alternatives, text).None?;
      ScanNoOpening(alternatives, originals, s[1..], rest);
      var r := Scan(alternatives, originals, rest);
      assert [s[0]] + (s[1..] + r) == s + r;
    }
  }

  // When they agree.

  /** From mapping `q` on, no original holds the token of a later mapping that changes it. */
  predicate Safe(parts: seq<seq<Atom>>, q: nat) {
    forall i, j :: q <= i < j < |parts| ==> Steady(parts, i, j)
  }

  predicate Steady(parts: seq<seq<Atom>>, i: nat, j: nat)
    requires i < |parts| && j < |parts|
  {
    Tok(j) in parts[i] ==> parts[j] == [Tok(j)]
  }

  lemma {:induction false} SubstConcat(x: seq<Atom>, y: seq<Atom>, j: nat, part: seq<Atom>)
    ensures Subst(x + y, j, part) == Subst(x, j, part) + Subst(y, j, part)
  {
    if x == [] {
      assert [] + y == y;
    } else {
      assert (x + y)[1..] == x[1..] + y;
      SubstConcat(x[1..], y, j, part);
      var h := if x[0] == Tok(j) then part else [x[0]];
      assert h + (Subst(x[1..], j, part) + Subst(y, j, part)) == h + Subst(x[1..], j, part) + Subst(y, j, part);
    }
  }

  lemma {:induction false} SubstSame(x: seq<Atom>, j: nat, part: seq<Atom>)
    requires Tok(j) in x ==> part == [Tok(j)]
    ensures Subst(x, j, part) == x
  {
    if x != [] {
      assert x == [x[0]] + x[1..];
      SubstSame(x[1..], j, part);
    }
  }

  lemma {:induction false} ExpandNothing(x: seq<Atom>, parts: seq<seq<Atom>>, q: nat)
    requires q <= |parts|
    ensures Expand(x, parts, q, q) == x
  {
    if x != [] {
      assert x == [x[0]] + x[1..];
      ExpandNothing(x[1..], parts, q);
    }
  }

  /** A further pass over a safe expansion is one more step of the expansion. */
  lemma {:induction false} ExpandMore(x: seq<Atom>, parts: seq<seq<Atom>>, q: nat, p: nat)
    requires Safe(parts, q) && q <= p < |parts|
    ensures Subst(Expand(x, parts, q, p), p, parts[p]) == Expand(x, parts, q, p + 1)
  {
    if x != [] {
      ExpandMore(x[1..], parts, q, p);
      var head := if x[0].Tok? && q <= x[0].i < p then parts[x[0].i] else [x[0]];
      SubstConcat(head, Expand(x[1..], parts, q, p), p, parts[p]);
      if x[0].Tok? && q <= x[0].i < p {
        assert Steady(parts, x[0].i, p);
        SubstSame(head, p, parts[p]);
      } else {
        assert [x[0]][1..] == [];
        assert Subst([], p, parts[p]) == [];
        assert parts[p] + [] == parts[p] && [x[0]] + [] == [x[0]];
      }
    }
  }

  lemma {:induction false} SafePasses(x: seq<Atom>, parts: seq<seq<Atom>>, q: nat, p: nat)
    requires Safe(parts, q) && q <= p <= |parts|
    ensures Passes(Expand(x, parts, q, p), parts, p) == Expand(x, parts, q, |parts|)
    decreases |parts| - p
  {
    if p < |parts| {
      ExpandMore(x, parts, q, p);
      SafePasses(x, parts, q, p + 1);
    }
  }

  /** An expansion that changes nothing expands every token to itself. */
  lemma {:induction false} Unchanged(x: seq<Atom>, parts: seq<seq<Atom>>, q: nat, j: nat)
    requires forall i :: 0 <= i < |parts| ==> parts[i] != []
    ensures |Expand(x, parts, q, |parts|)| >= |x|
    ensures Expand(x, parts, q, |parts|) == x && Tok(j) in x && q <= j < |parts| ==> parts[j] == [Tok(j)]
  {
    if x != [] {
      Unchanged(x[1..], parts, q, j);
      var head, tail := if x[0].Tok? && q <= x[0].i < |parts| then parts[x[0].i] else [x[0]], Expand(x[1..], parts, q, |parts|);
      if head + tail == x {
        assert |head| == 1;
        assert (head + tail)[0] == head[0] && (head + tail)[1..] == tail;
      }
    }
  }

  /** The last mapping whose original holds a later, changing token. */
  lemma {:induction false} LastUnsafe(parts: seq<seq<Atom>>, q: nat) returns (i: nat, j: nat)
    requires !Safe(parts, q)
    ensures q <= i < j < |parts| && !Steady(parts, i, j) && Safe(parts, i + 1)
    decreases |parts| - q
  {
    if Safe(parts, q + 1) {
      i, j :| q <= i < j < |parts| && !Steady(parts, i, j);
      assert i == q;
    } else {
      i, j := LastUnsafe(parts, q + 1);
    }
  }

  lemma {:induction false} PassesUpTo(i: nat, parts: seq<seq<Atom>>, p: nat)
    requires p <= i < |parts|
    ensures Passes([Tok(i)], parts, p) == Passes(parts[i], parts, i + 1)
    decreases i - p
  {
    assert [Tok(i)][1..] == [];
    assert Subst([], p, parts[p]) == [] && [Tok(i)] + [] == [Tok(i)] && parts[i] + [] == parts[i];
    if p < i {
      PassesUpTo(i, parts, p + 1);
    }
  }

  /** An unsafe list betrays itself on a text of one token. */
  lemma {:induction false} UnsafeDisagrees(parts: seq<seq<Atom>>) returns (i: nat)
    requires !Safe(parts, 0) && forall k :: 0 <= k < |parts| ==> parts[k] != []
    ensures i < |parts| && Passes([Tok(i)], parts, 0) != Expand([Tok(i)], parts, 0, |parts|)
  {
    var j;
    i, j := LastUnsafe(parts, 0);
    PassesUpTo(i, parts, 0);
    ExpandNothing(parts[i], parts, i + 1);
    SafePasses(parts[i], parts, i + 1, i + 1);
    Unchanged(parts[i], parts, i + 1, j);
    assert [Tok(i)][1..] == [];
    assert parts[i] + [] == parts[i];
  }

  // The condition, read off the mappings.

  /** No original holds the token of a later mapping whose own original differs from that token. */
  predicate Unnested(mappings: seq<Mapping>) {
    forall i, j :: 0 <= i < j < |mappings| && Contains(mappings[i].original, mappings[j].token) ==>
      mappings[j].original == mappings[j].token
  }

  lemma {:induction false} TokenStarts(mappings: seq<Mapping>, j: nat)
    requires Mapped(mappings) && j < |mappings|
    ensures mappings[j].token != "" && mappings[j].token[0] == '<'
  {
  }

  lemma {:induction false} RenderNotEmpty(x: seq<Atom>, mappings: seq<Mapping>)
    requires AllFit(x, mappings) && Render(x, mappings) != ""
    ensures x != []
  {
  }

  lemma {:induction false} PieceOpensFirst(a: Atom, mappings: seq<Mapping>, at: nat)
    requires Mapped(mappings) && Fits(a, mappings) && at < |Piece(a, mappings)| && Piece(a, mappings)[at] == '<'
    ensures at == 0
  {
  }

  lemma {:induction false} TokenIsPiece(mappings: seq<Mapping>, j: nat)
    requires j < |mappings|
    ensures Fits(Tok(j), mappings) && Piece(Tok(j), mappings) == mappings[j].token
  {
  }

  lemma {:induction false} TokenOccurs(x: seq<Atom>, mappings: seq<Mapping>, j: nat, at: nat)
    requires Mapped(mappings) && AllFit(x, mappings) && j < |mappings|
    requires OccursAt(Render(x, mappings), mappings[j].token, at)
    ensures Tok(j) in x
    decreases |x|
  {
    hide Render, Piece, Mapped, Fits;
    var text, t := Render(x, mappings), mappings[j].token;
    TokenStarts(mappings, j);
    assert text[at..at + |t|][0] == text[at] == '<';
    RenderNotEmpty(x, mappings);
    RenderUnfold(x, mappings);
    var p, rest := Piece(x[0], mappings), Render(x[1..], mappings);
    assert text == p + rest;
    if at >= |p| {
      assert rest[at - |p|..at - |p| + |t|] == text[at..at + |t|];
      TokenOccurs(x[1..], mappings, j, at - |p|);
    } else {
      assert text[at] == p[at];
      PieceOpensFirst(x[0], mappings, at);
      TokenIsPiece(mappings, j);
      assert t <= text && p <= text;
      SameHead(x[0], Tok(j), mappings, text);
    }
  }

  lemma {:induction false} OccursAfter(before: string, t: string, after: string)
    ensures Contains(before + (t + after), t)
  {
    var s := before + (t + after);
    assert s[|before|..|before| + |t|] == t;
    assert OccursAt(s, t, |before|);
  }

  lemma {:induction false} TokenShows(x: seq<Atom>, mappings: seq<Mapping>, j: nat)
    requires AllFit(x, mappings) && j < |mappings| && Tok(j) in x
    ensures Contains(Render(x, mappings), mappings[j].token)
  {
    hide Render, Fits;
    var k :| 0 <= k < |x| && x[k] == Tok(j);
    assert x == x[..k] + x[k..];
    RenderConcat(x[..k], x[k..], mappings);
    RenderUnfold(x[k..], mappings);
    OccursAfter(Render(x[..k], mappings), mappings[j].token, Render(x[k..][1..], mappings));
  }

  lemma {:induction false} UnnestedIsSafe(mappings: seq<Mapping>, parts: seq<seq<Atom>>)
    requires Structured(mappings, parts)
    ensures Unnested(mappings) <==> Safe(parts, 0)
  {
    forall i: nat, j: nat | i < j < |parts|
      ensures (Contains(mappings[i].original, mappings[j].token) ==> mappings[j].original == mappings[j].token)
         <==> Steady(parts, i, j)
    {
      SteadyRead(mappings, parts, i, j);
    }
  }

  lemma {:induction false} SteadyRead(mappings: seq<Mapping>, parts: seq<seq<Atom>>, i: nat, j: nat)
    requires Structured(mappings, parts) && i < |parts| && j < |parts|
    ensures (Contains(mappings[i].original, mappings[j].token) ==> mappings[j].original == mappings[j].token)
       <==> Steady(parts, i, j)
  {
    if Tok(j) in parts[i] {
      TokenShows(parts[i], mappings, j);
    }
    if at :| 0 <= at <= |mappings[i].original| && OccursAt(mappings[i].original, mappings[j].token, at) {
      TokenOccurs(parts[i], mappings, j, at);
    }
    assert [Tok(j)][1..] == [];
    assert Render([Tok(j)], mappings) == mappings[j].token + "" == mappings[j].token;
    if mappings[j].original == mappings[j].token {
      RenderInjective(parts[j], [Tok(j)], mappings);
    }
  }

  // On texts.

  /** The bracket at `k` opens a bracketed word that ends at `e`. */
  predicate Closes(s: string, k: nat, e: nat) {
    k < e < |s| && s[e] == '>' && NoBrackets(s[k + 1..e])
  }

  /** Every opening bracket opens a bracketed word, a token of the document or not. */
  predicate WellBracketed(s: string) {
    forall k :: 0 <= k < |s| && s[k] == '<' ==> exists e :: k < e < |s| && Closes(s, k, e)
  }

  lemma {:induction false} RestIsBracketed(s: string, n: nat)
    requires WellBracketed(s) && n <= |s|
    ensures WellBracketed(s[n..])
  {
    forall k | 0 <= k < |s[n..]| && s[n..][k] == '<' ensures exists e :: k < e < |s[n..]| && Closes(s[n..], k, e) {
      assert s[n + k] == '<';
      var e :| n + k < e < |s| && Closes(s, n + k, e);
      assert s[n..][k + 1..e - n] == s[n + k + 1..e];
      assert Closes(s[n..], k, e - n);
    }
  }

  /** The atoms of a text. */
  lemma {:induction false} Atoms(s: string, mappings: seq<Mapping>) returns (x: seq<Atom>)
    requires Mapped(mappings) && WellBracketed(s)
    ensures AllFit(x, mappings) && Render(x, mappings) == s
    ensures s != "" ==> x != []
    decreases |s|
  {
    if s == "" {
      x := [];
    } else {
      hide WellBracketed, Fits, Mapped, Piece;
      var a := FirstAtom(s, mappings);
      var n := |Piece(a, mappings)|;
      assert s == Piece(a, mappings) + s[n..];
      RestIsBracketed(s, n);
      var rest := Atoms(s[n..], mappings);
      x := [a] + rest;
      assert x[1..] == rest;
    }
  }

  lemma {:induction false} FirstAtom(s: string, mappings: seq<Mapping>) returns (a: Atom)
    requires Mapped(mappings) && WellBracketed(s) && s != ""
    ensures Fits(a, mappings) && Piece(a, mappings) != "" && Piece(a, mappings) <= s
  {
    if s[0] != '<' {
      a := Plain(s[0]);
    } else {
      var e :| 0 < e < |s| && Closes(s, 0, e);
      var word := s[..e + 1];
      assert forall k :: 0 < k < e ==> word[k] == s[1..e][k - 1];
      if i :| 0 <= i < |mappings| && mappings[i].token == word {
        a := Tok(i);
      } else {
        a := Word(word);
      }
    }
  }

  lemma {:induction false} TokenIsBracketed(t: string)
    requires IsToken(t)
    ensures WellBracketed(t)
  {
    assert NoBrackets(t[1..|t| - 1]);
    assert Closes(t, 0, |t| - 1);
  }

  /** The originals as atoms. */
  lemma {:induction false} Parts(mappings: seq<Mapping>, n: nat) returns (parts: seq<seq<Atom>>)
    requires Mapped(mappings) && n <= |mappings|
    requires forall i :: 0 <= i < |mappings| ==> mappings[i].original != "" && WellBracketed(mappings[i].original)
    ensures |parts| == n
    ensures forall i :: 0 <= i < n ==> parts[i] != [] && AllFit(parts[i], mappings) && mappings[i].original == Render(parts[i], mappings)
  {
    if n == 0 {
      parts := [];
    } else {
      var before := Parts(mappings, n - 1);
      var last := Atoms(mappings[n - 1].original, mappings);
      parts := before + [last];
    }
  }

  ghost predicate AgreeEverywhere(mappings: seq<Mapping>, alternatives: seq<string>)
    requires forall t :: t in alternatives <==> t in OriginalsByToken(mappings)
  {
    forall text :: WellBracketed(text) ==>
      ReplaceMappings(text, mappings) == Scan(alternatives, OriginalsByToken(mappings), text)
  }

  ghost predicate AgreeOn(mappings: seq<Mapping>, alternatives: seq<string>, x: seq<Atom>)
    requires AllFit(x, mappings)
    requires forall t :: t in alternatives <==> t in OriginalsByToken(mappings)
  {
    ReplaceMappings(Render(x, mappings), mappings) == Scan(alternatives, OriginalsByToken(mappings), Render(x, mappings))
  }

  lemma {:induction false} AgreementRead(mappings: seq<Mapping>, parts: seq<seq<Atom>>, alternatives: seq<string>, x: seq<Atom>)
    requires Structured(mappings, parts) && AllFit(x, mappings)
    requires forall t :: t in alternatives <==> t in OriginalsByToken(mappings)
    ensures AgreeOn(mappings, alternatives, x) <==> Passes(x, parts, 0) == Expand(x, parts, 0, |parts|)
  {
    assert mappings[0..] == mappings;
    GoRenders(x, mappings, parts, 0);
    ScanRenders(x, mappings, parts, alternatives);
    if AgreeOn(mappings, alternatives, x) {
      RenderInjective(Passes(x, parts, 0), Expand(x, parts, 0, |parts|), mappings);
    }
  }

  /** The Go passes and the Python scan restore the same from every well-bracketed text if and
      only if no original holds the token of a later mapping whose own original differs from
      that token. */
  lemma {:induction false} AgreeExactlyWhenUnnested(mappings: seq<Mapping>, alternatives: seq<string>)
    requires Mapped(mappings) && forall t :: t in alternatives <==> t in OriginalsByToken(mappings)
    requires forall i :: 0 <= i < |mappings| ==> mappings[i].original != "" && WellBracketed(mappings[i].original)
    ensures AgreeEverywhere(mappings, alternatives) <==> Unnested(mappings)
  {
    hide Render, Fits, Scan, ReplaceMappings, OriginalsByToken, Safe, Unnested, WellBracketed, IsToken;
    var parts := Parts(mappings, |mappings|);
    UnnestedIsSafe(mappings, parts);
    if Safe(parts, 0) {
      forall text | WellBracketed(text)
        ensures ReplaceMappings(text, mappings) == Scan(alternatives, OriginalsByToken(mappings), text)
      {
        var x := Atoms(text, mappings);
        AgreementRead(mappings, parts, alternatives, x);
        ExpandNothing(x, parts, 0);
        SafePasses(x, parts, 0, 0);
      }
    } else {
      var i := UnsafeDisagrees(parts);
      OneToken(mappings, i);
      AgreementRead(mappings, parts, alternatives, [Tok(i)]);
      TokenIsBracketed(mappings[i].token);
    }
  }

  function Plains(s: string): (x: seq<Atom>)
    ensures |x| == |s| && forall k :: 0 <= k < |x| ==> x[k] == Plain(s[k])
  {
    seq(|s|, k requires 0 <= k < |s| => Plain(s[k]))
  }

  lemma {:induction false} PlainsRender(s: string, mappings: seq<Mapping>)
    requires NoBrackets(s)
    ensures AllFit(Plains(s), mappings) && Render(Plains(s), mappings) == s
  {
    if s != "" {
      assert Plains(s)[1..] == Plains(s[1..]);
      PlainsRender(s[1..], mappings);
    }
  }

  const ISSUER: string := "УФМС России по "
  const EMAIL: string := "ivan@example.ru"

  /** Two minted tokens: an issuer whose text mentions, word for word, the token that an e-mail
      address of the same document gets. */
  function NestedMappings(): seq<Mapping> {
    var issuer, email := EntityId(TokenPrefix(PassportIssuer), 1), EntityId(TokenPrefix(Email), 1);
    [Mapping(issuer, ISSUER + TokenFor(email), TokenFor(issuer), ""), Mapping(email, EMAIL, TokenFor(email), "")]
  }

  /** An input on which the condition fails and the services differ: the Go service replaces inside
      the issuer it has just restored. */
  lemma {:induction false} GoRescansRestoredText(alternatives: seq<string>)
    requires forall t :: t in alternatives <==> t in OriginalsByToken(NestedMappings())
    ensures var m := NestedMappings();
            && Mapped(m) && !Unnested(m)
            && ReplaceMappings(m[0].token, m) == ISSUER + EMAIL
            && Scan(alternatives, OriginalsByToken(m), m[0].token) == ISSUER + m[1].token
  {
    hide Passes, Expand, Render, Scan, ReplaceMappings, Plains;
    var m, parts := NestedMappings(), [Plains(ISSUER) + [Tok(1)], Plains(EMAIL)];
    NestedStructured(parts);
    OneToken(m, 0);
    OneToken(m, 1);
    GoRenders([Tok(0)], m, parts, 0);
    ScanRenders([Tok(0)], m, parts, alternatives);
    assert m[0..] == m;
    NestedResults(parts);
    PlainsRender(ISSUER, m);
    PlainsRender(EMAIL, m);
    RenderConcat(Plains(ISSUER), Plains(EMAIL), m);
    TokenShows(parts[0], m, 1);
    assert m[1].original[0] != '<';
  }

  lemma {:induction false} NestedStructured(parts: seq<seq<Atom>>)
    requires parts == [Plains(ISSUER) + [Tok(1)], Plains(EMAIL)]
    ensures Structured(NestedMappings(), parts)
  {
    hide Render, Plains;
    var m := NestedMappings();
    MintedIsToken(PassportIssuer, 1);
    MintedIsToken(Email, 1);
    assert m[0].token[1] == 'P' && m[1].token[1] == 'E';
    PlainsRender(ISSUER, m);
    PlainsRender(EMAIL, m);
    OneToken(m, 1);
    RenderConcat(Plains(ISSUER), [Tok(1)], m);
  }

  lemma {:induction false} OneToken(mappings: seq<Mapping>, j: nat)
    requires j < |mappings|
    ensures AllFit([Tok(j)], mappings) && Render([Tok(j)], mappings) == mappings[j].token
  {
    assert [Tok(j)][1..] == [];
    assert mappings[j].token + "" == mappings[j].token;
  }

  lemma {:induction false} NestedResults(parts: seq<seq<Atom>>)
    requires parts == [Plains(ISSUER) + [Tok(1)], Plains(EMAIL)]
    ensures Passes([Tok(0)], parts, 0) == Plains(ISSUER) + Plains(EMAIL)
    ensures Expand([Tok(0)], parts, 0, 2) == parts[0]
  {
    hide Plains;
    PassesUpTo(0, parts, 0);
    SubstConcat(Plains(ISSUER), [Tok(1)], 1, parts[1]);
    PlainsStay(ISSUER, 1, parts[1]);
    assert [Tok(0)][1..] == [] && [Tok(1)][1..] == [];
    assert Subst([], 1, parts[1]) == [] && parts[1] + [] == parts[1] && parts[0] + [] == parts[0];
  }

  lemma {:induction false} PlainsStay(s: string, j: nat, part: seq<Atom>)
    ensures Subst(Plains(s), j, part) == Plains(s)
  {
    SubstSame(Plains(s), j, part);
  }
}
