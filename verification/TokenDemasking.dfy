/** Demasking by token: the one-pass scan of the Python service, the mapping-by-mapping
    replacement of the Go service, and what both restore. */
module TokenDemasking {
  import opened Identity
  import opened Models
  import opened Substrings
  import opened Weaving

  // Tokens: an opening bracket, a body without brackets, a closing bracket.

  predicate IsToken(t: string) {
    && |t| >= 2 && t[0] == '<' && t[|t| - 1] == '>'
    && forall k :: 0 < k < |t| - 1 ==> t[k] != '<' && t[k] != '>'
  }

  predicate NoBrackets(s: string) {
    forall k :: 0 <= k < |s| ==> s[k] != '<' && s[k] != '>'
  }

  predicate NoOpening(s: string) {
    forall k :: 0 <= k < |s| ==> s[k] != '<'
  }

  /** Every token the grouping mints has this shape. */
  lemma {:induction false} MintedIsToken(kind: PiiType, n: nat)
    ensures IsToken(TokenFor(EntityId(TokenPrefix(kind), n)))
  {
    PrefixHasNoBrackets(kind);
    BracketedIsToken(TokenPrefix(kind), Decimal(n));
  }

  lemma {:induction false} PersonPrefixHasNoBrackets(kind: PiiType)
    requires kind.FullName? || kind.BirthDate? || kind.BirthPlace? || kind.Passport? || kind.Citizenship?
    ensures NoBrackets(TokenPrefix(kind))
  {
  }

  lemma {:induction false} DocumentPrefixHasNoBrackets(kind: PiiType)
    requires kind.PassportIssuer? || kind.DepartmentCode? || kind.PassportIssueDate?
    ensures NoBrackets(TokenPrefix(kind))
  {
  }

  lemma {:induction false} ContactPrefixHasNoBrackets(kind: PiiType)
    requires kind.DriverLicense? || kind.Address? || kind.Email? || kind.Phone? || kind.Inn?
    ensures NoBrackets(TokenPrefix(kind))
  {
  }

  lemma {:induction false} CardPrefixHasNoBrackets(kind: PiiType)
    requires kind.CardNumber? || kind.Cvv? || kind.Pin? || kind.Cardholder?
    ensures NoBrackets(TokenPrefix(kind))
  {
  }

  lemma {:induction false} PrefixHasNoBrackets(kind: PiiType)
    ensures NoBrackets(TokenPrefix(kind))
  {
    hide TokenPrefix, NoBrackets;
    if kind.FullName? || kind.BirthDate? || kind.BirthPlace? || kind.Passport? || kind.Citizenship? {
      PersonPrefixHasNoBrackets(kind);
    } else if kind.PassportIssuer? || kind.DepartmentCode? || kind.PassportIssueDate? {
      DocumentPrefixHasNoBrackets(kind);
    } else if kind.DriverLicense? || kind.Address? || kind.Email? || kind.Phone? || kind.Inn? {
      ContactPrefixHasNoBrackets(kind);
    } else {
      CardPrefixHasNoBrackets(kind);
    }
  }

  lemma {:induction false} BracketedIsToken(prefix: string, digits: string)
    requires NoBrackets(prefix) && forall k :: 0 <= k < |digits| ==> IsDigit(digits[k])
    ensures IsToken("<" + (prefix + "_" + digits) + ">")
  {
    var id := prefix + "_" + digits;
    assert NoBrackets(id);
    var t := "<" + id + ">";
    assert forall k :: 0 < k < |t| - 1 ==> t[k] == id[k - 1];
  }

  /** Of two tokens that begin the same text neither is longer. */
  lemma {:induction false} TokensArePrefixFree(a: string, b: string, text: string)
    requires IsToken(a) && IsToken(b) && a <= text && b <= text
    ensures a == b
  {
    assert text[|a| - 1] == '>' && text[|b| - 1] == '>';
    assert a == text[..|a|] && b == text[..|b|];
  }

  /** Minted tokens do not overlap in a text: one that starts inside another does not exist. */
  lemma {:induction false} TokensDoNotOverlap(text: string, a: string, b: string, i: nat, j: nat)
    requires IsToken(a) && IsToken(b) && OccursAt(text, a, i) && OccursAt(text, b, j)
    requires i <= j < i + |a|
    ensures i == j && a == b
  {
    assert text[i..i + |a|][j - i] == text[j] && text[j..j + |b|][0] == text[j];
    assert i == j;
    TokensArePrefixFree(a, b, text[i..]);
  }

  // The Python scan.

  /** The first alternative of the pattern that matches at the front of `text`. */
  function FirstMatch(alternatives: seq<string>, text: string): (r: Option<string>)
    ensures r.Some? ==> r.value in alternatives && r.value <= text
    ensures r.None? ==> forall t :: t in alternatives ==> !(t <= text)
  {
    if alternatives == [] then None
    else if alternatives[0] <= text then Some(alternatives[0])
    else
      assert forall t :: t in alternatives ==> t == alternatives[0] || t in alternatives[1..];
      FirstMatch(alternatives[1..], text)
  }

  predicate ValidPattern(alternatives: seq<string>, originals: map<string, string>) {
    forall t :: t in alternatives ==> t != "" && t in originals
  }

  /** `pattern.sub`: a match is replaced and skipped, any other character copied. */
  function Scan(alternatives: seq<string>, originals: map<string, string>, text: string): string
    requires ValidPattern(alternatives, originals)
    decreases |text|
  {
    if text == "" then ""
    else
      match FirstMatch(alternatives, text)
      case Some(t) => originals[t] + Scan(alternatives, originals, text[|t|..])
      case None => [text[0]] + Scan(alternatives, originals, text[1..])
  }

  /** `{m.token: m.original for m in mappings if m.token}`: a later mapping wins. */
  function OriginalsByToken(mappings: seq<Mapping>): (r: map<string, string>)
    ensures "" !in r
  {
    if mappings == [] then map[]
    else
      var before, m := OriginalsByToken(mappings[..|mappings| - 1]), mappings[|mappings| - 1];
      if m.token == "" then before else before[m.token := m.original]
  }

  lemma {:induction false} LaterMappingWins(mappings: seq<Mapping>, i: nat)
    requires i < |mappings| && mappings[i].token != ""
    requires forall j :: i < j < |mappings| ==> mappings[j].token != mappings[i].token
    ensures var originals := OriginalsByToken(mappings);
            mappings[i].token in originals && originals[mappings[i].token] == mappings[i].original
    decreases |mappings|
  {
    var n := |mappings| - 1;
    if i < n {
      assert mappings[..n][i] == mappings[i] && mappings[n].token != mappings[i].token;
      LaterMappingWins(mappings[..n], i);
    }
  }

  method DemaskToken(text: string, mappings: seq<Mapping>, alternatives: seq<string>) returns (result: string)
    requires forall t :: t in alternatives <==> t in OriginalsByToken(mappings)
    ensures result == Scan(alternatives, OriginalsByToken(mappings), text)
  {
    var originals: map<string, string> := map[];
    for k := 0 to |mappings|
      invariant originals == OriginalsByToken(mappings[..k])
    {
      assert mappings[..k + 1][..k] == mappings[..k];
      if mappings[k].token != "" {
        originals := originals[mappings[k].token := mappings[k].original];
      }
    }
    assert mappings[..|mappings|] == mappings;
    result := "";
    var i := 0;
    while i < |text|
      invariant i <= |text|
      invariant result + Scan(alternatives, originals, text[i..]) == Scan(alternatives, originals, text)
    {
      var rest := text[i..];
      match FirstMatch(alternatives, rest)
      case Some(t) =>
        ScanTurn(alternatives, originals, rest, result, originals[t], |t|);
        result := result + originals[t];
        i := i + |t|;
        assert text[i..] == rest[|t|..];
      case None =>
        ScanTurn(alternatives, originals, rest, result, [rest[0]], 1);
        result := result + [text[i]];
        i := i + 1;
        assert text[i..] == rest[1..];
    }
  }

  lemma {:induction false} ScanTurn(alternatives: seq<string>, originals: map<string, string>, rest: string,
                                    done: string, piece: string, n: nat)
    requires ValidPattern(alternatives, originals) && 0 < n <= |rest|
    requires Scan(alternatives, originals, rest) == piece + Scan(alternatives, originals, rest[n..])
    ensures done + Scan(alternatives, originals, rest) == done + piece + Scan(alternatives, originals, rest[n..])
  {
    var s := Scan(alternatives, originals, rest[n..]);
    assert done + (piece + s) == done + piece + s;
  }

  /** A text is cut uniquely: between the tokens the literals hold no token of the pattern,
      whatever other brackets they hold. */
  ghost predicate TokenFree(s: string, alternatives: seq<string>) {
    forall t :: t in alternatives ==> !Contains(s, t)
  }

  /** Restoring tokens is exact, and what is restored is never scanned again. */
  lemma {:induction false} ScanIsExact(alternatives: seq<string>, originals: map<string, string>,
                                       lits: seq<string>, tokens: seq<string>, restored: seq<string>)
    requires |lits| == |tokens| + 1 && |restored| == |tokens|
    requires ValidPattern(alternatives, originals) && forall t :: t in alternatives ==> IsToken(t)
    requires forall k :: 0 <= k < |tokens| ==> tokens[k] in alternatives && restored[k] == originals[tokens[k]]
    requires forall k :: 0 <= k < |lits| ==> TokenFree(lits[k], alternatives)
    ensures Scan(alternatives, originals, Weave(lits, tokens)) == Weave(lits, restored)
    decreases |tokens|, |lits[0]|
  {
    hide Weave, Scan, TokenFree, IsToken, ValidPattern;
    WeaveUnfold(lits, tokens);
    WeaveUnfold(lits, restored);
    if lits[0] != "" {
      var shorter := lits[0 := lits[0][1..]];
      NoTokenInLiteral(alternatives, lits, tokens);
      DropFirst(lits, tokens);
      DropFirst(lits, restored);
      StillTokenFree(lits[0], alternatives);
      ScanSkips(alternatives, originals, Weave(lits, tokens));
      ScanIsExact(alternatives, originals, shorter, tokens, restored);
    } else if tokens != [] {
      ScanTokenFirst(alternatives, originals, tokens[0], Weave(lits[1..], tokens[1..]));
      assert Weave(lits, tokens) == tokens[0] + Weave(lits[1..], tokens[1..]);
      ScanIsExact(alternatives, originals, lits[1..], tokens[1..], restored[1..]);
      assert Weave(lits, restored) == restored[0] + Weave(lits[1..], restored[1..]);
    } else {
      ScanNothing(alternatives, originals);
    }
  }

  lemma {:induction false} ScanNothing(alternatives: seq<string>, originals: map<string, string>)
    requires ValidPattern(alternatives, originals)
    ensures Scan(alternatives, originals, "") == ""
  {
  }

  lemma {:induction false} ScanSkips(alternatives: seq<string>, originals: map<string, string>, text: string)
    requires ValidPattern(alternatives, originals) && text != "" && FirstMatch(alternatives, text).None?
    ensures Scan(alternatives, originals, text) == [text[0]] + Scan(alternatives, originals, text[1..])
  {
  }

  lemma {:induction false} ScanTokenFirst(
      alternatives: seq<string>, originals: map<string, string>, token: string, rest: string)
    requires ValidPattern(alternatives, originals) && forall t :: t in alternatives ==> IsToken(t)
    requires token in alternatives
    ensures Scan(alternatives, originals, token + rest) == originals[token] + Scan(alternatives, originals, rest)
  {
    var text := token + rest;
    assert token <= text;
    var t := FirstMatch(alternatives, text).value;
    TokensArePrefixFree(t, token, text);
    assert text[|t|..] == rest;
  }

  lemma {:induction false} DropFirst(lits: seq<string>, mids: seq<string>)
    requires |lits| == |mids| + 1 && lits[0] != ""
    ensures Weave(lits, mids) == [lits[0][0]] + Weave(lits[0 := lits[0][1..]], mids)
    ensures Weave(lits, mids)[1..] == Weave(lits[0 := lits[0][1..]], mids)
  {
    var c, l := [lits[0][0]], lits[0][1..];
    assert lits[0] == c + l;
    assert lits[0 := l][1..] == lits[1..];
    if mids != [] {
      var m, w := mids[0], Weave(lits[1..], mids[1..]);
      assert (c + l) + m + w == c + (l + m + w);
    }
  }

  lemma {:induction false} StillTokenFree(s: string, alternatives: seq<string>)
    requires s != "" && TokenFree(s, alternatives)
    ensures TokenFree(s[1..], alternatives)
  {
    forall t | t in alternatives ensures !Contains(s[1..], t) {
      forall i | 0 <= i <= |s| - 1 ensures !OccursAt(s[1..], t, i) {
        assert !OccursAt(s, t, i + 1);
        assert i + |t| <= |s| - 1 ==> s[1..][i..i + |t|] == s[i + 1..i + 1 + |t|];
      }
    }
  }

  lemma {:induction false} PrefixOccurs(s: string, t: string)
    ensures t <= s ==> OccursAt(s, t, 0)
  {
    if t <= s {
      assert s[0..|t|] == t;
    }
  }

  /** A token cannot begin in a literal: it would have to end there too, or run over the
      opening bracket of the next token. */
  lemma {:induction false} NoTokenInLiteral(alternatives: seq<string>, lits: seq<string>, tokens: seq<string>)
    requires |lits| == |tokens| + 1 && lits[0] != "" && TokenFree(lits[0], alternatives)
    requires forall t :: t in alternatives ==> IsToken(t)
    requires forall k :: 0 <= k < |tokens| ==> tokens[k] in alternatives
    ensures FirstMatch(alternatives, Weave(lits, tokens)).None?
  {
    var text, lit := Weave(lits, tokens), lits[0];
    var n := |lit|;
    assert text[..n] == lit;
    assert tokens != [] ==> IsToken(tokens[0]) && text[n] == '<';
    forall t | t in alternatives ensures !(t <= text) {
      assert !OccursAt(lit, t, 0);
      PrefixOccurs(lit, t);
      assert t <= text && |t| <= n ==> t <= lit;
    }
  }

  // The Go replacement.

  /** `strings.ReplaceAll` with a non-empty needle. */
  function ReplaceAll(text: string, needle: string, replacement: string): string
    requires needle != ""
    decreases |text|
  {
    if text == "" then ""
    else if needle <= text then replacement + ReplaceAll(text[|needle|..], needle, replacement)
    else [text[0]] + ReplaceAll(text[1..], needle, replacement)
  }

  /** `FuzzyDemask` in token mode: one pass over the text per mapping. */
  function ReplaceMappings(text: string, mappings: seq<Mapping>): string
    decreases |mappings|
  {
    if mappings == [] then text
    else
      var m := mappings[0];
      ReplaceMappings(if m.token == "" then text else ReplaceAll(text, m.token, m.original), mappings[1..])
  }

  method FuzzyDemaskToken(payload: string, mappings: seq<Mapping>) returns (result: string)
    ensures result == ReplaceMappings(payload, mappings)
  {
    result := payload;
    for k := 0 to |mappings|
      invariant ReplaceMappings(result, mappings[k..]) == ReplaceMappings(payload, mappings)
    {
      assert mappings[k..][1..] == mappings[k + 1..];
      if mappings[k].token != "" {
        result := ReplaceAll(result, mappings[k].token, mappings[k].original);
      }
    }
  }

  lemma {:induction false} SkipNoOpening(s: string, rest: string, token: string, original: string)
    requires NoOpening(s) && IsToken(token)
    ensures ReplaceAll(s + rest, token, original) == s + ReplaceAll(rest, token, original)
    decreases |s|
  {
    if s == "" {
      assert s + rest == rest;
    } else {
      var text := s + rest;
      assert text[0] == s[0] && text[1..] == s[1..] + rest;
      SkipNoOpening(s[1..], rest, token, original);
      var r := ReplaceAll(rest, token, original);
      assert [s[0]] + (s[1..] + r) == s + r;
    }
  }

  /** A pass for one token replaces that token and steps over every other one. */
  lemma {:induction false} PassOverToken(t: string, rest: string, token: string, original: string)
    requires IsToken(t) && IsToken(token)
    ensures ReplaceAll(t + rest, token, original)
         == (if t == token then original else t) + ReplaceAll(rest, token, original)
  {
    var text := t + rest;
    if token <= text {
      assert t <= text;
      TokensArePrefixFree(t, token, text);
      assert text[|t|..] == rest;
    } else {
      assert t == token ==> token <= text;
      assert text[1..] == t[1..] + rest;
      SkipNoOpening(t[1..], rest, token, original);
      var r := ReplaceAll(rest, token, original);
      assert [t[0]] + (t[1..] + r) == t + r;
    }
  }

  function Swap(mids: seq<string>, token: string, original: string): (r: seq<string>)
    ensures |r| == |mids|
    ensures forall k :: 0 <= k < |r| ==> r[k] == if mids[k] == token then original else mids[k]
  {
    seq(|mids|, k requires 0 <= k < |mids| => if mids[k] == token then original else mids[k])
  }

  lemma {:induction false} ReplaceNothing(needle: string, replacement: string)
    requires needle != ""
    ensures ReplaceAll("", needle, replacement) == ""
  {
  }

  lemma {:induction false} PassOverWeave(lits: seq<string>, mids: seq<string>, token: string, original: string)
    requires |lits| == |mids| + 1 && IsToken(token)
    requires forall k :: 0 <= k < |lits| ==> NoBrackets(lits[k])
    requires forall k :: 0 <= k < |mids| ==> IsToken(mids[k]) || NoBrackets(mids[k])
    ensures ReplaceAll(Weave(lits, mids), token, original) == Weave(lits, Swap(mids, token, original))
    decreases |mids|
  {
    hide Weave, ReplaceAll;
    var swapped := Swap(mids, token, original);
    WeaveUnfold(lits, mids);
    WeaveUnfold(lits, swapped);
    ReplaceNothing(token, original);
    if mids == [] {
      SkipNoOpening(lits[0], "", token, original);
      assert lits[0] + "" == lits[0];
    } else {
      var rest := Weave(lits[1..], mids[1..]);
      assert lits[0] + mids[0] + rest == lits[0] + (mids[0] + rest);
      SkipNoOpening(lits[0], mids[0] + rest, token, original);
      if IsToken(mids[0]) {
        PassOverToken(mids[0], rest, token, original);
      } else {
        SkipNoOpening(mids[0], rest, token, original);
      }
      PassOverWeave(lits[1..], mids[1..], token, original);
      assert swapped[1..] == Swap(mids[1..], token, original);
      var r := ReplaceAll(rest, token, original);
      assert lits[0] + (swapped[0] + r) == lits[0] + swapped[0] + r;
    }
  }

  /** The mappings of one document: token-shaped, pairwise different tokens. */
  ghost predicate Mapped(mappings: seq<Mapping>) {
    && (forall i :: 0 <= i < |mappings| ==> IsToken(mappings[i].token))
    && (forall i, j :: 0 <= i < j < |mappings| ==> mappings[i].token != mappings[j].token)
  }

  lemma {:induction false} OriginalsOf(mappings: seq<Mapping>, t: string)
    requires Mapped(mappings)
    ensures t in OriginalsByToken(mappings) <==> exists i :: 0 <= i < |mappings| && mappings[i].token == t
    ensures forall i :: 0 <= i < |mappings| && mappings[i].token == t ==>
              t in OriginalsByToken(mappings) && OriginalsByToken(mappings)[t] == mappings[i].original
  {
    if mappings != [] {
      OriginalsOf(mappings[..|mappings| - 1], t);
    }
  }

  function SwapAll(mids: seq<string>, mappings: seq<Mapping>): (r: seq<string>)
    ensures |r| == |mids|
    decreases |mappings|
  {
    if mappings == [] then mids
    else SwapAll(Swap(mids, mappings[0].token, mappings[0].original), mappings[1..])
  }

  lemma {:induction false} PassesOverWeave(lits: seq<string>, mids: seq<string>, mappings: seq<Mapping>)
    requires |lits| == |mids| + 1 && Mapped(mappings)
    requires forall i :: 0 <= i < |mappings| ==> NoBrackets(mappings[i].original)
    requires forall k :: 0 <= k < |lits| ==> NoBrackets(lits[k])
    requires forall k :: 0 <= k < |mids| ==> IsToken(mids[k]) || NoBrackets(mids[k])
    ensures ReplaceMappings(Weave(lits, mids), mappings) == Weave(lits, SwapAll(mids, mappings))
    decreases |mappings|
  {
    if mappings != [] {
      var m := mappings[0];
      PassOverWeave(lits, mids, m.token, m.original);
      PassesOverWeave(lits, Swap(mids, m.token, m.original), mappings[1..]);
    }
  }

  /** After all passes a token has become its original, whatever its place in the order. */
  lemma {:induction false} SwappedOnce(mids: seq<string>, mappings: seq<Mapping>, k: nat)
    requires Mapped(mappings) && k < |mids|
    requires forall i :: 0 <= i < |mappings| ==> NoBrackets(mappings[i].original)
    ensures NoBrackets(mids[k]) ==> SwapAll(mids, mappings)[k] == mids[k]
    ensures forall i :: 0 <= i < |mappings| && mappings[i].token == mids[k] ==>
              SwapAll(mids, mappings)[k] == mappings[i].original
    decreases |mappings|
  {
    if mappings != [] {
      var m := mappings[0];
      assert m.token[0] == '<';
      SwappedOnce(Swap(mids, m.token, m.original), mappings[1..], k);
      assert forall i :: 1 <= i < |mappings| ==> mappings[i] == mappings[1..][i - 1];
    }
  }

  /** The Go service restores the same text as the Python service, in any order of mappings, on
      every text whose only angle brackets belong to minted tokens, when no original holds one. */
  lemma {:induction false} GoRefinesPython(
      lits: seq<string>, tokens: seq<string>, mappings: seq<Mapping>, alternatives: seq<string>)
    requires |lits| == |tokens| + 1 && Mapped(mappings)
    requires forall i :: 0 <= i < |mappings| ==> NoBrackets(mappings[i].original)
    requires forall k :: 0 <= k < |lits| ==> NoBrackets(lits[k])
    requires forall t :: t in alternatives <==> t in OriginalsByToken(mappings)
    requires forall k :: 0 <= k < |tokens| ==> tokens[k] in OriginalsByToken(mappings)
    ensures ReplaceMappings(Weave(lits, tokens), mappings)
         == Scan(alternatives, OriginalsByToken(mappings), Weave(lits, tokens))
  {
    var originals := OriginalsByToken(mappings);
    var restored := SwapAll(tokens, mappings);
    forall t | t in originals ensures IsToken(t) {
      OriginalsOf(mappings, t);
    }
    forall k | 0 <= k < |tokens| ensures restored[k] == originals[tokens[k]] {
      OriginalsOf(mappings, tokens[k]);
      SwappedOnce(tokens, mappings, k);
    }
    forall k | 0 <= k < |lits| ensures TokenFree(lits[k], alternatives) {
      BracketFreeIsTokenFree(lits[k], alternatives);
    }
    PassesOverWeave(lits, tokens, mappings);
    ScanIsExact(alternatives, originals, lits, tokens, restored);
  }

  lemma {:induction false} BracketFreeIsTokenFree(s: string, alternatives: seq<string>)
    requires NoBrackets(s) && forall t :: t in alternatives ==> IsToken(t)
    ensures TokenFree(s, alternatives)
  {
    forall t, i | t in alternatives && 0 <= i <= |s| ensures !OccursAt(s, t, i) {
      assert i + |t| <= |s| ==> s[i..i + |t|][0] == s[i];
    }
  }
}
