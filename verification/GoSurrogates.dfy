/** The Go service's choice of surrogates. It draws at most twenty times and keeps the last draw
    whatever it is, so surrogates of one type can coincide; this is exactly when. */
module GoSurrogates {
  import opened Models

  const ATTEMPTS: nat := 20

  /** The loop stops at such a draw. */
  predicate Accepted(used: set<string>, original: string, value: string) {
    value !in used && value != original
  }

  /** The surrogates chosen before `i` for entities of the same type. */
  function UsedBefore(kinds: seq<PiiType>, synth: seq<string>, i: nat): set<string>
    requires i < |kinds| && i <= |synth|
  {
    OfKind(kinds, synth, i, kinds[i])
  }

  predicate FirstAccepted(used: set<string>, original: string, draw: nat -> string, k: nat) {
    k < ATTEMPTS && Accepted(used, original, draw(k)) && forall j: nat :: j < k ==> !Accepted(used, original, draw(j))
  }

  predicate NoneAccepted(used: set<string>, original: string, draw: nat -> string) {
    forall k: nat :: k < ATTEMPTS ==> !Accepted(used, original, draw(k))
  }

  /** The first accepted draw, or else the last one. */
  ghost predicate IsChoice(used: set<string>, original: string, draw: nat -> string, value: string) {
    || (exists k: nat :: FirstAccepted(used, original, draw, k) && value == draw(k))
    || (NoneAccepted(used, original, draw) && value == draw(ATTEMPTS - 1))
  }

  ghost predicate AreChoices(kinds: seq<PiiType>, originals: seq<string>, draw: nat -> nat -> string, synth: seq<string>) {
    && |synth| <= |kinds| == |originals|
    && forall i: nat :: i < |synth| ==> IsChoice(UsedBefore(kinds, synth, i), originals[i], draw(i), synth[i])
  }

  /** `draw(i)(k)` is the value for group `i` at attempt `k`. */
  method ChooseSurrogates(kinds: seq<PiiType>, originals: seq<string>, draw: nat -> nat -> string) returns (synth: seq<string>)
    requires |kinds| == |originals|
    ensures |synth| == |kinds| && AreChoices(kinds, originals, draw, synth)
  {
    hide OfKind, IsChoice, AreChoices;
    NoChoices(kinds, originals, draw);
    synth := [];
    var used: map<PiiType, set<string>> := map[];
    for i := 0 to |kinds|
      invariant |synth| == i && AreChoices(kinds, originals, draw, synth)
      invariant forall kind :: UsedOf(used, kind) == OfKind(kinds, synth, i, kind)
    {
      var mine := UsedOf(used, kinds[i]);
      var syn := ChooseOne(mine, originals[i], draw(i));
      OneMoreChoice(kinds, originals, draw, synth, syn);
      ghost var before := synth;
      synth := synth + [syn];
      used := used[kinds[i] := mine + {syn}];
      forall kind ensures UsedOf(used, kind) == OfKind(kinds, synth, i + 1, kind) {
        OneMore(kinds, before, syn, kind);
      }
    }
  }

  lemma {:induction false} NoChoices(kinds: seq<PiiType>, originals: seq<string>, draw: nat -> nat -> string)
    requires |kinds| == |originals|
    ensures AreChoices(kinds, originals, draw, [])
    ensures forall kind :: OfKind(kinds, [], 0, kind) == {}
  {
  }

  lemma {:induction false} OneMoreChoice(kinds: seq<PiiType>, originals: seq<string>, draw: nat -> nat -> string, synth: seq<string>, syn: string)
    requires AreChoices(kinds, originals, draw, synth) && |synth| < |kinds|
    requires IsChoice(UsedBefore(kinds, synth, |synth|), originals[|synth|], draw(|synth|), syn)
    ensures AreChoices(kinds, originals, draw, synth + [syn])
  {
    hide IsChoice, OfKind;
    forall i: nat | i <= |synth|
      ensures IsChoice(UsedBefore(kinds, synth + [syn], i), originals[i], draw(i), (synth + [syn])[i])
    {
      UsedAlike(kinds, synth + [syn], synth, i);
    }
  }

  lemma {:induction false} UsedAlike(kinds: seq<PiiType>, one: seq<string>, two: seq<string>, i: nat)
    requires i < |kinds| && i <= |one| && i <= |two| && one[..i] == two[..i]
    ensures UsedBefore(kinds, one, i) == UsedBefore(kinds, two, i)
  {
    assert forall j: nat :: j < i ==> one[j] == one[..i][j] == two[j];
  }

  /** The surrogates among the first `n` that belong to one type. */
  function OfKind(kinds: seq<PiiType>, synth: seq<string>, n: nat, kind: PiiType): set<string>
    requires n <= |kinds| && n <= |synth|
  {
    set j: nat | j < n && kinds[j] == kind :: synth[j]
  }

  lemma {:induction false} OneMore(kinds: seq<PiiType>, before: seq<string>, syn: string, kind: PiiType)
    requires |before| < |kinds|
    ensures OfKind(kinds, before + [syn], |before| + 1, kind)
         == OfKind(kinds, before, |before|, kind) + (if kinds[|before|] == kind then {syn} else {})
  {
    var n, synth := |before|, before + [syn];
    var all, some := OfKind(kinds, synth, n + 1, kind), OfKind(kinds, before, n, kind);
    forall x | x in some ensures x in all {
      var j: nat :| j < n && kinds[j] == kind && before[j] == x;
      assert synth[j] == x;
    }
    if kinds[n] == kind {
      assert synth[n] == syn;
    }
  }

  function UsedOf(used: map<PiiType, set<string>>, kind: PiiType): set<string> {
    if kind in used then used[kind] else {}
  }

  /** The inner loop. */
  method ChooseOne(used: set<string>, original: string, draw: nat -> string) returns (syn: string)
    ensures IsChoice(used, original, draw, syn)
  {
    syn := "";
    for attempt := 0 to ATTEMPTS
      invariant forall k: nat :: k < attempt ==> !Accepted(used, original, draw(k))
      invariant attempt > 0 ==> syn == draw(attempt - 1)
    {
      syn := draw(attempt);
      if syn !in used && syn != original {
        assert FirstAccepted(used, original, draw, attempt);
        return;
      }
    }
  }

  /** No earlier entity of the same type has the value, and it differs from the original. */
  predicate Fits(kinds: seq<PiiType>, originals: seq<string>, synth: seq<string>, i: nat, value: string)
    requires i < |kinds| == |originals| && i <= |synth|
  {
    value != originals[i] && forall j: nat :: j < i && kinds[j] == kinds[i] ==> synth[j] != value
  }

  /** The first of twenty draws that fits, or the twentieth when none does. */
  lemma {:induction false} ChoicesMean(kinds: seq<PiiType>, originals: seq<string>, draw: nat -> nat -> string, synth: seq<string>, i: nat)
    requires AreChoices(kinds, originals, draw, synth) && i < |synth|
    ensures if forall k: nat :: k < 20 ==> !Fits(kinds, originals, synth, i, draw(i)(k)) then synth[i] == draw(i)(19)
            else
              exists k: nat ::
                && k < 20 && synth[i] == draw(i)(k) && Fits(kinds, originals, synth, i, draw(i)(k))
                && forall j: nat :: j < k ==> !Fits(kinds, originals, synth, i, draw(i)(j))
  {
    var used := UsedBefore(kinds, synth, i);
    forall v ensures Accepted(used, originals[i], v) <==> Fits(kinds, originals, synth, i, v) {
    }
    assert IsChoice(used, originals[i], draw(i), synth[i]);
    if k: nat :| FirstAccepted(used, originals[i], draw(i), k) && synth[i] == draw(i)(k) {
      assert Fits(kinds, originals, synth, i, draw(i)(k));
    }
  }

  // The choice is determined by the inputs.

  function ChoiceFrom(used: set<string>, original: string, draw: nat -> string, k: nat): string
    requires k < ATTEMPTS
    decreases ATTEMPTS - k
  {
    if k == ATTEMPTS - 1 || Accepted(used, original, draw(k)) then draw(k) else ChoiceFrom(used, original, draw, k + 1)
  }

  /** The surrogates of the first `n` groups. */
  function ChosenBefore(kinds: seq<PiiType>, originals: seq<string>, draw: nat -> nat -> string, n: nat): (r: seq<string>)
    requires n <= |kinds| == |originals|
    ensures |r| == n
  {
    if n == 0 then []
    else
      var before := ChosenBefore(kinds, originals, draw, n - 1);
      before + [ChoiceFrom(UsedBefore(kinds, before, n - 1), originals[n - 1], draw(n - 1), 0)]
  }

  lemma {:induction false} ChoiceFromFinds(used: set<string>, original: string, draw: nat -> string, value: string, k: nat)
    requires k < ATTEMPTS && IsChoice(used, original, draw, value)
    requires forall j: nat :: j < k ==> !Accepted(used, original, draw(j))
    ensures ChoiceFrom(used, original, draw, k) == value
    decreases ATTEMPTS - k
  {
    if Accepted(used, original, draw(k)) {
      assert !NoneAccepted(used, original, draw);
      var m: nat :| FirstAccepted(used, original, draw, m) && value == draw(m);
      assert m == k;
    } else if k < ATTEMPTS - 1 {
      ChoiceFromFinds(used, original, draw, value, k + 1);
    }
  }

  lemma {:induction false} FewerChoices(kinds: seq<PiiType>, originals: seq<string>, draw: nat -> nat -> string, synth: seq<string>)
    requires AreChoices(kinds, originals, draw, synth) && synth != []
    ensures AreChoices(kinds, originals, draw, synth[..|synth| - 1])
  {
    hide IsChoice, OfKind;
    var before := synth[..|synth| - 1];
    forall i: nat | i < |before| ensures IsChoice(UsedBefore(kinds, before, i), originals[i], draw(i), before[i]) {
      assert before[..i] == synth[..i];
      UsedAlike(kinds, before, synth, i);
    }
  }

  lemma {:induction false} ChoicesDetermined(kinds: seq<PiiType>, originals: seq<string>, draw: nat -> nat -> string, synth: seq<string>)
    requires AreChoices(kinds, originals, draw, synth)
    ensures synth == ChosenBefore(kinds, originals, draw, |synth|)
  {
    hide IsChoice, OfKind, ChoiceFrom;
    if synth == [] {
      assert ChosenBefore(kinds, originals, draw, 0) == [];
    } else {
      var n, before := |synth| - 1, synth[..|synth| - 1];
      FewerChoices(kinds, originals, draw, synth);
      ChoicesDetermined(kinds, originals, draw, before);
      UsedAlike(kinds, before, synth, n);
      LastChoice(kinds, originals, draw, synth);
      ChoiceFromFinds(UsedBefore(kinds, synth, n), originals[n], draw(n), synth[n], 0);
      assert synth == before + [synth[n]];
    }
  }

  lemma {:induction false} LastChoice(kinds: seq<PiiType>, originals: seq<string>, draw: nat -> nat -> string, synth: seq<string>)
    requires AreChoices(kinds, originals, draw, synth) && synth != []
    ensures var n := |synth| - 1; IsChoice(UsedBefore(kinds, synth, n), originals[n], draw(n), synth[n])
  {
  }

  lemma {:induction false} ChosenPrefix(kinds: seq<PiiType>, originals: seq<string>, draw: nat -> nat -> string, n: nat, i: nat)
    requires i <= n <= |kinds| == |originals|
    ensures ChosenBefore(kinds, originals, draw, n)[..i] == ChosenBefore(kinds, originals, draw, i)
  {
    if i < n {
      ChosenPrefix(kinds, originals, draw, n - 1, i);
      assert ChosenBefore(kinds, originals, draw, n)[..i] == ChosenBefore(kinds, originals, draw, n - 1)[..i];
    }
  }

  /** Some draw for group `i` is accepted, or at least the last one is unused, after the choices
      for the groups before it. */
  ghost predicate Avoids(kinds: seq<PiiType>, originals: seq<string>, draw: nat -> nat -> string, i: nat)
    requires i < |kinds| == |originals|
  {
    var used := UsedBefore(kinds, ChosenBefore(kinds, originals, draw, i), i);
    !NoneAccepted(used, originals[i], draw(i)) || draw(i)(ATTEMPTS - 1) !in used
  }

  lemma {:induction false} AvoidsMeansUnused(kinds: seq<PiiType>, originals: seq<string>, draw: nat -> nat -> string,
                                             synth: seq<string>, i: nat)
    requires AreChoices(kinds, originals, draw, synth) && i < |synth|
    ensures Avoids(kinds, originals, draw, i) <==> synth[i] !in UsedBefore(kinds, synth, i)
  {
    var used, before := UsedBefore(kinds, synth, i), ChosenBefore(kinds, originals, draw, i);
    ChoicesDetermined(kinds, originals, draw, synth);
    ChosenPrefix(kinds, originals, draw, |synth|, i);
    assert forall j: nat :: j < i ==> synth[j] == before[j];
    assert UsedBefore(kinds, before, i) == used;
    assert IsChoice(used, originals[i], draw(i), synth[i]);
    if k: nat :| FirstAccepted(used, originals[i], draw(i), k) && synth[i] == draw(i)(k) {
      assert !NoneAccepted(used, originals[i], draw(i));
    }
  }

  /** Surrogates of one type are pairwise distinct if and only if, for every group, one of the
      twenty draws is unused and changed, or the last one is unused. */
  lemma {:induction false} DistinctExactlyWhen(kinds: seq<PiiType>, originals: seq<string>, draw: nat -> nat -> string, synth: seq<string>)
    requires AreChoices(kinds, originals, draw, synth) && |synth| == |kinds|
    ensures (forall i, j :: 0 <= i < j < |synth| && kinds[i] == kinds[j] ==> synth[i] != synth[j])
       <==> (forall j :: 0 <= j < |kinds| ==> Avoids(kinds, originals, draw, j))
  {
    forall j | 0 <= j < |synth|
      ensures Avoids(kinds, originals, draw, j)
         <==> forall i :: 0 <= i < j && kinds[i] == kinds[j] ==> synth[i] != synth[j]
    {
      AvoidsMeansUnused(kinds, originals, draw, synth, j);
    }
  }

  /** It can fail: with one value to draw from, two entities of one type share it. */
  lemma {:induction false} SurrogatesCanCoincide(kind: PiiType, a: string, b: string, v: string)
    requires v != a && v != b
    ensures AreChoices([kind, kind], [a, b], (i: nat) => (k: nat) => v, [v, v])
    ensures !Avoids([kind, kind], [a, b], (i: nat) => (k: nat) => v, 1)
  {
    var kinds, originals, synth := [kind, kind], [a, b], [v, v];
    var draw := (i: nat) => (k: nat) => v;
    assert UsedBefore(kinds, synth, 0) == {};
    assert FirstAccepted({}, a, draw(0), 0);
    assert synth[0] == v && kinds[0] == kinds[1];
    assert v in UsedBefore(kinds, synth, 1);
    assert NoneAccepted(UsedBefore(kinds, synth, 1), b, draw(1));
    AvoidsMeansUnused(kinds, originals, draw, synth, 1);
  }
}
