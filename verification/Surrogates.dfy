/** Choosing one surrogate per group, free of collisions inside the document.

    The generator and the morphology are parameters: draw(i, k) is the value drawn for group i
    at attempt k ("" when the generator has nothing), and shapeCollides(i, k) says that an
    inflected alias of that draw already occurs in the document. */
module Surrogates {
  import opened Identity
  import opened Substrings

  const MAX_COLLISION_RETRIES: nat := 20

  /** The draw can serve as a surrogate next to those already `used`. */
  predicate Usable(source: string, used: set<string>, value: string, collides: bool) {
    value != "" && value !in used && !Contains(source, value) && !collides
  }

  function SetOf(s: seq<string>): set<string> {
    set x | x in s
  }

  /** What the choice for group `i` promises, given the surrogates of the groups before it. */
  ghost predicate Chosen(groups: seq<Group>, source: string, draw: (nat, nat) -> string,
                         shapeCollides: (nat, nat) -> bool, synth: seq<string>, fallback: seq<bool>, i: nat)
    requires i < |groups| && i < |synth| && i < |fallback|
  {
    if fallback[i] then
      && synth[i] == TokenFor(groups[i].entityId)
      && forall k :: 0 <= k < MAX_COLLISION_RETRIES ==>
           !Usable(source, SetOf(synth[..i]), draw(i, k), shapeCollides(i, k))
    else
      exists k :: 0 <= k < MAX_COLLISION_RETRIES
        && synth[i] == draw(i, k)
        && Usable(source, SetOf(synth[..i]), draw(i, k), shapeCollides(i, k))
        && forall j :: 0 <= j < k ==> !Usable(source, SetOf(synth[..i]), draw(i, j), shapeCollides(i, j))
  }

  ghost predicate AllChosen(groups: seq<Group>, source: string, draw: (nat, nat) -> string,
                            shapeCollides: (nat, nat) -> bool, synth: seq<string>, fallback: seq<bool>) {
    && |synth| == |fallback| == |groups|
    && forall i :: 0 <= i < |groups| ==> Chosen(groups, source, draw, shapeCollides, synth, fallback, i)
  }

  method ChooseSurrogates(groups: seq<Group>, source: string, draw: (nat, nat) -> string,
                          shapeCollides: (nat, nat) -> bool)
    returns (synth: seq<string>, fallback: seq<bool>)
    ensures AllChosen(groups, source, draw, shapeCollides, synth, fallback)
  {
    synth, fallback := [], [];
    var used: set<string> := {};
    for i := 0 to |groups|
      invariant |synth| == |fallback| == i
      invariant used == SetOf(synth)
      invariant forall j :: 0 <= j < i ==> Chosen(groups, source, draw, shapeCollides, synth, fallback, j)
    {
      var attempt, found := 0, false;
      while attempt < MAX_COLLISION_RETRIES && !found
        invariant 0 <= attempt <= MAX_COLLISION_RETRIES
        invariant found ==> attempt < MAX_COLLISION_RETRIES && Usable(source, used, draw(i, attempt), shapeCollides(i, attempt))
        invariant forall k :: 0 <= k < attempt ==> !Usable(source, used, draw(i, k), shapeCollides(i, k))
        decreases MAX_COLLISION_RETRIES - attempt, !found
      {
        if Usable(source, used, draw(i, attempt), shapeCollides(i, attempt)) {
          found := true;
        } else {
          attempt := attempt + 1;
        }
      }
      var value := if found then draw(i, attempt) else TokenFor(groups[i].entityId);
      ghost var before, flags := synth, fallback;
      synth, fallback := synth + [value], fallback + [!found];
      used := used + {value};
      assert synth[..i] == before;
      forall j | 0 <= j < i ensures Chosen(groups, source, draw, shapeCollides, synth, fallback, j) {
        assert Chosen(groups, source, draw, shapeCollides, before, flags, j);
        assert synth[..j] == before[..j];
      }
    }
  }

  /** The value is not empty, no earlier entity has it, the source does not hold it, and none of
      its inflected forms collides. */
  ghost predicate Fits(source: string, synth: seq<string>, i: nat, value: string, collides: bool) {
    && value != ""
    && (forall j: nat :: j < i && j < |synth| ==> synth[j] != value)
    && (forall p, q :: 0 <= p <= q <= |source| ==> source[p..q] != value)
    && !collides
  }

  lemma {:induction false} UsableFits(source: string, synth: seq<string>, i: nat, value: string, collides: bool)
    requires i <= |synth|
    ensures Usable(source, SetOf(synth[..i]), value, collides) <==> Fits(source, synth, i, value, collides)
  {
    assert (exists j: nat :: j < i && synth[j] == value) <==> value in synth[..i] by {
      if j: nat :| j < i && synth[j] == value {
        assert synth[..i][j] == value;
      }
    }
    if p, q :| 0 <= p <= q <= |source| && source[p..q] == value {
      assert OccursAt(source, value, p);
    }
  }

  /** The first of twenty draws that fits; the token in brackets if and only if none does. */
  lemma {:induction false} ChosenMeans(groups: seq<Group>, source: string, draw: (nat, nat) -> string,
                                       shapeCollides: (nat, nat) -> bool, synth: seq<string>, fallback: seq<bool>, i: nat)
    requires AllChosen(groups, source, draw, shapeCollides, synth, fallback) && i < |groups|
    ensures fallback[i] <==> forall k: nat :: k < 20 ==> !Fits(source, synth, i, draw(i, k), shapeCollides(i, k))
    ensures fallback[i] ==> synth[i] == "<" + groups[i].entityId + ">"
    ensures !fallback[i] ==>
              exists k: nat ::
                && k < 20 && synth[i] == draw(i, k)
                && Fits(source, synth, i, draw(i, k), shapeCollides(i, k))
                && forall j: nat :: j < k ==> !Fits(source, synth, i, draw(i, j), shapeCollides(i, j))
  {
    hide Usable, Fits;
    forall k: nat | k < 20
      ensures Usable(source, SetOf(synth[..i]), draw(i, k), shapeCollides(i, k))
         <==> Fits(source, synth, i, draw(i, k), shapeCollides(i, k))
    {
      UsableFits(source, synth, i, draw(i, k), shapeCollides(i, k));
    }
    assert Chosen(groups, source, draw, shapeCollides, synth, fallback, i);
  }

  /** Surrogates of one document never coincide, and only a fallback can occur in its text. */
  lemma {:induction false} SurrogatesDistinct(groups: seq<Group>, source: string, draw: (nat, nat) -> string,
                           shapeCollides: (nat, nat) -> bool, synth: seq<string>, fallback: seq<bool>)
    requires AllChosen(groups, source, draw, shapeCollides, synth, fallback)
    requires forall i, j :: 0 <= i < j < |groups| ==> groups[i].entityId != groups[j].entityId
    requires forall i: nat, j: nat, k: nat :: i < |groups| && j < |groups| ==> draw(i, k) != TokenFor(groups[j].entityId)
    ensures forall i, j :: 0 <= i < j < |groups| ==> synth[i] != synth[j]
    ensures forall i :: 0 <= i < |groups| && !fallback[i] ==> !Contains(source, synth[i])
  {
    forall i, j | 0 <= i < j < |groups| ensures synth[i] != synth[j] {
      assert Chosen(groups, source, draw, shapeCollides, synth, fallback, i);
      assert Chosen(groups, source, draw, shapeCollides, synth, fallback, j);
      var a, b := TokenFor(groups[i].entityId), TokenFor(groups[j].entityId);
      assert a[1..|a| - 1] == groups[i].entityId && b[1..|b| - 1] == groups[j].entityId;
      assert synth[..j][i] == synth[i];
    }
    forall i | 0 <= i < |groups| && !fallback[i] ensures !Contains(source, synth[i]) {
      assert Chosen(groups, source, draw, shapeCollides, synth, fallback, i);
    }
  }
}
