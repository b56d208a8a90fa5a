/** The roles of the words of a name, and writing another name in the shape of a mention. */
module Naming {
  import opened DemaskExactness
  import opened Demasking
  import opened Models
  import opened Persons
  import opened Ranking
  import opened Weaving
  import PersonTheorems

  // `assign_roles`. A label that names no role counts as none.

  predicate Repeats(roles: seq<Option<Role>>) {
    exists i, j :: 0 <= i < j < |roles| && roles[i].Some? && roles[i] == roles[j]
  }

  predicate Complete(roles: seq<Option<Role>>) {
    forall i :: 0 <= i < |roles| ==> roles[i].Some?
  }

  function FirstIndex(roles: seq<Option<Role>>, r: Role): (i: int)
    ensures -1 <= i < |roles|
    ensures i >= 0 ==> roles[i] == Some(r)
    ensures i < 0 ==> forall k :: 0 <= k < |roles| ==> roles[k] != Some(r)
  {
    if roles == [] then -1
    else if roles[0] == Some(r) then 0
    else
      var i := FirstIndex(roles[1..], r);
      assert roles == [roles[0]] + roles[1..];
      if i < 0 then -1 else i + 1
  }

  /** Complete labels without repetition stand; otherwise the common orders decide by position. */
  function AssignRoles(roles: seq<Option<Role>>): (r: seq<Option<Role>>)
    ensures |r| == |roles|
    ensures Complete(roles) && !Repeats(roles) ==> r == roles
    ensures 2 <= |roles| <= 3 ==> Complete(r)
  {
    if !Repeats(roles) && Complete(roles) then roles
    else
      var patr := FirstIndex(roles, Patronymic);
      if |roles| == 3 then
        if patr == 1 then [Some(First), Some(Patronymic), Some(Surname)]
        else [Some(Surname), Some(First), Some(Patronymic)]
      else if |roles| == 2 then
        if patr == 0 then [Some(Patronymic), Some(First)]
        else if patr == 1 then [Some(First), Some(Patronymic)]
        else if roles[0] == Some(Surname) && roles[1] != Some(Surname) then [Some(Surname), Some(First)]
        else [Some(First), Some(Surname)]
      else roles
  }

  /** Exactly when the roles of one mention are distinct: for up to three words always, for more
      only if the labels were. */
  lemma {:induction false} AssignedRolesDistinct(roles: seq<Option<Role>>)
    ensures !Repeats(AssignRoles(roles)) <==> |roles| <= 3 || !Repeats(roles)
  {
    var r := AssignRoles(roles);
    if |roles| > 3 {
      assert r == roles;
    } else if 2 <= |roles| {
      assert |r| == 2 ==> r[0] != r[1];
      assert |r| == 3 ==> r[0] != r[1] && r[1] != r[2] && r[0] != r[2];
    }
  }

  /** Which role each place gets when the labels do not stand. Three words: first name, patronymic,
      surname if the patronymic is labelled in the middle, else surname, first name, patronymic. Two
      words: a labelled patronymic stays and the other is the first name; else surname and first
      name if only the first word is labelled a surname, and first name and surname otherwise. */
  lemma {:induction false} RolesByPlace(roles: seq<Option<Role>>)
    requires Repeats(roles) || exists i :: 0 <= i < |roles| && roles[i].None?
    ensures var r := AssignRoles(roles);
            && (|roles| == 3 && roles[0] != Some(Patronymic) && roles[1] == Some(Patronymic) ==>
                 r[0] == Some(First) && r[1] == Some(Patronymic) && r[2] == Some(Surname))
            && (|roles| == 3 && (roles[0] == Some(Patronymic) || roles[1] != Some(Patronymic)) ==>
                 r[0] == Some(Surname) && r[1] == Some(First) && r[2] == Some(Patronymic))
            && (|roles| == 2 && roles[0] == Some(Patronymic) ==> r[0] == Some(Patronymic) && r[1] == Some(First))
            && (|roles| == 2 && roles[0] != Some(Patronymic) && roles[1] == Some(Patronymic) ==>
                 r[0] == Some(First) && r[1] == Some(Patronymic))
            && (|roles| == 2 && roles[0] == Some(Surname) && roles[1].None? ==> r[0] == Some(Surname) && r[1] == Some(First))
            && (|roles| == 2 && Some(Patronymic) !in roles && (roles[0] != Some(Surname) || roles[1] == Some(Surname)) ==>
                 r[0] == Some(First) && r[1] == Some(Surname))
            && (|roles| != 2 && |roles| != 3 ==> r == roles)
  {
    var patr := FirstIndex(roles, Patronymic);
    assert patr > 0 ==> roles[0] != Some(Patronymic) by { FirstIndexIsFirst(roles, Patronymic); }
    assert patr > 1 ==> roles[1] != Some(Patronymic) by { FirstIndexIsFirst(roles, Patronymic); }
  }

  lemma {:induction false} FirstIndexIsFirst(roles: seq<Option<Role>>, r: Role)
    ensures forall k :: 0 <= k < FirstIndex(roles, r) ==> roles[k] != Some(r)
  {
    if roles != [] && roles[0] != Some(r) {
      FirstIndexIsFirst(roles[1..], r);
      assert forall k :: 0 < k < |roles| ==> roles[k] == roles[1..][k - 1];
    }
  }

  /** So a mention built from such words meets the condition of the resolver's theorems. */
  lemma {:induction false} RolesSuitResolution(labels: seq<Option<Role>>, words: seq<string>)
    requires |labels| == |words| <= 3
    ensures PersonTheorems.DistinctRoles(seq(|words|, k requires 0 <= k < |words| => Word(AssignRoles(labels)[k], words[k])))
  {
    AssignedRolesDistinct(labels);
    var r := AssignRoles(labels);
    forall i, j | 0 <= i < j < |words| && r[i].Some? ensures r[i] != r[j] {
      assert !Repeats(r);
    }
  }

  // `render_like_mention`

  /** A component of a mention and its place in the mention's text. */
  datatype Placed = Placed(start: nat, end: nat, role: Option<Role>, initial: bool)

  function Replacement(c: Placed, identity: map<Role, string>, inflect: string -> string): Option<string> {
    if c.role.None? || c.role.value !in identity || identity[c.role.value] == "" then None
    else
      var part := identity[c.role.value];
      Some(if c.initial then part[..1] + "." else inflect(part))
  }

  predicate Resolvable(comps: seq<Placed>, identity: map<Role, string>) {
    forall k :: 0 <= k < |comps| ==>
      comps[k].role.Some? && comps[k].role.value in identity && identity[comps[k].role.value] != ""
  }

  /** The places of the components with what is written there. */
  function Replaced(comps: seq<Placed>, identity: map<Role, string>, inflect: string -> string): (r: seq<Span>)
    ensures |r| == |comps|
  {
    seq(|comps|, k requires 0 <= k < |comps| =>
      Span(comps[k].start, comps[k].end, Replacement(comps[k], identity, inflect).GetOr("")))
  }

  /** What is written for each component: the first letter and a full stop for an initial, the
      inflected word otherwise, of the part that plays its role. */
  lemma {:induction false} ReplacedTexts(comps: seq<Placed>, identity: map<Role, string>, inflect: string -> string, k: nat)
    requires Resolvable(comps, identity) && k < |comps|
    ensures var s, part := Replaced(comps, identity, inflect)[k], identity[comps[k].role.value];
            && s.start == comps[k].start && s.end == comps[k].end
            && (comps[k].initial ==> s.text == [part[0], '.'])
            && (!comps[k].initial ==> s.text == inflect(part))
  {
  }

  /** None where the source raises: the caller falls back to the token. */
  method RenderLikeMention(mention: string, comps: seq<Placed>, identity: map<Role, string>, inflect: string -> string)
    returns (result: Option<string>)
    ensures result.Some? <==> Resolvable(comps, identity)
    ensures result.Some? ==>
              var spans := Replaced(comps, identity, inflect);
              result.value == ReplaceEach(mention, Pick(spans, Rank(DescendingKeys(spans))))
  {
    ghost var spans := Replaced(comps, identity, inflect);
    var order := Rank(DescendingKeys(Replaced(comps, identity, inflect)));
    ghost var sorted := Pick(spans, order);
    var text := mention;
    for k := 0 to |order|
      invariant forall j :: 0 <= j < k ==> Replacement(comps[order[j]], identity, inflect).Some?
      invariant ReplaceEach(text, sorted[k..]) == ReplaceEach(mention, sorted)
    {
      var c := comps[order[k]];
      var r := Replacement(c, identity, inflect);
      if r.None? {
        return None;
      }
      assert sorted[k..][1..] == sorted[k + 1..];
      assert sorted[k..][0] == Span(c.start, c.end, r.value);
      text := ReplaceAt(text, Span(c.start, c.end, r.value));
    }
    AllVisited(comps, identity, inflect, order);
    result := Some(text);
  }

  lemma {:induction false} AllVisited(comps: seq<Placed>, identity: map<Role, string>, inflect: string -> string, order: seq<nat>)
    requires IsRanking(DescendingKeys(Replaced(comps, identity, inflect)), order)
    requires forall j :: 0 <= j < |order| ==> Replacement(comps[order[j]], identity, inflect).Some?
    ensures Resolvable(comps, identity)
  {
    forall k | 0 <= k < |comps| ensures Replacement(comps[k], identity, inflect).Some? {
      assert k in order;
      var j :| 0 <= j < |order| && order[j] == k;
    }
  }

  /** The mention's own punctuation, spacing and order survive: the rendered text is the mention
      with each component, and nothing else, exchanged. */
  lemma {:induction false} RenderingKeepsShape(mention: string, comps: seq<Placed>, identity: map<Role, string>, inflect: string -> string)
    requires InOrder(Replaced(comps, identity, inflect), 0, |mention|)
    requires forall k :: 0 <= k < |comps| ==> comps[k].start < comps[k].end
    ensures var spans := Replaced(comps, identity, inflect);
            && mention == Weave(Literals(mention, spans, 0), Middles(mention, spans, 0))
            && ReplaceEach(mention, Pick(spans, Rank(DescendingKeys(spans)))) == Weave(Literals(mention, spans, 0), Texts(spans))
  {
    var spans := Replaced(comps, identity, inflect);
    InOrderReversed(spans, |mention|);
    ReplaceReversed(mention, spans);
    SplicesAgree(mention, spans);
  }
}
