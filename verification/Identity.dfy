/** Entity identifiers, the tokens minted from them, and the grouping of decisions. */
module Identity {
  import opened Models

  function TokenPrefix(kind: PiiType): string {
    match kind
    case FullName => "PERSON"
    case BirthDate => "BIRTH_DATE"
    case BirthPlace => "BIRTH_PLACE"
    case Passport => "PASSPORT"
    case Citizenship => "CITIZENSHIP"
    case PassportIssuer => "PASSPORT_ISSUER"
    case DepartmentCode => "DEPARTMENT_CODE"
    case PassportIssueDate => "PASSPORT_ISSUE_DATE"
    case DriverLicense => "DRIVER_LICENSE"
    case Address => "ADDRESS"
    case Email => "EMAIL"
    case Phone => "PHONE"
    case Inn => "INN"
    case CardNumber => "CARD"
    case Cvv => "CVV"
    case Pin => "PIN"
    case Cardholder => "CARDHOLDER"
  }

  predicate IsDigit(c: char) { '0' <= c <= '9' }

  function Digit(d: nat): (c: char)
    requires d < 10
    ensures IsDigit(c)
  {
    '0' + d as char
  }

  function Decimal(n: nat): (s: string)
    ensures |s| > 0 && forall k :: 0 <= k < |s| ==> IsDigit(s[k])
  {
    if n < 10 then [Digit(n)] else Decimal(n / 10) + [Digit(n % 10)]
  }

  lemma {:induction false} DecimalInjective(n: nat, m: nat)
    requires Decimal(n) == Decimal(m)
    ensures n == m
  {
    var s, t := Decimal(n), Decimal(m);
    assert s[|s| - 1] == Digit(n % 10) && t[|t| - 1] == Digit(m % 10);
    assert n % 10 == m % 10;
    if n >= 10 && m >= 10 {
      assert s[..|s| - 1] == Decimal(n / 10) && t[..|t| - 1] == Decimal(m / 10);
      DecimalInjective(n / 10, m / 10);
    } else {
      assert |s| == 1 <==> n < 10;
      assert |t| == 1 <==> m < 10;
    }
  }

  function EntityId(prefix: string, n: nat): string {
    prefix + "_" + Decimal(n)
  }

  function TokenFor(entityId: string): string {
    "<" + entityId + ">"
  }

  /** No two (prefix, number) pairs give the same identifier, whatever the prefixes. */
  lemma {:induction false} EntityIdInjective(p: string, n: nat, q: string, m: nat)
    requires EntityId(p, n) == EntityId(q, m)
    ensures p == q && n == m
  {
    var d, e := Decimal(n), Decimal(m);
    var id := EntityId(p, n);
    assert id[|p|] == '_' && id[|q|] == '_';
    assert |p| < |q| ==> IsDigit(id[|q|]);
    assert |q| < |p| ==> IsDigit(id[|p|]);
    assert id[..|p|] == p && id[..|q|] == q;
    assert id[|p| + 1..] == d && id[|q| + 1..] == e;
    DecimalInjective(n, m);
  }

  // Grouping. Decision `d` has the identity key keyOf(d); `visit` lists the MASK decisions by start.

  datatype Group = Group(entityId: string, key: string, prefix: string, number: nat, members: seq<nat>)

  /** The visited decisions with one key, in visiting order. */
  function Members(visit: seq<nat>, keyOf: nat -> string, key: string): (r: seq<nat>)
    ensures forall d :: d in r <==> d in visit && keyOf(d) == key
  {
    if visit == [] then []
    else
      var before, d := visit[..|visit| - 1], visit[|visit| - 1];
      assert visit == before + [d];
      Members(before, keyOf, key) + (if keyOf(d) == key then [d] else [])
  }

  /** The first member is visited no later than any other. */
  lemma {:induction false} FirstMemberIsFirst(visit: seq<nat>, keyOf: nat -> string, key: string, e: nat) returns (a: nat, b: nat)
    requires e in visit && keyOf(e) == key
    ensures a <= b < |visit| && Members(visit, keyOf, key) != []
    ensures visit[a] == Members(visit, keyOf, key)[0] && visit[b] == e
  {
    var n := |visit| - 1;
    var before := visit[..n];
    assert visit == before + [visit[n]];
    var some := Members(before, keyOf, key);
    if e in before {
      a, b := FirstMemberIsFirst(before, keyOf, key, e);
    } else {
      b := n;
      if some == [] {
        a := n;
      } else {
        assert some[0] in some;
        var c;
        a, c := FirstMemberIsFirst(before, keyOf, key, some[0]);
      }
    }
  }

  /** The keys met, in the order of their first appearance. */
  function FirstSeen(visit: seq<nat>, keyOf: nat -> string): (r: seq<string>)
    ensures forall k :: k in r <==> exists d :: d in visit && keyOf(d) == k
    ensures forall i, j :: 0 <= i < j < |r| ==> r[i] != r[j]
  {
    if visit == [] then []
    else
      var before, d := visit[..|visit| - 1], visit[|visit| - 1];
      assert visit == before + [d];
      var seen := FirstSeen(before, keyOf);
      if keyOf(d) in seen then seen else seen + [keyOf(d)]
  }

  function CountOf(s: seq<string>, x: string): nat {
    if s == [] then 0 else CountOf(s[..|s| - 1], x) + (if s[|s| - 1] == x then 1 else 0)
  }

  function Prefixes(groups: seq<Group>): (r: seq<string>)
    ensures |r| == |groups|
  {
    seq(|groups|, i requires 0 <= i < |groups| => groups[i].prefix)
  }

  /** One group per key in first-appearance order, holding exactly the decisions with that
      key, numbered consecutively among the groups of its prefix. */
  ghost predicate IsGrouping(visit: seq<nat>, keyOf: nat -> string, kindOf: nat -> PiiType, groups: seq<Group>) {
    && |groups| == |FirstSeen(visit, keyOf)|
    && (forall i :: 0 <= i < |groups| ==> IsGroup(visit, keyOf, kindOf, groups, i))
  }

  ghost predicate IsGroup(
      visit: seq<nat>, keyOf: nat -> string, kindOf: nat -> PiiType, groups: seq<Group>, i: nat)
    requires i < |groups| == |FirstSeen(visit, keyOf)|
  {
    var g := groups[i];
    && g.key == FirstSeen(visit, keyOf)[i]
    && g.members == Members(visit, keyOf, g.key)
    && g.members != []
    && g.prefix == TokenPrefix(kindOf(g.members[0]))
    && g.number == 1 + CountOf(Prefixes(groups)[..i], g.prefix)
    && g.entityId == EntityId(g.prefix, g.number)
  }

  method GroupPersonalDecisions(visit: seq<nat>, keyOf: nat -> string, kindOf: nat -> PiiType)
    returns (result: seq<Group>)
    ensures IsGrouping(visit, keyOf, kindOf, result)
  {
    var order: seq<string> := [];
    var groups: map<string, Group> := map[];
    var counters: map<string, nat> := map[];
    ghost var all: seq<Group> := [];
    for n := 0 to |visit|
      invariant Tracks(visit[..n], keyOf, kindOf, order, groups, counters, all)
    {
      var d := visit[n];
      var key := keyOf(d);
      assert visit[..n + 1] == visit[..n] + [d];
      if key !in groups {
        var prefix := TokenPrefix(kindOf(d));
        var number := (if prefix in counters then counters[prefix] else 0) + 1;
        var g := Group(EntityId(prefix, number), key, prefix, number, [d]);
        TracksNew(visit[..n], d, keyOf, kindOf, order, groups, counters, all, g);
        counters := counters[prefix := number];
        groups := groups[key := g];
        order := order + [key];
        all := all + [g];
      } else {
        var g := groups[key];
        ghost var i := TracksOld(visit[..n], d, keyOf, kindOf, order, groups, counters, all);
        groups := groups[key := g.(members := g.members + [d])];
        all := all[i := g.(members := g.members + [d])];
      }
    }
    assert visit[..|visit|] == visit;
    result := seq(|order|, i requires 0 <= i < |order| => groups[order[i]]);
    assert result == all;
  }

  /** What the loop's dictionaries hold: `all` are the groups in first-appearance order. */
  ghost predicate Tracks(visit: seq<nat>, keyOf: nat -> string, kindOf: nat -> PiiType, order: seq<string>,
                         groups: map<string, Group>, counters: map<string, nat>, all: seq<Group>) {
    && IsGrouping(visit, keyOf, kindOf, all)
    && order == FirstSeen(visit, keyOf)
    && Indexes(groups, order, all)
    && Counts(counters, Prefixes(all))
  }

  ghost predicate Indexes(groups: map<string, Group>, order: seq<string>, all: seq<Group>) {
    && |all| == |order|
    && (forall k :: k in groups <==> k in order)
    && (forall i :: 0 <= i < |order| ==> groups[order[i]] == all[i])
  }

  ghost predicate Counts(counters: map<string, nat>, prefixes: seq<string>) {
    forall p :: CountOf(prefixes, p) == if p in counters then counters[p] else 0
  }

  lemma {:induction false} CountsOneMore(counters: map<string, nat>, prefixes: seq<string>, prefix: string, n: nat)
    requires Counts(counters, prefixes) && n == CountOf(prefixes, prefix) + 1
    ensures Counts(counters[prefix := n], prefixes + [prefix])
  {
    assert (prefixes + [prefix])[..|prefixes|] == prefixes;
  }

  lemma {:induction false} TracksNew(before: seq<nat>, d: nat, keyOf: nat -> string, kindOf: nat -> PiiType, order: seq<string>,
                  groups: map<string, Group>, counters: map<string, nat>, all: seq<Group>, g: Group)
    requires Tracks(before, keyOf, kindOf, order, groups, counters, all)
    requires g.key == keyOf(d) && g.key !in groups && g.members == [d] && g.prefix == TokenPrefix(kindOf(d))
    requires g.number == (if g.prefix in counters then counters[g.prefix] else 0) + 1
    requires g.entityId == EntityId(g.prefix, g.number)
    ensures Tracks(before + [d], keyOf, kindOf, order + [g.key], groups[g.key := g],
                   counters[g.prefix := g.number], all + [g])
  {
    assert CountOf(Prefixes(all), g.prefix) == g.number - 1;
    CountsOneMore(counters, Prefixes(all), g.prefix, g.number);
    assert Prefixes(all + [g]) == Prefixes(all) + [g.prefix];
    NewGroup(before, d, keyOf, kindOf, all, g);
    assert Indexes(groups[g.key := g], order + [g.key], all + [g]);
  }

  lemma {:induction false} TracksOld(before: seq<nat>, d: nat, keyOf: nat -> string, kindOf: nat -> PiiType, order: seq<string>,
                  groups: map<string, Group>, counters: map<string, nat>, all: seq<Group>) returns (i: nat)
    requires Tracks(before, keyOf, kindOf, order, groups, counters, all)
    requires keyOf(d) in groups
    ensures i < |all| && all[i] == groups[keyOf(d)]
    ensures var g := groups[keyOf(d)].(members := groups[keyOf(d)].members + [d]);
            Tracks(before + [d], keyOf, kindOf, order, groups[keyOf(d) := g], counters, all[i := g])
  {
    hide FirstSeen, Counts, IsGroup;
    i :| 0 <= i < |order| && order[i] == keyOf(d);
    GrownGroup(before, d, keyOf, kindOf, all, i);
    IndexesGrown(groups, order, all, i, groups[keyOf(d)].(members := groups[keyOf(d)].members + [d]));
  }

  lemma {:induction false} IndexesGrown(groups: map<string, Group>, order: seq<string>, all: seq<Group>, i: nat, g: Group)
    requires Indexes(groups, order, all) && i < |order|
    requires forall i, j :: 0 <= i < j < |order| ==> order[i] != order[j]
    ensures Indexes(groups[order[i] := g], order, all[i := g])
  {
  }

  lemma {:induction false} NoMemberIsEmpty(s: seq<nat>)
    ensures s == [] || s[0] in s
  {
  }

  lemma {:induction false} NewGroup(before: seq<nat>, d: nat, keyOf: nat -> string, kindOf: nat -> PiiType,
                 all: seq<Group>, g: Group)
    requires IsGrouping(before, keyOf, kindOf, all)
    requires keyOf(d) !in FirstSeen(before, keyOf)
    requires g.key == keyOf(d) && g.members == [d] && g.prefix == TokenPrefix(kindOf(d))
    requires g.number == 1 + CountOf(Prefixes(all), g.prefix) && g.entityId == EntityId(g.prefix, g.number)
    ensures IsGrouping(before + [d], keyOf, kindOf, all + [g])
    ensures FirstSeen(before + [d], keyOf) == FirstSeen(before, keyOf) + [g.key]
  {
    hide IsGroup, Members, CountOf;
    var after, now := before + [d], all + [g];
    assert after[..|after| - 1] == before;
    NewGroupIs(before, d, keyOf, kindOf, all, g);
    forall i | 0 <= i < |all| ensures IsGroup(after, keyOf, kindOf, now, i) {
      OldGroupStays(before, d, keyOf, kindOf, all, g, i);
    }
  }

  lemma {:induction false} NewGroupIs(before: seq<nat>, d: nat, keyOf: nat -> string, kindOf: nat -> PiiType,
                                      all: seq<Group>, g: Group)
    requires |all| == |FirstSeen(before, keyOf)| && keyOf(d) !in FirstSeen(before, keyOf)
    requires FirstSeen(before + [d], keyOf) == FirstSeen(before, keyOf) + [keyOf(d)]
    requires g.key == keyOf(d) && g.members == [d] && g.prefix == TokenPrefix(kindOf(d))
    requires g.number == 1 + CountOf(Prefixes(all), g.prefix) && g.entityId == EntityId(g.prefix, g.number)
    ensures IsGroup(before + [d], keyOf, kindOf, all + [g], |all|)
  {
    hide FirstSeen, CountOf, TokenPrefix, EntityId;
    assert (before + [d])[..|before|] == before;
    assert Prefixes(all + [g])[..|all|] == Prefixes(all);
    NoMemberIsEmpty(Members(before, keyOf, g.key));
  }

  lemma {:induction false} OldGroupStays(before: seq<nat>, d: nat, keyOf: nat -> string, kindOf: nat -> PiiType,
                                         all: seq<Group>, g: Group, i: nat)
    requires IsGrouping(before, keyOf, kindOf, all) && i < |all|
    requires keyOf(d) !in FirstSeen(before, keyOf) && |all| + 1 == |FirstSeen(before + [d], keyOf)|
    ensures IsGroup(before + [d], keyOf, kindOf, all + [g], i)
  {
    assert IsGroup(before, keyOf, kindOf, all, i);
    assert (before + [d])[..|before|] == before;
    assert FirstSeen(before, keyOf)[i] in FirstSeen(before, keyOf);
    assert Prefixes(all + [g])[..i] == Prefixes(all)[..i];
  }

  lemma {:induction false} GrownGroup(before: seq<nat>, d: nat, keyOf: nat -> string, kindOf: nat -> PiiType,
                   all: seq<Group>, i: nat)
    requires IsGrouping(before, keyOf, kindOf, all)
    requires i < |all| && FirstSeen(before, keyOf)[i] == keyOf(d)
    ensures var grown := all[i].(members := all[i].members + [d]);
            && IsGrouping(before + [d], keyOf, kindOf, all[i := grown])
            && Prefixes(all[i := grown]) == Prefixes(all)
    ensures FirstSeen(before + [d], keyOf) == FirstSeen(before, keyOf)
  {
    var grown := all[i].(members := all[i].members + [d]);
    var after, now := before + [d], all[i := grown];
    assert after[..|after| - 1] == before;
    assert Prefixes(now) == Prefixes(all);
    forall j | 0 <= j < |now| ensures IsGroup(after, keyOf, kindOf, now, j) {
      assert IsGroup(before, keyOf, kindOf, all, j);
    }
  }

  /** The groups partition the visited decisions, and different groups have different
      identifiers, hence different tokens. */
  lemma {:induction false} GroupsPartition(visit: seq<nat>, keyOf: nat -> string, kindOf: nat -> PiiType, groups: seq<Group>, d: nat)
    requires IsGrouping(visit, keyOf, kindOf, groups)
    requires d in visit
    ensures exists i :: 0 <= i < |groups| && d in groups[i].members
    ensures forall i, j ::
              (0 <= i < |groups| && 0 <= j < |groups| && d in groups[i].members && d in groups[j].members) ==> i == j
  {
    var seen := FirstSeen(visit, keyOf);
    assert keyOf(d) in seen;
    var i :| 0 <= i < |seen| && seen[i] == keyOf(d);
    assert IsGroup(visit, keyOf, kindOf, groups, i);
    assert d in groups[i].members;
    forall j | 0 <= j < |groups| && d in groups[j].members ensures j == i {
      assert IsGroup(visit, keyOf, kindOf, groups, j);
    }
  }

  lemma {:induction false} CountGrows(s: seq<string>, i: nat, j: nat)
    requires i < j <= |s|
    ensures CountOf(s[..i], s[i]) < CountOf(s[..j], s[i])
    decreases j
  {
    assert s[..j][..j - 1] == s[..j - 1];
    if i < j - 1 {
      CountGrows(s, i, j - 1);
    }
  }

  lemma {:induction false} TokensDistinct(visit: seq<nat>, keyOf: nat -> string, kindOf: nat -> PiiType, groups: seq<Group>, i: nat, j: nat)
    requires IsGrouping(visit, keyOf, kindOf, groups)
    requires i < j < |groups|
    ensures groups[i].entityId != groups[j].entityId
    ensures TokenFor(groups[i].entityId) != TokenFor(groups[j].entityId)
  {
    assert IsGroup(visit, keyOf, kindOf, groups, i) && IsGroup(visit, keyOf, kindOf, groups, j);
    var a, b := groups[i], groups[j];
    if a.entityId == b.entityId {
      EntityIdInjective(a.prefix, a.number, b.prefix, b.number);
      CountGrows(Prefixes(groups), i, j);
    }
    var s, t := TokenFor(a.entityId), TokenFor(b.entityId);
    assert s[1..|s| - 1] == a.entityId && t[1..|t| - 1] == b.entityId;
  }
}
