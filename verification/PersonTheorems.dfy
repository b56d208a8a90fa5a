/** No false merge: what holds of every person after any run of the resolver. */
module PersonTheorems {
  import opened Identity
  import opened Models
  import opened Persons
  import opened Ranking

  // Knowledge grows and is never overwritten.

  predicate PartsDistinct(parts: seq<Part>) {
    forall a, b :: 0 <= a < b < |parts| ==> parts[a].role != parts[b].role
  }

  lemma {:induction false} KnownAppend(parts: seq<Part>, part: Part, r: Role)
    ensures Known(parts + [part], r)
         == if Known(parts, r).Some? then Known(parts, r) else if part.role == r then Some(part.word) else None
  {
    if parts != [] {
      assert (parts + [part])[1..] == parts[1..] + [part];
      KnownAppend(parts[1..], part, r);
    } else {
      assert (parts + [part])[1..] == [];
    }
  }

  lemma {:induction false} KnownNone(parts: seq<Part>, r: Role, a: nat)
    requires Known(parts, r).None? && a < |parts|
    ensures parts[a].role != r
  {
    if a > 0 {
      KnownNone(parts[1..], r, a - 1);
    }
  }

  lemma {:induction false} KnownAt(parts: seq<Part>, a: nat)
    requires PartsDistinct(parts) && a < |parts|
    ensures Known(parts, parts[a].role) == Some(parts[a].word)
  {
    if a > 0 {
      assert PartsDistinct(parts[1..]);
      KnownAt(parts[1..], a - 1);
    }
  }

  /** Named and labelled: the words a person can learn from. */
  predicate Tells(c: Component, r: Role) { Named(c) && c.role == Some(r) }

  lemma {:induction false} LearnKnows(parts: seq<Part>, c: Component, r: Role)
    ensures Known(Learn(parts, c), r)
         == if Known(parts, r).Some? then Known(parts, r) else if Tells(c, r) then Some(c.normalized) else None
  {
    if c.Word? && c.role.Some? {
      KnownAppend(parts, Part(c.role.value, c.normalized), r);
    }
  }

  lemma {:induction false} LearnDistinct(parts: seq<Part>, c: Component)
    requires PartsDistinct(parts)
    ensures PartsDistinct(Learn(parts, c))
  {
    if c.role.Some? && Known(parts, c.role.value).None? {
      forall a | 0 <= a < |parts| ensures parts[a].role != c.role.value {
        KnownNone(parts, c.role.value, a);
      }
    }
  }

  lemma {:induction false} LearnedDistinct(parts: seq<Part>, comps: seq<Component>, n: nat)
    requires PartsDistinct(parts) && n <= |comps|
    ensures PartsDistinct(Learned(parts, comps, n))
  {
    if n > 0 {
      LearnedDistinct(parts, comps, n - 1);
      LearnDistinct(Learned(parts, comps, n - 1), comps[n - 1]);
    }
  }

  lemma {:induction false} LearnedKeeps(parts: seq<Part>, comps: seq<Component>, n: nat, r: Role)
    requires n <= |comps| && Known(parts, r).Some?
    ensures Known(Learned(parts, comps, n), r) == Known(parts, r)
  {
    if n > 0 {
      LearnedKeeps(parts, comps, n - 1, r);
      LearnKnows(Learned(parts, comps, n - 1), comps[n - 1], r);
    }
  }

  /** New knowledge comes from a word of the mention. */
  lemma {:induction false} LearnedFrom(parts: seq<Part>, comps: seq<Component>, n: nat, r: Role)
    requires n <= |comps| && Known(parts, r).None? && Known(Learned(parts, comps, n), r).Some?
    ensures exists i :: 0 <= i < n && Tells(comps[i], r) && Known(Learned(parts, comps, n), r) == Some(comps[i].normalized)
  {
    var before := Learned(parts, comps, n - 1);
    LearnKnows(before, comps[n - 1], r);
    if Known(before, r).Some? {
      LearnedFrom(parts, comps, n - 1, r);
    }
  }

  /** Every labelled word of the mention agrees with what is known, or is the only one of its
      role and the role is not known yet. */
  predicate Consistent(parts: seq<Part>, comps: seq<Component>) {
    && (forall i, r :: 0 <= i < |comps| && Tells(comps[i], r) && Known(parts, r).Some? ==>
         Known(parts, r).value == comps[i].normalized)
    && (forall i, j, r :: 0 <= i < j < |comps| && Tells(comps[i], r) && Tells(comps[j], r) ==> Known(parts, r).Some?)
  }

  predicate WordsAgree(parts: seq<Part>, comps: seq<Component>) {
    forall i, r :: 0 <= i < |comps| && Tells(comps[i], r) ==> Known(parts, r) == Some(comps[i].normalized)
  }

  lemma {:induction false} LearnedAgrees(parts: seq<Part>, comps: seq<Component>)
    requires Consistent(parts, comps)
    ensures WordsAgree(Learned(parts, comps, |comps|), comps)
  {
    forall i, r | 0 <= i < |comps| && Tells(comps[i], r)
      ensures Known(Learned(parts, comps, |comps|), r) == Some(comps[i].normalized)
    {
      LearnedWord(parts, comps, |comps|, i, r);
    }
  }

  lemma {:induction false} LearnedWord(parts: seq<Part>, comps: seq<Component>, n: nat, i: nat, r: Role)
    requires Consistent(parts, comps) && i < n <= |comps| && Tells(comps[i], r)
    ensures Known(Learned(parts, comps, n), r) == Some(comps[i].normalized)
  {
    if Known(parts, r).Some? {
      LearnedKeeps(parts, comps, n, r);
    } else {
      var before := Learned(parts, comps, n - 1);
      LearnKnows(before, comps[n - 1], r);
      if i < n - 1 {
        LearnedWord(parts, comps, n - 1, i, r);
      } else if Known(before, r).Some? {
        LearnedFrom(parts, comps, n - 1, r);
      }
    }
  }

  // What a successful comparison means.

  /** Labels are distinct within one mention; role assignment guarantees it. */
  predicate DistinctRoles(comps: seq<Component>) {
    forall i, j, r :: 0 <= i < j < |comps| && Tells(comps[i], r) ==> !Tells(comps[j], r)
  }

  predicate Assigned(parts: seq<Part>, c: Component, r: Role) {
    Named(c) && Known(parts, r) == Some(c.normalized) && (c.role.Some? ==> c.role == Some(r))
  }

  predicate FreshlyNamed(parts: seq<Part>, c: Component, r: Role) {
    Tells(c, r) && Known(parts, r).None?
  }

  /** After the first `n` components: every word has its role, by what is known or as news. */
  ghost predicate Matching(parts: seq<Part>, comps: seq<Component>, n: nat, m: Match) {
    && n <= |comps|
    && (forall i :: i in m.assignment ==> i < n && m.assignment[i] in m.matched && Assigned(parts, comps[i], m.assignment[i]))
    && (forall i :: i in m.newInfo ==> i < n && i !in m.assignment && FreshlyNamed(parts, comps[i], m.newInfo[i]))
    && (forall r :: r in m.matched ==> HasRole(m.assignment, r))
    && (forall i: nat :: i < n && Named(comps[i]) ==> i in m.assignment || i in m.newInfo)
  }

  ghost predicate HasRole(assignment: map<nat, Role>, r: Role) {
    exists i :: i in assignment && assignment[i] == r
  }

  lemma {:induction false} UnusedIsKnown(parts: seq<Part>, word: string, used: set<Role>)
    requires PartsDistinct(parts) && Unused(parts, word, used).Some?
    ensures Known(parts, Unused(parts, word, used).value) == Some(word)
  {
    var a := UnusedAt(parts, word, used);
    KnownAt(parts, a);
  }

  lemma {:induction false} UnusedAt(parts: seq<Part>, word: string, used: set<Role>) returns (a: nat)
    requires Unused(parts, word, used).Some?
    ensures a < |parts| && parts[a] == Part(Unused(parts, word, used).value, word)
  {
    if parts[0].word == word && parts[0].role !in used {
      a := 0;
    } else {
      var b := UnusedAt(parts[1..], word, used);
      a := b + 1;
    }
  }

  lemma {:induction false} AssignedRole(assignment: map<nat, Role>, idx: nat, r: Role, matched: set<Role>)
    requires idx !in assignment && forall q :: q in matched ==> HasRole(assignment, q)
    ensures forall q :: q in matched + {r} ==> HasRole(assignment[idx := r], q)
  {
    var after := assignment[idx := r];
    assert idx in after && after[idx] == r;
    forall q | q in matched ensures HasRole(after, q) {
      var i :| i in assignment && assignment[i] == q;
      assert i in after && after[i] == q;
    }
  }

  lemma {:induction false} TakesRole(parts: seq<Part>, comps: seq<Component>, n: nat, m: Match, r: Role)
    requires n < |comps| && Matching(parts, comps, n, m) && Assigned(parts, comps[n], r)
    ensures Matching(parts, comps, n + 1, m.(assignment := m.assignment[n := r], matched := m.matched + {r}))
  {
    AssignedRole(m.assignment, n, r, m.matched);
  }

  lemma {:induction false} TakesNews(parts: seq<Part>, comps: seq<Component>, n: nat, m: Match, r: Role)
    requires n < |comps| && Matching(parts, comps, n, m) && FreshlyNamed(parts, comps[n], r)
    ensures Matching(parts, comps, n + 1, m.(newInfo := m.newInfo[n := r]))
  {
  }

  lemma {:induction false} AssignKeepsMatching(parts: seq<Part>, comps: seq<Component>, n: nat, m: Match)
    requires PartsDistinct(parts) && n < |comps| && Named(comps[n]) && Matching(parts, comps, n, m)
    requires AssignWord(parts, comps[n], n, m).Some?
    ensures Matching(parts, comps, n + 1, AssignWord(parts, comps[n], n, m).value)
  {
    hide Unused, Known, PartsDistinct, Matching;
    var c := comps[n];
    match c.role
    case None =>
      UnusedIsKnown(parts, c.normalized, m.matched);
      TakesRole(parts, comps, n, m, Unused(parts, c.normalized, m.matched).value);
    case Some(r) =>
      if Known(parts, r).Some? {
        TakesRole(parts, comps, n, m, r);
      } else {
        TakesNews(parts, comps, n, m, r);
      }
  }

  lemma {:induction false} MatchWordsMatches(parts: seq<Part>, comps: seq<Component>, n: nat)
    requires PartsDistinct(parts) && n <= |comps| && MatchWords(parts, comps, n).Some?
    ensures Matching(parts, comps, n, MatchWords(parts, comps, n).value)
  {
    if n > 0 {
      MatchWordsMatches(parts, comps, n - 1);
      if Named(comps[n - 1]) {
        AssignKeepsMatching(parts, comps, n - 1, MatchWords(parts, comps, n - 1).value);
      }
    }
  }

  /** Initials are added to the assignment, each verified in its turn; words keep theirs. */
  lemma {:induction false} MatchInitialsMatches(parts: seq<Part>, comps: seq<Component>, upper: string -> string, n: nat,
                                                assignment: map<nat, Role>)
    requires n <= |comps| && MatchInitials(parts, comps, upper, n, assignment).Some?
    requires forall i :: i in assignment ==> i < |comps| && Named(comps[i])
    ensures var a := MatchInitials(parts, comps, upper, n, assignment).value;
            && (forall i :: i in a && i !in assignment ==> i < n && comps[i].Initial?)
            && (forall i :: i in assignment ==> i in a && a[i] == assignment[i])
            && (forall i: nat :: i < n && comps[i].Initial? ==>
                 i in a && Expected(InitialCount(comps, i)) == Some(a[i])
                 && Verified(parts, upper, comps[i].letter, InitialCount(comps, i)))
  {
    if n > 0 {
      MatchInitialsMatches(parts, comps, upper, n - 1, assignment);
    }
  }

  // What a merge rests on.

  /** The mention names the person's surname, and its first name or patronymic too, in full or
      as initials that each fit: a bare surname is never enough. */
  ghost predicate Attested(parts: seq<Part>, comps: seq<Component>, upper: string -> string) {
    && Confirms(parts, comps, Surname)
    && if HasInitials(comps) then InitialsFit(parts, comps, upper)
       else Confirms(parts, comps, First) || Confirms(parts, comps, Patronymic)
  }

  /** Some word of the mention plays the role and is the known one. */
  ghost predicate Confirms(parts: seq<Part>, comps: seq<Component>, r: Role) {
    exists i :: 0 <= i < |comps| && Tells(comps[i], r) && Known(parts, r) == Some(comps[i].normalized)
  }

  predicate HasInitials(comps: seq<Component>) {
    exists i :: 0 <= i < |comps| && comps[i].Initial?
  }

  predicate FirstInitial(comps: seq<Component>, i: nat) {
    i < |comps| && comps[i].Initial? && forall j :: 0 <= j < i ==> !comps[j].Initial?
  }

  predicate SecondInitial(comps: seq<Component>, i: nat) {
    i < |comps| && comps[i].Initial? && exists j :: 0 <= j < i && OnlyInitial(comps, i, j)
  }

  /** The only initial among the first `n` components. */
  predicate OnlyInitial(comps: seq<Component>, n: nat, j: int) {
    && 0 <= j < n <= |comps| && comps[j].Initial?
    && forall k :: 0 <= k < n && k != j ==> !comps[k].Initial?
  }

  /** The known word of this role begins with the letter. */
  predicate Begins(parts: seq<Part>, r: Role, upper: string -> string, letter: string) {
    Known(parts, r).Some? && Known(parts, r).value != "" && upper(Known(parts, r).value[..1]) == upper(letter)
  }

  /** The first initial begins the known first name, the second the known patronymic, and there is
      no third. */
  ghost predicate InitialsBegin(parts: seq<Part>, comps: seq<Component>, upper: string -> string) {
    && (forall i: nat :: FirstInitial(comps, i) ==> Begins(parts, First, upper, comps[i].letter))
    && (forall i: nat :: SecondInitial(comps, i) ==> Begins(parts, Patronymic, upper, comps[i].letter))
    && (forall i: nat :: i < |comps| && comps[i].Initial? ==> FirstInitial(comps, i) || SecondInitial(comps, i))
  }

  /** And they are labelled so. */
  ghost predicate InitialsFit(parts: seq<Part>, comps: seq<Component>, upper: string -> string) {
    && InitialsBegin(parts, comps, upper)
    && (forall i: nat :: FirstInitial(comps, i) ==> comps[i].role == Some(First))
    && (forall i: nat :: SecondInitial(comps, i) ==> comps[i].role == Some(Patronymic))
  }

  lemma {:induction false} CountedInitials(comps: seq<Component>, n: nat)
    requires n <= |comps|
    ensures InitialCount(comps, n) == 0 <==> forall j :: 0 <= j < n ==> !comps[j].Initial?
    ensures InitialCount(comps, n) == 1 <==> exists j :: OnlyInitial(comps, n, j)
  {
    if n > 0 {
      var p := n - 1;
      CountedInitials(comps, p);
      if comps[p].Initial? {
        if InitialCount(comps, p) == 0 {
          assert OnlyInitial(comps, n, p);
        }
        if j :| OnlyInitial(comps, n, j) {
          assert j == p;
        }
      } else {
        if j :| OnlyInitial(comps, p, j) {
          assert OnlyInitial(comps, n, j);
        }
        if j :| OnlyInitial(comps, n, j) {
          assert OnlyInitial(comps, p, j);
        }
      }
    }
  }

  lemma {:induction false} InitialPlaces(comps: seq<Component>, i: nat)
    requires i < |comps| && comps[i].Initial?
    ensures FirstInitial(comps, i) <==> InitialCount(comps, i) == 0
    ensures SecondInitial(comps, i) <==> InitialCount(comps, i) == 1
  {
    CountedInitials(comps, i);
  }

  /** The initials verify one after the other exactly when they begin the right parts. */
  lemma {:induction false} InitialsExactly(parts: seq<Part>, comps: seq<Component>, upper: string -> string)
    ensures InitialsBegin(parts, comps, upper)
       <==> forall i: nat :: i < |comps| && comps[i].Initial? ==> Verified(parts, upper, comps[i].letter, InitialCount(comps, i))
  {
    forall i: nat | i < |comps| && comps[i].Initial?
      ensures Verified(parts, upper, comps[i].letter, InitialCount(comps, i))
         <==> (FirstInitial(comps, i) ==> Begins(parts, First, upper, comps[i].letter))
              && (SecondInitial(comps, i) ==> Begins(parts, Patronymic, upper, comps[i].letter))
              && (FirstInitial(comps, i) || SecondInitial(comps, i))
    {
      InitialPlaces(comps, i);
    }
  }

  lemma {:induction false} MatchInitialsExactly(parts: seq<Part>, comps: seq<Component>, upper: string -> string, n: nat,
                                                assignment: map<nat, Role>)
    requires n <= |comps|
    ensures MatchInitials(parts, comps, upper, n, assignment).Some?
       <==> forall i: nat :: i < n && comps[i].Initial? ==> Verified(parts, upper, comps[i].letter, InitialCount(comps, i))
  {
    if n > 0 {
      MatchInitialsExactly(parts, comps, upper, n - 1, assignment);
    }
  }

  lemma {:induction false} AnnotateKeepsInitials(comps: seq<Component>, a: map<nat, Role>, n: nat)
    requires n <= |comps|
    ensures InitialCount(Annotate(comps, a), n) == InitialCount(comps, n)
  {
    if n > 0 {
      AnnotateKeepsInitials(comps, a, n - 1);
    }
  }

  /** `a` gives the matched words their roles and leaves the labels of the others. */
  ghost predicate Extends(comps: seq<Component>, m: Match, a: map<nat, Role>) {
    && (forall i :: i in m.assignment ==> i in a && a[i] == m.assignment[i])
    && (forall i: nat :: i < |comps| && Named(comps[i]) && i in a && i !in m.assignment ==> i in m.newInfo && a[i] == m.newInfo[i])
  }

  lemma {:induction false} ConfirmedRole(parts: seq<Part>, comps: seq<Component>, m: Match, a: map<nat, Role>, r: Role)
    requires Matching(parts, comps, |comps|, m) && Extends(comps, m, a) && r in m.matched
    ensures Confirms(parts, Annotate(comps, a), r)
  {
    assert HasRole(m.assignment, r);
    var i :| i in m.assignment && m.assignment[i] == r;
    assert Tells(Annotate(comps, a)[i], r);
  }

  /** The role of a word after annotation: matched, or its own label as news. */
  lemma {:induction false} RoleAfter(parts: seq<Part>, comps: seq<Component>, m: Match, a: map<nat, Role>, i: nat, r: Role)
    requires Matching(parts, comps, |comps|, m) && Extends(comps, m, a)
    requires i < |comps| && Tells(Annotate(comps, a)[i], r)
    ensures Assigned(parts, comps[i], r) || FreshlyNamed(parts, comps[i], r)
  {
    assert Named(comps[i]);
  }

  lemma {:induction false} AnnotatedConsistent(parts: seq<Part>, comps: seq<Component>, m: Match, a: map<nat, Role>)
    requires Matching(parts, comps, |comps|, m) && Extends(comps, m, a) && DistinctRoles(comps)
    ensures Consistent(parts, Annotate(comps, a))
  {
    var after := Annotate(comps, a);
    forall i, r | 0 <= i < |after| && Tells(after[i], r) && Known(parts, r).Some?
      ensures Known(parts, r).value == after[i].normalized
    {
      RoleAfter(parts, comps, m, a, i, r);
    }
    forall i, j, r | 0 <= i < j < |after| && Tells(after[i], r) && Tells(after[j], r) ensures Known(parts, r).Some? {
      RoleAfter(parts, comps, m, a, i, r);
      RoleAfter(parts, comps, m, a, j, r);
    }
  }

  lemma {:induction false} AssignmentExtends(comps: seq<Component>, m: Match)
    requires forall i :: i in m.newInfo ==> i !in m.assignment
    ensures Extends(comps, m, m.assignment + m.newInfo)
  {
  }

  lemma {:induction false} NoInitials(comps: seq<Component>, n: nat, i: nat)
    requires i < n <= |comps| && InitialCount(comps, n) == 0
    ensures !comps[i].Initial?
  {
    if i < n - 1 {
      NoInitials(comps, n - 1, i);
    }
  }

  lemma {:induction false} LabelledInitials(parts: seq<Part>, comps: seq<Component>, upper: string -> string)
    requires forall i: nat :: i < |comps| && comps[i].Initial? ==>
               comps[i].role == Expected(InitialCount(comps, i)) && Verified(parts, upper, comps[i].letter, InitialCount(comps, i))
    ensures InitialsFit(parts, comps, upper)
  {
    InitialsExactly(parts, comps, upper);
    forall i: nat | i < |comps| && comps[i].Initial?
      ensures FirstInitial(comps, i) ==> comps[i].role == Some(First)
      ensures SecondInitial(comps, i) ==> comps[i].role == Some(Patronymic)
    {
      InitialPlaces(comps, i);
    }
  }

  lemma {:induction false} HasInitialsCounted(comps: seq<Component>)
    ensures HasInitials(comps) <==> InitialCount(comps, |comps|) > 0
  {
    CountedInitials(comps, |comps|);
  }

  lemma {:induction false} AnnotateHasInitials(comps: seq<Component>, a: map<nat, Role>)
    ensures HasInitials(Annotate(comps, a)) <==> HasInitials(comps)
  {
    var after := Annotate(comps, a);
    assert forall i :: 0 <= i < |comps| ==> after[i].Initial? == comps[i].Initial?;
  }

  /** The initials as they are annotated. */
  lemma {:induction false} InitialsAnnotated(parts: seq<Part>, comps: seq<Component>, upper: string -> string, w: Match)
    requires Matching(parts, comps, |comps|, w) && MatchInitials(parts, comps, upper, |comps|, w.assignment).Some?
    ensures var a := MatchInitials(parts, comps, upper, |comps|, w.assignment).value;
            Extends(comps, w, a) && InitialsFit(parts, Annotate(comps, a), upper)
  {
    hide InitialsFit, MatchInitials;
    var a := MatchInitials(parts, comps, upper, |comps|, w.assignment).value;
    var after := Annotate(comps, a);
    MatchInitialsMatches(parts, comps, upper, |comps|, w.assignment);
    assert Extends(comps, w, a);
    forall i: nat | i < |comps| && after[i].Initial?
      ensures after[i].role == Expected(InitialCount(after, i)) && Verified(parts, upper, after[i].letter, InitialCount(after, i))
    {
      AnnotateKeepsInitials(comps, a, i);
      assert comps[i].Initial?;
    }
    LabelledInitials(parts, after, upper);
  }

  /** What it means that a mention is found compatible with a person. */
  lemma {:induction false} CompatibleMeans(p: Person, m: Mention, upper: string -> string)
    requires PartsDistinct(p.parts) && DistinctRoles(m.components) && Compatible(p, m, upper).Some?
    ensures !GenderConflict(p.gender, m.gender)
    ensures var comps := Annotate(m.components, Compatible(p, m, upper).value);
            Consistent(p.parts, comps) && Attested(p.parts, comps, upper)
  {
    var comps, a := m.components, Compatible(p, m, upper).value;
    var after := Annotate(comps, a);
    MatchWordsMatches(p.parts, comps, |comps|);
    var w := MatchWords(p.parts, comps, |comps|).value;
    AnnotateKeepsInitials(comps, a, |comps|);
    hide InitialsFit, MatchWords, MatchInitials, Matching;
    HasInitialsCounted(comps);
    AnnotateHasInitials(comps, a);
    if InitialCount(comps, |comps|) > 0 {
      InitialsAnnotated(p.parts, comps, upper, w);
      ConfirmedRole(p.parts, comps, w, a, Surname);
    } else {
      AssignmentExtends(comps, w);
      ConfirmedRole(p.parts, comps, w, a, Surname);
      ConfirmedRole(p.parts, comps, w, a, if First in w.matched then First else Patronymic);
    }
    AnnotatedConsistent(p.parts, comps, w, a);
  }

  // Exactly when a mention is compatible with a person.

  /** Some of the first `n` words is matched with the known word of this role. */
  ghost predicate Plays(parts: seq<Part>, roles: seq<Option<Role>>, n: nat, r: Role)
    requires n <= |roles|
  {
    Known(parts, r).Some? && exists j :: 0 <= j < n && roles[j] == Some(r)
  }

  /** The word plays its role: a label is obeyed; a known role wants the known word and can be
      played once; an unknown one has to be labelled; a word without a label plays the first known
      part with this word that is not played yet. */
  ghost predicate WordPlays(parts: seq<Part>, c: Component, roles: seq<Option<Role>>, i: nat, r: Role)
    requires c.Word? && i <= |roles|
  {
    && (c.role.Some? ==> c.role == Some(r))
    && if Known(parts, r).None? then c.role.Some?
       else
         && Known(parts, r).value == c.normalized && !Plays(parts, roles, i, r)
         && (c.role.None? ==> exists a :: 0 <= a < |parts| && parts[a] == Part(r, c.normalized)
                                && forall b :: 0 <= b < a && parts[b].word == c.normalized ==> Plays(parts, roles, i, parts[b].role))
  }

  /** `roles` says for each of the first components which role it plays as a word, if any. */
  ghost predicate WordsPlay(parts: seq<Part>, comps: seq<Component>, roles: seq<Option<Role>>) {
    && |roles| <= |comps|
    && forall i :: 0 <= i < |roles| ==>
         if Named(comps[i]) then roles[i].Some? && WordPlays(parts, comps[i], roles, i, roles[i].value) else roles[i].None?
  }

  /** The mention can be this person's: no conflict of known genders, every word has a role to
      play, the surname is among the matched ones, and initials fit, or else the first name or the
      patronymic is matched too. */
  ghost predicate MayBe(p: Person, m: Mention, upper: string -> string) {
    && !(p.gender.Some? && m.gender.Some? && p.gender.value != m.gender.value)
    && exists roles :: |roles| == |m.components| && WordsPlay(p.parts, m.components, roles) && Tell(p.parts, m.components, roles, upper)
  }

  ghost predicate Tell(parts: seq<Part>, comps: seq<Component>, roles: seq<Option<Role>>, upper: string -> string) {
    && Plays(parts, roles, |roles|, Surname)
    && if HasInitials(comps) then InitialsBegin(parts, comps, upper)
       else Plays(parts, roles, |roles|, First) || Plays(parts, roles, |roles|, Patronymic)
  }

  /** The first unused part with this word. */
  lemma {:induction false} UnusedExactly(parts: seq<Part>, word: string, used: set<Role>)
    ensures Unused(parts, word, used).None? <==> forall a :: 0 <= a < |parts| && parts[a].word == word ==> parts[a].role in used
    ensures Unused(parts, word, used).Some? ==>
              exists a :: 0 <= a < |parts| && parts[a] == Part(Unused(parts, word, used).value, word) && parts[a].role !in used
                && forall b :: 0 <= b < a && parts[b].word == word ==> parts[b].role in used
  {
    if parts != [] {
      var rest := parts[1..];
      if !(parts[0].word == word && parts[0].role !in used) {
        UnusedExactly(rest, word, used);
        assert forall a :: 0 <= a < |rest| ==> rest[a] == parts[a + 1];
        assert forall a :: 0 < a < |parts| ==> parts[a] == rest[a - 1];
        if Unused(rest, word, used).Some? {
          var a :| 0 <= a < |rest| && rest[a] == Part(Unused(rest, word, used).value, word) && rest[a].role !in used
                   && forall b :: 0 <= b < a && rest[b].word == word ==> rest[b].role in used;
          assert parts[a + 1] == Part(Unused(parts, word, used).value, word);
        }
      }
    }
  }

  ghost predicate MatchedAre(parts: seq<Part>, roles: seq<Option<Role>>, matched: set<Role>) {
    forall r :: r in matched <==> Plays(parts, roles, |roles|, r)
  }

  /** One word more: assigned exactly when it has a role to play, and then it plays that one. */
  lemma {:induction false} WordExactly(parts: seq<Part>, c: Component, idx: nat, m: Match, roles: seq<Option<Role>>, r: Role)
    requires PartsDistinct(parts) && Named(c) && MatchedAre(parts, roles, m.matched)
    requires WordPlays(parts, c, roles, |roles|, r)
    ensures AssignWord(parts, c, idx, m).Some?
    ensures MatchedAre(parts, roles + [Some(r)], AssignWord(parts, c, idx, m).value.matched)
  {
    PlaysMore(parts, roles, r);
    if c.role.None? {
      UnusedExactly(parts, c.normalized, m.matched);
      var a :| 0 <= a < |parts| && parts[a] == Part(r, c.normalized)
               && forall b :: 0 <= b < a && parts[b].word == c.normalized ==> Plays(parts, roles, |roles|, parts[b].role);
      assert parts[a].role !in m.matched;
      var u := Unused(parts, c.normalized, m.matched).value;
      var a' :| 0 <= a' < |parts| && parts[a'] == Part(u, c.normalized) && parts[a'].role !in m.matched
                && forall b :: 0 <= b < a' && parts[b].word == c.normalized ==> parts[b].role in m.matched;
      assert a == a';
    }
  }

  lemma {:induction false} PlaysMore(parts: seq<Part>, roles: seq<Option<Role>>, r: Role)
    ensures forall q :: Plays(parts, roles + [Some(r)], |roles| + 1, q)
                   <==> Plays(parts, roles, |roles|, q) || (q == r && Known(parts, r).Some?)
  {
    var more := roles + [Some(r)];
    forall q ensures Plays(parts, more, |roles| + 1, q) <==> Plays(parts, roles, |roles|, q) || (q == r && Known(parts, r).Some?) {
      if j :| 0 <= j < |roles| && roles[j] == Some(q) {
        assert more[j] == Some(q);
      }
      if q == r {
        assert more[|roles|] == Some(q);
      }
    }
  }

  /** A word that is assigned has a role to play. */
  lemma {:induction false} WordFound(parts: seq<Part>, c: Component, idx: nat, m: Match, roles: seq<Option<Role>>) returns (r: Role)
    requires PartsDistinct(parts) && Named(c) && MatchedAre(parts, roles, m.matched)
    requires AssignWord(parts, c, idx, m).Some?
    ensures WordPlays(parts, c, roles, |roles|, r)
  {
    if c.role.Some? {
      r := c.role.value;
    } else {
      UnusedExactly(parts, c.normalized, m.matched);
      r := Unused(parts, c.normalized, m.matched).value;
      var a :| 0 <= a < |parts| && parts[a] == Part(r, c.normalized) && parts[a].role !in m.matched
               && forall b :: 0 <= b < a && parts[b].word == c.normalized ==> parts[b].role in m.matched;
      KnownAt(parts, a);
    }
  }

  lemma {:induction false} PlaysPrefix(parts: seq<Part>, roles: seq<Option<Role>>, n: nat, i: nat)
    requires i <= n <= |roles|
    ensures forall r :: Plays(parts, roles[..n], i, r) <==> Plays(parts, roles, i, r)
  {
    forall r ensures Plays(parts, roles[..n], i, r) <==> Plays(parts, roles, i, r) {
      assert forall j :: 0 <= j < i ==> roles[..n][j] == roles[j];
    }
  }

  lemma {:induction false} WordsPlayPrefix(parts: seq<Part>, comps: seq<Component>, roles: seq<Option<Role>>, n: nat)
    requires WordsPlay(parts, comps, roles) && n <= |roles|
    ensures WordsPlay(parts, comps, roles[..n]) && |roles| <= |comps|
    ensures n < |roles| && Named(comps[n]) ==> roles[n].Some? && WordPlays(parts, comps[n], roles[..n], n, roles[n].value)
  {
    forall i | 0 <= i < |roles| && i <= n && Named(comps[i]) ensures WordPlays(parts, comps[i], roles[..n], i, roles[i].value) {
      PlaysPrefix(parts, roles, n, i);
    }
  }

  /** If every word has a role to play, the comparison succeeds and matches exactly the known ones. */
  lemma {:induction false} WordsPlayed(parts: seq<Part>, comps: seq<Component>, roles: seq<Option<Role>>)
    requires PartsDistinct(parts) && WordsPlay(parts, comps, roles)
    ensures MatchWords(parts, comps, |roles|).Some? && MatchedAre(parts, roles, MatchWords(parts, comps, |roles|).value.matched)
    decreases |roles|
  {
    hide WordsPlay, WordPlays, PartsDistinct, AssignWord;
    if roles == [] {
      assert MatchWords(parts, comps, 0) == Some(NO_MATCH);
    } else {
      var n := |roles| - 1;
      var before := roles[..n];
      WordsPlayPrefix(parts, comps, roles, n);
      WordsPlayed(parts, comps, before);
      var m := MatchWords(parts, comps, n).value;
      assert roles == before + [roles[n]];
      if Named(comps[n]) {
        WordExactly(parts, comps[n], n, m, before, roles[n].value);
      } else {
        UnnamedPlaysNothing(parts, comps, roles);
        NothingMore(parts, before);
      }
    }
  }

  lemma {:induction false} UnnamedPlaysNothing(parts: seq<Part>, comps: seq<Component>, roles: seq<Option<Role>>)
    requires WordsPlay(parts, comps, roles) && roles != [] && !Named(comps[|roles| - 1])
    ensures roles[|roles| - 1].None?
  {
  }

  lemma {:induction false} NothingMore(parts: seq<Part>, roles: seq<Option<Role>>)
    ensures forall q :: Plays(parts, roles + [None], |roles| + 1, q) <==> Plays(parts, roles, |roles|, q)
  {
    var more := roles + [None];
    forall q ensures Plays(parts, more, |roles| + 1, q) <==> Plays(parts, roles, |roles|, q) {
      if j :| 0 <= j < |roles| && roles[j] == Some(q) {
        assert more[j] == Some(q);
      }
    }
  }

  /** If the comparison succeeds, every word has a role to play. */
  lemma {:induction false} WordsFound(parts: seq<Part>, comps: seq<Component>, n: nat) returns (roles: seq<Option<Role>>)
    requires PartsDistinct(parts) && n <= |comps| && MatchWords(parts, comps, n).Some?
    ensures |roles| == n && WordsPlay(parts, comps, roles)
  {
    hide PartsDistinct, AssignWord;
    if n == 0 {
      roles := [];
    } else {
      var before := WordsFound(parts, comps, n - 1);
      WordsPlayed(parts, comps, before);
      var role := None;
      if Named(comps[n - 1]) {
        var r := WordFound(parts, comps[n - 1], n - 1, MatchWords(parts, comps, n - 1).value, before);
        role := Some(r);
      }
      roles := before + [role];
      OneMorePlays(parts, comps, before, role);
    }
  }

  lemma {:induction false} OneMorePlays(parts: seq<Part>, comps: seq<Component>, before: seq<Option<Role>>, role: Option<Role>)
    requires WordsPlay(parts, comps, before) && |before| < |comps|
    requires if Named(comps[|before|]) then role.Some? && WordPlays(parts, comps[|before|], before, |before|, role.value) else role.None?
    ensures WordsPlay(parts, comps, before + [role])
  {
    var roles := before + [role];
    forall i | 0 <= i < |roles| && Named(comps[i]) ensures roles[i].Some? && WordPlays(parts, comps[i], roles, i, roles[i].value) {
      assert roles[..|before|] == before;
      PlaysPrefix(parts, roles, |before|, i);
    }
  }

  /** The comparison succeeds exactly when the mention can be this person's. */
  lemma {:induction false} CompatibleExactlyWhen(p: Person, m: Mention, upper: string -> string)
    requires PartsDistinct(p.parts)
    ensures Compatible(p, m, upper).Some? <==> MayBe(p, m, upper)
  {
    hide WordsPlay, MatchWords, PartsDistinct, MatchInitials, InitialsBegin, HasInitials;
    var comps := m.components;
    HasInitialsCounted(comps);
    if MatchWords(p.parts, comps, |comps|).Some? {
      var w := MatchWords(p.parts, comps, |comps|).value;
      MatchInitialsExactly(p.parts, comps, upper, |comps|, w.assignment);
      InitialsExactly(p.parts, comps, upper);
      var roles := WordsFound(p.parts, comps, |comps|);
      WordsPlayed(p.parts, comps, roles);
      assert Compatible(p, m, upper).Some? ==> Tell(p.parts, comps, roles, upper);
    }
    if roles :| |roles| == |comps| && WordsPlay(p.parts, comps, roles) && Tell(p.parts, comps, roles, upper) {
      WordsPlayed(p.parts, comps, roles);
    }
  }

  lemma {:induction false} CompatibleIfDistinct(p: Person, m: Mention, upper: string -> string)
    ensures PartsDistinct(p.parts) ==> (Compatible(p, m, upper).Some? <==> MayBe(p, m, upper))
  {
    hide MayBe, Compatible, PartsDistinct;
    if PartsDistinct(p.parts) {
      CompatibleExactlyWhen(p, m, upper);
    }
  }

  /** The mention is merged exactly when it can be one person's and no other's; that person alone
      gains it, and otherwise a new person does. */
  lemma {:induction false} PlacedExactlyWhen(run: Run, m: Mention, upper: string -> string, i: nat)
    requires (forall k :: 0 <= k < |run.persons| ==> PartsDistinct(run.persons[k].parts)) && i < |run.persons|
    ensures var after := Place(run, m, upper).persons;
            && (if OnlyMayBe(run, m, upper, i)
                then after[i].decisions == run.persons[i].decisions + [|run.comps|] && |after| == |run.persons|
                else i < |after| && after[i] == run.persons[i])
            && (|after| > |run.persons| ==> |after| == |run.persons| + 1 && after[|run.persons|].decisions == [|run.comps|])
            && (|after| == |run.persons|
                <==> exists k: nat :: k < |run.persons| && OnlyMayBe(run, m, upper, k))
  {
    hide MayBe, Compatible;
    forall k: nat | k < |run.persons| ensures MayBe(run.persons[k], m, upper) <==> Compatible(run.persons[k], m, upper).Some? {
      CompatibleExactlyWhen(run.persons[k], m, upper);
    }
    var found := Matches(run.persons, m, upper, |run.persons|);
    MatchesOnce(run.persons, m, upper, |run.persons|);
    if |found| == 1 {
      assert OnlyMayBe(run, m, upper, found[0]);
    }
    if k: nat :| k < |run.persons| && OnlyMayBe(run, m, upper, k) {
      OnlyOneFound(found, k);
    }
  }

  lemma {:induction false} OnlyOneFound(found: seq<nat>, k: nat)
    requires Separate(found) && k in found && forall x :: x in found ==> x == k
    ensures found == [k]
  {
    TwoDiffer(found);
  }

  lemma {:induction false} TwoDiffer(found: seq<nat>)
    requires Separate(found)
    ensures found != [] ==> found[0] in found
    ensures |found| > 1 ==> found[1] in found && found[0] != found[1]
  {
  }

  ghost predicate OnlyMayBe(run: Run, m: Mention, upper: string -> string, i: nat) {
    forall k: nat :: k < |run.persons| ==> (MayBe(run.persons[k], m, upper) <==> k == i)
  }

  lemma {:induction false} MatchesOnce(persons: seq<Person>, m: Mention, upper: string -> string, n: nat)
    requires n <= |persons|
    ensures Separate(Matches(persons, m, upper, n))
  {
    hide Compatible;
    if n > 0 {
      MatchesOnce(persons, m, upper, n - 1);
    }
  }

  // The invariant of a run.

  predicate GenderAgrees(g: Option<string>, m: Mention) {
    m.gender.Some? && m.gender.value != "" ==> g == m.gender
  }

  /** Only roles were added, and no label was changed. */
  predicate SameWords(before: seq<Component>, after: seq<Component>) {
    && |after| == |before|
    && forall i :: 0 <= i < |after| ==>
         after[i] == before[i].(role := after[i].role) && (Named(before[i]) && before[i].role.Some? ==> after[i] == before[i])
  }

  ghost predicate PersonInv(p: Person, ms: seq<Mention>, comps: seq<seq<Component>>, upper: string -> string) {
    && p.decisions != [] && PartsDistinct(p.parts) && |comps| <= |ms|
    && (forall k :: 0 <= k < |p.decisions| ==> p.decisions[k] < |comps|)
    && (forall k :: 0 <= k < |p.decisions| ==> Fits(p, ms[p.decisions[k]], comps[p.decisions[k]]))
    && (forall k :: 1 <= k < |p.decisions| ==> Attested(p.parts, comps[p.decisions[k]], upper))
    && comps[p.decisions[0]] == ms[p.decisions[0]].components
    && FirstTells(p, comps[p.decisions[0]])
  }

  ghost predicate Fits(p: Person, m: Mention, comps: seq<Component>) {
    WordsAgree(p.parts, comps) && GenderAgrees(p.gender, m)
  }

  /** As long as there is one mention, all knowledge is from it; afterwards the surname still is. */
  ghost predicate FirstTells(p: Person, comps: seq<Component>) {
    if |p.decisions| == 1 then p.parts == Learned([], comps, |comps|) else Confirms(p.parts, comps, Surname)
  }

  lemma {:induction false} GrowthKeepsFit(p: Person, q: Person, m: Mention, comps: seq<Component>)
    requires Fits(p, m, comps)
    requires forall r :: Known(p.parts, r).Some? ==> Known(q.parts, r) == Known(p.parts, r)
    requires p.gender.Some? ==> q.gender == p.gender
    ensures Fits(q, m, comps)
  {
  }

  lemma {:induction false} GrowthKeepsConfirms(parts: seq<Part>, parts': seq<Part>, comps: seq<Component>, r: Role)
    requires Confirms(parts, comps, r) && forall r :: Known(parts, r).Some? ==> Known(parts', r) == Known(parts, r)
    ensures Confirms(parts', comps, r)
  {
    var i :| 0 <= i < |comps| && Tells(comps[i], r) && Known(parts, r) == Some(comps[i].normalized);
    assert Tells(comps[i], r) && Known(parts', r) == Some(comps[i].normalized);
  }

  lemma {:induction false} GrowthKeepsAttested(parts: seq<Part>, parts': seq<Part>, comps: seq<Component>, upper: string -> string)
    requires Attested(parts, comps, upper) && forall r :: Known(parts, r).Some? ==> Known(parts', r) == Known(parts, r)
    ensures Attested(parts', comps, upper)
  {
    GrowthKeepsConfirms(parts, parts', comps, Surname);
    if !HasInitials(comps) {
      GrowthKeepsConfirms(parts, parts', comps, if Confirms(parts, comps, First) then First else Patronymic);
    }
  }

  lemma {:induction false} AbsorbedGrows(p: Person, d: nat, m: Mention)
    ensures var q := Absorbed(p, d, m);
            && (forall r :: Known(p.parts, r).Some? ==> Known(q.parts, r) == Known(p.parts, r))
            && (p.gender.Some? ==> q.gender == p.gender)
  {
    forall r | Known(p.parts, r).Some? ensures Known(Absorbed(p, d, m).parts, r) == Known(p.parts, r) {
      LearnedKeeps(p.parts, m.components, |m.components|, r);
    }
  }

  /** A new person. */
  lemma {:induction false} NewKeepsInv(ordinal: nat, ms: seq<Mention>, comps: seq<seq<Component>>, upper: string -> string)
    requires |comps| < |ms| && DistinctRoles(ms[|comps|].components)
    ensures var m := ms[|comps|]; PersonInv(NewPerson(ordinal, |comps|, m), ms, comps + [m.components], upper)
  {
    var m := ms[|comps|];
    LearnedDistinct([], m.components, |m.components|);
    assert Consistent([], m.components);
    LearnedAgrees([], m.components);
  }

  /** A mention merged into a person. */
  lemma {:induction false} MergeKeepsInv(p: Person, ms: seq<Mention>, comps: seq<seq<Component>>, upper: string -> string)
    requires PersonInv(p, ms, comps, upper) && |comps| < |ms| && DistinctRoles(ms[|comps|].components)
    requires Compatible(p, ms[|comps|], upper).Some?
    ensures var m := ms[|comps|];
            var after := Annotate(m.components, Compatible(p, m, upper).value);
            PersonInv(Absorbed(p, |comps|, m.(components := after)), ms, comps + [after], upper)
  {
    var m, d := ms[|comps|], |comps|;
    var after := Annotate(m.components, Compatible(p, m, upper).value);
    var q := Absorbed(p, d, m.(components := after));
    CompatibleMeans(p, m, upper);
    AbsorbedGrows(p, d, m.(components := after));
    LearnedDistinct(p.parts, after, |after|);
    LearnedAgrees(p.parts, after);
    assert Fits(q, m, after);
    var comps' := comps + [after];
    forall k | 0 <= k < |q.decisions| ensures Fits(q, ms[q.decisions[k]], comps'[q.decisions[k]]) {
      if k < |p.decisions| {
        GrowthKeepsFit(p, q, ms[p.decisions[k]], comps[p.decisions[k]]);
      }
    }
    forall k | 1 <= k < |q.decisions| ensures Attested(q.parts, comps'[q.decisions[k]], upper) {
      GrowthKeepsAttested(p.parts, q.parts, comps'[q.decisions[k]], upper);
    }
    SurnameFromFirst(p, q.parts, comps[p.decisions[0]], after);
  }

  /** The surname a merge relies on was told by the first mention. */
  lemma {:induction false} SurnameFromFirst(p: Person, parts': seq<Part>, first: seq<Component>, after: seq<Component>)
    requires FirstTells(p, first) && Confirms(p.parts, after, Surname)
    requires forall r :: Known(p.parts, r).Some? ==> Known(parts', r) == Known(p.parts, r)
    ensures Confirms(parts', first, Surname)
  {
    if |p.decisions| == 1 {
      LearnedFrom([], first, |first|, Surname);
      assert Confirms(p.parts, first, Surname);
    }
    GrowthKeepsConfirms(p.parts, parts', first, Surname);
  }

  /** More mentions elsewhere change nothing for a person. */
  lemma {:induction false} OthersKeepInv(p: Person, ms: seq<Mention>, comps: seq<seq<Component>>, more: seq<Component>, upper: string -> string)
    requires PersonInv(p, ms, comps, upper) && |comps| < |ms|
    ensures PersonInv(p, ms, comps + [more], upper)
  {
    var comps' := comps + [more];
    assert forall k :: 0 <= k < |p.decisions| ==> comps'[p.decisions[k]] == comps[p.decisions[k]];
  }

  lemma {:induction false} CompatibleAddsRoles(p: Person, m: Mention, upper: string -> string)
    requires PartsDistinct(p.parts) && Compatible(p, m, upper).Some?
    ensures SameWords(m.components, Annotate(m.components, Compatible(p, m, upper).value))
  {
    var comps, a := m.components, Compatible(p, m, upper).value;
    MatchWordsMatches(p.parts, comps, |comps|);
    var w := MatchWords(p.parts, comps, |comps|).value;
    if InitialCount(comps, |comps|) > 0 {
      MatchInitialsMatches(p.parts, comps, upper, |comps|, w.assignment);
    } else {
      AssignmentExtends(comps, w);
    }
    assert Extends(comps, w, a);
    var after := Annotate(comps, a);
    forall i | 0 <= i < |comps| && Named(comps[i]) && comps[i].role.Some? ensures after[i] == comps[i] {
      RoleAfter(p.parts, comps, w, a, i, after[i].role.value);
    }
  }

  // Every mention lands in exactly one person.

  predicate Belongs(persons: seq<Person>, d: nat, i: nat) {
    i < |persons| && d in persons[i].decisions
  }

  ghost predicate HasPerson(persons: seq<Person>, d: nat) {
    exists i :: Belongs(persons, d, i)
  }

  ghost predicate Partition(persons: seq<Person>, n: nat) {
    && (forall d: nat :: d < n ==> HasPerson(persons, d))
    && (forall d: nat, i: nat, j: nat :: Belongs(persons, d, i) && Belongs(persons, d, j) ==> i == j && d < n)
    && (forall i :: 0 <= i < |persons| ==> Ascending(persons[i].decisions))
  }

  lemma {:induction false} PartitionGrows(persons: seq<Person>, persons': seq<Person>, n: nat, at: nat)
    requires Partition(persons, n) && at < |persons'| && |persons| <= |persons'| <= at + 1 + |persons|
    requires forall i :: 0 <= i < |persons'| && i != at ==> i < |persons| && persons'[i].decisions == persons[i].decisions
    requires persons'[at].decisions == (if at < |persons| then persons[at].decisions else []) + [n]
    ensures Partition(persons', n + 1)
  {
    forall d: nat | d < n + 1 ensures HasPerson(persons', d) {
      if d < n {
        assert HasPerson(persons, d);
        var i :| Belongs(persons, d, i);
        assert Belongs(persons', d, i);
      } else {
        assert persons'[at].decisions[|persons'[at].decisions| - 1] == n;
        assert Belongs(persons', d, at);
      }
    }
    forall d: nat, i: nat | Belongs(persons', d, i) ensures (d == n && i == at) || Belongs(persons, d, i) {
      assert d == n || i < |persons|;
      assert !Belongs(persons, n, i) || n < n;
    }
    forall d: nat, i: nat, j: nat | Belongs(persons', d, i) && Belongs(persons', d, j) ensures i == j && d < n + 1 {
      assert !Belongs(persons, n, i) && !Belongs(persons, n, j);
    }
    if at < |persons| {
      var old' := persons[at].decisions;
      forall a | 0 <= a < |old'| ensures old'[a] < n {
        assert Belongs(persons, old'[a], at);
      }
    }
  }

  ghost predicate RunInv(run: Run, ms: seq<Mention>, n: nat, upper: string -> string) {
    && n == |run.comps| <= |ms|
    && (forall i :: 0 <= i < |run.persons| ==> run.persons[i].ordinal == i + 1 && PersonInv(run.persons[i], ms, run.comps, upper))
    && (forall d :: 0 <= d < n ==> SameWords(ms[d].components, run.comps[d]))
    && Partition(run.persons, n)
  }

  lemma {:induction false} RunGrows(run: Run, after: Run, ms: seq<Mention>, n: nat, at: nat, upper: string -> string)
    requires RunInv(run, ms, n, upper) && n < |ms|
    requires |after.comps| == n + 1 && after.comps[..n] == run.comps && SameWords(ms[n].components, after.comps[n])
    requires at < |after.persons| && |run.persons| <= |after.persons| <= |run.persons| + 1 && |after.persons| <= at + 1 + |run.persons|
    requires |after.persons| > |run.persons| ==> at == |run.persons|
    requires forall i :: 0 <= i < |after.persons| && i != at ==> i < |run.persons| && after.persons[i] == run.persons[i]
    requires after.persons[at].ordinal == at + 1 && PersonInv(after.persons[at], ms, after.comps, upper)
    requires Partition(after.persons, n + 1)
    ensures RunInv(after, ms, n + 1, upper)
  {
    hide PersonInv, Partition, SameWords;
    assert after.comps == run.comps + [after.comps[n]];
    forall i | 0 <= i < |run.persons| ensures PersonInv(run.persons[i], ms, after.comps, upper) {
      OthersKeepInv(run.persons[i], ms, run.comps, after.comps[n], upper);
    }
    forall d | 0 <= d < n ensures after.comps[d] == run.comps[d] {
      assert after.comps[..n][d] == run.comps[d];
    }
  }

  lemma {:induction false} PlaceKeeps(run: Run, ms: seq<Mention>, n: nat, upper: string -> string)
    requires RunInv(run, ms, n, upper) && n < |ms| && DistinctRoles(ms[n].components)
    ensures RunInv(Place(run, ms[n], upper), ms, n + 1, upper)
  {
    hide Partition, Compatible, Learned, PersonInv, SameWords, Annotate;
    var m, found := ms[n], Matches(run.persons, ms[n], upper, |run.persons|);
    var after := Place(run, m, upper);
    assert after.comps[..n] == run.comps;
    if |found| == 1 {
      var at := found[0];
      MergeKeepsInv(run.persons[at], ms, run.comps, upper);
      PartsOfInv(run.persons[at], ms, run.comps, upper);
      CompatibleAddsRoles(run.persons[at], m, upper);
      PartitionGrows(run.persons, after.persons, n, at);
      RunGrows(run, after, ms, n, at, upper);
    } else {
      NewKeepsInv(|run.persons| + 1, ms, run.comps, upper);
      PartitionGrows(run.persons, after.persons, n, |run.persons|);
      SameWordsItself(m.components);
      RunGrows(run, after, ms, n, |run.persons|, upper);
    }
  }

  lemma {:induction false} PartsOfInv(p: Person, ms: seq<Mention>, comps: seq<seq<Component>>, upper: string -> string)
    requires PersonInv(p, ms, comps, upper)
    ensures PartsDistinct(p.parts)
  {
  }

  lemma {:induction false} SameWordsItself(comps: seq<Component>)
    ensures SameWords(comps, comps)
  {
  }

  predicate AllDistinct(ms: seq<Mention>) {
    forall d :: 0 <= d < |ms| ==> DistinctRoles(ms[d].components)
  }

  lemma {:induction false} NobodyYet(ms: seq<Mention>, upper: string -> string)
    ensures RunInv(NOBODY, ms, 0, upper)
  {
  }

  /** Every run over mentions with distinct labels keeps the invariant. */
  lemma {:induction false} EveryRunKeeps(ms: seq<Mention>, upper: string -> string, trace: seq<Run>, n: nat)
    requires IsTrace(ms, upper, trace) && AllDistinct(ms) && n < |trace|
    ensures RunInv(trace[n], ms, n, upper)
  {
    if n == 0 {
      NobodyYet(ms, upper);
    } else {
      EveryRunKeeps(ms, upper, trace, n - 1);
      assert PlacedNext(ms, upper, trace, n - 1);
      PlaceKeeps(trace[n - 1], ms, n - 1, upper);
    }
  }

  // The promises, for a trace over all mentions.

  ghost predicate Resolves(ms: seq<Mention>, upper: string -> string, run: Run) {
    exists trace :: IsTrace(ms, upper, trace) && |trace| == |ms| + 1 && trace[|ms|] == run
  }

  lemma {:induction false} ResolvedInv(ms: seq<Mention>, upper: string -> string, run: Run)
    requires Resolves(ms, upper, run) && AllDistinct(ms)
    ensures RunInv(run, ms, |ms|, upper)
  {
    var trace :| IsTrace(ms, upper, trace) && |trace| == |ms| + 1 && trace[|ms|] == run;
    EveryRunKeeps(ms, upper, trace, |ms|);
  }

  /** Each mention lands in exactly one person, once. */
  lemma {:induction false} MentionsArePartitioned(ms: seq<Mention>, upper: string -> string, run: Run, d: nat) returns (i: nat)
    requires Resolves(ms, upper, run) && AllDistinct(ms) && d < |ms|
    ensures Belongs(run.persons, d, i) && Ascending(run.persons[i].decisions)
    ensures forall j: nat :: Belongs(run.persons, d, j) ==> j == i
  {
    ResolvedInv(ms, upper, run);
    assert HasPerson(run.persons, d);
    i :| Belongs(run.persons, d, i);
  }

  /** Two mentions of one person never disagree: not in a word that plays the same role, nor in
      a known gender. */
  lemma {:induction false} NoFalseMerge(ms: seq<Mention>, upper: string -> string, run: Run,
                                        i: nat, d: nat, e: nat, a: nat, b: nat, r: Role)
    requires Resolves(ms, upper, run) && AllDistinct(ms)
    requires Belongs(run.persons, d, i) && Belongs(run.persons, e, i)
    ensures d < |ms| == |run.comps| && e < |ms|
    ensures a < |run.comps[d]| && b < |run.comps[e]| && Tells(run.comps[d][a], r) && Tells(run.comps[e][b], r) ==>
              run.comps[d][a].normalized == run.comps[e][b].normalized
    ensures var g, h := ms[d].gender.GetOr(""), ms[e].gender.GetOr(""); g != "" && h != "" ==> g == h
  {
    MemberFits(run, ms, upper, i, d);
    MemberFits(run, ms, upper, i, e);
    FitTogether(run.persons[i], ms[d], run.comps[d], ms[e], run.comps[e], a, b, r);
  }

  lemma {:induction false} FitTogether(p: Person, m: Mention, comps: seq<Component>, m': Mention, comps': seq<Component>,
                                       a: nat, b: nat, r: Role)
    requires Fits(p, m, comps) && Fits(p, m', comps')
    ensures a < |comps| && b < |comps'| && Tells(comps[a], r) && Tells(comps'[b], r) ==> comps[a].normalized == comps'[b].normalized
    ensures var g, h := m.gender.GetOr(""), m'.gender.GetOr(""); g != "" && h != "" ==> g == h
  {
    if a < |comps| && b < |comps'| && Tells(comps[a], r) && Tells(comps'[b], r) {
      assert Known(p.parts, r) == Some(comps[a].normalized);
      assert Known(p.parts, r) == Some(comps'[b].normalized);
    }
  }

  lemma {:induction false} MemberFits(run: Run, ms: seq<Mention>, upper: string -> string, i: nat, d: nat)
    requires Resolves(ms, upper, run) && AllDistinct(ms) && Belongs(run.persons, d, i)
    ensures d < |ms| == |run.comps| && Fits(run.persons[i], ms[d], run.comps[d])
  {
    ResolvedInv(ms, upper, run);
    var p := run.persons[i];
    assert PersonInv(p, ms, run.comps, upper);
    var k :| 0 <= k < |p.decisions| && p.decisions[k] == d;
  }

  /** Resolution only fills in missing roles: no word, letter or label of a mention changes. */
  lemma {:induction false} MentionsKeepTheirWords(ms: seq<Mention>, upper: string -> string, run: Run, d: nat)
    requires Resolves(ms, upper, run) && AllDistinct(ms) && d < |ms|
    ensures d < |run.comps| && SameWords(ms[d].components, run.comps[d])
  {
    ResolvedInv(ms, upper, run);
  }

  /** A person with several mentions got its surname from its first mention as it was labelled,
      and every later mention repeats the surname together with more evidence. */
  lemma {:induction false} MergesAreAttested(ms: seq<Mention>, upper: string -> string, run: Run, i: nat, k: nat)
    requires Resolves(ms, upper, run) && AllDistinct(ms)
    requires i < |run.persons| && 1 <= k < |run.persons[i].decisions|
    ensures var p := run.persons[i];
            && p.decisions[0] < |ms| && p.decisions[k] < |run.comps|
            && Confirms(p.parts, ms[p.decisions[0]].components, Surname)
            && Attested(p.parts, run.comps[p.decisions[k]], upper)
  {
    ResolvedInv(ms, upper, run);
    assert PersonInv(run.persons[i], ms, run.comps, upper);
  }

  /** What is known of a person is never overwritten by later mentions. */
  lemma {:induction false} KnowledgeStays(ms: seq<Mention>, upper: string -> string, trace: seq<Run>, n: nat, n': nat, i: nat, r: Role)
    requires IsTrace(ms, upper, trace) && n <= n' < |trace|
    requires i < |trace[n].persons| && Known(trace[n].persons[i].parts, r).Some?
    ensures i < |trace[n'].persons|
    ensures Known(trace[n'].persons[i].parts, r) == Known(trace[n].persons[i].parts, r)
    decreases n'
  {
    hide Place, Known;
    if n < n' {
      KnowledgeStays(ms, upper, trace, n, n' - 1, i, r);
      assert PlacedNext(ms, upper, trace, n' - 1);
      PlaceRemembers(trace[n' - 1], ms[n' - 1], upper, i, r);
    }
  }

  lemma {:induction false} PlaceRemembers(run: Run, m: Mention, upper: string -> string, i: nat, r: Role)
    requires i < |run.persons| && Known(run.persons[i].parts, r).Some?
    ensures var persons := Place(run, m, upper).persons;
            i < |persons| && Known(persons[i].parts, r) == Known(run.persons[i].parts, r)
  {
    var found := Matches(run.persons, m, upper, |run.persons|);
    if |found| == 1 && found[0] == i {
      var comps := Annotate(m.components, Compatible(run.persons[i], m, upper).value);
      AbsorbedGrows(run.persons[i], |run.comps|, m.(components := comps));
    }
  }

  function Canonical(p: Person): string {
    "person:" + Known(p.parts, Surname).GetOr("") + "|" + Known(p.parts, First).GetOr("") + "|"
    + Known(p.parts, Patronymic).GetOr("")
  }

  /** `identity_key`: the canonical name, then the ordinal. */
  function IdentityKey(p: Person): string {
    Canonical(p) + "#" + Decimal(p.ordinal)
  }

  lemma {:induction false} OrdinalEndsKey(s: string, n: nat, t: string, m: nat)
    requires s + "#" + Decimal(n) == t + "#" + Decimal(m)
    ensures n == m
  {
    var key := s + "#" + Decimal(n);
    assert key[|s|] == '#' && key[|t|] == '#';
    assert |s| < |t| ==> IsDigit(key[|t|]);
    assert |t| < |s| ==> IsDigit(key[|s|]);
    assert key[|s| + 1..] == Decimal(n) && key[|t| + 1..] == Decimal(m);
    DecimalInjective(n, m);
  }

  /** Different persons have different identity keys, so they never share an entity. */
  lemma {:induction false} PersonsKeptApart(ms: seq<Mention>, upper: string -> string, run: Run, i: nat, j: nat)
    requires Resolves(ms, upper, run) && AllDistinct(ms) && i < j < |run.persons|
    ensures IdentityKey(run.persons[i]) != IdentityKey(run.persons[j])
  {
    ResolvedInv(ms, upper, run);
    var p, q := run.persons[i], run.persons[j];
    if IdentityKey(p) == IdentityKey(q) {
      OrdinalEndsKey(Canonical(p), p.ordinal, Canonical(q), q.ordinal);
    }
  }

  /** What grouping makes of it: two mentions are masked as one entity, with one token, exactly
      when they belong to the same person. */
  lemma {:induction false} OneEntityPerPerson(
      ms: seq<Mention>, upper: string -> string, run: Run, m: nat, m': nat, i: nat, j: nat,
      visit: seq<nat>, keyOf: nat -> string, kindOf: nat -> PiiType, groups: seq<Group>, d: nat, e: nat)
    requires Resolves(ms, upper, run) && AllDistinct(ms)
    requires Belongs(run.persons, m, i) && Belongs(run.persons, m', j)
    requires IsGrouping(visit, keyOf, kindOf, groups) && d in visit && e in visit
    requires keyOf(d) == IdentityKey(run.persons[i]) && keyOf(e) == IdentityKey(run.persons[j])
    ensures (exists g :: 0 <= g < |groups| && d in groups[g].members && e in groups[g].members) <==> i == j
  {
    if i < j {
      PersonsKeptApart(ms, upper, run, i, j);
    } else if j < i {
      PersonsKeptApart(ms, upper, run, j, i);
    }
    GroupsPartition(visit, keyOf, kindOf, groups, d);
    var g :| 0 <= g < |groups| && d in groups[g].members;
    assert IsGroup(visit, keyOf, kindOf, groups, g);
    if h :| 0 <= h < |groups| && d in groups[h].members && e in groups[h].members {
      assert IsGroup(visit, keyOf, kindOf, groups, h);
    }
  }
}
