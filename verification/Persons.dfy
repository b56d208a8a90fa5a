/** Who is who: the rule by which mentions of people are told apart or put together, and what
    no run of it can do.

    A mention is its ordered components: full words and initials, each with the role its label
    gives it, if any. What words normalize to, and letter case, are parameters. */
module Persons {
  import opened Models

  datatype Role = Surname | First | Patronymic

  datatype Component =
    | Word(role: Option<Role>, normalized: string)
    | Initial(role: Option<Role>, letter: string)

  /** One piece of knowledge about a person, in the order it was learnt. */
  datatype Part = Part(role: Role, word: string)

  datatype Mention = Mention(components: seq<Component>, gender: Option<string>)

  datatype Person = Person(ordinal: nat, decisions: seq<nat>, parts: seq<Part>, gender: Option<string>)

  predicate Named(c: Component) { c.Word? && c.normalized != "" }

  function Known(parts: seq<Part>, r: Role): Option<string> {
    if parts == [] then None
    else if parts[0].role == r then Some(parts[0].word)
    else Known(parts[1..], r)
  }

  // Comparing a mention with what is known.

  datatype Match = Match(assignment: map<nat, Role>, matched: set<Role>, newInfo: map<nat, Role>)

  const NO_MATCH: Match := Match(map[], {}, map[])

  /** The first known part with this word whose role is not used yet. */
  function Unused(parts: seq<Part>, word: string, used: set<Role>): (r: Option<Role>)
  {
    if parts == [] then None
    else if parts[0].word == word && parts[0].role !in used then Some(parts[0].role)
    else Unused(parts[1..], word, used)
  }

  function AssignWord(parts: seq<Part>, c: Component, idx: nat, m: Match): Option<Match>
    requires c.Word?
  {
    match c.role
    case Some(r) =>
      if r in m.matched then None
      else if Known(parts, r).Some? then
        if Known(parts, r).value != c.normalized then None
        else Some(m.(assignment := m.assignment[idx := r], matched := m.matched + {r}))
      else Some(m.(newInfo := m.newInfo[idx := r]))
    case None =>
      match Unused(parts, c.normalized, m.matched)
      case None => None
      case Some(r) => Some(m.(assignment := m.assignment[idx := r], matched := m.matched + {r}))
  }

  /** The words among the first `n` components. */
  function MatchWords(parts: seq<Part>, comps: seq<Component>, n: nat): Option<Match>
    requires n <= |comps|
  {
    if n == 0 then Some(NO_MATCH)
    else
      match MatchWords(parts, comps, n - 1)
      case None => None
      case Some(m) => if Named(comps[n - 1]) then AssignWord(parts, comps[n - 1], n - 1, m) else Some(m)
  }

  function InitialCount(comps: seq<Component>, n: nat): nat
    requires n <= |comps|
  {
    if n == 0 then 0 else InitialCount(comps, n - 1) + (if comps[n - 1].Initial? then 1 else 0)
  }

  /** The role the i-th initial stands for. */
  function Expected(i: nat): Option<Role> {
    if i == 0 then Some(First) else if i == 1 then Some(Patronymic) else None
  }

  /** The i-th initial is the first letter of the known part it has to stand for. */
  predicate Verified(parts: seq<Part>, upper: string -> string, letter: string, i: nat) {
    && Expected(i).Some?
    && var known := Known(parts, Expected(i).value);
       known.Some? && known.value != "" && upper(known.value[..1]) == upper(letter)
  }

  function MatchInitials(parts: seq<Part>, comps: seq<Component>, upper: string -> string, n: nat,
                         assignment: map<nat, Role>): Option<map<nat, Role>>
    requires n <= |comps|
  {
    if n == 0 then Some(assignment)
    else
      match MatchInitials(parts, comps, upper, n - 1, assignment)
      case None => None
      case Some(a) =>
        if !comps[n - 1].Initial? then Some(a)
        else
          var i := InitialCount(comps, n - 1);
          if Verified(parts, upper, comps[n - 1].letter, i) then Some(a[n - 1 := Expected(i).value]) else None
  }

  predicate GenderConflict(a: Option<string>, b: Option<string>) {
    a.Some? && b.Some? && a.value != b.value
  }

  /** None when incompatible, else which component plays which role. */
  function Compatible(p: Person, m: Mention, upper: string -> string): Option<map<nat, Role>> {
    if GenderConflict(p.gender, m.gender) then None
    else
      match MatchWords(p.parts, m.components, |m.components|)
      case None => None
      case Some(w) =>
        if Surname !in w.matched then None
        else if InitialCount(m.components, |m.components|) > 0 then
          MatchInitials(p.parts, m.components, upper, |m.components|, w.assignment)
        else if First !in w.matched && Patronymic !in w.matched then None
        else Some(w.assignment + w.newInfo)
  }

  // Taking a mention in.

  function Annotate(comps: seq<Component>, assignment: map<nat, Role>): (r: seq<Component>)
    ensures |r| == |comps|
  {
    seq(|comps|, i requires 0 <= i < |comps| =>
      if i in assignment then comps[i].(role := Some(assignment[i])) else comps[i])
  }

  function Learn(parts: seq<Part>, c: Component): seq<Part> {
    if Named(c) && c.role.Some? && Known(parts, c.role.value).None? then parts + [Part(c.role.value, c.normalized)]
    else parts
  }

  function Learned(parts: seq<Part>, comps: seq<Component>, n: nat): seq<Part>
    requires n <= |comps|
  {
    if n == 0 then parts else Learn(Learned(parts, comps, n - 1), comps[n - 1])
  }

  function Absorbed(p: Person, d: nat, m: Mention): Person {
    p.(decisions := p.decisions + [d],
       gender := if p.gender.None? && m.gender.Some? && m.gender.value != "" then m.gender else p.gender,
       parts := Learned(p.parts, m.components, |m.components|))
  }

  function NewPerson(ordinal: nat, d: nat, m: Mention): Person {
    Absorbed(Person(ordinal, [], [], m.gender), d, m)
  }

  // A whole run. `comps` are the components of the mentions so far, with the roles given to them.

  datatype Run = Run(persons: seq<Person>, comps: seq<seq<Component>>)

  /** The persons among the first `n` that the mention could belong to. */
  function Matches(persons: seq<Person>, m: Mention, upper: string -> string, n: nat): (r: seq<nat>)
    requires n <= |persons|
    ensures forall k :: 0 <= k < |r| ==> r[k] < n && Compatible(persons[r[k]], m, upper).Some?
    ensures forall i: nat :: i < n && Compatible(persons[i], m, upper).Some? ==> i in r
  {
    if n == 0 then []
    else
      Matches(persons, m, upper, n - 1) + (if Compatible(persons[n - 1], m, upper).Some? then [n - 1] else [])
  }

  function Place(run: Run, m: Mention, upper: string -> string): Run {
    var d, found := |run.comps|, Matches(run.persons, m, upper, |run.persons|);
    if |found| == 1 then
      var p := run.persons[found[0]];
      var comps := Annotate(m.components, Compatible(p, m, upper).value);
      Run(run.persons[found[0] := Absorbed(p, d, m.(components := comps))], run.comps + [comps])
    else
      Run(run.persons + [NewPerson(|run.persons| + 1, d, m)], run.comps + [m.components])
  }

  const NOBODY: Run := Run([], [])

  /** The run after each mention, from none to all. */
  ghost predicate IsTrace(ms: seq<Mention>, upper: string -> string, trace: seq<Run>) {
    && |trace| > 0 && trace[0] == NOBODY && |trace| <= |ms| + 1
    && forall k: nat :: k + 1 < |trace| ==> PlacedNext(ms, upper, trace, k)
  }

  ghost predicate PlacedNext(ms: seq<Mention>, upper: string -> string, trace: seq<Run>, k: nat) {
    k < |ms| && k + 1 < |trace| && trace[k + 1] == Place(trace[k], ms[k], upper)
  }
}
