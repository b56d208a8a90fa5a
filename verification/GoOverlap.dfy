/** The overlap resolution of the Go service: the slice is sorted and compacted in place,
    earliest start first and longest first among those. */
module GoOverlap {
  import opened Models
  import opened Overlap
  import opened Ranking
  import opened Selection

  /** The order given to sort.Slice. */
  predicate Before(a: Candidate, b: Candidate) {
    a.start < b.start || (a.start == b.start && a.end - a.start > b.end - b.start)
  }

  predicate Sorted(s: seq<Candidate>) {
    forall i, j :: 0 <= i < j < |s| ==> !Before(s[j], s[i])
  }

  /** What sort.Slice may make of a slice. It is not stable: equal candidates end up in any order. */
  ghost predicate IsSorting(before: seq<Candidate>, after: seq<Candidate>) {
    multiset(before) == multiset(after) && Sorted(after)
  }

  predicate NonEmpty(s: seq<Candidate>) {
    forall i :: 0 <= i < |s| ==> s[i].start < s[i].end
  }

  function PlaceKeys(s: seq<Candidate>): (r: seq<Key>)
    ensures |r| == |s|
  {
    seq(|s|, i requires 0 <= i < |s| => Key(0.0, s[i].start, -(s[i].end - s[i].start)))
  }

  /** Starts earlier; or at the same place and is longer; or has the same span and comes first. */
  predicate Precedence(s: seq<Candidate>, j: nat, i: nat) {
    && j < |s| && i < |s|
    && (|| s[j].start < s[i].start
        || (s[j].start == s[i].start && s[j].end > s[i].end)
        || (s[j].start == s[i].start && s[j].end == s[i].end && j < i))
  }

  ghost predicate KeptByPlace(s: seq<Candidate>, kept: set<nat>) {
    && (forall i :: i in kept ==> i < |s|)
    && (forall i: nat :: i < |s| ==> (i in kept <==> !exists j :: j in kept && Precedence(s, j, i) && Clash(s[j], s[i])))
  }

  lemma {:induction false} PlacedByFields(s: seq<Candidate>, kept: set<nat>)
    ensures IsSelection(Extents(s), PlaceKeys(s), kept) <==> KeptByPlace(s, kept)
  {
    forall j: nat, i: nat | j < |s| && i < |s|
      ensures Beats(Extents(s), PlaceKeys(s), j, i) <==> Precedence(s, j, i) && Clash(s[j], s[i])
    {
    }
    forall i: nat | i < |s| && forall k :: k in kept ==> k < |s|
      ensures Beaten(Extents(s), PlaceKeys(s), kept, i)
         <==> exists j :: j in kept && Precedence(s, j, i) && Clash(s[j], s[i])
    {
      if j :| j in kept && Precedence(s, j, i) && Clash(s[j], s[i]) {
        assert Beats(Extents(s), PlaceKeys(s), j, i);
      }
    }
  }

  /** Exactly those candidates stay that no staying candidate of precedence clashes with; they
      stay in order and are pairwise disjoint. */
  ghost predicate IsCompaction(sorted: seq<Candidate>, kept: seq<nat>, result: seq<Candidate>) {
    && KeptByPlace(sorted, Elements(kept))
    && (forall a :: 0 <= a < |kept| ==> kept[a] < |sorted|)
    && Ascending(kept)
    && result == Pick(sorted, kept)
    && ByStart(result)
    && Disjoint(result)
  }

  /** `sorted` is what sort.Slice leaves in the array. */
  method ResolveOverlaps(a: array<Candidate>, sorted: seq<Candidate>) returns (n: nat, ghost kept: seq<nat>)
    requires IsSorting(a[..], sorted) && NonEmpty(sorted)
    modifies a
    ensures n <= a.Length && IsCompaction(sorted, kept, a[..n])
  {
    SortingKeepsLength(a[..], sorted);
    if a.Length < 2 {
      ShortSorting(a[..], sorted);
      n := a.Length;
      kept := Run(sorted, n);
      RunOfShort(sorted);
      assert a[..n] == sorted;
    } else {
      SortCandidates(a, sorted);
      n, kept := Compact(a, sorted);
    }
    CompactionOf(sorted, kept);
  }

  method SortCandidates(a: array<Candidate>, sorted: seq<Candidate>)
    requires |sorted| == a.Length
    modifies a
    ensures a[..] == sorted
  {
    for i := 0 to a.Length
      invariant a[..i] == sorted[..i]
    {
      a[i] := sorted[i];
    }
  }

  /** The greedy run over the sorted candidates. */
  ghost function Run(sorted: seq<Candidate>, i: nat): seq<nat>
    requires i <= |sorted|
  {
    Greedy(Extents(sorted), seq(|sorted|, k => k), i)
  }

  function LastEnd(sorted: seq<Candidate>, kept: seq<nat>): int
    requires forall k :: 0 <= k < |kept| ==> kept[k] < |sorted|
  {
    if kept == [] then -1 else sorted[kept[|kept| - 1]].end
  }

  /** The survivors move to the front of the same array; the write never overtakes the read. */
  method Compact(a: array<Candidate>, sorted: seq<Candidate>) returns (n: nat, ghost kept: seq<nat>)
    requires a[..] == sorted && Sorted(sorted) && NonEmpty(sorted)
    modifies a
    ensures kept == Run(sorted, |sorted|) && n == |kept| <= a.Length
    ensures RunInside(sorted, kept, |sorted|) && a[..n] == Pick(sorted, kept)
  {
    hide Run, RunInside, LastEnd;
    n, kept := 0, [];
    var lastEnd: int := -1;
    CompactStart(sorted);
    for i := 0 to a.Length
      invariant n == |kept| <= i
      invariant a[i..] == sorted[i..]
      invariant Compacted(sorted, i, kept, a[..n], lastEnd)
    {
      var c := a[i];
      assert c == a[i..][0] == sorted[i];
      ghost var front := a[..n];
      CompactTurn(sorted, i, kept, front, lastEnd);
      assert a[i + 1..] == a[i..][1..] == sorted[i..][1..] == sorted[i + 1..];
      if c.start >= lastEnd {
        a[n] := c;
        assert a[..n + 1] == front + [c];
        n := n + 1;
        lastEnd := c.end;
        kept := kept + [i];
      }
    }
  }

  /** The loop of `Compact` before candidate `i`. */
  ghost predicate Compacted(sorted: seq<Candidate>, i: nat, kept: seq<nat>, front: seq<Candidate>, lastEnd: int) {
    && i <= |sorted| && kept == Run(sorted, i) && RunInside(sorted, kept, i)
    && front == Pick(sorted, kept) && lastEnd == LastEnd(sorted, kept)
  }

  lemma {:induction false} CompactStart(sorted: seq<Candidate>)
    ensures Compacted(sorted, 0, [], [], -1)
  {
  }

  lemma {:induction false} CompactTurn(sorted: seq<Candidate>, i: nat, kept: seq<nat>, front: seq<Candidate>, lastEnd: int)
    requires Sorted(sorted) && NonEmpty(sorted) && i < |sorted| && Compacted(sorted, i, kept, front, lastEnd)
    ensures if sorted[i].start >= lastEnd then Compacted(sorted, i + 1, kept + [i], front + [sorted[i]], sorted[i].end)
            else Compacted(sorted, i + 1, kept, front, lastEnd)
  {
    LastEndDecides(sorted, i);
  }

  predicate RunInside(sorted: seq<Candidate>, kept: seq<nat>, i: nat) {
    && (forall k :: 0 <= k < |kept| ==> kept[k] < i)
    && Ascending(kept)
    && i <= |sorted|
    && forall k :: 0 <= k < |kept| ==> sorted[kept[k]].end <= sorted[kept[|kept| - 1]].end
  }

  lemma {:induction false} RunStep(sorted: seq<Candidate>, i: nat)
    requires i < |sorted|
    ensures Run(sorted, i + 1)
         == if Meets(Extents(sorted), Run(sorted, i), i) then Run(sorted, i) else Run(sorted, i) + [i]
  {
    GreedyStep(Extents(sorted), seq(|sorted|, k => k), i);
  }

  lemma {:induction false} InsideGrows(sorted: seq<Candidate>, kept: seq<nat>, i: nat)
    requires RunInside(sorted, kept, i) && i < |sorted| && sorted[i].start < sorted[i].end
    ensures RunInside(sorted, kept, i + 1)
    ensures sorted[i].start >= LastEnd(sorted, kept) ==> RunInside(sorted, kept + [i], i + 1)
  {
  }

  lemma {:induction false} RunStaysInside(sorted: seq<Candidate>, i: nat)
    requires Sorted(sorted) && NonEmpty(sorted) && i <= |sorted|
    ensures RunInside(sorted, Run(sorted, i), i)
  {
    hide Run, LastEnd, RunInside, Meets;
    if i == 0 {
      CompactStart(sorted);
    } else {
      RunStaysInside(sorted, i - 1);
      RunStep(sorted, i - 1);
      MeetsLast(sorted, Run(sorted, i - 1), i - 1);
      InsideGrows(sorted, Run(sorted, i - 1), i - 1);
    }
  }

  /** Comparing with the end of the last survivor is as good as comparing with all of them. */
  lemma {:induction false} LastEndDecides(sorted: seq<Candidate>, i: nat)
    requires Sorted(sorted) && NonEmpty(sorted) && i < |sorted|
    ensures RunInside(sorted, Run(sorted, i), i) && RunInside(sorted, Run(sorted, i + 1), i + 1)
    ensures Run(sorted, i + 1) == if sorted[i].start >= LastEnd(sorted, Run(sorted, i)) then Run(sorted, i) + [i] else Run(sorted, i)
  {
    hide Run, LastEnd, RunInside, Meets;
    RunStaysInside(sorted, i);
    RunStaysInside(sorted, i + 1);
    RunStep(sorted, i);
    MeetsLast(sorted, Run(sorted, i), i);
  }

  lemma {:induction false} MeetsLast(sorted: seq<Candidate>, kept: seq<nat>, i: nat)
    requires Sorted(sorted) && NonEmpty(sorted) && i < |sorted| && RunInside(sorted, kept, i)
    ensures Meets(Extents(sorted), kept, i) <==> sorted[i].start < LastEnd(sorted, kept)
  {
    var all := Extents(sorted);
    if sorted[i].start < LastEnd(sorted, kept) {
      var k := kept[|kept| - 1];
      assert !Before(sorted[i], sorted[k]);
      assert k in kept && Overlaps(all[i], all[k]);
    }
    if Meets(all, kept, i) {
      var k :| k in kept && k < |all| && Overlaps(all[i], all[k]);
    }
  }

  lemma {:induction false} SortingKeepsLength(before: seq<Candidate>, after: seq<Candidate>)
    requires multiset(before) == multiset(after)
    ensures |before| == |after|
  {
    assert |multiset(before)| == |before| && |multiset(after)| == |after|;
  }

  lemma {:induction false} ShortSorting(before: seq<Candidate>, after: seq<Candidate>)
    requires multiset(before) == multiset(after) && |before| < 2
    ensures before == after
  {
    SortingKeepsLength(before, after);
    if |before| == 1 {
      assert before[0] in multiset(before);
      assert before[0] in multiset(after);
      assert before[0] in after;
    }
  }

  lemma {:induction false} FirstIsKept(sorted: seq<Candidate>)
    requires sorted != [] && NonEmpty(sorted)
    ensures sorted[0].start >= LastEnd(sorted, [])
  {
  }

  lemma {:induction false} RunOfShort(sorted: seq<Candidate>)
    requires |sorted| < 2 && NonEmpty(sorted)
    ensures RunInside(sorted, Run(sorted, |sorted|), |sorted|) && Pick(sorted, Run(sorted, |sorted|)) == sorted
  {
    hide Run, LastEnd, RunInside, Meets;
    CompactStart(sorted);
    if |sorted| == 1 {
      LastEndDecides(sorted, 0);
      FirstIsKept(sorted);
      assert Run(sorted, 1) == [0];
    }
  }

  lemma {:induction false} CompactionOf(sorted: seq<Candidate>, kept: seq<nat>)
    requires Sorted(sorted) && kept == Run(sorted, |sorted|) && RunInside(sorted, kept, |sorted|)
    ensures IsCompaction(sorted, kept, Pick(sorted, kept))
  {
    var keys, result := PlaceKeys(sorted), Pick(sorted, kept);
    forall a, b | 0 <= a < b < |keys| ensures !Less(keys[b], keys[a]) {
      assert !Before(sorted[b], sorted[a]);
    }
    AscendingStays(keys);
    GreedySelects(Extents(sorted), keys);
    SelectionDisjoint(Extents(sorted), keys, Elements(kept));
    PlacedByFields(sorted, Elements(kept));
    forall a, b | 0 <= a < b < |result| ensures result[a].start <= result[b].start {
      assert !Before(sorted[kept[b]], sorted[kept[a]]);
    }
    forall a, b | 0 <= a < b < |result|
      ensures !Overlaps(Interval(result[a].start, result[a].end), Interval(result[b].start, result[b].end))
    {
      assert kept[a] in Elements(kept) && kept[b] in Elements(kept);
      assert !Overlaps(Extents(sorted)[kept[a]], Extents(sorted)[kept[b]]);
    }
  }

  // The order in which the sort leaves equal candidates does not matter to what is masked.

  lemma {:induction false} RestAlike<T>(x: T, s: seq<T>, before: seq<T>, after: seq<T>)
    requires multiset([x] + s) == multiset(before + [x] + after)
    ensures multiset(s) == multiset(before + after)
  {
    assert multiset([x] + s) == multiset{x} + multiset(s);
    assert multiset(before + [x] + after) == multiset(before) + multiset{x} + multiset(after);
    assert multiset(s) == multiset([x] + s) - multiset{x};
  }

  lemma {:induction false} ExtentsTogether(s: seq<Candidate>, t: seq<Candidate>)
    requires multiset(s) == multiset(t)
    ensures multiset(Extents(s)) == multiset(Extents(t))
  {
    SortingKeepsLength(s, t);
    if s != [] {
      assert s[0] in multiset(s);
      assert s[0] in multiset(t);
      var k :| 0 <= k < |t| && t[k] == s[0];
      assert s == [s[0]] + s[1..];
      assert t == t[..k] + [s[0]] + t[k + 1..];
      RestAlike(s[0], s[1..], t[..k], t[k + 1..]);
      ExtentsTogether(s[1..], t[..k] + t[k + 1..]);
      ExtentsAround(s[0], s[1..], t[..k], t[k + 1..]);
    }
  }

  lemma {:induction false} ExtentsAround(x: Candidate, s: seq<Candidate>, before: seq<Candidate>, after: seq<Candidate>)
    requires multiset(Extents(s)) == multiset(Extents(before + after))
    ensures multiset(Extents([x] + s)) == multiset(Extents(before + [x] + after))
  {
    var e := Interval(x.start, x.end);
    assert Extents([x] + s) == [e] + Extents(s);
    assert Extents(before + [x] + after) == Extents(before) + [e] + Extents(after);
    assert Extents(before + after) == Extents(before) + Extents(after);
  }

  predicate BeforeI(a: Interval, b: Interval) {
    a.start < b.start || (a.start == b.start && a.end > b.end)
  }

  predicate SortedI(s: seq<Interval>) {
    forall i, j :: 0 <= i < j < |s| ==> !BeforeI(s[j], s[i])
  }

  lemma {:induction false} SortedAlike(s: seq<Interval>, t: seq<Interval>)
    requires SortedI(s) && SortedI(t) && multiset(s) == multiset(t)
    ensures s == t
  {
    assert |multiset(s)| == |s| && |multiset(t)| == |t|;
    if s != [] {
      hide SortedI;
      SameFirst(s, t);
      TailSorted(s);
      TailSorted(t);
      assert s == [s[0]] + s[1..] && t == [] + [t[0]] + t[1..];
      RestAlike(s[0], s[1..], [], t[1..]);
      assert [] + t[1..] == t[1..];
      SortedAlike(s[1..], t[1..]);
    }
  }

  lemma {:induction false} TailSorted(s: seq<Interval>)
    requires SortedI(s) && s != []
    ensures SortedI(s[1..])
  {
  }

  lemma {:induction false} SameFirst(s: seq<Interval>, t: seq<Interval>)
    requires SortedI(s) && SortedI(t) && multiset(s) == multiset(t) && s != [] && t != []
    ensures s[0] == t[0]
  {
    assert s[0] in multiset(t) && t[0] in multiset(s);
    var i :| 0 <= i < |s| && s[i] == t[0];
    var j :| 0 <= j < |t| && t[j] == s[0];
    assert !BeforeI(s[i], s[0]) && !BeforeI(t[j], t[0]);
  }

  lemma {:induction false} AscendingAlike(p: seq<nat>, q: seq<nat>, n: nat)
    requires Ascending(p) && Ascending(q) && Elements(p) == Elements(q)
    requires forall a :: 0 <= a < |p| ==> p[a] < n
    requires forall a :: 0 <= a < |q| ==> q[a] < n
    ensures p == q
  {
    var keys: seq<Key> := seq(n, k => Key(0.0, 0, 0));
    assert Ordered(keys, p) && Ordered(keys, q);
    forall x: nat ensures x in p <==> x in q {
      assert x in Elements(p) <==> x in Elements(q);
    }
    OrderedUnique(keys, p, q);
  }

  /** However the unstable sort leaves equal candidates, the same spans survive. */
  lemma {:induction false} TiesDoNotMatter(
      before: seq<Candidate>, s: seq<Candidate>, kept: seq<nat>, r: seq<Candidate>,
      s': seq<Candidate>, kept': seq<nat>, r': seq<Candidate>)
    requires IsSorting(before, s) && IsCompaction(s, kept, r)
    requires IsSorting(before, s') && IsCompaction(s', kept', r')
    ensures Extents(r) == Extents(r')
  {
    ExtentsTogether(s, s');
    forall i, j | 0 <= i < j < |s| ensures !BeforeI(Extents(s)[j], Extents(s)[i]) {
      assert !Before(s[j], s[i]);
    }
    forall i, j | 0 <= i < j < |s'| ensures !BeforeI(Extents(s')[j], Extents(s')[i]) {
      assert !Before(s'[j], s'[i]);
    }
    SortedAlike(Extents(s), Extents(s'));
    SamePlaceKeys(s, s');
    PlacedByFields(s, Elements(kept));
    PlacedByFields(s', Elements(kept'));
    SelectionUnique(Extents(s), PlaceKeys(s), Elements(kept), Elements(kept'));
    AscendingAlike(kept, kept', |s|);
    forall a | 0 <= a < |r| ensures Extents(r)[a] == Extents(r')[a] {
      assert Extents(s)[kept[a]] == Extents(s')[kept[a]];
    }
  }

  lemma {:induction false} SamePlaceKeys(s: seq<Candidate>, t: seq<Candidate>)
    requires Extents(s) == Extents(t)
    ensures |s| == |t| && PlaceKeys(s) == PlaceKeys(t)
  {
    assert |Extents(s)| == |s|;
    forall i | 0 <= i < |s| ensures PlaceKeys(s)[i] == PlaceKeys(t)[i] {
      assert Extents(s)[i] == Extents(t)[i];
    }
  }
}
