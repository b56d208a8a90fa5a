/** Greedy choice of non-overlapping spans by rank: the highest-ranked span is kept, and a
    later one is kept when it meets nothing kept before it. */
module Selection {
  import opened Ranking

  datatype Interval = Interval(start: nat, end: nat)

  predicate Overlaps(a: Interval, b: Interval) {
    a.start < b.end && b.start < a.end
  }

  predicate Meets(all: seq<Interval>, kept: seq<nat>, i: nat) {
    i < |all| && exists k :: k in kept && k < |all| && Overlaps(all[i], all[k])
  }

  /** The positions kept after the first `n` entries of `order`. */
  function Greedy(all: seq<Interval>, order: seq<nat>, n: nat): (kept: seq<nat>)
    requires n <= |order|
  {
    if n == 0 then []
    else
      var kept := Greedy(all, order, n - 1);
      if Meets(all, kept, order[n - 1]) then kept else kept + [order[n - 1]]
  }

  lemma {:induction false} GreedyNone(all: seq<Interval>, order: seq<nat>)
    ensures Greedy(all, order, 0) == []
  {
  }

  lemma {:induction false} GreedyStep(all: seq<Interval>, order: seq<nat>, n: nat)
    requires n < |order|
    ensures var kept := Greedy(all, order, n);
            Greedy(all, order, n + 1) == if Meets(all, kept, order[n]) then kept else kept + [order[n]]
  {
  }

  /** Comparing a span with the list of occupied ones is comparing it with everything kept. */
  lemma {:induction false} OccupiedDecides(all: seq<Interval>, kept: seq<nat>, occupied: seq<Interval>, i: nat)
    requires i < |all| && forall k :: 0 <= k < |kept| ==> kept[k] < |all|
    requires occupied == Pick(all, kept)
    ensures Meets(all, kept, i) <==> exists k :: 0 <= k < |occupied| && Overlaps(all[i], occupied[k])
  {
    if k :| 0 <= k < |occupied| && Overlaps(all[i], occupied[k]) {
      assert kept[k] in kept && Overlaps(all[i], all[kept[k]]);
    }
    if j :| j in kept && j < |all| && Overlaps(all[i], all[j]) {
      var k :| 0 <= k < |kept| && kept[k] == j;
      assert Overlaps(all[i], occupied[k]);
    }
  }

  /** What a reader expects of the selection, with no reference to how it is computed: a span
      is kept exactly when no kept span of higher rank overlaps it. */
  ghost predicate IsSelection(all: seq<Interval>, keys: seq<Key>, kept: set<nat>) {
    && (forall i :: i in kept ==> i < |all|)
    && (forall i: nat :: i < |all| ==> (i in kept <==> !Beaten(all, keys, kept, i)))
  }

  ghost predicate Beaten(all: seq<Interval>, keys: seq<Key>, kept: set<nat>, i: nat) {
    exists j :: j in kept && Beats(all, keys, j, i)
  }

  predicate Beats(all: seq<Interval>, keys: seq<Key>, j: nat, i: nat) {
    i < |all| && j < |all| && Precedes(keys, j, i) && Overlaps(all[i], all[j])
  }

  function Elements(s: seq<nat>): (r: set<nat>)
    ensures forall x: nat :: x in r <==> x in s
  {
    set x | x in s
  }

  /** The greedy run never revises an earlier decision. */
  lemma {:induction false} GreedyGrows(all: seq<Interval>, order: seq<nat>, a: nat, n: nat)
    requires a <= n <= |order|
    ensures forall k :: k in Greedy(all, order, a) ==> k in Greedy(all, order, n)
    ensures forall k :: k in Greedy(all, order, n) ==>
              k in Greedy(all, order, a) || exists c :: a <= c < n && order[c] == k
    ensures forall c :: 0 <= c < n && order[c] !in Greedy(all, order, n) ==> Meets(all, Greedy(all, order, n), order[c])
    decreases n
  {
    if a < n {
      GreedyGrows(all, order, a, n - 1);
      assert forall k :: k in Greedy(all, order, n) ==> k in Greedy(all, order, n - 1) || k == order[n - 1];
    } else if n > 0 {
      GreedyGrows(all, order, n - 1, n - 1);
      assert forall k :: k in Greedy(all, order, n - 1) ==> k in Greedy(all, order, n);
    }
  }

  /** The greedy run keeps a position iff nothing kept before it meets it. */
  lemma {:induction false} GreedyDecides(all: seq<Interval>, order: seq<nat>, a: nat)
    requires a < |order|
    requires Distinct(order)
    ensures order[a] in Greedy(all, order, |order|) <==> !Meets(all, Greedy(all, order, a), order[a])
    ensures forall k :: k in Greedy(all, order, a) ==> exists c :: 0 <= c < a && order[c] == k
  {
    GreedyGrows(all, order, 0, a);
    GreedyGrows(all, order, a + 1, |order|);
  }

  /** The greedy run over the ranking is the selection. */
  lemma {:induction false} GreedySelects(all: seq<Interval>, keys: seq<Key>)
    requires |keys| == |all|
    ensures IsSelection(all, keys, Elements(Greedy(all, Rank(keys), |all|)))
  {
    var p := Rank(keys);
    forall i: nat | i < |all|
      ensures i in Greedy(all, p, |all|) <==> !Beaten(all, keys, Elements(Greedy(all, p, |all|)), i)
    {
      GreedyFollowsRank(all, keys, p, i);
    }
    GreedyGrows(all, p, 0, |all|);
  }

  lemma {:induction false} GreedyFollowsRank(all: seq<Interval>, keys: seq<Key>, p: seq<nat>, i: nat)
    requires |keys| == |all| == |p| && IsRanking(keys, p) && i < |all|
    ensures i in Greedy(all, p, |all|) <==> !Beaten(all, keys, Elements(Greedy(all, p, |all|)), i)
  {
    var kept := Greedy(all, p, |all|);
    assert i in p;
    var a :| 0 <= a < |p| && p[a] == i;
    DistinctRanking(keys, p);
    GreedyDecides(all, p, a);
    GreedyGrows(all, p, a, |all|);
    if Beaten(all, keys, Elements(kept), i) {
      var j :| j in kept && Beats(all, keys, j, i);
      EarlierKept(all, keys, p, a, j);
    }
    if Meets(all, Greedy(all, p, a), i) {
      var k :| k in Greedy(all, p, a) && k < |all| && Overlaps(all[i], all[k]);
      var c :| 0 <= c < a && p[c] == k;
      assert Beats(all, keys, k, i);
    }
  }

  lemma {:induction false} DistinctRanking(keys: seq<Key>, p: seq<nat>)
    requires IsRanking(keys, p)
    ensures Distinct(p)
  {
    forall a, b | 0 <= a < b < |p| ensures p[a] != p[b] {
      assert Precedes(keys, p[a], p[b]);
    }
  }

  /** A kept position that beats the one at place `a` was already kept there. */
  lemma {:induction false} EarlierKept(all: seq<Interval>, keys: seq<Key>, p: seq<nat>, a: nat, j: nat)
    requires |keys| == |all| == |p| && IsRanking(keys, p) && a < |p|
    requires j in Greedy(all, p, |all|) && Beats(all, keys, j, p[a])
    ensures Meets(all, Greedy(all, p, a), p[a])
  {
    GreedyGrows(all, p, a, |all|);
    assert forall c :: a <= c < |p| ==> a == c || Precedes(keys, p[a], p[c]);
  }

  /** There is only one selection. */
  lemma {:induction false} SelectionUnique(all: seq<Interval>, keys: seq<Key>, one: set<nat>, two: set<nat>)
    requires |keys| == |all|
    requires IsSelection(all, keys, one) && IsSelection(all, keys, two)
    ensures one == two
  {
    forall i: nat | i < |all| ensures i in one <==> i in two {
      var a := RankPosition(keys, i);
      SelectionsAgree(all, keys, one, two, a);
    }
  }

  lemma {:induction false} SelectionsAgree(
      all: seq<Interval>, keys: seq<Key>, one: set<nat>, two: set<nat>, a: nat)
    requires |keys| == |all| && a < |all|
    requires IsSelection(all, keys, one) && IsSelection(all, keys, two)
    ensures Rank(keys)[a] in one <==> Rank(keys)[a] in two
  {
    var i := Rank(keys)[a];
    forall j: nat | Beats(all, keys, j, i) ensures j in one <==> j in two {
      var b := RankPosition(keys, j);
      assert b < a;
      SelectionsAgree(all, keys, one, two, b);
    }
    assert Beaten(all, keys, one, i) <==> Beaten(all, keys, two, i);
  }

  /** Kept spans are pairwise disjoint. */
  lemma {:induction false} SelectionDisjoint(all: seq<Interval>, keys: seq<Key>, kept: set<nat>)
    requires |keys| == |all| && IsSelection(all, keys, kept)
    ensures forall i, j :: i in kept && j in kept && i != j ==> !Overlaps(all[i], all[j])
  {
    forall i, j | i in kept && j in kept && i != j ensures !Overlaps(all[i], all[j]) {
      assert Precedes(keys, i, j) || Precedes(keys, j, i);
      assert !Beats(all, keys, i, j) && !Beats(all, keys, j, i);
    }
  }
}
