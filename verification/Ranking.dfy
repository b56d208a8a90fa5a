/** Stable sorting, as the order it leaves the elements in.

    Python's `sorted(xs, key=k)` keeps the input order of elements whose keys are equal, also
    with `reverse=True`. A call is modelled by the seq of keys it sorts by; its result is the
    ranking of the input positions, which is unique. */
module Ranking {
  /** A sort key, compared field by field. */
  datatype Key = Key(major: real, minor: int, last: int)

  predicate Less(a: Key, b: Key) {
    || a.major < b.major
    || (a.major == b.major && a.minor < b.minor)
    || (a.major == b.major && a.minor == b.minor && a.last < b.last)
  }

  /** Position `i` comes before position `j`: by key, and by position when the keys are equal. */
  predicate Precedes(keys: seq<Key>, i: nat, j: nat) {
    && i < |keys| && j < |keys|
    && (Less(keys[i], keys[j]) || (keys[i] == keys[j] && i < j))
  }

  ghost predicate Ordered(keys: seq<Key>, p: seq<nat>) {
    && (forall a :: 0 <= a < |p| ==> p[a] < |keys|)
    && (forall a, b :: 0 <= a < b < |p| ==> Precedes(keys, p[a], p[b]))
  }

  ghost predicate IsRanking(keys: seq<Key>, p: seq<nat>) {
    && Ordered(keys, p)
    && (forall i: nat :: i < |keys| ==> i in p)
  }

  predicate Distinct(p: seq<nat>) {
    forall a, b :: 0 <= a < b < |p| ==> p[a] != p[b]
  }

  predicate Ascending(p: seq<nat>) {
    forall a, b :: 0 <= a < b < |p| ==> p[a] < p[b]
  }

  /** The elements of `s` at the positions `p`. */
  function Pick<T>(s: seq<T>, p: seq<nat>): (r: seq<T>)
    requires forall a :: 0 <= a < |p| ==> p[a] < |s|
    ensures |r| == |p| && forall a :: 0 <= a < |p| ==> r[a] == s[p[a]]
  {
    seq(|p|, a requires 0 <= a < |p| => s[p[a]])
  }

  function Insert(keys: seq<Key>, i: nat, p: seq<nat>): (r: seq<nat>)
    requires i < |keys| && i !in p && Ordered(keys, p)
    ensures Ordered(keys, r)
    ensures |r| == |p| + 1 && forall x: nat :: x in r <==> x == i || x in p
  {
    if p == [] then [i]
    else if Precedes(keys, i, p[0]) then
      [i] + p
    else
      var rest := Insert(keys, i, p[1..]);
      assert p == [p[0]] + p[1..];
      assert forall x: nat :: x in rest ==> Precedes(keys, p[0], x);
      [p[0]] + rest
  }

  function RankUpTo(keys: seq<Key>, n: nat): (p: seq<nat>)
    requires n <= |keys|
    ensures Ordered(keys, p)
    ensures |p| == n && forall x: nat :: x in p <==> x < n
  {
    if n == 0 then []
    else
      var p := Insert(keys, n - 1, RankUpTo(keys, n - 1));
      assert forall x: nat :: x in p <==> x == n - 1 || x < n - 1;
      p
  }

  /** The positions of `keys` in the order a stable sort leaves them. */
  function Rank(keys: seq<Key>): (p: seq<nat>)
    ensures IsRanking(keys, p) && |p| == |keys|
  {
    RankUpTo(keys, |keys|)
  }

  /** Where the ranking puts position `i`. */
  lemma {:induction false} RankPosition(keys: seq<Key>, i: nat) returns (a: nat)
    requires i < |keys|
    ensures a < |Rank(keys)| && Rank(keys)[a] == i
  {
    assert i in Rank(keys);
    a :| 0 <= a < |Rank(keys)| && Rank(keys)[a] == i;
  }

  /** Two ordered seqs of positions with the same members are the same seq. */
  lemma {:induction false} OrderedUnique(keys: seq<Key>, p: seq<nat>, q: seq<nat>)
    requires Ordered(keys, p) && Ordered(keys, q)
    requires forall x :: x in p <==> x in q
    ensures p == q
  {
    assert |p| > 0 ==> p[0] in q;
    assert |q| > 0 ==> q[0] in p;
    if p != [] {
      var a :| 0 <= a < |q| && q[a] == p[0];
      var b :| 0 <= b < |p| && p[b] == q[0];
      assert p[0] == q[0];
      forall x ensures x in p[1..] <==> x in q[1..] {
        TailMembers(keys, p, x);
        TailMembers(keys, q, x);
      }
      OrderedUnique(keys, p[1..], q[1..]);
      assert p == [p[0]] + p[1..] && q == [q[0]] + q[1..];
    }
  }

  lemma {:induction false} TailMembers(keys: seq<Key>, p: seq<nat>, x: nat)
    requires Ordered(keys, p) && p != []
    ensures x in p[1..] <==> x in p && x != p[0]
  {
    if x in p && x != p[0] {
      var b :| 0 <= b < |p| && p[b] == x;
      assert p[1..][b - 1] == x;
    }
  }

  /** A stable sort leaves a list alone when its keys already ascend. */
  lemma {:induction false} AscendingStays(keys: seq<Key>)
    requires forall a, b :: 0 <= a < b < |keys| ==> !Less(keys[b], keys[a])
    ensures Rank(keys) == seq(|keys|, i => i)
  {
    var p: seq<nat> := seq(|keys|, i => i);
    assert Ordered(keys, p) by {
      forall a, b | 0 <= a < b < |p| ensures Precedes(keys, p[a], p[b]) {
        assert !Less(keys[b], keys[a]);
      }
    }
    forall x: nat ensures x in Rank(keys) <==> x in p {
      if x < |keys| { assert p[x] == x; }
    }
    OrderedUnique(keys, Rank(keys), p);
  }
}
