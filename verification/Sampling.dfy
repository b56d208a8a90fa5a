/** Drawing uniform numbers below `n` from uniform 64-bit words, by rejection. */
module Sampling {
  const WORDS: nat := 0x1_0000_0000_0000_0000

  /** The Python limit: the largest multiple of `n` not above 2^64. */
  function Limit(n: nat): nat
    requires n > 0
  {
    (WORDS / n) * n
  }

  /** The Go limit, computed in unsigned 64-bit arithmetic from the largest word. */
  function GoLimit(n: nat): nat
    requires n > 0
  {
    ((WORDS - 1) / n) * n
  }

  /** The words below `limit` that are drawn as `r`. */
  function Drawn(limit: nat, n: nat, r: nat): set<nat>
    requires n > 0
  {
    set v: nat | v < limit && v % n == r
  }

  lemma {:induction false} ResidueOf(q: nat, n: nat, v: nat)
    requires n > 0 && q * n <= v < (q + 1) * n
    ensures v % n == v - q * n
  {
    var k := v - q * n;
    assert v == q * n + k && 0 <= k < n;
    DivModUnique(q, k, n, v);
  }

  lemma {:induction false} DivModUnique(q: nat, k: nat, n: nat, v: nat)
    requires n > 0 && v == q * n + k && k < n
    ensures v / n == q && v % n == k
  {
    var d := v / n - q;
    assert v == (v / n) * n + v % n;
    assert d * n == k - v % n;
    assert d >= 1 ==> d * n >= n;
    assert d <= -1 ==> d * n <= 0 - n;
  }

  /** Below a multiple of `n`, every residue is drawn equally often. */
  lemma {:induction false} EvenlySpread(q: nat, n: nat, r: nat)
    requires n > 0 && r < n
    ensures |Drawn(q * n, n, r)| == q
  {
    hide Drawn;
    if q == 0 {
      NothingDrawn(n, r);
    } else {
      var k := q - 1;
      EvenlySpread(k, n, r);
      OneMoreRound(k, n, r);
      assert k + 1 == q;
    }
  }

  lemma {:induction false} NothingDrawn(n: nat, r: nat)
    requires n > 0
    ensures Drawn(0 * n, n, r) == {}
  {
  }

  lemma {:induction false} OneMoreRound(q: nat, n: nat, r: nat)
    requires n > 0 && r < n
    ensures q * n + r !in Drawn(q * n, n, r)
    ensures Drawn((q + 1) * n, n, r) == Drawn(q * n, n, r) + {q * n + r}
  {
    assert (q + 1) * n == q * n + n;
    DivModUnique(q, r, n, q * n + r);
    forall v: nat | v < (q + 1) * n && v % n == r ensures v < q * n || v == q * n + r {
      if v >= q * n {
        ResidueOf(q, n, v);
      }
    }
  }

  /** Exactly uniform: each residue has the same number of accepted words, in both services. */
  lemma {:induction false} ExactlyUniform(n: nat, r: nat)
    requires 0 < n < WORDS / 2 && r < n
    ensures |Drawn(Limit(n), n, r)| == WORDS / n > 0
    ensures |Drawn(GoLimit(n), n, r)| == (WORDS - 1) / n > 0
  {
    EvenlySpread(WORDS / n, n, r);
    EvenlySpread((WORDS - 1) / n, n, r);
    AtLeastOne(WORDS, n);
    AtLeastOne(WORDS - 1, n);
  }

  lemma {:induction false} AtLeastOne(m: nat, n: nat)
    requires 0 < n <= m
    ensures m / n >= 1
    ensures m < (m / n) * n + n
    ensures (m / n) * n <= m
  {
    assert m == (m / n) * n + m % n;
    var q := m / n;
    assert q == 0 ==> q * n == 0;
  }

  /** At least half of all words are accepted, and the Go product fits a word. */
  lemma {:induction false} HalfAccepted(n: nat)
    requires 0 < n < WORDS / 2
    ensures 2 * Limit(n) >= WORDS && Limit(n) <= WORDS
    ensures 2 * GoLimit(n) >= WORDS && GoLimit(n) < WORDS
  {
    Multiple(WORDS, n);
    Multiple(WORDS - 1, n);
  }

  lemma {:induction false} Multiple(m: nat, n: nat)
    requires 0 < n <= m
    ensures 2 * ((m / n) * n) > m && (m / n) * n <= m
  {
    AtLeastOne(m, n);
    AtLeastN(m / n, n);
  }

  lemma {:induction false} AtLeastN(q: nat, n: nat)
    requires q >= 1
    ensures q * n >= n
  {
    assert (q - 1) * n >= 0;
  }

  /** The two limits differ exactly when `n` divides 2^64; then Go throws away one more round. */
  lemma {:induction false} LimitsAgree(n: nat)
    requires 0 < n < WORDS / 2
    ensures Limit(n) == GoLimit(n) <==> WORDS % n != 0
    ensures WORDS % n == 0 ==> GoLimit(n) == WORDS - n
  {
    var q, k := WORDS / n, WORDS % n;
    assert WORDS == q * n + k;
    AtLeastOne(WORDS, n);
    if k == 0 {
      assert (q - 1) * n == q * n - n;
      DivModUnique(q - 1, n - 1, n, WORDS - 1);
    } else {
      DivModUnique(q, k - 1, n, WORDS - 1);
    }
  }

  /** A keyed hash stream: word `k` is the hash of the key and `k`. */
  class DeterministicStream {
    const word: nat -> nat
    var counter: nat

    constructor (word: nat -> nat)
      ensures this.word == word && counter == 0
    {
      this.word, counter := word, 0;
    }

    /** The loop of both services: the first word below the limit decides. `accepted` is some
        position at which one comes. */
    method Draw(n: nat, limit: nat, ghost accepted: nat) returns (r: nat)
      requires n > 0 && counter <= accepted && word(accepted) < limit
      modifies this
      ensures r < n && counter > old(counter)
      ensures word(counter - 1) < limit && r == word(counter - 1) % n
      ensures forall k :: old(counter) <= k < counter - 1 ==> word(k) >= limit
    {
      while true
        invariant old(counter) <= counter <= accepted
        invariant forall k :: old(counter) <= k < counter ==> word(k) >= limit
        decreases accepted - counter
      {
        var value := word(counter);
        counter := counter + 1;
        if value < limit {
          return value % n;
        }
      }
    }

    method RandBelow(n: nat, ghost accepted: nat) returns (r: nat)
      requires n > 0 && counter <= accepted && word(accepted) < Limit(n)
      modifies this
      ensures r < n && counter > old(counter) && r in Residues(counter - 1, Limit(n), n)
      ensures forall k :: old(counter) <= k < counter - 1 ==> word(k) >= Limit(n)
    {
      r := Draw(n, (WORDS / n) * n, accepted);
    }

    method GoIntn(n: nat, ghost accepted: nat) returns (r: nat)
      requires n > 0 && counter <= accepted && word(accepted) < GoLimit(n)
      modifies this
      ensures r < n && counter > old(counter) && r in Residues(counter - 1, GoLimit(n), n)
      ensures forall k :: old(counter) <= k < counter - 1 ==> word(k) >= GoLimit(n)
    {
      r := Draw(n, ((WORDS - 1) / n) * n, accepted);
    }

    /** The number drawn at position `k`, if its word is accepted. */
    function Residues(k: nat, limit: nat, n: nat): set<nat>
      requires n > 0
    {
      if word(k) < limit then {word(k) % n} else {}
    }
  }
}
