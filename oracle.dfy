/**
 * The process-wide `random` generator, made explicit. Instead of a seeded
 * Mersenne Twister the generator replays a fixed sequence of raw draws,
 * one per call of `RandBelow`; once the sequence is used up every draw is 0.
 * Every operation below consumes draws exactly where Python's `random`
 * module calls its internal `_randbelow`, so a fixed draw sequence plays
 * the role of a fixed seed.
 */
module Oracle {
  import opened Grid

  /** Taking `pool[j]` out of the first `m` pool entries and moving entry `m - 1` into its place. */
  lemma PoolStep<T>(pool: seq<T>, j: int, m: int)
    requires 0 <= j < m <= |pool|
    ensures multiset(pool[..m]) == multiset(pool[j := pool[m - 1]][..m - 1]) + multiset{pool[j]}
  {
    var after := pool[j := pool[m - 1]];
    assert pool[..m] == pool[..j] + [pool[j]] + pool[j + 1..m];
    if j < m - 1 {
      assert pool[j + 1..m] == pool[j + 1..m - 1] + [pool[m - 1]];
      assert after[..m - 1] == pool[..j] + [pool[m - 1]] + pool[j + 1..m - 1];
    } else {
      assert after[..m - 1] == pool[..j];
    }
  }

  class Random {
    var draws: seq<nat>
    var cursor: nat

    constructor (draws: seq<nat>)
      ensures this.draws == draws && cursor == 0
    {
      this.draws := draws;
      cursor := 0;
    }

    /** The raw draw number `i` of the sequence (0 once it is used up). */
    function Draw(i: nat): nat
      reads this
    {
      if i < |draws| then draws[i] else 0
    }

    /** The raw draw the next call will consume. */
    function Peek(): nat
      reads this
    {
      Draw(cursor)
    }

    /** `_randbelow(n)`: a number in `[0, n)`. */
    method RandBelow(n: int) returns (r: int)
      requires n > 0
      modifies this
      ensures 0 <= r < n
      ensures r == old(Peek()) % n
      ensures draws == old(draws) && cursor == old(cursor) + 1
    {
      r := Peek() % n;
      cursor := cursor + 1;
    }

    /** `randint(lo, hi)`: a number in `[lo, hi]`, both ends included. */
    method RandInt(lo: int, hi: int) returns (r: int)
      requires lo <= hi
      modifies this
      ensures lo <= r <= hi
      ensures r == lo + old(Peek()) % (hi - lo + 1)
      ensures draws == old(draws) && cursor == old(cursor) + 1
    {
      var k := RandBelow(hi - lo + 1);
      r := lo + k;
    }

    /** `shuffle(a)`: Fisher-Yates from the last position down to 1, in place. */
    method Shuffle<T>(a: array<T>)
      modifies this, a
      ensures multiset(a[..]) == multiset(old(a[..]))
      ensures draws == old(draws) && cursor == old(cursor) + (if a.Length > 0 then a.Length - 1 else 0)
    {
      var i := a.Length - 1;
      while i >= 1
        invariant 0 <= i + 1 <= a.Length && (a.Length > 0 ==> 0 <= i)
        invariant multiset(a[..]) == multiset(old(a[..]))
        invariant draws == old(draws) && cursor == old(cursor) + (a.Length - 1 - i)
      {
        var j := RandBelow(i + 1);
        a[i], a[j] := a[j], a[i];
        i := i - 1;
      }
    }

    /**
     * `sample(population, k)`: `k` elements drawn without replacement,
     * by the pool method (draw an index into the pool, take that element
     * and move the pool's last element into its place). A `k` outside
     * `[0, |population|]` is the `ValueError` case.
     */
    method Sample<T>(population: seq<T>, k: int) returns (r: Option<seq<T>>)
      modifies this
      ensures r.None? <==> k < 0 || k > |population|
      ensures r.Some? ==> |r.value| == k && multiset(r.value) <= multiset(population)
      ensures r.None? ==> cursor == old(cursor)
      ensures r.Some? ==> cursor == old(cursor) + k
      ensures draws == old(draws)
    {
      if k < 0 || k > |population| {
        return None;
      }
      var n := |population|;
      var pool := population;
      var result: seq<T> := [];
      assert pool[..n] == population;
      for i := 0 to k
        invariant |result| == i && |pool| == n
        invariant multiset(result) + multiset(pool[..n - i]) == multiset(population)
        invariant cursor == old(cursor) + i && draws == old(draws)
      {
        var j := RandBelow(n - i);
        var picked := pool[j];
        PoolStep(pool, j, n - i);
        assert multiset(result + [picked]) == multiset(result) + multiset{picked};
        pool := pool[j := pool[n - i - 1]];
        result := result + [picked];
      }
      r := Some(result);
    }
  }
}
