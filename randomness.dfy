/**
 * The random source that drives a simulation tick.
 *
 * `java.util.Random` is modelled as an oracle: the n-th draw of a source is
 * `source(n)`, so every sequence of draws the real generator could produce is
 * one choice of `source`.  The `do { r = nextInt(size); } while (...)` loops of
 * the population update are modelled by what they yield: one index, drawn among
 * the indices the loop accepts.
 */
module Randomness {

  /** The value `nextInt(bound)` returns for the n-th draw of `source`. */
  function Draw(source: nat -> nat, n: nat, bound: nat): (r: nat)
    requires bound > 0
    ensures r < bound
  {
    source(n) % bound
  }

  /** The value `nextBoolean()` returns for the n-th draw of `source`. */
  function Coin(source: nat -> nat, n: nat): (b: bool)
    ensures b <==> Draw(source, n, 2) == 1
  {
    source(n) % 2 == 1
  }

  /** `nextBoolean()` can come out either way: for each outcome some source yields it. */
  lemma CoinEitherWay(n: nat, b: bool)
    ensures exists source: nat -> nat :: Coin(source, n) == b
  {
    var source: nat -> nat := _ => if b then 1 else 0;
    assert Coin(source, n) == b;
  }

  /** The indices below `size` that a rejection loop avoiding `avoid` accepts, ascending. */
  function Eligible(size: nat, avoid: seq<nat>): (e: seq<nat>)
    ensures |e| <= size
  {
    if size == 0 then []
    else Eligible(size - 1, avoid) + (if size - 1 in avoid then [] else [size - 1])
  }

  /** The accepted indices are exactly the indices below `size` not in `avoid`, each once and in order. */
  lemma {:induction false} EligibleExactly(size: nat, avoid: seq<nat>)
    ensures var e := Eligible(size, avoid);
      && (forall x: int :: x in e <==> 0 <= x < size && x !in avoid)
      && (forall a, b :: 0 <= a < b < |e| ==> e[a] < e[b])
  {
    if size > 0 {
      var below := Eligible(size - 1, avoid);
      var tail: seq<nat> := if size - 1 in avoid then [] else [size - 1];
      var e := Eligible(size, avoid);
      EligibleExactly(size - 1, avoid);
      assert e == below + tail;
      forall x: int ensures x in e <==> 0 <= x < size && x !in avoid {
        assert (x in e) == (x in below || x in tail);
      }
      forall a, b | 0 <= a < b < |e| ensures e[a] < e[b] {
        if b < |below| {
          assert e[a] == below[a] && e[b] == below[b];
        } else {
          assert e[a] == below[a] && below[a] in below;
        }
      }
    }
  }

  /** Pigeonhole: fewer avoided values than indices leaves some index free. */
  lemma {:induction false} FreeIndex(size: nat, avoid: seq<nat>)
    requires |avoid| < size
    ensures exists x :: 0 <= x < size && x !in avoid
  {
    var m := size - 1;
    if m in avoid {
      var j :| 0 <= j < |avoid| && avoid[j] == m;
      var rest := avoid[..j] + avoid[j + 1..];
      assert avoid == avoid[..j] + [m] + avoid[j + 1..];
      FreeIndex(m, rest);
      var x :| 0 <= x < m && x !in rest;
      assert x !in avoid;
    }
  }

  /** Every rejection loop of the update has an index it accepts. */
  lemma EligibleNonEmpty(size: nat, avoid: seq<nat>)
    requires |avoid| < size
    ensures |Eligible(size, avoid)| > 0
  {
    FreeIndex(size, avoid);
    var x :| 0 <= x < size && x !in avoid;
    EligibleExactly(size, avoid);
    assert x in Eligible(size, avoid);
  }

  /** The index a rejection loop avoiding `avoid` settles on, given the n-th draw. */
  function DrawAvoiding(size: nat, avoid: seq<nat>, source: nat -> nat, n: nat): (r: nat)
    requires |avoid| < size
    ensures r < size && r !in avoid
  {
    EligibleNonEmpty(size, avoid);
    EligibleExactly(size, avoid);
    var e := Eligible(size, avoid);
    var d := Draw(source, n, |e|);
    assert e[d] in e;
    e[d]
  }

  /** A value below the divisor is its own remainder. */
  lemma SmallRemainder(d: nat, m: nat)
    requires d < m
    ensures d % m == d
  {
  }

  /** No accepted index is out of reach: for each one some draw selects it. */
  lemma EveryEligibleReachable(size: nat, avoid: seq<nat>, n: nat, x: nat)
    requires |avoid| < size
    requires x < size && x !in avoid
    ensures exists source: nat -> nat :: DrawAvoiding(size, avoid, source, n) == x
  {
    var e := Eligible(size, avoid);
    EligibleExactly(size, avoid);
    assert x in e;
    var d :| 0 <= d < |e| && e[d] == x;
    var source: nat -> nat := _ => d;
    assert source(n) == d;
    SmallRemainder(d, |e|);
    assert Draw(source, n, |e|) == d;
    assert DrawAvoiding(size, avoid, source, n) == x;
  }

  /** A random number generator whose draws come from an oracle. */
  class Random {
    const source: nat -> nat
    var calls: nat

    constructor (source: nat -> nat)
      ensures this.source == source && calls == 0
    {
      this.source := source;
      calls := 0;
    }

    method NextInt(bound: nat) returns (r: nat)
      requires bound > 0
      modifies this
      ensures r < bound
      ensures r == Draw(source, old(calls), bound) && calls == old(calls) + 1
    {
      r := source(calls) % bound;
      calls := calls + 1;
    }

    method NextBoolean() returns (b: bool)
      modifies this
      ensures b == Coin(source, old(calls)) && calls == old(calls) + 1
    {
      b := source(calls) % 2 == 1;
      calls := calls + 1;
    }

    /**
     * `do { r = nextInt(size); } while (avoid contains r);`, by its outcome:
     * one draw picks among the indices the loop accepts.
     */
    method NextIntAvoiding(size: nat, avoid: seq<nat>) returns (r: nat)
      requires |avoid| < size
      modifies this
      ensures r < size && r !in avoid
      ensures r == DrawAvoiding(size, avoid, source, old(calls)) && calls == old(calls) + 1
    {
      EligibleNonEmpty(size, avoid);
      EligibleExactly(size, avoid);
      var e := Eligible(size, avoid);
      var d := NextInt(|e|);
      r := e[d];
      assert r in e;
    }
  }
}
