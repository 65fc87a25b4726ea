/** The round-robin and the weighted balancer of rpc_src/conn_balancer, over a list of n servers. */
module Balancers {

  /** A `size_t` counter wraps here. */
  const COUNTER: nat := 0x1_0000_0000_0000_0000

  const INT_MAX: nat := 0x7fff_ffff

  class RoundRobin {
    var index: nat

    constructor ()
      ensures index == 0
    {
      index := 0;
    }

    method Select(instances: seq<string>) returns (server: string)
      requires index < COUNTER
      modifies this
      ensures index < COUNTER
      ensures instances == [] ==> server == "" && index == old(index)
      ensures instances != [] ==> server == instances[old(index) % |instances|] && index == (old(index) + 1) % COUNTER
    {
      if instances == [] {
        return "";
      }
      var taken := index;
      index := (index + 1) % COUNTER;
      return instances[taken % |instances|];
    }
  }

  class WeightedRoundRobin {
    var index: nat

    constructor ()
      ensures index == 0
    {
      index := 0;
    }

    /** The prefix sums of the weights amount to a plain lookup; the last line is never reached. */
    method Select(instances: seq<string>) returns (server: string)
      requires index < INT_MAX && |instances| <= INT_MAX
      modifies this
      ensures index < INT_MAX
      ensures instances == [] ==> server == "" && index == old(index)
      ensures instances != [] ==> index == (old(index) + 1) % |instances| && server == instances[index]
    {
      if instances == [] {
        return "";
      }
      var weights := seq(|instances|, _ => 1);
      var totalWeight := 0;
      for k := 0 to |weights|
        invariant totalWeight == k
      {
        totalWeight := totalWeight + weights[k];
      }
      index := (index + 1) % totalWeight;
      var currentWeight := 0;
      var i := 0;
      while i < |instances|
        invariant 0 <= i <= |instances| && currentWeight == i && i <= index
      {
        currentWeight := currentWeight + weights[i];
        if index < currentWeight {
          return instances[i];
        }
        i := i + 1;
      }
      assert false;
    }
  }

  // ----- sequences of picks -----

  /** The servers `count` successive selects pick, from the given counter. */
  function RoundPicks(index: nat, n: nat, count: nat): (p: seq<nat>)
    requires n > 0
    ensures |p| == count && forall k :: 0 <= k < count ==> p[k] < n
    decreases count
  {
    if count == 0 then [] else [index % n] + RoundPicks((index + 1) % COUNTER, n, count - 1)
  }

  function WeightedPicks(index: nat, n: nat, count: nat): (p: seq<nat>)
    requires n > 0
    ensures |p| == count && forall k :: 0 <= k < count ==> p[k] < n
    decreases count
  {
    if count == 0 then []
    else var next := (index + 1) % n; [next] + WeightedPicks(next, n, count - 1)
  }

  /** What the caller of successive selects sees are these picks. */
  method SelectRound(balancer: RoundRobin, instances: seq<string>, count: nat) returns (servers: seq<string>)
    requires instances != [] && balancer.index < COUNTER
    modifies balancer
    ensures balancer.index < COUNTER && |servers| == count
    ensures forall k :: 0 <= k < count ==>
              servers[k] == instances[RoundPicks(old(balancer.index), |instances|, count)[k]]
  {
    ghost var picks := RoundPicks(balancer.index, |instances|, count);
    servers := [];
    for i := 0 to count
      invariant balancer.index < COUNTER && |servers| == i
      invariant picks[i..] == RoundPicks(balancer.index, |instances|, count - i)
      invariant forall k :: 0 <= k < i ==> servers[k] == instances[picks[k]]
    {
      assert picks[i..][0] == picks[i] && picks[i..][1..] == picks[i + 1..];
      var server := balancer.Select(instances);
      servers := servers + [server];
    }
  }

  method SelectWeighted(balancer: WeightedRoundRobin, instances: seq<string>, count: nat) returns (servers: seq<string>)
    requires instances != [] && balancer.index < INT_MAX && |instances| <= INT_MAX
    modifies balancer
    ensures balancer.index < INT_MAX && |servers| == count
    ensures forall k :: 0 <= k < count ==>
              servers[k] == instances[WeightedPicks(old(balancer.index), |instances|, count)[k]]
  {
    ghost var picks := WeightedPicks(balancer.index, |instances|, count);
    servers := [];
    for i := 0 to count
      invariant balancer.index < INT_MAX && |servers| == i
      invariant picks[i..] == WeightedPicks(balancer.index, |instances|, count - i)
      invariant forall k :: 0 <= k < i ==> servers[k] == instances[picks[k]]
    {
      assert picks[i..][0] == picks[i] && picks[i..][1..] == picks[i + 1..];
      var server := balancer.Select(instances);
      servers := servers + [server];
    }
  }

  lemma {:induction false} RoundPickAt(index: nat, n: nat, count: nat, k: nat)
    requires n > 0 && k < count && index < COUNTER
    ensures RoundPicks(index, n, count)[k] == (index + k) % COUNTER % n
    decreases count
  {
    if k == 0 {
      CounterWrap(index);
    } else {
      var next := (index + 1) % COUNTER;
      RoundPickAt(next, n, count - 1, k - 1);
      ModAdd(index + 1, k - 1, COUNTER);
      assert (next + (k - 1)) % COUNTER == (index + k) % COUNTER;
    }
  }

  lemma {:induction false} WeightedPickAt(index: nat, n: nat, count: nat, k: nat)
    requires n > 0 && k < count
    ensures WeightedPicks(index, n, count)[k] == (index + 1 + k) % n
    decreases count
  {
    if k > 0 {
      var next := (index + 1) % n;
      WeightedPickAt(next, n, count - 1, k - 1);
      ModAdd(index + 1, k, n);
      assert next + 1 + (k - 1) == next + k;
    }
  }

  /** Each of the n servers is picked exactly once. */
  ghost predicate EachOnce(p: seq<nat>, n: nat) {
    && |p| == n
    && (forall i, j :: 0 <= i < j < |p| ==> p[i] != p[j])
    && (forall v: nat :: v < n ==> v in p)
  }

  // ----- remainders -----

  lemma MulGrows(d: int, n: int)
    requires n > 0
    ensures d >= 1 ==> d * n >= n
    ensures d <= -1 ==> d * n <= -n
  {
    if d >= 1 { assert d * n == (d - 1) * n + n; }
    if d <= -1 { assert d * n == (d + 1) * n - n; }
  }

  /** A quotient and a remainder are what they must be. */
  lemma ModUnique(x: int, q: int, r: int, n: int)
    requires 0 <= r < n && x == q * n + r
    ensures x % n == r
  {
    var p, s := x / n, x % n;
    assert x == p * n + s;
    assert (q - p) * n == s - r;
    MulGrows(q - p, n);
  }

  lemma ModAdd(a: int, k: int, n: int)
    requires n > 0
    ensures (a % n + k) % n == (a + k) % n
  {
    var b := a % n + k;
    assert a == a / n * n + a % n && b == b / n * n + b % n;
    assert a + k == (a / n + b / n) * n + b % n;
    ModUnique(a + k, a / n + b / n, b % n, n);
  }

  lemma ModSmall(x: int, n: int)
    requires n > 0
    ensures 0 <= x < n ==> x % n == x
    ensures n <= x < n + n ==> x % n == x - n
    ensures -n <= x < 0 ==> x % n == x + n
  {
    if 0 <= x < n { ModUnique(x, 0, x, n); }
    if n <= x < n + n { ModUnique(x, 1, x - n, n); }
    if -n <= x < 0 { ModUnique(x, -1, x + n, n); }
  }

  lemma ModApart(a: nat, b: nat, n: nat)
    requires n > 0 && a < b < a + n
    ensures a % n != b % n
  {
    var r, d := a % n, b - a;
    ModAdd(a, d, n);
    ModSmall(r + d, n);
  }

  /** Consecutive numbers hit every residue once. */
  lemma ConsecutiveEachOnce(p: seq<nat>, s: nat, n: nat)
    requires n > 0 && |p| == n && forall i: nat :: i < n ==> p[i] == (s + i) % n
    ensures EachOnce(p, n)
  {
    forall i, j | 0 <= i < j < |p| ensures p[i] != p[j] { ModApart(s + i, s + j, n); }
    forall v: nat | v < n ensures v in p {
      var r := s % n;
      var i := if v >= r then v - r else v + n - r;
      ModAdd(s, i, n);
      ModSmall(r + i, n);
      assert p[i] == v;
    }
  }

  /** The weighted balancer is fair over every window of n selects, from every state. */
  lemma WeightedFair(index: nat, n: nat)
    requires n > 0
    ensures EachOnce(WeightedPicks(index, n, n), n)
  {
    var p := WeightedPicks(index, n, n);
    forall i: nat | i < n ensures p[i] == (index + 1 + i) % n { WeightedPickAt(index, n, n, i); }
    ConsecutiveEachOnce(p, index + 1, n);
  }

  lemma CounterWrap(x: nat)
    requires x < COUNTER + COUNTER
    ensures x % COUNTER == if x < COUNTER then x else x - COUNTER
  {
  }

  /** The pick as long as the counter wraps at most once. */
  lemma RoundPickOf(index: nat, n: nat, i: nat)
    requires 0 < n <= COUNTER && index < COUNTER && i < n
    ensures RoundPicks(index, n, n)[i] == (if index + i < COUNTER then index + i else index + i - COUNTER) % n
  {
    RoundPickAt(index, n, n, i);
    CounterWrap(index + i);
  }

  lemma RoundFairUnwrapped(index: nat, n: nat)
    requires 0 < n <= COUNTER && index < COUNTER && (index + n <= COUNTER || COUNTER % n == 0)
    ensures EachOnce(RoundPicks(index, n, n), n)
  {
    var p := RoundPicks(index, n, n);
    forall i: nat | i < n ensures p[i] == (index + i) % n {
      RoundPickOf(index, n, i);
      if index + i >= COUNTER { ModAdd(COUNTER, index + i - COUNTER, n); }
    }
    ConsecutiveEachOnce(p, index, n);
  }

  /** Across the wrap two of the n selects agree unless n divides 2^64. */
  lemma RoundUnfair(index: nat, n: nat)
    requires 0 < n <= COUNTER && COUNTER % n != 0 && index < COUNTER < index + n
    ensures !EachOnce(RoundPicks(index, n, n), n)
  {
    var p := RoundPicks(index, n, n);
    var r, m := COUNTER % n, COUNTER - index;
    if r <= n - m {
      RoundPickOf(index, n, m - 1);
      RoundPickOf(index, n, m + r - 1);
      ModAdd(COUNTER, -1, n);
      ModSmall(r - 1, n);
      assert p[m - 1] == r - 1 == p[m + r - 1];
    } else {
      var i := n - 1 - r;
      RoundPickOf(index, n, i);
      RoundPickOf(index, n, n - 1);
      ModAdd(COUNTER, n - 1 - r - m, n);
      ModSmall(n - 1 - m, n);
      assert p[i] == n - m - 1 == p[n - 1];
    }
  }

  /** Round robin is fair over a window exactly when the counter does not wrap inside it or n divides 2^64. */
  lemma RoundFairExactly(index: nat, n: nat)
    requires 0 < n <= COUNTER && index < COUNTER
    ensures EachOnce(RoundPicks(index, n, n), n) <==> index + n <= COUNTER || COUNTER % n == 0
  {
    if index + n <= COUNTER || COUNTER % n == 0 { RoundFairUnwrapped(index, n); } else { RoundUnfair(index, n); }
  }

  /** From fresh state the weighted balancer is round robin without its first pick. */
  lemma WeightedFollowsRound(n: nat, count: nat)
    requires 0 < n && count < COUNTER
    ensures RoundPicks(0, n, count + 1) == [0] + WeightedPicks(0, n, count)
  {
    var a, b := RoundPicks(0, n, count + 1), [0] + WeightedPicks(0, n, count);
    forall k: nat | k < |a| ensures a[k] == b[k] {
      RoundPickAt(0, n, count + 1, k);
      CounterWrap(k);
      if k > 0 {
        WeightedPickAt(0, n, count, k - 1);
      } else {
        ModSmall(0, n);
      }
    }
  }
}
