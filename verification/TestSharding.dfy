/** Which tests a shard runs (gtest.cc): every runnable test gets the next number,
    and the shard whose index is that number modulo the shard count takes it. */
module TestSharding {

  /** ShouldRunTestOnShard. */
  predicate ShouldRunTestOnShard(totalShards: nat, shardIndex: nat, testId: nat)
    requires totalShards > 0
  {
    testId % totalShards == shardIndex
  }

  /** The number the k-th test gets: how many runnable tests come before it. */
  ghost function IdOf(runnable: seq<bool>, k: nat): nat
    requires k <= |runnable|
  {
    if k == 0 then 0 else IdOf(runnable, k - 1) + (if runnable[k - 1] then 1 else 0)
  }

  ghost predicate Selected(runnable: seq<bool>, total: nat, shard: nat, k: nat)
    requires total > 0 && k < |runnable|
  {
    runnable[k] && ShouldRunTestOnShard(total, shard, IdOf(runnable, k))
  }

  /** How many of the first k tests the shard takes. */
  ghost function ShardSize(runnable: seq<bool>, total: nat, shard: nat, k: nat): nat
    requires total > 0 && k <= |runnable|
  {
    if k == 0 then 0
    else ShardSize(runnable, total, shard, k - 1) + (if Selected(runnable, total, shard, k - 1) then 1 else 0)
  }

  /** Every runnable test is selected on exactly one shard, the others on none. */
  lemma ExactlyOneShard(runnable: seq<bool>, total: nat, k: nat)
    requires total > 0 && k < |runnable|
    ensures runnable[k] <==> exists shard: nat :: shard < total && Selected(runnable, total, shard, k)
    ensures forall a: nat, b: nat :: Selected(runnable, total, a, k) && Selected(runnable, total, b, k) ==> a == b
  {
    var shard := IdOf(runnable, k) % total;
    assert runnable[k] ==> shard < total && Selected(runnable, total, shard, k);
  }

  /** The number of a test counts the runnable tests before it. */
  lemma {:induction false} IdCounts(runnable: seq<bool>, k: nat)
    requires k <= |runnable|
    ensures IdOf(runnable, k) == |set j | 0 <= j < k && runnable[j]|
  {
    if k > 0 {
      IdCounts(runnable, k - 1);
      var before, upTo := set j | 0 <= j < k - 1 && runnable[j], set j | 0 <= j < k && runnable[j];
      assert upTo == if runnable[k - 1] then before + {k - 1} else before;
    }
  }

  /** A shard takes the runnable test with its index as the number, and from there on every
      runnable test whose number is a multiple of the shard count further. */
  lemma TakesEvery(runnable: seq<bool>, total: nat, shard: nat, k: nat)
    requires total > 0 && shard < total && k < |runnable|
    ensures Selected(runnable, total, shard, k) <==>
      runnable[k] && exists q: nat :: |set j | 0 <= j < k && runnable[j]| == Times(q, total) + shard
  {
    IdCounts(runnable, k);
    var n := IdOf(runnable, k);
    assert n == Times(n / total, total) + n % total;
    if q: nat :| n == Times(q, total) + shard {
      DivModUnique(n, total, q, shard);
    }
  }

  function Times(q: nat, total: nat): nat { q * total }

  lemma NextModulo(n: nat, total: nat)
    requires total > 0
    ensures if n % total + 1 == total then (n + 1) / total == n / total + 1 && (n + 1) % total == 0
            else (n + 1) / total == n / total && (n + 1) % total == n % total + 1
  {
    var q, r := n / total, n % total;
    assert n + 1 == q * total + (r + 1);
    if r + 1 == total {
      assert n + 1 == (q + 1) * total;
      DivModUnique(n + 1, total, q + 1, 0);
    } else {
      DivModUnique(n + 1, total, q, r + 1);
    }
  }

  lemma DivModUnique(n: nat, total: nat, q: nat, r: nat)
    requires total > 0 && n == q * total + r && r < total
    ensures n / total == q && n % total == r
  {
    var q', r' := n / total, n % total;
    if q < q' {
      AtLeastOnce(q' - q, total);
    } else if q' < q {
      AtLeastOnce(q - q', total);
    }
  }

  lemma {:induction false} AtLeastOnce(d: nat, m: nat)
    requires d >= 1
    ensures d * m >= m
  {
    if d > 1 {
      AtLeastOnce(d - 1, m);
      assert d * m == (d - 1) * m + m;
    }
  }

  /** A shard's share of n tests. */
  ghost function Share(n: nat, total: nat, shard: nat): nat
    requires total > 0
  {
    n / total + (if shard < n % total then 1 else 0)
  }

  lemma ShareGrows(n: nat, total: nat, shard: nat)
    requires total > 0 && shard < total
    ensures Share(n + 1, total, shard) ==
      Share(n, total, shard) + (if ShouldRunTestOnShard(total, shard, n) then 1 else 0)
    ensures Share(0, total, shard) == 0
  {
    NextModulo(n, total);
    DivModUnique(0, total, 0, 0);
  }

  /** A shard takes the whole share, plus one test if its index is below the rest. */
  lemma {:induction false} ShardSizeIs(runnable: seq<bool>, total: nat, shard: nat, k: nat)
    requires total > 0 && k <= |runnable| && shard < total
    ensures ShardSize(runnable, total, shard, k) == Share(IdOf(runnable, k), total, shard)
  {
    if k == 0 {
      ShareGrows(0, total, shard);
    } else {
      ShardSizeIs(runnable, total, shard, k - 1);
      ShareGrows(IdOf(runnable, k - 1), total, shard);
    }
    hide Share, ShouldRunTestOnShard;
  }

  /** Shard sizes differ by at most one. */
  lemma ShardsAreBalanced(runnable: seq<bool>, total: nat, a: nat, b: nat)
    requires total > 0 && a < total && b < total
    ensures ShardSize(runnable, total, a, |runnable|) <= ShardSize(runnable, total, b, |runnable|) + 1
  {
    ShardSizeIs(runnable, total, a, |runnable|);
    ShardSizeIs(runnable, total, b, |runnable|);
  }

  ghost function AllShards(runnable: seq<bool>, total: nat, n: nat, k: nat): nat
    requires total > 0 && k <= |runnable|
  {
    if n == 0 then 0 else AllShards(runnable, total, n - 1, k) + ShardSize(runnable, total, n - 1, k)
  }

  lemma {:induction false} AllShardsIs(runnable: seq<bool>, total: nat, n: nat, k: nat)
    requires total > 0 && k <= |runnable| && n <= total
    ensures AllShards(runnable, total, n, k) ==
      n * (IdOf(runnable, k) / total) + (if n < IdOf(runnable, k) % total then n else IdOf(runnable, k) % total)
  {
    if n > 0 {
      AllShardsIs(runnable, total, n - 1, k);
      ShardSizeIs(runnable, total, n - 1, k);
      assert n * (IdOf(runnable, k) / total) == (n - 1) * (IdOf(runnable, k) / total) + IdOf(runnable, k) / total;
    }
  }

  /** All shards together take each runnable test once. */
  lemma ShardsShareAll(runnable: seq<bool>, total: nat)
    requires total > 0
    ensures AllShards(runnable, total, total, |runnable|) == IdOf(runnable, |runnable|)
  {
    AllShardsIs(runnable, total, total, |runnable|);
  }
}
