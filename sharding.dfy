/**
 * Splitting the repository tuple among the download workers (main.py:99-102):
 * worker `p` of `PROCESSES` gets `repositories[p::PROCESSES]`, the elements at
 * the indices congruent to `p` modulo the worker count, in their order.
 */
module Sharding {

  /** The size of the worker pool (main.py:16). */
  const PROCESSES: nat := 4

  /** Python's slice `s[p::PROCESSES]`: the elements at `p`, `p + 4`, `p + 8`, ... */
  function Shard<T>(s: seq<T>, p: nat): (r: seq<T>)
    ensures forall k :: 0 <= k < |r| ==> p + k * PROCESSES < |s| && r[k] == s[p + k * PROCESSES]
    ensures p + |r| * PROCESSES >= |s|
    decreases |s| - p
  {
    if p < |s| then [s[p]] + Shard(s, p + PROCESSES) else []
  }

  /** Position `k` of shard `p` is an index with remainder `p` and quotient `k`. */
  lemma PositionResidue(p: nat, k: nat)
    requires p < PROCESSES
    ensures (p + k * PROCESSES) % PROCESSES == p && (p + k * PROCESSES) / PROCESSES == k
  {
  }

  /**
   * Shard `p` holds exactly the elements at the indices `i` with
   * `i % PROCESSES == p`, the one at index `i` standing at position
   * `i / PROCESSES`; so the order of `s` is kept within each shard.
   */
  lemma ShardIsResidueClass<T>(s: seq<T>, i: nat)
    requires i < |s|
    ensures i / PROCESSES < |Shard(s, i % PROCESSES)|
    ensures Shard(s, i % PROCESSES)[i / PROCESSES] == s[i]
  {
  }

  /**
   * Every index of `s` is at exactly one position of exactly one shard:
   * position `k` of shard `p` is index `i` exactly when `p == i % PROCESSES`
   * and `k == i / PROCESSES`.
   */
  lemma ShardPositionsPartitionIndices<T>(s: seq<T>, i: nat, p: nat, k: nat)
    requires i < |s| && p < PROCESSES && k < |Shard(s, p)|
    ensures Shard(s, p)[k] == s[p + k * PROCESSES]
    ensures p + k * PROCESSES == i <==> p == i % PROCESSES && k == i / PROCESSES
  {
    PositionResidue(p, k);
  }

  /** Something is in `s` exactly when it is in one of the shards. */
  lemma ShardsCoverElements<T>(s: seq<T>, x: T)
    ensures x in s <==> exists p :: 0 <= p < PROCESSES && x in Shard(s, p)
  {
    if x in s {
      var i :| 0 <= i < |s| && s[i] == x;
      ShardIsResidueClass(s, i);
      assert Shard(s, i % PROCESSES)[i / PROCESSES] == x;
    }
  }

  /** No element of `s` occurs twice. */
  ghost predicate Distinct<T>(s: seq<T>) {
    forall a, b :: 0 <= a < |s| && 0 <= b < |s| && s[a] == s[b] ==> a == b
  }

  /**
   * When `s` has no repetitions, its element at index `i` is in shard `p`
   * exactly when `p == i % PROCESSES`: no element goes to two workers.
   */
  lemma ShardsDisjoint<T>(s: seq<T>, i: nat, p: nat)
    requires i < |s| && p < PROCESSES
    requires Distinct(s)
    ensures s[i] in Shard(s, p) <==> p == i % PROCESSES
  {
    ShardIsResidueClass(s, i);
    var r := Shard(s, p);
    if s[i] in r {
      var k :| 0 <= k < |r| && r[k] == s[i];
      ShardPositionsPartitionIndices(s, i, p, k);
      var j := p + k * PROCESSES;
      assert j < |s| && s[j] == s[i];
      assert j == i;
    }
  }

  /** With `|s| == q * PROCESSES + rm` and `rm < PROCESSES`, shard `p` has `q` elements, one more when `p < rm`. */
  lemma ShardLength<T>(s: seq<T>, p: nat)
    requires p < PROCESSES
    ensures |Shard(s, p)| == |s| / PROCESSES + (if p < |s| % PROCESSES then 1 else 0)
  {
    var r := Shard(s, p);
    if |r| > 0 {
      assert p + (|r| - 1) * PROCESSES < |s|;
    }
  }

  /** The shard sizes are balanced: they differ by at most one, and lower shards are never smaller. */
  lemma ShardsBalanced<T>(s: seq<T>, p1: nat, p2: nat)
    requires p1 <= p2 < PROCESSES
    ensures |Shard(s, p2)| <= |Shard(s, p1)| <= |Shard(s, p2)| + 1
  {
    ShardLength(s, p1);
    ShardLength(s, p2);
  }

  /** The tasks in worker order: one per worker, task `p` being shard `p`. */
  function Shards<T>(s: seq<T>): (r: seq<seq<T>>)
    ensures |r| == PROCESSES && forall p :: 0 <= p < PROCESSES ==> r[p] == Shard(s, p)
  {
    seq(PROCESSES, p requires 0 <= p < PROCESSES => Shard(s, p))
  }

  /** The sizes of the four shards add up to the length of the sequence. */
  lemma ShardsCoverLength<T>(s: seq<T>)
    ensures |Shard(s, 0)| + |Shard(s, 1)| + |Shard(s, 2)| + |Shard(s, 3)| == |s|
  {
    ShardLength(s, 0);
    ShardLength(s, 1);
    ShardLength(s, 2);
    ShardLength(s, 3);
  }

  /**
   * The submission loop of main.py:100-102: one task per worker, task `p`
   * carrying `repositories[p::PROCESSES]`.
   */
  method PlanShards<T>(repositories: seq<T>) returns (tasks: seq<seq<T>>)
    ensures tasks == Shards(repositories)
  {
    tasks := [];
    ghost var all := Shards(repositories);
    for p := 0 to PROCESSES
      invariant tasks == all[..p]
    {
      assert all[..p + 1] == all[..p] + [all[p]];
      tasks := tasks + [Shard(repositories, p)];
    }
    assert all[..PROCESSES] == all;
  }
}
