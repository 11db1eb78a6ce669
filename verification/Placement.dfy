/** Where the replicas of each shard live on the ring of servers. */
module Placement {

  datatype ClusterShard = ClusterShard(shardId: int, serverId: int)

  /** How far server `v` is past shard `s` on a ring of `n`. */
  function Ahead(v: int, s: int, n: int): int {
    if v >= s then v - s else v - s + n
  }

  /** Shard `s` has a replica on server `v`: the definition the lists below are held to. */
  predicate Placed(s: int, v: int, n: int, r: int) {
    0 <= s < n && 0 <= v < n && Ahead(v, s, n) < r
  }

  /** Ring distance is subtraction modulo the ring size. */
  lemma PlacedByModulus(s: int, v: int, n: int, r: int)
    requires 0 <= s < n && 0 <= v < n
    ensures Placed(s, v, n, r) <==> (v - s) % n < (if r < n then r else n)
  {
    var d := Ahead(v, s, n);
    assert 0 <= d < n;
    if v >= s {
      SmallModulus(d, n);
    } else {
      assert v - s == d - n;
      ShiftedModulus(d, n);
    }
  }

  lemma SmallModulus(d: int, n: int)
    requires 0 <= d < n
    ensures d % n == d
  {
  }

  lemma ShiftedModulus(d: int, n: int)
    requires 0 <= d < n
    ensures (d - n) % n == d
  {
    var k, t := -1 - (d - n) / n, (d - n) % n - d;
    assert n * k == -n - n * ((d - n) / n);
    assert n * k == t;
    assert n * -k == -(n * k);
    if k >= 1 {
      ProductAtLeast(n, k);
    } else if k <= -1 {
      ProductAtLeast(n, -k);
    }
  }

  lemma ProductAtLeast(a: nat, b: nat)
    requires b >= 1
    ensures a * b >= a
  {
  }

  function ReplicaCount(n: int, r: int): int {
    if r <= 0 || n <= 0 then 0 else if r < n then r else n
  }

  lemma AheadOnce(s: int, v: int, w: int, n: int)
    requires 0 <= s < n && 0 <= v < n && 0 <= w < n
    ensures Ahead(v, s, n) == Ahead(w, s, n) <==> v == w
  {
  }

  /** Widening the replica range by one step takes in exactly one more server. */
  lemma OneMoreServer(s: int, n: int, i: int, server: int)
    requires 0 <= s < n && 0 <= i < n && server == if s + i >= n then s + i - n else s + i
    ensures forall v :: Placed(s, v, n, i + 1) <==> Placed(s, v, n, i) || v == server
    ensures Ahead(server, s, n) == i && !Placed(s, server, n, i)
  {
    forall v
      ensures Placed(s, v, n, i + 1) <==> Placed(s, v, n, i) || v == server
    {
      if 0 <= v < n {
        AheadOnce(s, v, server, n);
      }
    }
  }

  /** Seen from a server: one more shard. */
  lemma OneMoreShard(v: int, n: int, i: int, shard: int)
    requires 0 <= v < n && 0 <= i < n && shard == if v - i < 0 then v - i + n else v - i
    ensures forall s :: Placed(s, v, n, i + 1) <==> Placed(s, v, n, i) || s == shard
    ensures Ahead(v, shard, n) == i && !Placed(shard, v, n, i)
  {
    forall s
      ensures Placed(s, v, n, i + 1) <==> Placed(s, v, n, i) || s == shard
    {
      if 0 <= s < n && s != shard {
        assert Ahead(v, s, n) != i;
      }
    }
  }

  lemma NoServerYet(s: int, n: int, i: int)
    requires i <= 0
    ensures forall v :: !Placed(s, v, n, i)
  {
  }

  lemma WholeRing(s: int, n: int, i: int, r: int)
    requires i == r || (i == n && i <= r) || (i == 0 && r <= 0)
    ensures forall v :: Placed(s, v, n, i) <==> Placed(s, v, n, r)
  {
  }

  /** PeerShards: the other servers that hold shard `s`, nearest first. */
  method PeerShards(self: int, s: int, n: int, r: int) returns (peers: seq<ClusterShard>)
    requires 0 <= s
    ensures forall c :: c in peers <==> c.shardId == s && c.serverId != self && Placed(s, c.serverId, n, r)
    ensures forall i, j :: 0 <= i < j < |peers| ==> Ahead(peers[i].serverId, s, n) < Ahead(peers[j].serverId, s, n)
    ensures |peers| == if s >= n then 0 else ReplicaCount(n, r) - if Placed(s, self, n, r) then 1 else 0
  {
    peers := [];
    if s >= n {
      return;
    }
    NoServerYet(s, n, 0);
    hide Placed, Ahead;
    var i := 0;
    while i < r && i < n
      invariant 0 <= i <= n && (i <= r || i == 0)
      invariant forall c :: c in peers <==> c.shardId == s && c.serverId != self && Placed(s, c.serverId, n, i)
      invariant forall a, b :: 0 <= a < b < |peers| ==> Ahead(peers[a].serverId, s, n) < Ahead(peers[b].serverId, s, n)
      invariant forall a :: 0 <= a < |peers| ==> Ahead(peers[a].serverId, s, n) < i
      invariant |peers| == i - if Placed(s, self, n, i) then 1 else 0
    {
      var server := s + i;
      if server >= n {
        server := server - n;
      }
      OneMoreServer(s, n, i, server);
      if server != self {
        peers := peers + [ClusterShard(s, server)];
      }
      i := i + 1;
    }
    WholeRing(s, n, i, r);
  }

  /** PartitionShards: every server that holds shard `s`, the primary first. */
  method PartitionShards(self: int, s: int, n: int, r: int) returns (shards: seq<ClusterShard>)
    requires 0 <= s
    ensures forall c :: c in shards <==> c.shardId == s && Placed(s, c.serverId, n, r)
    ensures forall i :: 0 <= i < |shards| ==> Ahead(shards[i].serverId, s, n) == i
    ensures |shards| == if s >= n then 0 else ReplicaCount(n, r)
  {
    shards := [];
    if s >= n {
      return;
    }
    NoServerYet(s, n, 0);
    hide Placed, Ahead;
    var i := 0;
    while i < r && i < n
      invariant 0 <= i <= n && (i <= r || i == 0)
      invariant forall c :: c in shards <==> c.shardId == s && Placed(s, c.serverId, n, i)
      invariant forall a :: 0 <= a < |shards| ==> Ahead(shards[a].serverId, s, n) == a
      invariant |shards| == i
    {
      var server := s + i;
      if server >= n {
        server := server - n;
      }
      OneMoreServer(s, n, i, server);
      shards := shards + [ClusterShard(s, server)];
      i := i + 1;
    }
    WholeRing(s, n, i, r);
  }

  /** LocalShards: every shard that server `v` holds, its own first. */
  method LocalShards(v: int, n: int, r: int) returns (shards: seq<ClusterShard>)
    requires 0 <= v
    ensures forall c :: c in shards <==> c.serverId == v && Placed(c.shardId, v, n, r)
    ensures forall i :: 0 <= i < |shards| ==> Ahead(v, shards[i].shardId, n) == i
    ensures |shards| == if v >= n then 0 else ReplicaCount(n, r)
  {
    shards := [];
    if v >= n {
      return;
    }
    var i := 0;
    while i < r && i < n
      invariant 0 <= i <= n && (i <= r || i == 0)
      invariant forall c :: c in shards <==> c.serverId == v && Placed(c.shardId, v, n, i)
      invariant forall a :: 0 <= a < |shards| ==> Ahead(v, shards[a].shardId, n) == a
      invariant |shards| == i
    {
      var shard := v - i;
      if shard < 0 {
        shard := shard + n;
      }
      OneMoreShard(v, n, i, shard);
      shards := shards + [ClusterShard(shard, v)];
      i := i + 1;
    }
    assert forall s :: Placed(s, v, n, i) <==> Placed(s, v, n, r);
  }

  /** IsShardInLocal */
  method IsShardInLocal(s: int, v: int, n: int, r: int) returns (found: bool)
    requires 0 <= v
    ensures found <==> Placed(s, v, n, r)
  {
    var shards := LocalShards(v, n, r);
    var i := 0;
    while i < |shards|
      invariant i <= |shards|
      invariant forall a :: 0 <= a < i ==> shards[a].shardId != s
    {
      if shards[i].shardId == s {
        assert shards[i] in shards;
        return true;
      }
      i := i + 1;
    }
    assert ClusterShard(s, v) !in shards;
    return false;
  }
}
