/** Which shards a new or surviving shard has to copy from and follow when a cluster is resized. */
module BootstrapPlan {
  import opened Codec
  import opened Placement
  import JumpHash

  datatype Request = Request(serverId: nat, shardId: nat, fromSize: nat, toSize: nat, replication: int)

  datatype Plan = Plan(
    bootstrapSource: seq<ClusterShard>,
    pickBest: bool,
    transitionalFollow: seq<ClusterShard>,
    fromSize: nat,
    toSize: nat)

  ghost predicate Lists(sources: seq<ClusterShard>, shard: int) {
    exists i :: 0 <= i < |sources| && sources[i].shardId == shard
  }

  /** Some key can sit in shard `prior` before the resize and in the requested shard after it. */
  predicate MayMove(req: Request, prior: int) {
    && 0 <= prior < req.fromSize
    && (prior == req.shardId || req.fromSize <= req.shardId || req.toSize <= prior)
  }

  /** The requested replica is part of the new cluster. */
  predicate InNewCluster(req: Request) {
    Placed(req.shardId, req.serverId, req.toSize, req.replication)
  }

  /** The server already has this shard's rows in this very replica. */
  predicate HeldLocally(req: Request, prior: int) {
    prior == req.shardId && Placed(req.shardId, req.serverId, req.fromSize, req.replication)
  }

  ghost predicate Covered(req: Request, plan: Plan, prior: int) {
    || HeldLocally(req, prior)
    || Lists(plan.bootstrapSource, prior)
    || Lists(plan.transitionalFollow, prior)
  }

  /** The primary of another shard that a key of the requested shard can come from. */
  predicate IsNewPrimary(req: Request, c: ClusterShard) {
    c.serverId == c.shardId && c.shardId != req.shardId && MayMove(req, c.shardId)
  }

  ghost predicate EachShardOnce(sources: seq<ClusterShard>) {
    forall i, j | 0 <= i < j < |sources| :: sources[i].shardId != sources[j].shardId
  }

  lemma PrimaryListed(sources: seq<ClusterShard>, shard: int)
    requires ClusterShard(shard, shard) in sources
    ensures Lists(sources, shard)
  {
    var i :| 0 <= i < |sources| && sources[i] == ClusterShard(shard, shard);
  }

  /** What jump hash does to a key on resize is all that MayMove allows for. */
  lemma KeysMoveAsPlanned(req: Request, key: U64)
    requires req.fromSize >= 1 && JumpHash.Hash(key, req.toSize) == req.shardId
    ensures MayMove(req, JumpHash.Hash(key, req.fromSize))
  {
    hide JumpHash.Hash;
    var from, to := req.fromSize, req.toSize;
    JumpHash.HashInRange(key, from);
    JumpHash.HashInRange(key, to);
    if from <= to {
      JumpHash.HashConsistent(key, from, to);
    } else {
      JumpHash.HashConsistent(key, to, from);
    }
  }

  /** The shards lo .. hi, each on its primary server. */
  method Primaries(lo: nat, hi: nat) returns (sources: seq<ClusterShard>)
    ensures forall c :: c in sources <==> lo <= c.shardId < hi && c.serverId == c.shardId
    ensures forall i :: 0 <= i < |sources| ==> sources[i] == ClusterShard(lo + i, lo + i)
  {
    sources := [];
    var i := lo;
    while i < hi
      invariant lo <= i <= hi || (i == lo && hi < lo)
      invariant |sources| == i - lo
      invariant forall k :: 0 <= k < |sources| ==> sources[k] == ClusterShard(lo + k, lo + k)
    {
      sources := sources + [ClusterShard(i, i)];
      i := i + 1;
    }
    forall c: ClusterShard | lo <= c.shardId < hi && c.serverId == c.shardId
      ensures c in sources
    {
      assert sources[c.shardId - lo] == c;
    }
  }

  /** BootstrapPlanWithTopoChange. For every replica of the new cluster and every key of its shard:
      the key's old shard is either already held or among the sources; each source really
      existed; no source is listed that could not matter. One source is to be picked exactly when the
      size stays or the replica is new to its server, and then all old replicas of the shard are listed.
      Otherwise, and for following through the change, the primaries of exactly the other shards that keys
      can come from are listed, each once, as the merged copy needs. And the copy alone (without
      following) is complete except for rows of retiring shards when the replica itself is new to its
      server. */
  method BootstrapPlanWithTopoChange(req: Request) returns (plan: Plan)
    requires req.replication >= 1
    ensures plan.fromSize == req.fromSize && plan.toSize == req.toSize
    ensures InNewCluster(req) ==> forall prior :: MayMove(req, prior) ==> Covered(req, plan, prior)
    ensures InNewCluster(req) && req.fromSize >= 1 ==>
              forall key: U64 :: JumpHash.Hash(key, req.toSize) == req.shardId ==>
                                   Covered(req, plan, JumpHash.Hash(key, req.fromSize))
    ensures InNewCluster(req) ==>
              forall prior :: MayMove(req, prior) ==>
                              (HeldLocally(req, prior) || Lists(plan.bootstrapSource, prior) <==>
                               (prior < req.toSize || Placed(req.shardId, req.serverId, req.fromSize, req.replication)))
    ensures InNewCluster(req) ==>
              forall c :: c in plan.bootstrapSource || c in plan.transitionalFollow ==>
                            Placed(c.shardId, c.serverId, req.fromSize, req.replication) && MayMove(req, c.shardId)
    ensures plan.pickBest <==>
              || req.fromSize == req.toSize
              || (InNewCluster(req) && req.shardId < req.fromSize
                  && !Placed(req.shardId, req.serverId, req.fromSize, req.replication))
    ensures plan.pickBest ==>
              forall c :: c in plan.bootstrapSource <==>
                            c.shardId == req.shardId && Placed(req.shardId, c.serverId, req.fromSize, req.replication)
    ensures InNewCluster(req) && !plan.pickBest ==> forall c :: c in plan.bootstrapSource <==> IsNewPrimary(req, c)
    ensures InNewCluster(req) && req.fromSize != req.toSize ==>
              forall c :: c in plan.transitionalFollow <==> IsNewPrimary(req, c)
    ensures req.fromSize == req.toSize ==> plan.transitionalFollow == [ClusterShard(req.shardId, req.serverId)]
    ensures EachShardOnce(plan.transitionalFollow) && (!plan.pickBest ==> EachShardOnce(plan.bootstrapSource))
    ensures !InNewCluster(req) && req.fromSize != req.toSize && req.shardId < req.fromSize ==>
              plan.bootstrapSource == [] && plan.transitionalFollow == []
  {
    plan := Plan([], false, [], req.fromSize, req.toSize);
    if req.fromSize == req.toSize {
      var same := PartitionShards(req.serverId, req.shardId, req.toSize, req.replication);
      plan := plan.(bootstrapSource := same, pickBest := true,
                    transitionalFollow := [ClusterShard(req.shardId, req.serverId)]);
    } else if req.fromSize < req.toSize {
      if req.shardId >= req.fromSize {
        var all := Primaries(0, req.fromSize);
        plan := plan.(bootstrapSource := all, transitionalFollow := all);
      } else {
        var stays := IsShardInLocal(req.shardId, req.serverId, req.toSize, req.replication);
        if stays {
          var was := IsShardInLocal(req.shardId, req.serverId, req.fromSize, req.replication);
          if !was {
            var peers := PartitionShards(req.serverId, req.shardId, req.fromSize, req.replication);
            plan := plan.(bootstrapSource := peers, pickBest := true);
          }
        }
      }
    } else if req.serverId < req.toSize && req.shardId < req.toSize {
      var stays := IsShardInLocal(req.shardId, req.serverId, req.toSize, req.replication);
      if stays {
        var was := IsShardInLocal(req.shardId, req.serverId, req.fromSize, req.replication);
        var retiring := Primaries(req.toSize, req.fromSize);
        if !was {
          var peers := PartitionShards(req.serverId, req.shardId, req.fromSize, req.replication);
          plan := plan.(bootstrapSource := peers, pickBest := true, transitionalFollow := retiring);
        } else {
          plan := plan.(bootstrapSource := retiring, transitionalFollow := retiring);
        }
      }
    }
    forall prior | InNewCluster(req) && MayMove(req, prior)
      ensures Covered(req, plan, prior)
    {
      if ClusterShard(prior, prior) in plan.bootstrapSource {
        PrimaryListed(plan.bootstrapSource, prior);
      } else if ClusterShard(prior, prior) in plan.transitionalFollow {
        PrimaryListed(plan.transitionalFollow, prior);
      }
    }
    forall key: U64 | InNewCluster(req) && req.fromSize >= 1 && JumpHash.Hash(key, req.toSize) == req.shardId
      ensures Covered(req, plan, JumpHash.Hash(key, req.fromSize))
    {
      KeysMoveAsPlanned(req, key);
    }
  }

  // ---- the copy that a pick-best plan leads to -------------------------------------------------------

  /** The copy is asked of the primary found under the chosen source's server number, and asks for that
      primary's own shard, whatever shard the plan named. */
  predicate CopyAsksFor(req: Request, chosen: ClusterShard, key: U64) {
    && JumpHash.Hash(key, req.fromSize) == chosen.serverId
    && (req.toSize > 0 ==> JumpHash.Hash(key, req.toSize) == req.shardId)
  }

  /** So a key that the chosen replica of the shard holds, and the new replica needs, is copied exactly
      when the chosen replica is the primary. Chosen otherwise, the copy of a cluster that does not
      shrink is empty, and of one that shrinks it brings at most rows of a shard that retires. */
  lemma PickBestCopiesIff(req: Request, chosen: ClusterShard, key: U64)
    requires chosen.shardId == req.shardId && Placed(chosen.shardId, chosen.serverId, req.fromSize, req.replication)
    requires 1 <= req.toSize && JumpHash.Hash(key, req.toSize) == req.shardId
    ensures JumpHash.Hash(key, req.fromSize) == req.shardId ==>
              (CopyAsksFor(req, chosen, key) <==> chosen.serverId == chosen.shardId)
    ensures CopyAsksFor(req, chosen, key) && chosen.serverId != chosen.shardId ==>
              req.toSize <= chosen.serverId < req.fromSize
  {
    hide JumpHash.Hash;
    if req.fromSize <= req.toSize {
      JumpHash.HashConsistent(key, req.fromSize, req.toSize);
    } else {
      JumpHash.HashConsistent(key, req.toSize, req.fromSize);
      JumpHash.HashInRange(key, req.fromSize);
    }
  }
}
