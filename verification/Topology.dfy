/** One cluster's map from shard to the servers that hold it, changed in place as shards come and go. */
module Topology {
  import JumpHash
  import Placement
  import opened Codec

  datatype ShardInfo =
    ShardInfo(keyspace: string, serverId: nat, shardId: nat, clusterSize: nat, replicationFactor: nat)

  datatype Node = Node(address: string, shard: ShardInfo)

  /** The nodes that hold one shard. */
  type Group = seq<Node>

  datatype Topo = Topo(groups: seq<Group>, expectedSize: int, replicationFactor: int)

  datatype Prior = NoPrior | Prior(shard: ShardInfo)

  // ---- order within a group --------------------------------------------------------------------

  /** How far around the ring a node's server is from its shard. */
  function Rank(n: Node, size: nat): int {
    var x := n.shard.serverId - n.shard.shardId;
    if x < 0 then x + size else x
  }

  /** That is the distance by which replicas are placed. */
  lemma RankIsAhead(n: Node, size: nat, r: int)
    requires n.shard.shardId < size && n.shard.serverId < size
    ensures Rank(n, size) == Placement.Ahead(n.shard.serverId, n.shard.shardId, size)
    ensures Rank(n, size) < r <==> Placement.Placed(n.shard.shardId, n.shard.serverId, size, r)
  {
  }

  ghost predicate SortedByRank(g: Group, size: nat) {
    forall i, j | 0 <= i < j < |g| :: Rank(g[i], size) <= Rank(g[j], size)
  }

  /** What an unstable sort may leave. */
  ghost predicate Resorted(g: Group, h: Group, size: nat) {
    multiset(h) == multiset(g) && SortedByRank(h, size)
  }

  lemma InsertKeepsSorted(g: Group, n: Node, at: nat, size: nat)
    requires SortedByRank(g, size) && at <= |g|
    requires forall i | 0 <= i < at :: Rank(g[i], size) <= Rank(n, size)
    requires at < |g| ==> Rank(n, size) < Rank(g[at], size)
    ensures SortedByRank(g[..at] + [n] + g[at..], size)
  {
    hide Rank;
    var h := g[..at] + [n] + g[at..];
    forall i, j | 0 <= i < j < |h|
      ensures Rank(h[i], size) <= Rank(h[j], size)
    {
      if j < at {
        assert h[i] == g[i] && h[j] == g[j];
      } else if j == at {
        assert h[i] == g[i] && h[j] == n;
      } else if i < at {
        assert h[i] == g[i] && h[j] == g[j - 1];
      } else {
        assert h[j] == g[j - 1] && Rank(g[at], size) <= Rank(g[j - 1], size);
        assert h[i] == if i == at then n else g[i - 1];
      }
    }
  }

  method InsertByRank(g: Group, n: Node, size: nat) returns (r: Group)
    requires SortedByRank(g, size)
    ensures SortedByRank(r, size) && multiset(r) == multiset(g) + multiset{n}
  {
    hide Rank;
    var at := 0;
    while at < |g| && Rank(g[at], size) <= Rank(n, size)
      invariant at <= |g| && forall k | 0 <= k < at :: Rank(g[k], size) <= Rank(n, size)
    {
      at := at + 1;
    }
    InsertKeepsSorted(g, n, at, size);
    hide SortedByRank;
    r := g[..at] + [n] + g[at..];
    assert g == g[..at] + g[at..];
  }

  method SortedShards(g: Group, size: nat) returns (r: Group)
    ensures Resorted(g, r, size)
  {
    r := [];
    var i := 0;
    while i < |g|
      invariant i <= |g| && Resorted(g[..i], r, size)
    {
      assert g[..i + 1] == g[..i] + [g[i]];
      r := InsertByRank(r, g[i], size);
      hide SortedByRank;
      i := i + 1;
    }
    assert g[..i] == g;
  }

  // ---- looking up --------------------------------------------------------------------------------

  predicate Matches(n: Node, address: string, shardId: nat) {
    n.address == address && n.shard.shardId == shardId
  }

  /** The first node at this address for this shard, or the length. */
  function Find(g: Group, address: string, shardId: nat): (k: nat)
    ensures k <= |g|
    ensures k < |g| ==> Matches(g[k], address, shardId)
    ensures forall i | 0 <= i < k :: !Matches(g[i], address, shardId)
  {
    if g == [] then 0
    else if Matches(g[0], address, shardId) then 0
    else
      var k := Find(g[1..], address, shardId);
      assert forall i | 0 < i < k + 1 :: g[i] == g[1..][i - 1];
      k + 1
  }

  /** Equality of the two shards' names on a server: keyspace, server and shard. */
  predicate SameIdentifier(a: ShardInfo, b: ShardInfo) {
    a.keyspace == b.keyspace && a.serverId == b.serverId && a.shardId == b.shardId
  }

  function FindIdentifier(g: Group, shard: ShardInfo): (k: nat)
    ensures k <= |g|
    ensures k < |g| ==> SameIdentifier(g[k].shard, shard)
    ensures forall i | 0 <= i < k :: !SameIdentifier(g[i].shard, shard)
  {
    if g == [] then 0
    else if SameIdentifier(g[0].shard, shard) then 0
    else
      var k := FindIdentifier(g[1..], shard);
      assert forall i | 0 < i < k + 1 :: g[i] == g[1..][i - 1];
      k + 1
  }

  lemma FindIs(g: Group, address: string, shardId: nat, k: nat)
    requires k <= |g| && (k < |g| ==> Matches(g[k], address, shardId))
    requires forall i | 0 <= i < k :: !Matches(g[i], address, shardId)
    ensures Find(g, address, shardId) == k
  {
  }

  lemma FindIdentifierIs(g: Group, shard: ShardInfo, k: nat)
    requires k <= |g| && (k < |g| ==> SameIdentifier(g[k].shard, shard))
    requires forall i | 0 <= i < k :: !SameIdentifier(g[i].shard, shard)
    ensures FindIdentifier(g, shard) == k
  {
  }

  // ---- what each operation may do ------------------------------------------------------------------

  function Padded(groups: seq<Group>, n: nat): (r: seq<Group>)
    ensures |r| == if |groups| < n then n else |groups|
    ensures forall i | 0 <= i < |r| :: r[i] == if i < |groups| then groups[i] else []
  {
    if |groups| < n then groups + seq(n - |groups|, _ => []) else groups
  }

  function WithExpected(s: Topo, size: int): Topo {
    if size <= 0 then s
    else
      s.(expectedSize := size,
         groups := if s.groups == [] then seq(size, _ => [])
                   else if size < |s.groups| then s.groups[..size] else s.groups)
  }

  function WithReplication(s: Topo, factor: int): Topo {
    if factor <= 0 then s else s.(replicationFactor := factor)
  }

  /** A report that disagrees with the expected size resizes; one that agrees cuts nothing off. */
  function Sized(s: Topo, shard: ShardInfo): Topo {
    var t := if s.expectedSize != shard.clusterSize then WithExpected(s, shard.clusterSize) else s;
    WithReplication(t, shard.replicationFactor)
  }

  function Drop(g: Group, k: nat): Group
    requires k < |g|
  {
    g[..k] + g[k + 1..]
  }

  /** The group without this address. */
  function Without(g: Group, address: string): Group {
    if g == [] then []
    else
      var rest, last := Without(g[..|g| - 1], address), g[|g| - 1];
      if last.address == address then rest else rest + [last]
  }

  /** The group's shards at this address. */
  function At(g: Group, address: string): seq<ShardInfo> {
    if g == [] then []
    else
      var rest, last := At(g[..|g| - 1], address), g[|g| - 1];
      if last.address == address then rest + [last.shard] else rest
  }

  function AllAt(groups: seq<Group>, address: string): seq<ShardInfo> {
    if groups == [] then [] else AllAt(groups[..|groups| - 1], address) + At(groups[|groups| - 1], address)
  }

  predicate InUse(groups: seq<Group>, address: string) {
    exists i, k :: 0 <= i < |groups| && 0 <= k < |groups[i]| && groups[i][k].address == address
  }

  predicate AllEmpty(groups: seq<Group>) {
    forall i | 0 <= i < |groups| :: groups[i] == []
  }

  datatype Op =
    | Set(address: string, shard: ShardInfo)
    | Replace(address: string, shard: ShardInfo)
    | Remove(address: string, shard: ShardInfo)
    | RemoveAll(address: string)
    | Expect(size: int)

  ghost predicate NextSet(s: Topo, address: string, shard: ShardInfo, t: Topo) {
    var p := Padded(s.groups, shard.shardId + 1);
    var g := p[shard.shardId];
    var k := Find(g, address, shard.shardId);
    if k < |g| then t == s.(groups := p[shard.shardId := g[k := Node(address, shard)]])
    else exists h :: Resorted(g + [Node(address, shard)], h, |p|)
                     && t == Sized(s.(groups := p[shard.shardId := h]), shard)
  }

  ghost predicate NextReplace(s: Topo, address: string, shard: ShardInfo, t: Topo) {
    var p := Padded(s.groups, shard.shardId + 1);
    var g := p[shard.shardId];
    var k := FindIdentifier(g, shard);
    t == s.(groups := if k < |g| then p[shard.shardId := g[k := Node(address, shard)]] else p)
  }

  /** A cluster left without any node forgets its size. */
  function Emptied(s: Topo): Topo {
    if AllEmpty(s.groups) then s.(expectedSize := 0, groups := []) else s
  }

  ghost predicate NextRemove(s: Topo, address: string, shard: ShardInfo, t: Topo) {
    if |s.groups| <= shard.shardId then t == s
    else
      var g := s.groups[shard.shardId];
      var k := Find(g, address, shard.shardId);
      if k == |g| then t == Emptied(s)
      else exists h :: Resorted(Drop(g, k), h, |s.groups|) && t == Emptied(s.(groups := s.groups[shard.shardId := h]))
  }

  ghost predicate NextRemoveAll(s: Topo, address: string, t: Topo) {
    && |t.groups| == |s.groups| && t == s.(groups := t.groups)
    && forall i | 0 <= i < |s.groups| :: Resorted(Without(s.groups[i], address), t.groups[i], |s.groups|)
  }

  ghost predicate Next(s: Topo, op: Op, t: Topo) {
    match op
    case Set(address, shard) => NextSet(s, address, shard, t)
    case Replace(address, shard) => NextReplace(s, address, shard, t)
    case Remove(address, shard) => NextRemove(s, address, shard, t)
    case RemoveAll(address) => NextRemoveAll(s, address, t)
    case Expect(size) => t == WithExpected(s, size)
  }

  // ---- the invariant -------------------------------------------------------------------------------

  ghost predicate Distinct(g: Group) {
    forall a, b | 0 <= a < b < |g| :: g[a].address != g[b].address
  }

  /** Shard `i` only, and each address with its own server id. */
  ghost predicate Members(g: Group, i: nat, serverOf: string -> nat) {
    forall k | 0 <= k < |g| :: g[k].shard.shardId == i && g[k].shard.serverId == serverOf(g[k].address)
  }

  ghost predicate HasServer(g: Group, server: nat) {
    exists k :: 0 <= k < |g| && g[k].shard.serverId == server
  }

  /** Server `i` leads group `i` whenever it is in it. */
  ghost predicate Leads(g: Group, i: nat) {
    HasServer(g, i) ==> |g| > 0 && g[0].shard.serverId == i
  }

  ghost predicate GroupOk(g: Group, i: nat, serverOf: string -> nat) {
    Members(g, i, serverOf) && Distinct(g) && Leads(g, i)
  }

  ghost predicate Inv(s: Topo, serverOf: string -> nat) {
    forall i | 0 <= i < |s.groups| :: GroupOk(s.groups[i], i, serverOf)
  }

  lemma {:induction false} DistinctOnce(g: Group, n: Node)
    requires Distinct(g)
    ensures multiset(g)[n] <= 1
  {
    if g != [] {
      var front, last := g[..|g| - 1], g[|g| - 1];
      assert g == front + [last];
      DistinctOnce(front, n);
      assert forall k | 0 <= k < |front| :: front[k] == g[k] && front[k].address != last.address;
      assert last !in front;
    }
  }

  lemma TwiceCounts(g: Group, a: nat, b: nat)
    requires a < b < |g| && g[a] == g[b]
    ensures multiset(g)[g[a]] >= 2
  {
    assert g == g[..b] + [g[b]] + g[b + 1..];
    assert g[..b][a] == g[a];
    assert g[a] in multiset(g[..b]);
  }

  lemma PermutationKeepsDistinct(g: Group, h: Group)
    requires multiset(g) == multiset(h) && Distinct(g)
    ensures Distinct(h)
  {
    forall a, b | 0 <= a < b < |h|
      ensures h[a].address != h[b].address
    {
      assert h[a] in multiset(g) && h[b] in multiset(g);
      if h[a] == h[b] {
        TwiceCounts(h, a, b);
        DistinctOnce(g, h[a]);
      }
    }
  }

  lemma PermutationKeepsMembers(g: Group, h: Group, i: nat, serverOf: string -> nat)
    requires multiset(g) == multiset(h) && Members(g, i, serverOf)
    ensures Members(h, i, serverOf)
  {
    forall k | 0 <= k < |h|
      ensures h[k].shard.shardId == i && h[k].shard.serverId == serverOf(h[k].address)
    {
      assert h[k] in multiset(g);
    }
  }

  /** Sorting by ring distance puts server `i` first in group `i`, whatever the number of groups. */
  lemma SortedLeads(h: Group, i: nat, size: nat, serverOf: string -> nat)
    requires SortedByRank(h, size) && Members(h, i, serverOf) && i < size
    ensures Leads(h, i)
  {
    if HasServer(h, i) {
      var k :| 0 <= k < |h| && h[k].shard.serverId == i;
      assert Rank(h[k], size) == 0;
      assert Rank(h[0], size) <= 0;
    }
  }

  lemma ResortedOk(g: Group, h: Group, i: nat, size: nat, serverOf: string -> nat)
    requires Members(g, i, serverOf) && Distinct(g) && Resorted(g, h, size) && i < size
    ensures GroupOk(h, i, serverOf)
  {
    hide SortedByRank, Members, Distinct, Leads;
    PermutationKeepsDistinct(g, h);
    PermutationKeepsMembers(g, h, i, serverOf);
    SortedLeads(h, i, size, serverOf);
  }

  lemma {:induction false} WithoutIs(g: Group, address: string)
    ensures forall n :: n in Without(g, address) <==> n in g && n.address != address
    ensures Distinct(g) ==> Distinct(Without(g, address))
  {
    if g != [] {
      var front, last := g[..|g| - 1], g[|g| - 1];
      assert g == front + [last];
      WithoutIs(front, address);
      var rest := Without(front, address);
      if Distinct(g) {
        assert Distinct(front);
        forall k | 0 <= k < |rest|
          ensures rest[k].address != last.address
        {
          assert rest[k] in front;
        }
      }
    }
  }

  lemma WithoutMembers(g: Group, i: nat, serverOf: string -> nat, address: string)
    requires Members(g, i, serverOf)
    ensures Members(Without(g, address), i, serverOf)
  {
    WithoutIs(g, address);
    forall k | 0 <= k < |Without(g, address)|
      ensures Without(g, address)[k].shard.shardId == i
      ensures Without(g, address)[k].shard.serverId == serverOf(Without(g, address)[k].address)
    {
      assert Without(g, address)[k] in g;
    }
  }

  // ---- every operation keeps it ----------------------------------------------------------------------

  /** An address keeps one server id, and a store that takes over a shard is new to its group. */
  ghost predicate Allowed(s: Topo, op: Op, serverOf: string -> nat) {
    match op
    case Set(address, shard) => shard.serverId == serverOf(address)
    case Replace(address, shard) =>
      && shard.serverId == serverOf(address)
      && var g := Padded(s.groups, shard.shardId + 1)[shard.shardId];
         NewTo(g, FindIdentifier(g, shard), address)
    case _ => true
  }

  ghost predicate NewTo(g: Group, k: nat, address: string) {
    forall j | 0 <= j < |g| && j != k :: g[j].address != address
  }

  lemma PaddedOk(s: Topo, n: nat, serverOf: string -> nat)
    requires Inv(s, serverOf)
    ensures Inv(s.(groups := Padded(s.groups, n)), serverOf)
  {
  }

  lemma WithGroupOk(s: Topo, i: nat, g: Group, serverOf: string -> nat)
    requires Inv(s, serverOf) && i < |s.groups| && GroupOk(g, i, serverOf)
    ensures Inv(s.(groups := s.groups[i := g]), serverOf)
  {
    hide GroupOk;
  }

  lemma SizedOk(s: Topo, size: int, serverOf: string -> nat)
    requires Inv(s, serverOf)
    ensures Inv(WithExpected(s, size), serverOf)
  {
  }

  lemma UpdateOk(g: Group, i: nat, k: nat, n: Node, serverOf: string -> nat)
    requires GroupOk(g, i, serverOf) && k < |g|
    requires n.shard.shardId == i && n.shard.serverId == serverOf(n.address) == g[k].shard.serverId
    requires NewTo(g, k, n.address)
    ensures GroupOk(g[k := n], i, serverOf)
  {
    var h := g[k := n];
    assert forall j | 0 <= j < |g| :: h[j].shard.serverId == g[j].shard.serverId;
  }

  lemma AppendOk(g: Group, i: nat, n: Node, serverOf: string -> nat)
    requires GroupOk(g, i, serverOf) && Find(g, n.address, i) == |g|
    requires n.shard.shardId == i && n.shard.serverId == serverOf(n.address)
    ensures Members(g + [n], i, serverOf) && Distinct(g + [n])
  {
    hide Leads;
    assert forall k | 0 <= k < |g| :: !Matches(g[k], n.address, i);
  }

  lemma SetNewKeepsInv(s: Topo, i: nat, h: Group, shard: ShardInfo, n: Node, serverOf: string -> nat)
    requires Inv(s, serverOf) && i < |s.groups| && Find(s.groups[i], n.address, i) == |s.groups[i]|
    requires n.shard.shardId == i && n.shard.serverId == serverOf(n.address)
    requires Resorted(s.groups[i] + [n], h, |s.groups|)
    ensures Inv(Sized(s.(groups := s.groups[i := h]), shard), serverOf)
  {
    assert GroupOk(s.groups[i], i, serverOf);
    hide Resorted, Inv, GroupOk, Sized, Find;
    AppendOk(s.groups[i], i, n, serverOf);
    ResortedOk(s.groups[i] + [n], h, i, |s.groups|, serverOf);
    WithGroupOk(s, i, h, serverOf);
    ReportedOk(s.(groups := s.groups[i := h]), shard, serverOf);
  }

  lemma SetKnownKeepsInv(s: Topo, i: nat, k: nat, n: Node, serverOf: string -> nat)
    requires Inv(s, serverOf) && i < |s.groups| && k < |s.groups[i]| && s.groups[i][k].address == n.address
    requires n.shard.shardId == i && n.shard.serverId == serverOf(n.address)
    ensures Inv(s.(groups := s.groups[i := s.groups[i][k := n]]), serverOf)
  {
    assert GroupOk(s.groups[i], i, serverOf);
    UpdateOk(s.groups[i], i, k, n, serverOf);
    WithGroupOk(s, i, s.groups[i][k := n], serverOf);
  }

  lemma SetKeepsInv(s: Topo, address: string, shard: ShardInfo, t: Topo, serverOf: string -> nat)
    requires Inv(s, serverOf) && shard.serverId == serverOf(address) && NextSet(s, address, shard, t)
    ensures Inv(t, serverOf)
  {
    hide Inv, Resorted, Sized;
    var i := shard.shardId;
    var s1 := s.(groups := Padded(s.groups, i + 1));
    PaddedOk(s, i + 1, serverOf);
    var g, n := s1.groups[i], Node(address, shard);
    var k := Find(g, address, i);
    if k < |g| {
      SetKnownKeepsInv(s1, i, k, n, serverOf);
    } else {
      var h :| Resorted(g + [n], h, |s1.groups|) && t == Sized(s.(groups := s1.groups[i := h]), shard);
      SetNewKeepsInv(s1, i, h, shard, n, serverOf);
    }
  }

  lemma ReportedOk(s: Topo, shard: ShardInfo, serverOf: string -> nat)
    requires Inv(s, serverOf)
    ensures Inv(Sized(s, shard), serverOf)
  {
    SizedOk(s, shard.clusterSize, serverOf);
  }

  lemma ReplaceKeepsInv(s: Topo, address: string, shard: ShardInfo, t: Topo, serverOf: string -> nat)
    requires Inv(s, serverOf) && Allowed(s, Replace(address, shard), serverOf) && NextReplace(s, address, shard, t)
    ensures Inv(t, serverOf)
  {
    var i := shard.shardId;
    var s1 := s.(groups := Padded(s.groups, i + 1));
    PaddedOk(s, i + 1, serverOf);
    var g, n := s1.groups[i], Node(address, shard);
    var k := FindIdentifier(g, shard);
    assert GroupOk(g, i, serverOf);
    if k < |g| {
      UpdateOk(g, i, k, n, serverOf);
      WithGroupOk(s1, i, g[k := n], serverOf);
    }
  }

  lemma RemoveKeepsInv(s: Topo, address: string, shard: ShardInfo, t: Topo, serverOf: string -> nat)
    requires Inv(s, serverOf) && NextRemove(s, address, shard, t)
    ensures Inv(t, serverOf)
  {
    var i := shard.shardId;
    if i < |s.groups| {
      var g := s.groups[i];
      var k := Find(g, address, i);
      if k < |g| {
        assert GroupOk(g, i, serverOf);
        var h :| Resorted(Drop(g, k), h, |s.groups|) && t == Emptied(s.(groups := s.groups[i := h]));
        hide Resorted;
        ResortedOk(Drop(g, k), h, i, |s.groups|, serverOf);
        WithGroupOk(s, i, h, serverOf);
      }
    }
  }

  lemma RemoveAllKeepsInv(s: Topo, address: string, t: Topo, serverOf: string -> nat)
    requires Inv(s, serverOf) && NextRemoveAll(s, address, t)
    ensures Inv(t, serverOf)
  {
    hide Resorted, Members, Distinct, Leads;
    forall i | 0 <= i < |t.groups|
      ensures GroupOk(t.groups[i], i, serverOf)
    {
      assert GroupOk(s.groups[i], i, serverOf);
      WithoutIs(s.groups[i], address);
      WithoutMembers(s.groups[i], i, serverOf, address);
      ResortedOk(Without(s.groups[i], address), t.groups[i], i, |s.groups|, serverOf);
    }
  }

  lemma NextKeepsInv(s: Topo, op: Op, t: Topo, serverOf: string -> nat)
    requires Inv(s, serverOf) && Allowed(s, op, serverOf) && Next(s, op, t)
    ensures Inv(t, serverOf)
  {
    hide Inv, NextSet, NextReplace, NextRemove, NextRemoveAll;
    match op
    case Set(address, shard) => SetKeepsInv(s, address, shard, t, serverOf);
    case Replace(address, shard) => ReplaceKeepsInv(s, address, shard, t, serverOf);
    case Remove(address, shard) => RemoveKeepsInv(s, address, shard, t, serverOf);
    case RemoveAll(address) => RemoveAllKeepsInv(s, address, t, serverOf);
    case Expect(size) => SizedOk(s, size, serverOf);
  }

  /** A run of operations, each allowed in the state it meets. */
  ghost predicate ValidRun(states: seq<Topo>, ops: seq<Op>, serverOf: string -> nat) {
    && |states| == |ops| + 1 && AllEmpty(states[0].groups)
    && forall j | 0 <= j < |ops| :: Allowed(states[j], ops[j], serverOf) && Next(states[j], ops[j], states[j + 1])
  }

  lemma {:induction false} RunKeepsInv(states: seq<Topo>, ops: seq<Op>, serverOf: string -> nat, j: nat)
    requires ValidRun(states, ops, serverOf) && j <= |ops|
    ensures Inv(states[j], serverOf)
  {
    if j > 0 {
      hide Inv, Next, Allowed;
      RunKeepsInv(states, ops, serverOf, j - 1);
      NextKeepsInv(states[j - 1], ops[j - 1], states[j], serverOf);
    }
  }

  /** At every point of every such run: group `i` holds shard `i` only, one node per address, and if
      server `i` is in the group at all, it is replica 0. */
  lemma LeaderIsFirst(states: seq<Topo>, ops: seq<Op>, serverOf: string -> nat, j: nat, i: nat, k: nat)
    requires ValidRun(states, ops, serverOf) && j <= |ops|
    requires i < |states[j].groups| && k < |states[j].groups[i]|
    ensures var g := states[j].groups[i];
            && g[k].shard.shardId == i
            && (forall b | 0 <= b < |g| && b != k :: g[b].address != g[k].address)
            && (g[k].shard.serverId == i ==> g[0].shard.serverId == i)
  {
    RunKeepsInv(states, ops, serverOf, j);
    var g := states[j].groups[i];
    assert GroupOk(g, i, serverOf);
    assert g[k].shard.serverId == i ==> HasServer(g, i);
  }

  // ---- the two hypotheses are exact ------------------------------------------------------------------

  /** Overwriting a node in place, as SetShard does for a known address, keeps the leader first
      exactly when the group's first node is not demoted under another node of server `i`, and no
      later node becomes server `i` behind a different first node. */
  lemma OverwriteLeadsIff(g: Group, i: nat, k: nat, n: Node)
    requires Leads(g, i) && k < |g|
    ensures Leads(g[k := n], i) <==>
            if n.shard.serverId == i then k == 0 || g[0].shard.serverId == i
            else k == 0 ==> forall j | 0 < j < |g| :: g[j].shard.serverId != i
  {
    var h := g[k := n];
    if n.shard.serverId == i {
      assert h[k].shard.serverId == i;
      assert HasServer(h, i);
    } else if k == 0 {
      if j :| 0 < j < |g| && g[j].shard.serverId == i {
        assert h[j].shard.serverId == i;
        assert HasServer(h, i);
      }
    } else if HasServer(h, i) {
      var j :| 0 <= j < |h| && h[j].shard.serverId == i;
      assert g[j].shard.serverId == i;
      assert HasServer(g, i);
    }
  }

  /** A replacement keeps one node per address exactly when its store is new to the group. */
  lemma ReplacementDistinctIff(g: Group, k: nat, n: Node)
    requires Distinct(g) && k < |g|
    ensures Distinct(g[k := n]) <==> NewTo(g, k, n.address)
  {
    var h := g[k := n];
    if !NewTo(g, k, n.address) {
      var j :| 0 <= j < |g| && j != k && g[j].address == n.address;
      assert h[j].address == h[k].address;
    }
  }

  // ---- what can be seen afterwards -------------------------------------------------------------------

  lemma SizedCuts(s: Topo, shard: ShardInfo, i: nat)
    requires i < |s.groups|
    ensures var t := Sized(s, shard);
            && |t.groups| <= |s.groups| && t.groups == s.groups[..|t.groups|]
            && (i < |t.groups| <==>
                  shard.clusterSize == s.expectedSize || shard.clusterSize == 0 || shard.clusterSize > i)
  {
  }

  /** A report is visible afterwards exactly when it updated a known node, or did not shrink the
      cluster below its own shard. The other groups are untouched, up to that cut. */
  lemma ReportVisibleIff(s: Topo, address: string, shard: ShardInfo, t: Topo)
    requires NextSet(s, address, shard, t)
    ensures var i := shard.shardId;
            var p := Padded(s.groups, i + 1);
            && (i < |t.groups| && Node(address, shard) in t.groups[i] <==>
                  || Find(p[i], address, i) < |p[i]|
                  || shard.clusterSize == s.expectedSize || shard.clusterSize == 0 || shard.clusterSize > i)
            && |t.groups| <= |p|
            && (forall j | 0 <= j < |t.groups| && j != i :: t.groups[j] == p[j])
  {
    var i := shard.shardId;
    var p := Padded(s.groups, i + 1);
    var g, n := p[i], Node(address, shard);
    var k := Find(g, address, i);
    hide SortedByRank, Sized, Padded, Find;
    if k < |g| {
      KnownNodeIsIn(p, i, k, n);
    } else {
      var h :| Resorted(g + [n], h, |p|) && t == Sized(s.(groups := p[i := h]), shard);
      NewNodeIsIn(g, n, h, |p|);
      hide Resorted;
      NewNodeStaysIff(s.(groups := p), shard, i, h, n);
    }
  }

  lemma KnownNodeIsIn(p: seq<Group>, i: nat, k: nat, n: Node)
    requires i < |p| && k < |p[i]|
    ensures n in p[i := p[i][k := n]][i]
    ensures forall j | 0 <= j < |p| && j != i :: p[i := p[i][k := n]][j] == p[j]
  {
    assert p[i][k := n][k] == n;
  }

  lemma NewNodeStaysIff(s: Topo, shard: ShardInfo, i: nat, h: Group, n: Node)
    requires i < |s.groups| && n in h
    ensures var t := Sized(s.(groups := s.groups[i := h]), shard);
            && |t.groups| <= |s.groups|
            && (i < |t.groups| && n in t.groups[i] <==>
                  shard.clusterSize == s.expectedSize || shard.clusterSize == 0 || shard.clusterSize > i)
            && (forall j | 0 <= j < |t.groups| && j != i :: t.groups[j] == s.groups[j])
  {
    SizedCuts(s.(groups := s.groups[i := h]), shard, i);
    hide Sized;
    var all := s.groups[i := h];
    assert all[i] == h && forall j | 0 <= j < |all| && j != i :: all[j] == s.groups[j];
  }

  lemma NewNodeIsIn(g: Group, n: Node, h: Group, size: nat)
    requires Resorted(g + [n], h, size)
    ensures n in h
  {
    hide SortedByRank;
    assert n in multiset(g + [n]);
    assert n in multiset(h);
  }

  /** RemoveStore leaves no node at the address and loses no other node. */
  lemma RemoveAllExactly(s: Topo, address: string, t: Topo, i: nat, n: Node)
    requires NextRemoveAll(s, address, t) && i < |s.groups|
    ensures n in t.groups[i] <==> n in s.groups[i] && n.address != address
    ensures multiset(t.groups[i]) == multiset(Without(s.groups[i], address))
  {
    hide SortedByRank;
    WithoutIs(s.groups[i], address);
    assert n in t.groups[i] <==> n in multiset(t.groups[i]);
    assert n in Without(s.groups[i], address) <==> n in multiset(Without(s.groups[i], address));
  }

  /** RemoveShard, in a run's states: the address is gone from that group, everyone else stays, and no
      other group changes unless the whole cluster is empty. */
  lemma RemoveExactly(s: Topo, address: string, shard: ShardInfo, t: Topo, serverOf: string -> nat, n: Node)
    requires Inv(s, serverOf) && NextRemove(s, address, shard, t) && shard.shardId < |s.groups|
    ensures var i := shard.shardId;
            var left := if t.groups == [] then [] else t.groups[i];
            && (t.groups != [] ==> |t.groups| == |s.groups|
                                   && forall j | 0 <= j < |t.groups| && j != i :: t.groups[j] == s.groups[j])
            && (n in left <==> n in s.groups[i] && n.address != address)
            && (t.groups == [] ==> forall j | 0 <= j < |s.groups| && j != i :: s.groups[j] == [])
            && t.expectedSize == (if t.groups == [] then 0 else s.expectedSize)
  {
    var i := shard.shardId;
    var g := s.groups[i];
    assert GroupOk(g, i, serverOf);
    hide SortedByRank, Leads, Emptied, Inv;
    var k := Find(g, address, i);
    if k < |g| {
      var h :| Resorted(Drop(g, k), h, |s.groups|) && t == Emptied(s.(groups := s.groups[i := h]));
      DropExactly(g, k, n);
      assert n in h <==> n in multiset(Drop(g, k));
      hide Resorted, Drop, Members, Distinct;
      EmptiedExactly(s, i, h);
    } else {
      NotThere(g, i, address, n, serverOf);
      assert s.groups[i := g] == s.groups;
      EmptiedExactly(s, i, g);
    }
  }

  lemma NotThere(g: Group, i: nat, address: string, n: Node, serverOf: string -> nat)
    requires Members(g, i, serverOf) && Find(g, address, i) == |g|
    ensures n in g ==> n.address != address
  {
    hide Find;
    if n in g {
      var k :| 0 <= k < |g| && g[k] == n;
      assert !Matches(g[k], address, i);
    }
  }

  /** A group is changed, and a cluster without nodes forgets its groups and its size. */
  lemma EmptiedExactly(s: Topo, i: nat, h: Group)
    requires i < |s.groups|
    ensures var t := Emptied(s.(groups := s.groups[i := h]));
            && (if t.groups == [] then h == [] else |t.groups| == |s.groups| && t.groups[i] == h)
            && (forall j | 0 <= j < |s.groups| && j != i ::
                  if t.groups == [] then s.groups[j] == [] else t.groups[j] == s.groups[j])
            && t.expectedSize == (if t.groups == [] then 0 else s.expectedSize)
  {
    var all := s.groups[i := h];
    assert all[i] == h;
    assert forall j | 0 <= j < |s.groups| && j != i :: all[j] == s.groups[j];
  }

  lemma DropExactly(g: Group, k: nat, n: Node)
    requires Distinct(g) && k < |g|
    ensures n in Drop(g, k) <==> n in g && n.address != g[k].address
  {
    var h := Drop(g, k);
    if n in h {
      var j :| 0 <= j < |h| && h[j] == n;
      assert n == if j < k then g[j] else g[j + 1];
    }
    if n in g && n.address != g[k].address {
      var j :| 0 <= j < |g| && g[j] == n;
      assert n == if j < k then h[j] else h[j - 1];
    }
  }

  // ---- the object ----------------------------------------------------------------------------------

  class Cluster {
    var groups: seq<Group>
    var expectedSize: int
    var replicationFactor: int
    var nextCluster: Cluster?

    function View(): Topo
      reads this
    {
      Topo(groups, expectedSize, replicationFactor)
    }

    constructor (size: nat, factor: int)
      ensures View() == Topo(Padded([], size), size, factor) && nextCluster == null
    {
      groups := Padded([], size);
      expectedSize := size;
      replicationFactor := factor;
      nextCluster := null;
    }

    method SetExpectedSize(size: int)
      modifies this`expectedSize, this`groups
      ensures View() == WithExpected(old(View()), size)
      ensures expectedSize == if size > 0 then size else old(expectedSize)
      ensures |groups| == if size <= 0 then |old(groups)|
                          else if old(groups) == [] || size < |old(groups)| then size
                          else |old(groups)|
      ensures forall i | 0 <= i < |groups| :: groups[i] == if i < |old(groups)| then old(groups)[i] else []
    {
      if size > 0 {
        expectedSize := size;
        if |groups| == 0 {
          groups := seq(size, _ => []);
        }
        if size < |groups| {
          groups := groups[0..size];
        }
      }
    }

    method SetReplicationFactor(factor: int)
      modifies this`replicationFactor
      ensures View() == WithReplication(old(View()), factor)
      ensures replicationFactor == if factor > 0 then factor else old(replicationFactor)
    {
      if factor > 0 {
        replicationFactor := factor;
      }
    }

    /** A known address is updated where it stands; a new one is added and the group sorted again. */
    method SetShard(address: string, shard: ShardInfo) returns (prior: Prior)
      modifies this`groups, this`expectedSize, this`replicationFactor
      ensures Next(old(View()), Set(address, shard), View())
      ensures var g := Padded(old(groups), shard.shardId + 1)[shard.shardId];
              var k := Find(g, address, shard.shardId);
              prior == if k < |g| then Prior(g[k].shard) else NoPrior
      ensures expectedSize == if prior.NoPrior? && shard.clusterSize > 0 then shard.clusterSize else old(expectedSize)
      ensures replicationFactor == if prior.NoPrior? && shard.replicationFactor > 0 then shard.replicationFactor
                                   else old(replicationFactor)
    {
      var id := shard.shardId;
      ghost var s := View();
      ghost var p := Padded(groups, id + 1);
      if |groups| < id + 1 {
        groups := groups + seq(id + 1 - |groups|, _ => []);
      }
      assert groups == p;
      var g := groups[id];
      var i := 0;
      while i < |g|
        invariant i <= |g| && forall k | 0 <= k < i :: !Matches(g[k], address, id)
        invariant View() == s.(groups := p)
      {
        if g[i].address == address && g[i].shard.shardId == id {
          prior := Prior(g[i].shard);
          FindIs(g, address, id, i);
          groups := groups[id := g[i := Node(address, shard)]];
          return;
        }
        i := i + 1;
      }
      FindIs(g, address, id, i);
      prior := NoPrior;
      var h := SortedShards(g + [Node(address, shard)], |groups|);
      groups := groups[id := h];
      if expectedSize != shard.clusterSize {
        SetExpectedSize(shard.clusterSize);
      }
      if replicationFactor != shard.replicationFactor {
        SetReplicationFactor(shard.replicationFactor);
      }
    }

    method ReplaceShard(address: string, shard: ShardInfo) returns (isReplaced: bool)
      modifies this`groups
      ensures Next(old(View()), Replace(address, shard), View())
      ensures var g := Padded(old(groups), shard.shardId + 1)[shard.shardId];
              && (isReplaced <==> FindIdentifier(g, shard) < |g|)
              && (isReplaced <==>
                    exists k :: 0 <= k < |g| && g[k].shard.keyspace == shard.keyspace
                                && g[k].shard.serverId == shard.serverId && g[k].shard.shardId == shard.shardId)
              && shard.shardId < |groups|
              && (isReplaced ==> Node(address, shard) in groups[shard.shardId]
                                 && |groups[shard.shardId]| == |g|)
    {
      var id := shard.shardId;
      ghost var p := Padded(groups, id + 1);
      if |groups| < id + 1 {
        groups := groups + seq(id + 1 - |groups|, _ => []);
      }
      assert groups == p;
      var g := groups[id];
      var i := 0;
      while i < |g|
        invariant i <= |g| && forall k | 0 <= k < i :: !SameIdentifier(g[k].shard, shard)
        invariant groups == p
      {
        if SameIdentifier(g[i].shard, shard) {
          FindIdentifierIs(g, shard, i);
          groups := groups[id := g[i := Node(address, shard)]];
          assert groups[id][i] == Node(address, shard);
          return true;
        }
        i := i + 1;
      }
      FindIdentifierIs(g, shard, i);
      return false;
    }

    /** The number of groups up to the last one that is not empty. */
    method CurrentSize() returns (n: nat)
      ensures n <= |groups| && (n > 0 ==> groups[n - 1] != [])
      ensures forall i | n <= i < |groups| :: groups[i] == []
    {
      n := |groups|;
      while n > 0 && |groups[n - 1]| == 0
        invariant n <= |groups| && forall i | n <= i < |groups| :: groups[i] == []
      {
        n := n - 1;
      }
    }

    method IsStoreInUse(address: string) returns (used: bool)
      ensures used <==> InUse(groups, address)
    {
      var i := 0;
      while i < |groups|
        invariant i <= |groups|
        invariant forall a, b | 0 <= a < i && 0 <= b < |groups[a]| :: groups[a][b].address != address
      {
        var k := 0;
        while k < |groups[i]|
          invariant k <= |groups[i]| && forall b | 0 <= b < k :: groups[i][b].address != address
        {
          if groups[i][k].address == address {
            return true;
          }
          k := k + 1;
        }
        i := i + 1;
      }
      return false;
    }

    /** True when neither this cluster nor the next one still uses the store; a shard number past the
        end answers false and changes nothing. */
    method RemoveShard(address: string, shard: ShardInfo) returns (storeDeleted: bool)
      modifies this`groups, this`expectedSize
      ensures Next(old(View()), Remove(address, shard), View())
      ensures storeDeleted <==> shard.shardId < |old(groups)| && !InUse(groups, address)
                                && (nextCluster == null || !InUse(nextCluster.groups, address))
    {
      var id := shard.shardId;
      if |groups| <= id {
        return false;
      }
      ghost var s := View();
      var g := groups[id];
      var i := 0;
      while i < |g| && !(g[i].address == address && g[i].shard.shardId == id)
        invariant i <= |g| && forall k | 0 <= k < i :: !Matches(g[k], address, id)
      {
        i := i + 1;
      }
      FindIs(g, address, id, i);
      ghost var t := s;
      if i < |g| {
        var h := SortedShards(g[..i] + g[i + 1..], |groups|);
        groups := groups[id := h];
        t := s.(groups := s.groups[id := h]);
        assert Resorted(Drop(g, i), h, |s.groups|);
      }
      var n := CurrentSize();
      if n == 0 {
        assert AllEmpty(t.groups);
        expectedSize := 0;
        groups := [];
      } else {
        assert t.groups[n - 1] != [];
      }
      assert View() == Emptied(t);
      var here := IsStoreInUse(address);
      if here {
        return false;
      }
      var there := false;
      if nextCluster != null {
        there := nextCluster.IsStoreInUse(address);
      }
      return !there;
    }

    /** The shards that were on the server, group by group, and only those, are gone. */
    method RemoveStore(address: string) returns (removed: seq<ShardInfo>)
      modifies this`groups
      ensures Next(old(View()), RemoveAll(address), View())
      ensures removed == AllAt(old(groups), address)
      ensures !InUse(groups, address)
      ensures forall sh :: sh in removed <==>
                exists i, k :: 0 <= i < |old(groups)| && 0 <= k < |old(groups)[i]|
                               && old(groups)[i][k] == Node(address, sh)
    {
      hide Without, At, SortedByRank;
      removed := [];
      ghost var s := groups;
      var id := 0;
      while id < |groups|
        invariant id <= |groups| == |s| && forall i | id <= i < |s| :: groups[i] == s[i]
        invariant forall i | 0 <= i < id :: Resorted(Without(s[i], address), groups[i], |s|)
        invariant removed == AllAt(s[..id], address)
      {
        var g, shards := RemoveFrom(groups[id], address);
        assert s[..id + 1][..id] == s[..id];
        removed := removed + shards;
        var h := SortedShards(g, |groups|);
        hide Resorted;
        groups := groups[id := h];
        id := id + 1;
      }
      assert s[..id] == s;
      NothingLeft(s, groups, address);
      forall sh
        ensures sh in removed <==>
                exists i, k :: 0 <= i < |s| && 0 <= k < |s[i]| && s[i][k] == Node(address, sh)
      {
        AllAtMember(s, address, sh);
      }
    }

    /** The shard a key is routed to. */
    method FindShardId(hash: U64) returns (id: int)
      ensures id == JumpHash.Hash(hash, expectedSize)
      ensures if expectedSize > 0 then 0 <= id < expectedSize else id == -1
    {
      JumpHash.HashInRange(hash, expectedSize);
      id := JumpHash.JumpLoop(hash, expectedSize);
    }

    method GetNode(shardId: int, replica: nat) returns (node: Node, found: bool)
      ensures found <==> 0 <= shardId < |groups| && replica < |groups[shardId]|
      ensures found ==> node == groups[shardId][replica]
    {
      if shardId < 0 || shardId >= |groups| || replica >= |groups[shardId]| {
        return Node("", ShardInfo("", 0, 0, 0, 0)), false;
      }
      return groups[shardId][replica], true;
    }
  }

  lemma {:induction false} AtMember(g: Group, address: string, sh: ShardInfo)
    ensures sh in At(g, address) <==> Node(address, sh) in g
    decreases |g|
  {
    if g != [] {
      AtMember(g[..|g| - 1], address, sh);
      assert g == g[..|g| - 1] + [g[|g| - 1]];
    }
  }

  lemma {:induction false} AllAtMember(groups: seq<Group>, address: string, sh: ShardInfo)
    ensures sh in AllAt(groups, address) <==>
            exists i, k :: 0 <= i < |groups| && 0 <= k < |groups[i]| && groups[i][k] == Node(address, sh)
    decreases |groups|
  {
    if groups != [] {
      var n := |groups| - 1;
      var init := groups[..n];
      AllAtMember(init, address, sh);
      AtMember(groups[n], address, sh);
      if i, k :| 0 <= i < |init| && 0 <= k < |init[i]| && init[i][k] == Node(address, sh) {
        assert groups[i][k] == Node(address, sh);
      }
      if i, k :| 0 <= i < |groups| && 0 <= k < |groups[i]| && groups[i][k] == Node(address, sh) {
        if i < n {
          assert init[i][k] == Node(address, sh);
        }
      }
    }
  }

  lemma {:induction false} NoneAt(g: Group, address: string)
    requires forall k | 0 <= k < |g| :: g[k].address != address
    ensures At(g, address) == []
    decreases |g|
  {
    if g != [] {
      NoneAt(g[..|g| - 1], address);
    }
  }

  lemma {:induction false} AtMostOneAt(g: Group, i: nat, serverOf: string -> nat, address: string)
    requires Members(g, i, serverOf) && Distinct(g)
    ensures |At(g, address)| <= 1 && forall sh | sh in At(g, address) :: sh.shardId == i
    decreases |g|
  {
    if g != [] {
      var front, last := g[..|g| - 1], g[|g| - 1];
      AtMostOneAt(front, i, serverOf, address);
      if last.address == address {
        NoneAt(front, address);
      }
    }
  }

  ghost predicate InOrder(removed: seq<ShardInfo>, n: nat) {
    && (forall a | 0 <= a < |removed| :: removed[a].shardId < n)
    && (forall a, b | 0 <= a < b < |removed| :: removed[a].shardId < removed[b].shardId)
  }

  lemma InOrderStep(before: seq<ShardInfo>, here: seq<ShardInfo>, i: nat)
    requires InOrder(before, i) && |here| <= 1 && forall sh | sh in here :: sh.shardId == i
    ensures InOrder(before + here, i + 1)
  {
    if here == [] {
      assert before + here == before;
    } else {
      assert here[0] in here;
      assert before + here == before + [here[0]];
    }
  }

  /** In a run's states the shards that RemoveStore returns come in the order of their numbers, each once. */
  lemma {:induction false} RemovedInOrder(s: Topo, serverOf: string -> nat, address: string, n: nat)
    requires Inv(s, serverOf) && n <= |s.groups|
    ensures InOrder(AllAt(s.groups[..n], address), n)
    decreases n
  {
    if n > 0 {
      RemovedInOrder(s, serverOf, address, n - 1);
      assert s.groups[..n][..n - 1] == s.groups[..n - 1];
      assert GroupOk(s.groups[n - 1], n - 1, serverOf);
      AtMostOneAt(s.groups[n - 1], n - 1, serverOf, address);
      InOrderStep(AllAt(s.groups[..n - 1], address), At(s.groups[n - 1], address), n - 1);
    }
  }

  /** Removing and returning loses nothing. */
  lemma {:induction false} AtAndWithout(g: Group, address: string)
    ensures |At(g, address)| + |Without(g, address)| == |g|
    decreases |g|
  {
    if g != [] {
      AtAndWithout(g[..|g| - 1], address);
    }
  }

  lemma NothingLeft(s: seq<Group>, groups: seq<Group>, address: string)
    requires |groups| == |s| && forall i | 0 <= i < |s| :: Resorted(Without(s[i], address), groups[i], |s|)
    ensures !InUse(groups, address)
  {
    hide SortedByRank;
    forall i, k | 0 <= i < |groups| && 0 <= k < |groups[i]|
      ensures groups[i][k].address != address
    {
      WithoutIs(s[i], address);
      assert groups[i][k] in multiset(groups[i]);
      assert groups[i][k] in Without(s[i], address);
    }
  }

  /** The inner loop of RemoveStore: close the gap and look at the same index again. */
  method RemoveFrom(group: Group, address: string) returns (g: Group, removed: seq<ShardInfo>)
    ensures g == Without(group, address) && removed == At(group, address)
    ensures |g| + |removed| == |group|
  {
    g, removed := group, [];
    var i := 0;
    ghost var j := 0;
    while i < |g|
      invariant i <= |g| && j <= |group| && |g| - i == |group| - j
      invariant g[i..] == group[j..]
      invariant g[..i] == Without(group[..j], address) && removed == At(group[..j], address)
      decreases |g| - i
    {
      assert g[i] == g[i..][0] == group[j];
      assert group[..j + 1][..j] == group[..j];
      assert group[j..][1..] == group[j + 1..] && g[i..][1..] == g[i + 1..];
      if g[i].address == address {
        removed := removed + [g[i].shard];
        ghost var head, tail := g[..i], g[i + 1..];
        g := g[..i] + g[i + 1..];
        assert g[..i] == head && g[i..] == tail;
      } else {
        assert g[..i + 1] == g[..i] + [g[i]];
        i := i + 1;
      }
      j := j + 1;
    }
    assert group[..j] == group && g[..i] == g;
    AtAndWithout(group, address);
  }
}
