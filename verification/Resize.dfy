/** Compaction on a store's shards while the cluster is resized: the filter, the flag that protects rows
    between prepare and commit, and the loops that set it. */
module Resize {
  import opened Bytes
  import opened Codec
  import opened JumpHash
  import opened Placement

  datatype Filter = Filter(shardId: int, shardCount: int, isResizing: bool)

  type Rows = map<ByteString, ByteString>

  datatype Shard = Shard(filter: Filter, rows: Rows)

  type Shards = map<int, Shard>

  // ---- the filter ----------------------------------------------------------------------------------

  predicate Foreign(f: Filter, e: Entry) {
    !f.isResizing && f.shardId != Hash(e.partitionHash, f.shardCount)
  }

  /** Filter's verdict; a value that does not decode is the store's own and stays. */
  predicate Drops(f: Filter, raw: ByteString, nowNs: U64) {
    var d := FromBytes(raw);
    d.Accepted? && (Foreign(f, d.entry) || TtlDropped(d.entry, nowNs))
  }

  /** A compaction that visits `keys`; the library visits which it likes. */
  function Compacted(s: Shard, keys: set<ByteString>, nowNs: U64): Shard {
    s.(rows := map k | k in s.rows && !(k in keys && Drops(s.filter, s.rows[k], nowNs)) :: s.rows[k])
  }

  /** A row a reader at `latestNs` can still see and the shard does not disown. */
  predicate Kept(f: Filter, raw: ByteString, latestNs: U64) {
    var d := FromBytes(raw);
    d.Rejected? || (!Foreign(f, d.entry) && !IsExpired(d.entry, latestNs))
  }

  lemma KeptSurvives(f: Filter, raw: ByteString, nowNs: U64, latestNs: U64)
    requires nowNs <= latestNs && Kept(f, raw, latestNs)
    ensures !Drops(f, raw, nowNs)
  {
    hide Foreign, FromBytes, IsExpired, TtlDropped;
    var d := FromBytes(raw);
    if d.Accepted? && TtlDropped(d.entry, nowNs) {
      TtlAgreement(d.entry, nowNs, latestNs);
    }
  }

  // ---- a store between prepare and commit ------------------------------------------------------------

  /** This server, the sizes before and after, and the replication factor. */
  datatype Config = Config(server: nat, fromSize: int, toSize: int, replicas: int)

  predicate Stays(c: Config, id: int) {
    Placed(id, c.server, c.toSize, c.replicas)
  }

  /** Each shard the new cluster also places here, with its flag set or cleared. */
  function Flagged(c: Config, shards: Shards, on: bool): Shards {
    map id | id in shards ::
      if Stays(c, id) then shards[id].(filter := shards[id].filter.(isResizing := on)) else shards[id]
  }

  /** Commit: those shards filter for the new size from now on. */
  function Committed(c: Config, shards: Shards): Shards {
    map id | id in shards ::
      if Stays(c, id) then shards[id].(filter := Filter(id, c.toSize, false)) else shards[id]
  }

  datatype Action =
    | Create(id: int)
    | Write(id: int, key: ByteString, raw: ByteString)
    | Erase(id: int, key: ByteString)
    | Compact(id: int, keys: set<ByteString>, nowNs: U64)
    | Restart

  predicate Enabled(c: Config, s: Shards, a: Action) {
    match a
    case Create(id) => id !in s && Stays(c, id)
    case Restart => true
    case _ => a.id in s
  }

  /** A restarted store opens its shards at their recorded sizes; the flag was in memory only. */
  function Reopened(s: Shards): Shards {
    map id | id in s :: s[id].(filter := s[id].filter.(isResizing := false))
  }

  function Do(c: Config, s: Shards, a: Action): Shards
    requires Enabled(c, s, a)
  {
    match a
    case Create(id) => s[id := Shard(Filter(id, c.toSize, false), map[])]
    case Write(id, key, raw) => s[id := s[id].(rows := s[id].rows[key := raw])]
    case Erase(id, key) => s[id := s[id].(rows := s[id].rows - {key})]
    case Compact(id, keys, nowNs) => s[id := Compacted(s[id], keys, nowNs)]
    case Restart => Reopened(s)
  }

  ghost predicate ValidRun(c: Config, s: Shards, run: seq<Action>, latestNs: U64)
    decreases |run|
  {
    run == [] || (&& Enabled(c, s, run[0])
                  && (run[0].Compact? ==> run[0].nowNs <= latestNs)
                  && ValidRun(c, Do(c, s, run[0]), run[1..], latestNs))
  }

  ghost function Final(c: Config, s: Shards, run: seq<Action>, latestNs: U64): Shards
    requires ValidRun(c, s, run, latestNs)
    decreases |run|
  {
    if run == [] then s else Final(c, Do(c, s, run[0]), run[1..], latestNs)
  }

  /** The same run with no compaction in it. */
  function WithoutCompaction(run: seq<Action>): seq<Action> {
    if run == [] then []
    else if run[0].Compact? then WithoutCompaction(run[1..])
    else [run[0]] + WithoutCompaction(run[1..])
  }

  // ---- compaction loses no kept row --------------------------------------------------------------------

  /** `s` is what compactions left of `q`. */
  ghost predicate Remains(s: Shard, q: Shard, latestNs: U64) {
    && s.filter == q.filter
    && (forall k | k in s.rows :: k in q.rows && s.rows[k] == q.rows[k])
    && (forall k | k in q.rows && Kept(q.filter, q.rows[k], latestNs) :: k in s.rows)
  }

  ghost predicate AllRemain(s: Shards, q: Shards, latestNs: U64) {
    s.Keys == q.Keys && forall id | id in s :: Remains(s[id], q[id], latestNs)
  }

  lemma CompactedRemains(s: Shard, q: Shard, keys: set<ByteString>, nowNs: U64, latestNs: U64)
    requires Remains(s, q, latestNs) && nowNs <= latestNs
    ensures Remains(Compacted(s, keys, nowNs), q, latestNs)
  {
    hide Kept, Drops;
    forall k | k in q.rows && Kept(q.filter, q.rows[k], latestNs)
      ensures k in Compacted(s, keys, nowNs).rows
    {
      KeptSurvives(q.filter, q.rows[k], nowNs, latestNs);
    }
  }

  /** Without the flag a filter keeps no more than with it. */
  lemma ReopenedRemains(s: Shards, q: Shards, latestNs: U64)
    requires AllRemain(s, q, latestNs)
    ensures AllRemain(Reopened(s), Reopened(q), latestNs)
  {
    hide Hash, FromBytes, IsExpired;
    forall id | id in s
      ensures Remains(Reopened(s)[id], Reopened(q)[id], latestNs)
    {
      assert Remains(s[id], q[id], latestNs);
    }
  }

  lemma StepRemains(c: Config, s: Shards, q: Shards, a: Action, latestNs: U64)
    requires AllRemain(s, q, latestNs) && Enabled(c, s, a) && (a.Compact? ==> a.nowNs <= latestNs)
    ensures Enabled(c, q, a)
    ensures AllRemain(Do(c, s, a), if a.Compact? then q else Do(c, q, a), latestNs)
  {
    hide Kept, Drops, Compacted, Stays, Reopened;
    if a.Compact? {
      CompactedRemains(s[a.id], q[a.id], a.keys, a.nowNs, latestNs);
    } else if a.Restart? {
      ReopenedRemains(s, q, latestNs);
    }
  }

  lemma {:induction false} RunRemains(c: Config, s: Shards, q: Shards, run: seq<Action>, latestNs: U64)
    requires AllRemain(s, q, latestNs) && ValidRun(c, s, run, latestNs)
    ensures ValidRun(c, q, WithoutCompaction(run), latestNs)
    ensures AllRemain(Final(c, s, run, latestNs), Final(c, q, WithoutCompaction(run), latestNs), latestNs)
    decreases |run|
  {
    hide AllRemain, Do, Enabled;
    if run != [] {
      var a := run[0];
      StepRemains(c, s, q, a, latestNs);
      if a.Compact? {
        RunRemains(c, Do(c, s, a), q, run[1..], latestNs);
      } else {
        RunRemains(c, Do(c, s, a), Do(c, q, a), run[1..], latestNs);
        var rest := WithoutCompaction(run[1..]);
        assert WithoutCompaction(run)[0] == a && WithoutCompaction(run)[1..] == rest;
      }
    }
  }

  // ---- the filters of the window -----------------------------------------------------------------------

  /** The filter a shard has: set by prepare until a restart forgets the flag, or set by its creation. */
  ghost predicate WindowFilter(c: Config, before: Shards, id: int, f: Filter, restarted: bool) {
    if id !in before then f == Filter(id, c.toSize, false)
    else if restarted then f == before[id].filter.(isResizing := false)
    else f == if Stays(c, id) then before[id].filter.(isResizing := true) else before[id].filter
  }

  ghost predicate WindowFilters(c: Config, before: Shards, s: Shards, restarted: bool) {
    before.Keys <= s.Keys && forall id | id in s :: WindowFilter(c, before, id, s[id].filter, restarted)
  }

  predicate Restarts(run: seq<Action>) {
    Restart in run
  }

  lemma StepKeepsFilters(c: Config, before: Shards, s: Shards, a: Action, restarted: bool)
    requires WindowFilters(c, before, s, restarted) && Enabled(c, s, a)
    ensures WindowFilters(c, before, Do(c, s, a), restarted || a.Restart?)
  {
    hide Stays, Drops;
  }

  lemma {:induction false} RunKeepsFilters(c: Config, before: Shards, s: Shards, run: seq<Action>, latestNs: U64,
                                           restarted: bool)
    requires WindowFilters(c, before, s, restarted) && ValidRun(c, s, run, latestNs)
    ensures WindowFilters(c, before, Final(c, s, run, latestNs), restarted || Restarts(run))
    decreases |run|
  {
    hide WindowFilters, Do, Enabled;
    if run != [] {
      var a := run[0];
      StepKeepsFilters(c, before, s, a, restarted);
      RunKeepsFilters(c, before, Do(c, s, a), run[1..], latestNs, restarted || a.Restart?);
      assert run == [a] + run[1..];
    }
  }

  predicate OwnedBefore(c: Config, before: Shards, id: int, e: Entry) {
    id in before && before[id].filter.shardCount == c.fromSize && Hash(e.partitionHash, c.fromSize) == id
  }

  predicate OwnedAfter(c: Config, id: int, e: Entry) {
    Stays(c, id) && Hash(e.partitionHash, c.toSize) == id
  }

  /** What the resize needs on a shard: the rows it owned at the old size, and, if it stays, the rows
      it owns at the new size. */
  predicate Needed(c: Config, before: Shards, id: int, e: Entry) {
    OwnedBefore(c, before, id, e) || OwnedAfter(c, id, e)
  }

  /** Needed rows that do not depend on the flag: those of the old size, and those of a new shard. */
  predicate Flagless(c: Config, before: Shards, id: int, e: Entry) {
    OwnedBefore(c, before, id, e) || (OwnedAfter(c, id, e) && id !in before)
  }

  lemma NeededIsNotForeign(c: Config, before: Shards, id: int, f: Filter, e: Entry, restarted: bool)
    requires WindowFilter(c, before, id, f, restarted)
    requires Needed(c, before, id, e) && (restarted ==> Flagless(c, before, id, e))
    requires id in before ==> before[id].filter.shardId == id
    ensures !Foreign(f, e)
  {
    hide Hash, Stays;
  }

  /** From prepare to commit, in every interleaving of shard creation, copied and written rows, deletes,
      compactions and restarts: every row that the old or the new size needs, and that a reader at the end
      could still see, is there exactly as if no compaction had run, and compaction adds nothing. If the
      store was restarted, this holds of the rows that do not depend on the flag. */
  lemma CompactionIsSafeDuringResize(c: Config, before: Shards, run: seq<Action>, latestNs: U64,
                                     id: int, key: ByteString)
    requires forall i | i in before :: before[i].filter.shardId == i
    requires ValidRun(c, Flagged(c, before, true), run, latestNs)
    ensures ValidRun(c, Flagged(c, before, true), WithoutCompaction(run), latestNs)
    ensures var s := Final(c, Flagged(c, before, true), run, latestNs);
            var q := Final(c, Flagged(c, before, true), WithoutCompaction(run), latestNs);
            && s.Keys == q.Keys
            && (id in s && key in s[id].rows ==> key in q[id].rows && s[id].rows[key] == q[id].rows[key])
            && (id in q && key in q[id].rows ==>
                  var d := FromBytes(q[id].rows[key]);
                  (|| d.Rejected?
                   || (&& Needed(c, before, id, d.entry) && !IsExpired(d.entry, latestNs)
                       && (Restarts(run) ==> Flagless(c, before, id, d.entry)))) ==>
                    key in s[id].rows)
  {
    hide Stays, Hash, FromBytes, IsExpired, Foreign, Needed, Flagless;
    var start := Flagged(c, before, true);
    RunRemains(c, start, start, run, latestNs);
    RunKeepsFilters(c, before, start, run, latestNs, false);
    var s := Final(c, start, run, latestNs);
    var q := Final(c, start, WithoutCompaction(run), latestNs);
    hide ValidRun, Final;
    if id in q && key in q[id].rows {
      assert Remains(s[id], q[id], latestNs);
      var d := FromBytes(q[id].rows[key]);
      if && d.Accepted? && Needed(c, before, id, d.entry)
         && (Restarts(run) ==> Flagless(c, before, id, d.entry)) {
        NeededIsNotForeign(c, before, id, s[id].filter, d.entry, Restarts(run));
      }
    }
  }

  // ---- what a restart costs ----------------------------------------------------------------------------

  lemma OneMore(c: Config, s: Shards, a: Action, rest: seq<Action>, latestNs: U64)
    requires Enabled(c, s, a) && (a.Compact? ==> a.nowNs <= latestNs) && ValidRun(c, Do(c, s, a), rest, latestNs)
    ensures ValidRun(c, s, [a] + rest, latestNs)
    ensures Final(c, s, [a] + rest, latestNs) == Final(c, Do(c, s, a), rest, latestNs)
  {
    hide Enabled, Do;
    assert ([a] + rest)[1..] == rest;
  }

  /** After this run of window steps the shard has the row under the key, unless compaction took it. */
  ghost predicate HasRow(c: Config, before: Shards, run: seq<Action>, latestNs: U64, id: int, key: ByteString,
                         e: Entry) {
    && ValidRun(c, Flagged(c, before, true), WithoutCompaction(run), latestNs)
    && var q := Final(c, Flagged(c, before, true), WithoutCompaction(run), latestNs);
       id in q && key in q[id].rows && q[id].rows[key] == Encode(e)
  }

  /** A row copied in for the new size is written; the store restarts; the next compaction drops it. */
  lemma RestartLosesCopiedRow(c: Config, before: Shards, id: int, key: ByteString, e: Entry, latestNs: U64)
    requires id in before && before[id].filter == Filter(id, c.fromSize, false) && Stays(c, id) && e.value != []
    requires Hash(e.partitionHash, c.fromSize) != id
    ensures var run := [Write(id, key, Encode(e))] + ([Restart] + [Compact(id, {key}, latestNs)]);
            && ValidRun(c, Flagged(c, before, true), run, latestNs)
            && HasRow(c, before, run, latestNs, id, key, e)
            && var s := Final(c, Flagged(c, before, true), run, latestNs); id in s && key !in s[id].rows
  {
    hide Hash, Encode, FromBytes, TtlDropped, Stays;
    var w, compact := Write(id, key, Encode(e)), Compact(id, {key}, latestNs);
    var s0 := Flagged(c, before, true);
    var s1 := Do(c, s0, w);
    var s2 := Do(c, s1, Restart);
    assert s2[id].filter == Filter(id, c.fromSize, false) && s2[id].rows[key] == Encode(e);
    RoundTrip(e);
    assert Drops(s2[id].filter, s2[id].rows[key], latestNs);
    var s3 := Do(c, s2, compact);
    assert key !in s3[id].rows;
    OneMore(c, s2, compact, [], latestNs);
    OneMore(c, s2, Restart, [], latestNs);
    OneMore(c, s1, Restart, [], latestNs);
    assert [compact] + [] == [compact] && [Restart] + [] == [Restart];
    OneMore(c, s1, Restart, [compact], latestNs);
    OneMore(c, s0, w, [Restart] + [compact], latestNs);
    OneMore(c, s0, w, [Restart], latestNs);
    WithoutCompactionHere(w, compact);
  }

  lemma WithoutCompactionHere(w: Action, compact: Action)
    requires w.Write? && compact.Compact?
    ensures WithoutCompaction([w] + ([Restart] + [compact])) == [w] + [Restart]
  {
    var run := [w] + ([Restart] + [compact]);
    assert run[1..] == [Restart] + [compact] && run[1..][1..] == [compact] && [compact][1..] == [];
    assert WithoutCompaction([compact]) == [];
  }

  /** On a shard that was there before and stays, a live row of the new size outlasts every run with
      restarts exactly when it was the shard's row at the old size too. */
  lemma OutlastsRestartsIff(c: Config, before: Shards, id: int, e: Entry, latestNs: U64)
    requires forall i | i in before :: before[i].filter.shardId == i
    requires id in before && before[id].filter == Filter(id, c.fromSize, false)
    requires OwnedAfter(c, id, e) && e.value != [] && !IsExpired(e, latestNs)
    ensures (forall run, key | ValidRun(c, Flagged(c, before, true), run, latestNs)
                               && HasRow(c, before, run, latestNs, id, key, e) ::
               var s := Final(c, Flagged(c, before, true), run, latestNs); id in s && key in s[id].rows)
            <==> Hash(e.partitionHash, c.fromSize) == id
  {
    hide Hash, Encode, FromBytes, IsExpired, ValidRun, Final, Stays;
    if Hash(e.partitionHash, c.fromSize) == id {
      RoundTrip(e);
      forall run, key | ValidRun(c, Flagged(c, before, true), run, latestNs)
                        && HasRow(c, before, run, latestNs, id, key, e)
        ensures var s := Final(c, Flagged(c, before, true), run, latestNs); id in s && key in s[id].rows
      {
        CompactionIsSafeDuringResize(c, before, run, latestNs, id, key);
      }
    } else {
      RestartLosesCopiedRow(c, before, id, [], e, latestNs);
    }
  }

  // ---- commit and failure ------------------------------------------------------------------------------

  /** After commit, a full compaction of a shard that stays leaves exactly the rows the shard owns at
      the new size and the age rule spares, and the store's own values. Rows that are expired for readers
      but not yet for the age rule stay. */
  lemma CommitThenCompactIsExact(c: Config, shards: Shards, id: int, key: ByteString, nowNs: U64)
    requires id in shards && Stays(c, id)
    ensures var s := shards[id];
            var t := Compacted(Committed(c, shards)[id], s.rows.Keys, nowNs);
            key in t.rows <==>
              && key in s.rows
              && var d := FromBytes(s.rows[key]);
                 d.Rejected? || (Hash(d.entry.partitionHash, c.toSize) == id && !TtlDropped(d.entry, nowNs))
  {
    hide Hash, FromBytes, TtlDropped, Stays;
  }

  /** A failed prepare puts every filter back as it was. */
  lemma FailureRestoresFilters(c: Config, before: Shards, s: Shards, id: int, restarted: bool)
    requires forall i | i in before :: !before[i].filter.isResizing
    requires WindowFilters(c, before, s, restarted) && id in before
    ensures Flagged(c, s, false)[id].filter == before[id].filter
  {
    hide Stays;
  }

  /** What the flag is for. Growing, a shard's old filter already keeps what the new size needs. */
  lemma GrowthNeedsNoFlag(hash: U64, fromSize: int, toSize: int, id: int)
    requires 1 <= fromSize <= toSize && id < fromSize
    requires Hash(hash, toSize) == id
    ensures Hash(hash, fromSize) == id
  {
    hide Hash;
    HashConsistent(hash, fromSize, toSize);
  }

  /** Shrinking, the unflagged filter would drop a copied row exactly when its old shard retires. */
  lemma ShrinkDropsUnflaggedIff(hash: U64, fromSize: int, toSize: int, id: int)
    requires 1 <= toSize <= fromSize
    requires Hash(hash, toSize) == id
    ensures Hash(hash, fromSize) != id <==> Hash(hash, fromSize) >= toSize
  {
    hide Hash;
    HashConsistent(hash, toSize, fromSize);
    HashInRange(hash, toSize);
  }

  // ---- the loops -----------------------------------------------------------------------------------------

  /** What the store remembers about a shard in the cluster configuration. */
  datatype Info = Info(clusterSize: int, isCandidate: bool)

  function CommittedInfo(c: Config, infos: map<int, Info>): map<int, Info> {
    map id | id in infos :: if Stays(c, id) then Info(c.toSize, false) else infos[id]
  }

  /** The filter with which a restarted store opens a shard: at the size it remembers. */
  function FilterFrom(infos: map<int, Info>, id: int): Filter
    requires id in infos
  {
    Filter(id, infos[id].clusterSize, false)
  }

  /** What commit does to the filters a restart finds again: a shard that stays is opened as commit left it,
      and so is any other, if it was remembered at its size. */
  lemma CommitOutlastsRestart(c: Config, shards: Shards, infos: map<int, Info>, id: int)
    requires id in shards && id in infos
    ensures Stays(c, id) ==> FilterFrom(CommittedInfo(c, infos), id) == Committed(c, shards)[id].filter
    ensures !Stays(c, id) && FilterFrom(infos, id) == shards[id].filter ==>
              FilterFrom(CommittedInfo(c, infos), id) == Committed(c, shards)[id].filter
    ensures Stays(c, id) ==> !CommittedInfo(c, infos)[id].isCandidate
  {
    hide Stays;
  }

  class Store {
    var shards: Shards
    /** The shards in the order the store lists them. */
    var order: seq<int>
    var infos: map<int, Info>
    var hasStatus: bool

    ghost predicate Listed()
      reads this
    {
      forall id :: id in shards <==> id in order
    }

    /** eachLocalShard with PrepareForClusterResize or CompleteClusterResize. */
    method FlagLocalShards(c: Config, on: bool)
      requires Listed()
      modifies this`shards
      ensures Listed() && shards == Flagged(c, old(shards), on)
      ensures shards.Keys == old(shards).Keys
      ensures forall id | id in shards ::
                && shards[id].rows == old(shards)[id].rows
                && shards[id].filter.shardCount == old(shards)[id].filter.shardCount
                && shards[id].filter.isResizing
                   == if Placed(id, c.server, c.toSize, c.replicas) then on else old(shards)[id].filter.isResizing
    {
      ghost var before := shards;
      var i := 0;
      while i < |order|
        invariant i <= |order| && shards.Keys == before.Keys
        invariant forall id | id in shards ::
          shards[id] == if id in order[..i] then Flagged(c, before, on)[id] else before[id]
      {
        var id := order[i];
        var here := IsShardInLocal(id, c.server, c.toSize, c.replicas);
        hide Placed;
        if here {
          shards := shards[id := shards[id].(filter := shards[id].filter.(isResizing := on))];
        }
        assert order[..i + 1] == order[..i] + [id];
        i := i + 1;
      }
      assert order[..i] == order;
      assert shards == Flagged(c, before, on);
    }

    /** The deferred eachLocalShard of commit. */
    method SetLocalFilters(c: Config)
      requires Listed()
      modifies this`shards
      ensures Listed() && shards == Committed(c, old(shards))
      ensures shards.Keys == old(shards).Keys
      ensures forall id | id in shards ::
                && shards[id].rows == old(shards)[id].rows
                && shards[id].filter == if Placed(id, c.server, c.toSize, c.replicas) then Filter(id, c.toSize, false)
                                        else old(shards)[id].filter
    {
      ghost var before := shards;
      var i := 0;
      while i < |order|
        invariant i <= |order| && shards.Keys == before.Keys
        invariant forall id | id in shards ::
          shards[id] == if id in order[..i] then Committed(c, before)[id] else before[id]
      {
        var id := order[i];
        var here := IsShardInLocal(id, c.server, c.toSize, c.replicas);
        hide Placed;
        if here {
          shards := shards[id := shards[id].(filter := Filter(id, c.toSize, false))];
        }
        assert order[..i + 1] == order[..i] + [id];
        i := i + 1;
      }
      assert order[..i] == order;
      assert shards == Committed(c, before);
    }

    /** The configuration loop of commit, in some order `ids` of the remembered shards. */
    method CommitInfos(c: Config, ids: seq<int>) returns (hasChanges: bool)
      requires forall id :: id in infos <==> id in ids
      modifies this`infos
      ensures infos == CommittedInfo(c, old(infos))
      ensures infos.Keys == old(infos).Keys
      ensures forall id | id in infos ::
                infos[id] == if Placed(id, c.server, c.toSize, c.replicas) then Info(c.toSize, false)
                             else old(infos)[id]
      ensures hasChanges <==> exists id :: id in old(infos) && infos[id] != old(infos)[id]
    {
      hasChanges := false;
      ghost var before := infos;
      var i := 0;
      while i < |ids|
        invariant i <= |ids| && infos.Keys == before.Keys
        invariant forall id | id in infos ::
          infos[id] == if id in ids[..i] then CommittedInfo(c, before)[id] else before[id]
        invariant hasChanges <==> exists id :: id in ids[..i] && infos[id] != before[id]
      {
        var id := ids[i];
        var here := IsShardInLocal(id, c.server, c.toSize, c.replicas);
        hide Placed;
        assert ids[..i + 1] == ids[..i] + [id];
        ghost var changed := infos[id] != CommittedInfo(c, before)[id];
        if here {
          if infos[id].clusterSize != c.toSize {
            infos := infos[id := infos[id].(clusterSize := c.toSize)];
            hasChanges := true;
          }
          if infos[id].isCandidate {
            infos := infos[id := infos[id].(isCandidate := false)];
            hasChanges := true;
          }
        }
        assert changed ==> infos[id] != before[id];
        i := i + 1;
      }
      assert ids[..i] == ids;
      assert infos == CommittedInfo(c, before);
    }

    /** resizeCommitShardInfoNewCluster; without a status nothing happens. */
    method CommitResize(c: Config, ids: seq<int>) returns (ok: bool, hasChanges: bool)
      requires Listed() && forall id :: id in infos <==> id in ids
      modifies this`shards, this`infos
      ensures ok == hasStatus
      ensures shards == if hasStatus then Committed(c, old(shards)) else old(shards)
      ensures infos == if hasStatus then CommittedInfo(c, old(infos)) else old(infos)
      ensures hasChanges <==> exists id :: id in old(infos) && infos[id] != old(infos)[id]
    {
      if !hasStatus {
        return false, false;
      }
      ok := true;
      hasChanges := CommitInfos(c, ids);
      SetLocalFilters(c);
    }
  }
}
