/** A brand-new shard that copies from and follows every shard of the old cluster at once: one follower,
    one set of rows, and a position in each source's log. Each source is seen through the keys it owns. */
module ManySources {
  import opened Bytes
  import opened Codec
  import opened LastWriteWins
  import opened Rows
  import opened Follower
  import opened Replication
  import GrowCopy
  import JumpHash
  import MergeHeap

  /** What stays fixed: the hash, each key's partition hash, and the new shard in the new cluster. */
  datatype Setup = Setup(bucketOf: (U64, int) -> int, hashOf: ByteString -> U64, targetSize: nat, targetShard: nat)

  /** `links[i]` is the follower's side of source `i`; the rows are shared and kept in `rows`. */
  datatype Cluster = Cluster(sources: seq<Source>, links: seq<Replica>, rows: Db)

  datatype Move =
    | Single(source: nat, action: Action)
    | CrashAll
    | StartOver

  function Owner(u: Setup, n: nat, key: ByteString): int {
    u.bucketOf(u.hashOf(key), n)
  }

  function ConfigOf(u: Setup, n: nat, i: nat): Config {
    Config(Repaired, u.bucketOf, u.hashOf, n, i, u.targetSize, u.targetShard)
  }

  /** The rows of the keys that source `i` owns. */
  function Part(u: Setup, n: nat, rows: Db, i: nat): Db {
    map key | key in rows && Owner(u, n, key) == i :: rows[key]
  }

  /** The system as source `i` sees it. */
  function View(u: Setup, s: Cluster, i: nat): State
    requires i < |s.sources| == |s.links|
  {
    State(s.sources[i], s.links[i].(rows := Part(u, |s.sources|, s.rows, i)))
  }

  // ---- the steps -----------------------------------------------------------------------------------

  /** Each source writes its own keys, in order, one write per key in flight. */
  ghost predicate Enabled(u: Setup, s: Cluster, m: Move)
    requires |s.sources| == |s.links|
  {
    match m
    case Single(i, a) =>
      && i < |s.sources| && !a.Crash? && !a.Abandon?
      && Replication.Enabled(ConfigOf(u, |s.sources|, i), View(u, s, i), a)
      && (a.Write? ==> Owner(u, |s.sources|, a.entry.key) == i)
    case _ => true
  }

  /** What a step at source `i` does to the shared rows: a copy adds the scanned rows, a tailed entry is
      merged in. */
  function RowsAfter(u: Setup, s: Cluster, i: nat, a: Action): Db
    requires i < |s.sources| == |s.links|
  {
    var c := ConfigOf(u, |s.sources|, i);
    if a.Copy? then s.rows + Scan(c, s.sources[i].db)
    else if a.Tail? && s.links[i].next < |s.sources[i].log| then Hear(c, s.rows, s.sources[i].log[s.links[i].next])
    else s.rows
  }

  function Restarted(r: Replica): Replica {
    if r.phase == Following then r.(next := r.saved, progress := r.saved) else r.(phase := Idle, unlogged := {})
  }

  function Do(u: Setup, s: Cluster, m: Move): Cluster
    requires |s.sources| == |s.links|
    requires m.Single? ==> m.source < |s.sources|
    requires m.Single? && m.action.Append? ==> m.action.key in s.sources[m.source].pending
    requires m.Single? && m.action.Tail? ==> s.links[m.source].next < |s.sources[m.source].log|
  {
    match m
    case Single(i, a) =>
      var c, v := ConfigOf(u, |s.sources|, i), View(u, s, i);
      Cluster(s.sources[i := SourceStep(v, a)], s.links[i := ReplicaStep(c, v, a)], RowsAfter(u, s, i, a))
    case CrashAll => s.(links := seq(|s.links|, i requires 0 <= i < |s.links| => Restarted(s.links[i])))
    case StartOver =>
      s.(links := seq(|s.links|, i requires 0 <= i < |s.links| => s.links[i].(phase := Idle, unlogged := {})),
         rows := map[])
  }

  // ---- the invariant -------------------------------------------------------------------------------

  ghost predicate OwnKeys(u: Setup, n: nat, i: nat, src: Source) {
    && (forall key | key in src.pending :: Owner(u, n, key) == i)
    && (forall k | 0 <= k < |src.log| :: Owner(u, n, src.log[k].key) == i)
  }

  /** Every row belongs to some source and to the new shard. */
  ghost predicate RowsBelong(u: Setup, n: nat, rows: Db) {
    forall key | key in rows ::
      && 0 <= Owner(u, n, key) < n
      && (u.targetSize > 0 ==> u.bucketOf(u.hashOf(key), u.targetSize) == u.targetShard)
  }

  ghost predicate LinkOk(u: Setup, s: Cluster, i: nat)
    requires i < |s.sources| == |s.links|
  {
    && Inv(ConfigOf(u, |s.sources|, i), View(u, s, i))
    && OwnKeys(u, |s.sources|, i, s.sources[i])
    && (s.links[i].phase != Following ==> Part(u, |s.sources|, s.rows, i) == map[])
  }

  ghost predicate AllOk(u: Setup, s: Cluster) {
    && |s.sources| == |s.links|
    && RowsBelong(u, |s.sources|, s.rows)
    && forall i | 0 <= i < |s.sources| :: LinkOk(u, s, i)
  }

  /** The scan of the model is the filter of the copy: a stored row is sent exactly when it is scanned. */
  lemma ScanIsBootstrapCopy(u: Setup, n: nat, i: nat, db: Db, key: ByteString)
    requires u.bucketOf == JumpHash.Hash && key in db
    ensures key in Scan(ConfigOf(u, n, i), db) <==>
            GrowCopy.Wanted(GrowCopy.CopyRequest(i, n, u.targetShard, u.targetSize),
                            MergeHeap.Row(key, Encode(db[key])))
  {
    hide JumpHash.Hash, Encode;
    PartitionHashAgrees(db[key]);
  }

  // ---- one step, seen from each source -----------------------------------------------------------------

  lemma PartAt(u: Setup, n: nat, rows: Db, i: nat, key: ByteString)
    ensures Rows.At(Part(u, n, rows, i), key) == if Owner(u, n, key) == i then Rows.At(rows, key) else Absent
  {
  }

  /** A tailed entry of source `i` changes the part of source `i` as if it were alone, and no other. */
  lemma PartOfHear(u: Setup, n: nat, rows: Db, i: nat, e: LogEntry, j: nat)
    requires Owner(u, n, e.key) == i
    ensures var c := ConfigOf(u, n, i);
            Part(u, n, Hear(c, rows, e), j) == if j == i then Hear(c, Part(u, n, rows, i), e) else Part(u, n, rows, j)
  {
    hide Owner, Part, Delivered;
    var c := ConfigOf(u, n, i);
    var left := Part(u, n, Hear(c, rows, e), j);
    var right := if j == i then Hear(c, Part(u, n, rows, i), e) else Part(u, n, rows, j);
    forall key
      ensures Rows.At(left, key) == Rows.At(right, key)
    {
      PartAt(u, n, Hear(c, rows, e), j, key);
      PartAt(u, n, rows, i, key);
      PartAt(u, n, rows, j, key);
      PartAt(u, n, rows, i, e.key);
    }
    SameSlotsSameRows(left, right);
  }

  lemma ScannedIsOwned(u: Setup, n: nat, i: nat, src: Source, key: ByteString)
    requires SourceOk(ConfigOf(u, n, i), src) && key in Scan(ConfigOf(u, n, i), src.db)
    ensures Owner(u, n, key) == i
    ensures u.targetSize > 0 ==> u.bucketOf(u.hashOf(key), u.targetSize) == u.targetShard
  {
    RowHasItsKeysHash(ConfigOf(u, n, i), src, key);
  }

  /** A copy from source `i` into a shard that has none of its keys. */
  lemma PartOfCopy(u: Setup, n: nat, rows: Db, i: nat, src: Source, j: nat)
    requires SourceOk(ConfigOf(u, n, i), src) && Part(u, n, rows, i) == map[]
    ensures var copied := Scan(ConfigOf(u, n, i), src.db);
            Part(u, n, rows + copied, j) == if j == i then copied else Part(u, n, rows, j)
  {
    hide Owner, SourceOk, Scan;
    var copied := Scan(ConfigOf(u, n, i), src.db);
    forall key | key in copied
      ensures Owner(u, n, key) == i
    {
      ScannedIsOwned(u, n, i, src, key);
    }
    var left, right := Part(u, n, rows + copied, j), if j == i then copied else Part(u, n, rows, j);
    forall key
      ensures key in left <==> key in right
    {
      assert key in rows && Owner(u, n, key) == i ==> key in Part(u, n, rows, i);
    }
    assert left == right;
  }

  /** The shared rows of a step, seen from each source. */
  lemma PartAfter(u: Setup, s: Cluster, i: nat, a: Action, j: nat)
    requires AllOk(u, s) && Enabled(u, s, Single(i, a)) && j < |s.sources|
    ensures var n := |s.sources|;
            Part(u, n, RowsAfter(u, s, i, a), j)
            == if j == i then ReplicaStep(ConfigOf(u, n, i), View(u, s, i), a).rows else Part(u, n, s.rows, j)
  {
    hide Owner, Part, Hear, Scan, RowsBelong;
    var n := |s.sources|;
    assert LinkOk(u, s, i);
    if a.Copy? {
      PartOfCopy(u, n, s.rows, i, s.sources[i], j);
    } else if a.Tail? {
      PartOfHear(u, n, s.rows, i, s.sources[i].log[s.links[i].next], j);
    }
  }

  /** At the stepping source the system takes that source's step; the others see nothing. */
  lemma StepSeenFrom(u: Setup, s: Cluster, i: nat, a: Action, j: nat)
    requires AllOk(u, s) && Enabled(u, s, Single(i, a)) && j < |s.sources|
    ensures View(u, Do(u, s, Single(i, a)), j)
            == if j == i then Replication.Do(ConfigOf(u, |s.sources|, i), View(u, s, i), a) else View(u, s, j)
  {
    PartAfter(u, s, i, a, j);
    hide AllOk, RowsAfter, Part, ReplicaStep;
  }

  /** Rows that a step brings in belong to its source and to the new shard. */
  lemma StepKeepsBelonging(u: Setup, s: Cluster, i: nat, a: Action)
    requires AllOk(u, s) && Enabled(u, s, Single(i, a))
    ensures RowsBelong(u, |s.sources|, RowsAfter(u, s, i, a))
  {
    hide Inv;
    var n := |s.sources|;
    var c, after := ConfigOf(u, n, i), RowsAfter(u, s, i, a);
    assert LinkOk(u, s, i);
    assert SourceOk(c, s.sources[i]) by { InvSource(c, View(u, s, i)); }
    forall key | key in after && key !in s.rows
      ensures Owner(u, n, key) == i
      ensures u.targetSize > 0 ==> u.bucketOf(u.hashOf(key), u.targetSize) == u.targetShard
    {
      if a.Copy? {
        ScannedIsOwned(u, n, i, s.sources[i], key);
      } else {
        HearsOwnKey(c, s.rows, s.sources[i].log[s.links[i].next], key);
      }
    }
  }

  lemma InvSource(c: Config, v: State)
    requires Inv(c, v)
    ensures SourceOk(c, v.src)
  {
  }

  lemma HearsOwnKey(c: Config, db: Db, e: LogEntry, key: ByteString)
    requires c.lookup.Repaired? && WellFormed(c, e) && key in Hear(c, db, e) && key !in db
    ensures key == e.key && (c.targetSize > 0 ==> c.bucketOf(c.hashOf(key), c.targetSize) == c.targetShard)
  {
    assert Rows.At(Hear(c, db, e), key).Present? && Rows.At(db, key) == Absent;
  }

  lemma StepKeepsOwnKeys(u: Setup, s: Cluster, i: nat, a: Action)
    requires AllOk(u, s) && Enabled(u, s, Single(i, a))
    ensures OwnKeys(u, |s.sources|, i, SourceStep(View(u, s, i), a))
  {
    hide Inv, Part, Owner;
    assert LinkOk(u, s, i);
    var c := ConfigOf(u, |s.sources|, i);
    InvSource(c, View(u, s, i));
  }

  lemma SingleKeepsOk(u: Setup, s: Cluster, i: nat, a: Action)
    requires AllOk(u, s) && Enabled(u, s, Single(i, a))
    ensures AllOk(u, Do(u, s, Single(i, a)))
  {
    var t := Do(u, s, Single(i, a));
    StepKeepsBelonging(u, s, i, a);
    StepKeepsOwnKeys(u, s, i, a);
    forall j | 0 <= j < |t.sources|
      ensures LinkOk(u, t, j)
    {
      assert LinkOk(u, s, j);
      StepSeenFrom(u, s, i, a, j);
      hide Inv, OwnKeys, Part, RowsBelong, RowsAfter;
      if j == i {
        StepKeepsInv(ConfigOf(u, |s.sources|, i), View(u, s, i), a);
        StaysEmpty(ConfigOf(u, |s.sources|, i), View(u, s, i), a);
      }
    }
  }

  /** Only a copy and what follows it bring rows. */
  lemma StaysEmpty(c: Config, v: State, a: Action)
    requires Replication.Enabled(c, v, a) && (v.rep.phase != Following ==> v.rep.rows == map[])
    ensures var t := Replication.Do(c, v, a); t.rep.phase != Following ==> t.rep.rows == map[]
  {
  }

  lemma CrashSeenFrom(u: Setup, s: Cluster, m: Move, j: nat)
    requires AllOk(u, s) && !m.Single? && j < |s.sources|
    ensures var a := if m.CrashAll? && s.links[j].phase == Following then Crash else Abandon;
            View(u, Do(u, s, m), j) == Replication.Do(ConfigOf(u, |s.sources|, j), View(u, s, j), a)
  {
    hide Inv, RowsBelong;
    assert LinkOk(u, s, j);
    assert Part(u, |s.sources|, map[], j) == map[];
  }

  lemma CrashKeepsOk(u: Setup, s: Cluster, m: Move)
    requires AllOk(u, s) && !m.Single?
    ensures AllOk(u, Do(u, s, m))
  {
    var t := Do(u, s, m);
    assert RowsBelong(u, |t.sources|, t.rows);
    forall j | 0 <= j < |t.sources|
      ensures LinkOk(u, t, j)
    {
      assert LinkOk(u, s, j);
      CrashSeenFrom(u, s, m, j);
      hide Inv, OwnKeys, Part, RowsBelong;
      var a := if m.CrashAll? && s.links[j].phase == Following then Crash else Abandon;
      StepKeepsInv(ConfigOf(u, |s.sources|, j), View(u, s, j), a);
      StaysEmpty(ConfigOf(u, |s.sources|, j), View(u, s, j), a);
    }
  }

  // ---- whole runs ------------------------------------------------------------------------------------

  ghost predicate Init(u: Setup, s: Cluster) {
    && |s.sources| == |s.links| && s.rows == map[]
    && forall i | 0 <= i < |s.sources| :: Replication.Init(ConfigOf(u, |s.sources|, i), View(u, s, i))
  }

  ghost predicate ValidRun(u: Setup, s: Cluster, run: seq<Move>)
    requires |s.sources| == |s.links|
    decreases |run|
  {
    run == [] || (Enabled(u, s, run[0]) && ValidRun(u, Do(u, s, run[0]), run[1..]))
  }

  ghost function Final(u: Setup, s: Cluster, run: seq<Move>): (t: Cluster)
    requires |s.sources| == |s.links| && ValidRun(u, s, run)
    ensures |t.sources| == |t.links| == |s.sources|
    decreases |run|
  {
    if run == [] then s else Final(u, Do(u, s, run[0]), run[1..])
  }

  lemma InitOk(u: Setup, s: Cluster)
    requires Init(u, s)
    ensures AllOk(u, s)
  {
    forall i | 0 <= i < |s.sources|
      ensures LinkOk(u, s, i)
    {
      Replication.InitOk(ConfigOf(u, |s.sources|, i), View(u, s, i));
    }
  }

  lemma {:induction false} RunKeepsOk(u: Setup, s: Cluster, run: seq<Move>)
    requires AllOk(u, s) && ValidRun(u, s, run)
    ensures AllOk(u, Final(u, s, run))
    decreases |run|
  {
    if run != [] {
      hide LinkOk, RowsBelong;
      if run[0].Single? {
        SingleKeepsOk(u, s, run[0].source, run[0].action);
      } else {
        CrashKeepsOk(u, s, run[0]);
      }
      RunKeepsOk(u, Do(u, s, run[0]), run[1..]);
    }
  }

  /** A key the new shard will own. */
  predicate Wanted(u: Setup, key: ByteString) {
    !HasPrefix(key, INTERNAL_PREFIX) && (u.targetSize > 0 ==> u.bucketOf(u.hashOf(key), u.targetSize) == u.targetShard)
  }

  /** The source that owns the key. */
  ghost predicate OwnedBy(u: Setup, s: Cluster, key: ByteString, i: nat) {
    i < |s.sources| && Owner(u, |s.sources|, key) == i
  }

  /** Copy from all, follow all. In every interleaving of writes at all the sources, copies, tailing,
      saving, crashes and fresh starts, whenever the follower is settled with a key's source, its row of
      that key is that source's row at its log position. */
  lemma FollowerMeetsEachSource(u: Setup, s0: Cluster, run: seq<Move>, i: nat, key: ByteString)
    requires Init(u, s0) && ValidRun(u, s0, run) && Wanted(u, key) && OwnedBy(u, s0, key, i)
    ensures var s := Final(u, s0, run);
            var v := View(u, s, i);
            Settled(v) ==>
              && v.rep.next <= |v.src.log|
              && Rows.At(s.rows, key) == SourceAt(v.src, v.rep.next, key)
              && (v.rep.next == |v.src.log| && key !in v.src.pending ==> Rows.At(s.rows, key) == Rows.At(v.src.db, key))
  {
    InitOk(u, s0);
    RunKeepsOk(u, s0, run);
    var s := Final(u, s0, run);
    hide ValidRun, Final, Init;
    var c, v := ConfigOf(u, |s.sources|, i), View(u, s, i);
    if Settled(v) {
      assert LinkOk(u, s, i);
      assert InScope(c, key);
      RepairedRow(c, v, key);
      PartAt(u, |s.sources|, s.rows, i, key);
      assert SourceKeyOk(v.src, key);
    }
  }

  /** Every source settled, its log exhausted and nothing in flight. */
  ghost predicate AllDone(u: Setup, s: Cluster)
    requires |s.sources| == |s.links|
  {
    forall i | 0 <= i < |s.sources| ::
      Settled(View(u, s, i)) && s.links[i].next == |s.sources[i].log| && s.sources[i].pending == map[]
  }

  /** Once all are done, the new shard holds exactly the sources' rows of the keys it owns, each from the
      source that owns it. */
  lemma NewShardHoldsTheUnion(u: Setup, s0: Cluster, run: seq<Move>, key: ByteString)
    requires Init(u, s0) && ValidRun(u, s0, run) && AllDone(u, Final(u, s0, run))
    requires !HasPrefix(key, INTERNAL_PREFIX)
    ensures var s := Final(u, s0, run);
            var i := Owner(u, |s.sources|, key);
            Rows.At(s.rows, key)
            == if Wanted(u, key) && 0 <= i < |s.sources| then Rows.At(s.sources[i].db, key) else Absent
  {
    var s := Final(u, s0, run);
    var i := Owner(u, |s.sources|, key);
    if Wanted(u, key) && 0 <= i < |s.sources| {
      FollowerMeetsEachSource(u, s0, run, i, key);
      assert Settled(View(u, s, i));
    } else {
      InitOk(u, s0);
      RunKeepsOk(u, s0, run);
    }
  }
}
