/** Bootstrap by snapshot, then catch up by log: one source shard, one follower shard, and every
    interleaving of writes, the copy, tailing, saving progress and crashing. */
module Replication {
  import opened Bytes
  import opened Codec
  import JumpHash
  import opened LastWriteWins
  import opened Rows
  import opened Follower

  /** What stays fixed in a run: how entries answer for their key, the hash that spreads
      partition hashes over shards (jump hash in the code; nothing below depends on which), the
      partition hash of each key, the source shard in its cluster, and the shard the follower
      asks for (a target size of 0 asks for everything). */
  datatype Config = Config(
    lookup: Lookup,
    bucketOf: (U64, int) -> int,
    hashOf: ByteString -> U64,
    currentSize: nat,
    currentShard: nat,
    targetSize: nat,
    targetShard: nat)

  datatype Phase = Idle | Located | Following

  /** The source shard: its rows, the writes that have reached its rows but not yet its log,
      and its log. `initial` is what its rows were when the log began. */
  datatype Source = Source(
    initial: Db,
    db: Db,
    pending: map<ByteString, LogEntry>,
    log: seq<LogEntry>)

  /** The follower shard. `snapshot`, `unlogged`, `horizon` and `high` record history: the
      copied rows, the writes the scan saw that were not yet logged, the log length that covers
      every write the scan saw, and the furthest entry the follower ever applied. */
  datatype Replica = Replica(
    phase: Phase,
    start: nat,
    snapshot: Db,
    unlogged: set<ByteString>,
    horizon: nat,
    rows: Db,
    next: nat,
    high: nat,
    progress: nat,
    saved: nat)

  datatype State = State(src: Source, rep: Replica)

  datatype Action =
    | Write(entry: LogEntry)
    | Append(key: ByteString)
    | Locate
    | Copy
    | Tail
    | Advance
    | Save
    | Crash
    | Abandon

  // ---- the writes of the source -----------------------------------------------------------

  /** The writes to `key`, in log order, by the key the client named. */
  function Writes(log: seq<LogEntry>, key: ByteString): seq<Op> {
    if log == [] then []
    else
      var n := |log| - 1;
      Writes(log[..n], key) + if log[n].key == key then [OpOf(log[n])] else []
  }

  function History(s: Source, n: nat, key: ByteString): seq<Op>
    requires n <= |s.log|
  {
    (if key in s.initial then [PutOp(s.initial[key])] else []) + Writes(s.log[..n], key)
  }

  /** The source's row once exactly the first `n` logged writes have happened. */
  function SourceAt(s: Source, n: nat, key: ByteString): Slot
    requires n <= |s.log|
  {
    Latest(Absent, History(s, n, key))
  }

  /** History with the write that has reached the rows but not yet the log. */
  function Timeline(s: Source, key: ByteString): seq<Op> {
    History(s, |s.log|, key) + if key in s.pending then [OpOf(s.pending[key])] else []
  }

  predicate WellFormed(c: Config, e: LogEntry) {
    match e
    case PutEntry(key, row) => row.partitionHash == c.hashOf(key) && row.ttlSecond == 0 && row.value != []
    case DeleteEntry(key, hash, _) => hash == c.hashOf(key)
  }

  // ---- what the follower hears -------------------------------------------------------------

  /** The filter of TailBinlog. */
  predicate Delivered(c: Config, e: LogEntry) {
    c.targetSize == 0 || c.bucketOf(GetPartitionHash(c.lookup, e), c.targetSize) == c.targetShard
  }

  /** The filters of BootstrapCopy. */
  predicate InScan(c: Config, key: ByteString, hash: U64) {
    && !HasPrefix(key, INTERNAL_PREFIX)
    && c.bucketOf(hash, c.currentSize) == c.currentShard
    && (c.targetSize > 0 ==> c.bucketOf(hash, c.targetSize) == c.targetShard)
  }

  /** The keys the follower is responsible for. */
  predicate InScope(c: Config, key: ByteString) {
    InScan(c, key, c.hashOf(key))
  }

  function Scan(c: Config, db: Db): Db {
    map key | key in db && InScan(c, key, db[key].partitionHash) :: db[key]
  }

  function Hear(c: Config, db: Db, e: LogEntry): Db {
    if Delivered(c, e) then Apply(c.lookup, db, e) else db
  }

  function HearAll(c: Config, db: Db, log: seq<LogEntry>): Db {
    if log == [] then db
    else
      var n := |log| - 1;
      Hear(c, HearAll(c, db, log[..n]), log[n])
  }

  /** The delivered writes a follower applies to `key`. */
  function Heard(c: Config, log: seq<LogEntry>, key: ByteString): seq<Op> {
    if log == [] then []
    else
      var n := |log| - 1;
      Heard(c, log[..n], key)
      + if Delivered(c, log[n]) && GetKey(c.lookup, log[n]) == key then [OpOf(log[n])] else []
  }

  lemma {:induction false} HearAllAt(c: Config, db: Db, log: seq<LogEntry>, key: ByteString)
    ensures At(HearAll(c, db, log), key) == Fold(At(db, key), Heard(c, log, key))
    decreases |log|
  {
    if log != [] {
      var n := |log| - 1;
      HearAllAt(c, db, log[..n], key);
      var before := Heard(c, log[..n], key);
      if Delivered(c, log[n]) && GetKey(c.lookup, log[n]) == key {
        FoldConcat(At(db, key), before, [OpOf(log[n])]);
        assert [OpOf(log[n])][..0] == [];
      } else {
        assert before + [] == before;
      }
    }
  }

  lemma {:induction false} HeardConcat(c: Config, a: seq<LogEntry>, b: seq<LogEntry>, key: ByteString)
    ensures Heard(c, a + b, key) == Heard(c, a, key) + Heard(c, b, key)
    decreases |b|
  {
    if b == [] {
      assert a + b == a;
    } else {
      var n := |b| - 1;
      HeardConcat(c, a, b[..n], key);
      assert (a + b)[..|a + b| - 1] == a + b[..n];
    }
  }

  lemma {:induction false} WritesConcat(a: seq<LogEntry>, b: seq<LogEntry>, key: ByteString)
    ensures Writes(a + b, key) == Writes(a, key) + Writes(b, key)
    decreases |b|
  {
    if b == [] {
      assert a + b == a;
    } else {
      var n := |b| - 1;
      WritesConcat(a, b[..n], key);
      assert (a + b)[..|a + b| - 1] == a + b[..n];
    }
  }

  // ---- the steps ---------------------------------------------------------------------------

  predicate Init(c: Config, s: State) {
    && s.src.db == s.src.initial && s.src.pending == map[] && s.src.log == []
    && s.rep.phase == Idle && s.rep.unlogged == {}
    && (forall key | key in s.src.initial :: WellFormed(c, PutEntry(key, s.src.initial[key])))
  }

  /** One write per key in flight, and event times that do not go back. */
  ghost predicate MayWrite(c: Config, src: Source, e: LogEntry) {
    && WellFormed(c, e) && e.key !in src.pending
    && var past := Timeline(src, e.key); forall i :: 0 <= i < |past| ==> Time(past[i]) <= Time(OpOf(e))
  }

  ghost predicate Enabled(c: Config, s: State, a: Action) {
    match a
    case Write(e) => MayWrite(c, s.src, e)
    case Append(key) => key in s.src.pending
    case Locate => s.rep.phase == Idle
    case Copy => s.rep.phase == Located
    case Tail => s.rep.phase == Following && s.rep.next < |s.src.log|
    case Advance => s.rep.phase == Following
    case Save => s.rep.phase == Following
    case Crash => s.rep.phase == Following
    case Abandon => true
  }

  /** The row is written first ... */
  function WriteRow(src: Source, e: LogEntry): Source {
    src.(db := WithSlot(src.db, e.key, Effect(OpOf(e))), pending := src.pending[e.key := e])
  }

  /** ... and logged second. */
  function AppendLog(src: Source, key: ByteString): Source
    requires key in src.pending
  {
    src.(log := src.log + [src.pending[key]], pending := src.pending - {key})
  }

  function SourceStep(s: State, a: Action): Source
    requires a.Append? ==> a.key in s.src.pending
  {
    match a
    case Write(e) => WriteRow(s.src, e)
    case Append(key) => AppendLog(s.src, key)
    case _ => s.src
  }

  /** History only: a write the scan saw has now been logged. */
  function NoteLogged(r: Replica, key: ByteString, n: nat): Replica {
    if key in r.unlogged then r.(unlogged := r.unlogged - {key}, horizon := n) else r
  }

  function CopyRows(c: Config, src: Source, r: Replica): Replica {
    var copied := Scan(c, src.db);
    Replica(Following, r.start, copied, src.pending.Keys, |src.log|, copied, r.start, r.start, r.start, r.start)
  }

  function TailOne(c: Config, log: seq<LogEntry>, r: Replica): Replica
    requires r.next < |log|
  {
    var raised := RaiseMark(r);
    raised.(rows := Hear(c, r.rows, log[r.next]), next := r.next + 1)
  }

  /** History only: the furthest entry covers the one about to be applied. */
  function RaiseMark(r: Replica): Replica {
    r.(high := if r.next + 1 > r.high then r.next + 1 else r.high)
  }

  function ReplicaStep(c: Config, s: State, a: Action): Replica
    requires a.Tail? ==> s.rep.next < |s.src.log|
  {
    var r := s.rep;
    match a
    case Write(_) => r
    case Append(key) => NoteLogged(r, key, |s.src.log| + 1)
    case Locate => r.(phase := Located, start := |s.src.log|)
    case Copy => CopyRows(c, s.src, r)
    case Tail => TailOne(c, s.src.log, r)
    case Advance => r.(progress := r.next)
    case Save => r.(saved := r.progress)
    case Crash => r.(next := r.saved, progress := r.saved)
    case Abandon => r.(phase := Idle, rows := map[], unlogged := {})
  }

  function Do(c: Config, s: State, a: Action): State
    requires a.Append? ==> a.key in s.src.pending
    requires a.Tail? ==> s.rep.next < |s.src.log|
  {
    State(SourceStep(s, a), ReplicaStep(c, s, a))
  }

  ghost predicate ValidRun(c: Config, s: State, run: seq<Action>)
    decreases |run|
  {
    run == [] || (Enabled(c, s, run[0]) && ValidRun(c, Do(c, s, run[0]), run[1..]))
  }

  ghost function Final(c: Config, s: State, run: seq<Action>): State
    requires ValidRun(c, s, run)
    decreases |run|
  {
    if run == [] then s else Final(c, Do(c, s, run[0]), run[1..])
  }

  // ---- invariants --------------------------------------------------------------------------

  ghost predicate SourceKeyOk(s: Source, key: ByteString) {
    && At(s.db, key) == Latest(Absent, Timeline(s, key))
    && NonDecreasing(Timeline(s, key))
  }

  ghost predicate SourceWellFormed(c: Config, s: Source) {
    && (forall key | key in s.initial :: WellFormed(c, PutEntry(key, s.initial[key])))
    && (forall i :: 0 <= i < |s.log| ==> WellFormed(c, s.log[i]))
    && (forall key | key in s.pending :: s.pending[key].key == key && WellFormed(c, s.pending[key]))
  }

  ghost predicate SourceOk(c: Config, s: Source) {
    SourceWellFormed(c, s) && forall key :: SourceKeyOk(s, key)
  }

  predicate Bounds(src: Source, r: Replica) {
    && r.start <= r.saved <= r.progress <= r.next <= r.high <= |src.log|
    && r.start <= r.horizon <= |src.log|
    && r.unlogged <= src.pending.Keys
  }

  /** The copied row is the source's row at some log length the scan vouches for. */
  ghost predicate SnapshotKeyOk(src: Source, r: Replica, key: ByteString)
    requires Bounds(src, r)
  {
    if key in r.unlogged then At(r.snapshot, key) == Effect(OpOf(src.pending[key]))
    else exists w :: r.start <= w <= r.horizon && At(r.snapshot, key) == SourceAt(src, w, key)
  }

  /** A row after hearing the stretch of log from `q` up to `h`. */
  function Replayed(c: Config, slot: Slot, log: seq<LogEntry>, q: nat, h: nat, key: ByteString): Slot
    requires q <= h <= |log|
  {
    Fold(slot, Heard(c, log[q..h], key))
  }

  predicate CatchesUpFrom(c: Config, log: seq<LogEntry>, r: Replica, q: nat, key: ByteString)
    requires q <= r.high <= |log| && r.start <= r.high
  {
    Replayed(c, At(r.rows, key), log, q, r.high, key)
    == Replayed(c, At(r.snapshot, key), log, r.start, r.high, key)
  }

  /** From wherever the follower may restart, replaying up to its high-water mark gives what
      one uninterrupted replay gives. */
  ghost predicate CaughtUpKeyOk(c: Config, log: seq<LogEntry>, r: Replica, key: ByteString)
    requires r.saved <= r.next <= r.high <= |log| && r.start <= r.high
  {
    forall q :: r.saved <= q <= r.next ==> CatchesUpFrom(c, log, r, q, key)
  }

  ghost predicate FollowingOk(c: Config, src: Source, r: Replica) {
    && Bounds(src, r)
    && (forall key :: InScope(c, key) ==> SnapshotKeyOk(src, r, key))
    && (forall key :: CaughtUpKeyOk(c, src.log, r, key))
  }

  ghost predicate Inv(c: Config, s: State) {
    && SourceOk(c, s.src)
    && (s.rep.phase == Located ==> s.rep.start <= |s.src.log|)
    && (s.rep.phase != Following ==> s.rep.unlogged == {})
    && (s.rep.phase == Following ==> FollowingOk(c, s.src, s.rep))
  }

  lemma InitOk(c: Config, s: State)
    requires Init(c, s)
    ensures Inv(c, s)
  {
    forall key
      ensures SourceKeyOk(s.src, key)
    {
      assert Timeline(s.src, key) == if key in s.src.initial then [PutOp(s.src.initial[key])] else [];
    }
  }

  // ---- the source's side of a step ---------------------------------------------------------

  lemma WritesOfOne(e: LogEntry, key: ByteString)
    ensures Writes([e], key) == if e.key == key then [OpOf(e)] else []
  {
    assert [e][..0] == [];
  }

  /** Moving a write from the rows-only stage to the log leaves every key's timeline alone. */
  lemma AppendKeepsTimeline(s: Source, key: ByteString, k: ByteString)
    requires key in s.pending && s.pending[key].key == key
    ensures Timeline(AppendLog(s, key), k) == Timeline(s, k)
  {
    var t := AppendLog(s, key);
    WritesConcat(s.log, [s.pending[key]], k);
    WritesOfOne(s.pending[key], k);
    assert s.log[..|s.log|] == s.log && t.log[..|t.log|] == t.log;
  }

  lemma WriteKeepsSourceKey(c: Config, s: Source, e: LogEntry, key: ByteString)
    requires SourceKeyOk(s, key) && MayWrite(c, s, e)
    ensures SourceKeyOk(WriteRow(s, e), key)
  {
    var t := WriteRow(s, e);
    if e.key == key {
      assert Timeline(t, key) == Timeline(s, key) + [OpOf(e)];
    } else {
      assert Timeline(t, key) == Timeline(s, key);
    }
  }

  lemma StepKeepsSource(c: Config, s: State, a: Action)
    requires SourceOk(c, s.src) && Enabled(c, s, a)
    ensures SourceOk(c, SourceStep(s, a))
  {
    forall key
      ensures SourceKeyOk(SourceStep(s, a), key)
    {
      assert SourceKeyOk(s.src, key);
      match a
      case Append(written) => AppendKeepsTimeline(s.src, written, key);
      case Write(e) => WriteKeepsSourceKey(c, s.src, e, key);
      case _ =>
    }
  }

  /** A longer log does not change what the source's rows were at an earlier length. */
  lemma SourceAtStable(s: Source, t: Source, w: nat, key: ByteString)
    requires s.initial == t.initial && w <= |s.log| && s.log <= t.log
    ensures SourceAt(s, w, key) == SourceAt(t, w, key)
  {
    assert s.log[..w] == t.log[..w];
  }

  // ---- the follower's side of a step -------------------------------------------------------

  lemma {:induction false} HeardMember(c: Config, log: seq<LogEntry>, i: nat, key: ByteString)
    requires i < |log| && Delivered(c, log[i]) && GetKey(c.lookup, log[i]) == key
    ensures OpOf(log[i]) in Heard(c, log, key)
    decreases |log|
  {
    var n := |log| - 1;
    if i < n {
      HeardMember(c, log[..n], i, key);
    }
  }

  lemma HearAt(c: Config, db: Db, e: LogEntry, key: ByteString)
    ensures At(Hear(c, db, e), key) == Fold(At(db, key), Heard(c, [e], key))
  {
    HearAllAt(c, db, [e], key);
    assert [e][..0] == [];
  }

  /** Hearing an entry ahead of a stretch of log that contains it changes nothing. */
  lemma HearAbsorbed(c: Config, db: Db, log: seq<LogEntry>, i: nat, key: ByteString)
    requires i < |log|
    ensures Fold(At(Hear(c, db, log[i]), key), Heard(c, log, key)) == Fold(At(db, key), Heard(c, log, key))
  {
    if Delivered(c, log[i]) && GetKey(c.lookup, log[i]) == key {
      HeardMember(c, log, i, key);
      FoldAbsorbs(At(db, key), OpOf(log[i]), Heard(c, log, key));
    }
  }

  lemma ReplayedOneMore(c: Config, slot: Slot, log: seq<LogEntry>, q: nat, h: nat, key: ByteString)
    requires q <= h < |log|
    ensures Replayed(c, slot, log, q, h + 1, key)
            == Fold(Replayed(c, slot, log, q, h, key), Heard(c, [log[h]], key))
  {
    assert log[q..h + 1] == log[q..h] + [log[h]];
    HeardConcat(c, log[q..h], [log[h]], key);
    FoldConcat(slot, Heard(c, log[q..h], key), Heard(c, [log[h]], key));
  }

  lemma ReplayAfterHearingFirst(c: Config, db: Db, log: seq<LogEntry>, i: nat, h: nat, key: ByteString)
    requires i < h <= |log|
    ensures Replayed(c, At(Hear(c, db, log[i]), key), log, i + 1, h, key) == Replayed(c, At(db, key), log, i, h, key)
  {
    assert log[i..h] == [log[i]] + log[i + 1..h];
    HeardConcat(c, [log[i]], log[i + 1..h], key);
    FoldConcat(At(db, key), Heard(c, [log[i]], key), Heard(c, log[i + 1..h], key));
    HearAt(c, db, log[i], key);
  }

  lemma ReplayAfterHearingAgain(c: Config, db: Db, log: seq<LogEntry>, q: nat, i: nat, h: nat, key: ByteString)
    requires q <= i < h <= |log|
    ensures Replayed(c, At(Hear(c, db, log[i]), key), log, q, h, key) == Replayed(c, At(db, key), log, q, h, key)
  {
    assert log[q..h][i - q] == log[i];
    HearAbsorbed(c, db, log[q..h], i - q, key);
  }

  /** Two replays that agree up to `h` agree one entry further. */
  lemma ReachTogether(c: Config, x: Slot, p: nat, y: Slot, q: nat, log: seq<LogEntry>, h: nat, key: ByteString)
    requires p <= h < |log| && q <= h
    requires Replayed(c, x, log, p, h, key) == Replayed(c, y, log, q, h, key)
    ensures Replayed(c, x, log, p, h + 1, key) == Replayed(c, y, log, q, h + 1, key)
  {
    hide Fold, Heard;
    ReplayedOneMore(c, x, log, p, h, key);
    ReplayedOneMore(c, y, log, q, h, key);
  }

  lemma RaisedMarkCatchesUp(c: Config, log: seq<LogEntry>, r: Replica, q: nat, key: ByteString)
    requires r.start <= r.high && q <= r.high && r.next <= r.high <= |log| && r.next < |log|
    requires CatchesUpFrom(c, log, r, q, key)
    ensures CatchesUpFrom(c, log, RaiseMark(r), q, key)
  {
    hide Fold, Heard;
    if r.next == r.high {
      ReachTogether(c, At(r.rows, key), q, At(r.snapshot, key), r.start, log, r.high, key);
    }
  }

  lemma TailKeepsCaughtUp(c: Config, log: seq<LogEntry>, r: Replica, key: ByteString)
    requires r.start <= r.saved <= r.next <= r.high <= |log| && r.next < |log|
    requires CaughtUpKeyOk(c, log, r, key)
    ensures CaughtUpKeyOk(c, log, TailOne(c, log, r), key)
  {
    hide Fold, Heard;
    var h := RaiseMark(r).high;
    forall q | r.saved <= q <= r.next + 1
      ensures CatchesUpFrom(c, log, TailOne(c, log, r), q, key)
    {
      if q <= r.next {
        RaisedMarkCatchesUp(c, log, r, q, key);
        ReplayAfterHearingAgain(c, r.rows, log, q, r.next, h, key);
      } else {
        RaisedMarkCatchesUp(c, log, r, r.next, key);
        ReplayAfterHearingFirst(c, r.rows, log, r.next, h, key);
      }
    }
  }

  lemma LongerLogKeepsCaughtUp(c: Config, log: seq<LogEntry>, e: LogEntry, r: Replica, key: ByteString)
    requires r.start <= r.saved <= r.next <= r.high <= |log|
    requires CaughtUpKeyOk(c, log, r, key)
    ensures CaughtUpKeyOk(c, log + [e], r, key)
  {
    forall q | r.saved <= q <= r.next
      ensures CatchesUpFrom(c, log + [e], r, q, key)
    {
      assert CatchesUpFrom(c, log, r, q, key);
      assert (log + [e])[q..r.high] == log[q..r.high];
      assert (log + [e])[r.start..r.high] == log[r.start..r.high];
    }
  }

  lemma AppendKeepsSnapshot(src: Source, r: Replica, written: ByteString, key: ByteString)
    requires Bounds(src, r) && written in src.pending && src.pending[written].key == written
    requires SnapshotKeyOk(src, r, key)
    ensures var t, v := AppendLog(src, written), NoteLogged(r, written, |src.log| + 1);
            Bounds(t, v) && SnapshotKeyOk(t, v, key)
  {
    var t, v := AppendLog(src, written), NoteLogged(r, written, |src.log| + 1);
    hide SourceAt;
    if key == written && key in r.unlogged {
      LoggedWriteIsThere(src, written);
      assert At(v.snapshot, key) == SourceAt(t, |src.log| + 1, key);
    } else if key !in r.unlogged {
      var w :| r.start <= w <= r.horizon && At(r.snapshot, key) == SourceAt(src, w, key);
      SourceAtStable(src, t, w, key);
      assert At(v.snapshot, key) == SourceAt(t, w, key);
    }
  }

  lemma LoggedWriteIsThere(src: Source, key: ByteString)
    requires key in src.pending && src.pending[key].key == key
    ensures SourceAt(AppendLog(src, key), |src.log| + 1, key) == Effect(OpOf(src.pending[key]))
  {
    var t := AppendLog(src, key);
    WritesConcat(src.log, [src.pending[key]], key);
    WritesOfOne(src.pending[key], key);
    assert t.log[..|src.log| + 1] == t.log;
    hide Writes;
    var past := History(t, |src.log| + 1, key);
    assert past[|past| - 1] == OpOf(src.pending[key]);
  }

  lemma AppendKeepsFollowing(c: Config, src: Source, r: Replica, written: ByteString)
    requires SourceOk(c, src) && FollowingOk(c, src, r) && written in src.pending
    ensures FollowingOk(c, AppendLog(src, written), NoteLogged(r, written, |src.log| + 1))
  {
    var t, v := AppendLog(src, written), NoteLogged(r, written, |src.log| + 1);
    assert Bounds(t, v);
    forall key | InScope(c, key)
      ensures SnapshotKeyOk(t, v, key)
    {
      AppendKeepsSnapshot(src, r, written, key);
    }
    forall key
      ensures CaughtUpKeyOk(c, t.log, v, key)
    {
      LongerLogKeepsCaughtUp(c, src.log, src.pending[written], r, key);
      assert forall q :: v.saved <= q <= v.next ==>
          CatchesUpFrom(c, t.log, v, q, key) == CatchesUpFrom(c, t.log, r, q, key);
    }
  }

  lemma WriteKeepsFollowing(c: Config, src: Source, r: Replica, e: LogEntry)
    requires FollowingOk(c, src, r) && MayWrite(c, src, e)
    ensures FollowingOk(c, WriteRow(src, e), r)
  {
    var t := WriteRow(src, e);
    forall key | InScope(c, key)
      ensures SnapshotKeyOk(t, r, key)
    {
      assert SnapshotKeyOk(src, r, key);
      if key !in r.unlogged {
        var w :| r.start <= w <= r.horizon && At(r.snapshot, key) == SourceAt(src, w, key);
        assert At(r.snapshot, key) == SourceAt(t, w, key);
      }
    }
  }

  lemma {:induction false} WritesCarryHash(c: Config, log: seq<LogEntry>, key: ByteString)
    requires forall i :: 0 <= i < |log| ==> WellFormed(c, log[i])
    ensures forall i :: 0 <= i < |Writes(log, key)| && Writes(log, key)[i].PutOp? ==>
                          Writes(log, key)[i].row.partitionHash == c.hashOf(key)
    decreases |log|
  {
    if log != [] {
      WritesCarryHash(c, log[..|log| - 1], key);
    }
  }

  lemma RowHasItsKeysHash(c: Config, s: Source, key: ByteString)
    requires SourceOk(c, s)
    ensures key in s.db ==> s.db[key].partitionHash == c.hashOf(key)
  {
    assert SourceKeyOk(s, key);
    WritesCarryHash(c, s.log[..|s.log|], key);
    if key in s.db {
      assert Present(s.db[key]) == Effect(Timeline(s, key)[|Timeline(s, key)| - 1]);
    }
  }

  lemma CopyEstablishes(c: Config, src: Source, r: Replica)
    requires SourceOk(c, src) && r.start <= |src.log|
    ensures FollowingOk(c, src, CopyRows(c, src, r))
  {
    var v := CopyRows(c, src, r);
    forall key | InScope(c, key)
      ensures SnapshotKeyOk(src, v, key)
    {
      assert SourceKeyOk(src, key);
      RowHasItsKeysHash(c, src, key);
      assert At(v.snapshot, key) == At(src.db, key);
      if key !in v.unlogged {
        assert Timeline(src, key) == History(src, |src.log|, key);
        assert At(v.snapshot, key) == SourceAt(src, |src.log|, key);
      }
    }
    forall key
      ensures CaughtUpKeyOk(c, src.log, v, key)
    {
      assert CatchesUpFrom(c, src.log, v, v.start, key);
    }
  }

  lemma ReplicaStepKeepsFollowing(c: Config, s: State, a: Action)
    requires FollowingOk(c, s.src, s.rep) && s.rep.phase == Following && Enabled(c, s, a)
    requires a.Tail? || a.Advance? || a.Save? || a.Crash?
    ensures FollowingOk(c, s.src, ReplicaStep(c, s, a))
  {
    var v := ReplicaStep(c, s, a);
    assert Bounds(s.src, v);
    forall key | InScope(c, key)
      ensures SnapshotKeyOk(s.src, v, key)
    {
      assert SnapshotKeyOk(s.src, s.rep, key);
    }
    forall key
      ensures CaughtUpKeyOk(c, s.src.log, v, key)
    {
      assert CaughtUpKeyOk(c, s.src.log, s.rep, key);
      if a.Tail? {
        TailKeepsCaughtUp(c, s.src.log, s.rep, key);
      } else {
        forall q | v.saved <= q <= v.next
          ensures CatchesUpFrom(c, s.src.log, v, q, key)
        {
          assert CatchesUpFrom(c, s.src.log, s.rep, q, key);
        }
      }
    }
  }

  lemma StepKeepsInv(c: Config, s: State, a: Action)
    requires Inv(c, s) && Enabled(c, s, a)
    ensures Inv(c, Do(c, s, a))
  {
    StepKeepsSource(c, s, a);
    match a
    case Write(e) =>
      if s.rep.phase == Following {
        WriteKeepsFollowing(c, s.src, s.rep, e);
      }
    case Append(key) =>
      if s.rep.phase == Following {
        AppendKeepsFollowing(c, s.src, s.rep, key);
      }
    case Copy => CopyEstablishes(c, s.src, s.rep);
    case Locate =>
    case Abandon =>
    case _ => ReplicaStepKeepsFollowing(c, s, a);
  }

  lemma {:induction false} RunKeepsInv(c: Config, s: State, run: seq<Action>)
    requires Inv(c, s) && ValidRun(c, s, run)
    ensures Inv(c, Final(c, s, run))
    decreases |run|
  {
    if run != [] {
      StepKeepsInv(c, s, run[0]);
      RunKeepsInv(c, Do(c, s, run[0]), run[1..]);
    }
  }

  // ---- the follower never panics -----------------------------------------------------------

  /** All values at hand are readable, so no entry the follower meets makes it panic. */
  ghost predicate ReadableInv(c: Config, s: State) {
    && SourceWellFormed(c, s.src) && AllReadable(s.src.db) && RowsNoTtl(s.src.db)
    && (s.rep.phase == Following ==> AllReadable(s.rep.rows) && RowsNoTtl(s.rep.rows))
  }

  lemma WithSlotReadable(db: Db, key: ByteString, slot: Slot)
    requires AllReadable(db) && RowsNoTtl(db) && (slot.Present? ==> slot.row.value != [] && slot.row.ttlSecond == 0)
    ensures AllReadable(WithSlot(db, key, slot)) && RowsNoTtl(WithSlot(db, key, slot))
  {
    var after := WithSlot(db, key, slot);
    forall k | k in after
      ensures after[k].value != []
    {
      assert At(after, k) == Present(after[k]);
      assert k in db ==> At(db, k) == Present(db[k]);
    }
  }

  lemma HearReadable(c: Config, db: Db, e: LogEntry)
    requires AllReadable(db) && RowsNoTtl(db) && WellFormed(c, e)
    ensures AllReadable(Hear(c, db, e)) && RowsNoTtl(Hear(c, db, e))
    ensures !Panics(c.lookup, db, e)
  {
    hide Encode, FromBytes;
    var key := GetKey(c.lookup, e);
    ReadableNeverUnreadable(db, key);
    assert NoTtl(At(db, key));
    assert key in db ==> At(db, key) == Present(db[key]);
    WithSlotReadable(db, key, Step(At(db, key), OpOf(e)));
  }

  lemma ScanReadable(c: Config, db: Db)
    requires AllReadable(db) && RowsNoTtl(db)
    ensures AllReadable(Scan(c, db)) && RowsNoTtl(Scan(c, db))
  {
    hide InScan;
    forall key
      ensures NoTtl(At(Scan(c, db), key))
    {
      assert NoTtl(At(db, key));
    }
  }

  lemma StepKeepsReadable(c: Config, s: State, a: Action)
    requires ReadableInv(c, s) && Enabled(c, s, a)
    ensures ReadableInv(c, Do(c, s, a))
  {
    hide AllReadable, RowsNoTtl, Hear, Scan;
    match a
    case Write(e) => WithSlotReadable(s.src.db, e.key, Effect(OpOf(e)));
    case Copy => ScanReadable(c, s.src.db);
    case Tail => HearReadable(c, s.rep.rows, s.src.log[s.rep.next]);
    case _ =>
  }

  lemma {:induction false} RunKeepsReadable(c: Config, s: State, run: seq<Action>)
    requires ReadableInv(c, s) && ValidRun(c, s, run)
    ensures ReadableInv(c, Final(c, s, run))
    decreases |run|
  {
    hide ReadableInv, Do;
    if run != [] {
      StepKeepsReadable(c, s, run[0]);
      RunKeepsReadable(c, Do(c, s, run[0]), run[1..]);
    }
  }

  lemma InitReadable(c: Config, s: State)
    requires Init(c, s)
    ensures ReadableInv(c, s)
  {
    forall key
      ensures NoTtl(At(s.src.db, key))
    {
      assert key in s.src.db ==> WellFormed(c, PutEntry(key, s.src.initial[key]));
    }
    forall key | key in s.src.db
      ensures s.src.db[key].value != []
    {
      assert WellFormed(c, PutEntry(key, s.src.initial[key]));
    }
  }

  /** In every run of writes with values, the entry the follower is about to apply does not make it
      panic. */
  lemma FollowerNeverPanics(c: Config, s0: State, run: seq<Action>)
    requires Init(c, s0) && ValidRun(c, s0, run)
    ensures var s := Final(c, s0, run);
            Enabled(c, s, Tail) ==> !Panics(c.lookup, s.rep.rows, s.src.log[s.rep.next])
  {
    hide Panics, AllReadable, RowsNoTtl;
    InitReadable(c, s0);
    RunKeepsReadable(c, s0, run);
    var s := Final(c, s0, run);
    if Enabled(c, s, Tail) {
      HearReadable(c, s.rep.rows, s.src.log[s.rep.next]);
    }
  }

  // ---- the batches of a follower are runs of Tail steps ---------------------------------------

  /** The entries of a stretch of log that pass the filter. */
  function DeliveredOf(c: Config, log: seq<LogEntry>): seq<LogEntry> {
    if log == [] then []
    else
      var n := |log| - 1;
      DeliveredOf(c, log[..n]) + if Delivered(c, log[n]) then [log[n]] else []
  }

  lemma {:induction false} HearAllIsApplyAll(c: Config, db: Db, log: seq<LogEntry>)
    ensures HearAll(c, db, log) == ApplyAll(c.lookup, db, DeliveredOf(c, log))
    decreases |log|
  {
    hide Delivered, Apply;
    if log != [] {
      var n := |log| - 1;
      HearAllIsApplyAll(c, db, log[..n]);
      if Delivered(c, log[n]) {
        var before := DeliveredOf(c, log[..n]);
        assert (before + [log[n]])[..|before|] == before;
      } else {
        assert DeliveredOf(c, log) == DeliveredOf(c, log[..n]);
      }
    }
  }

  lemma {:induction false} DeliveredNoTtl(c: Config, log: seq<LogEntry>)
    requires forall i | 0 <= i < |log| :: WellFormed(c, log[i])
    ensures EntriesNoTtl(DeliveredOf(c, log))
    ensures forall i | 0 <= i < |DeliveredOf(c, log)| :: EntryReadable(DeliveredOf(c, log)[i])
    decreases |log|
  {
    if log != [] {
      DeliveredNoTtl(c, log[..|log| - 1]);
    }
  }

  function Tails(k: nat): seq<Action> {
    if k == 0 then [] else [Tail] + Tails(k - 1)
  }

  lemma {:induction false} HearFirst(c: Config, db: Db, log: seq<LogEntry>)
    requires log != []
    ensures HearAll(c, db, log) == HearAll(c, Hear(c, db, log[0]), log[1..])
    decreases |log|
  {
    hide Hear;
    var n := |log| - 1;
    if n > 0 {
      HearFirst(c, db, log[..n]);
      assert log[..n][1..] == log[1..][..n - 1];
    } else {
      assert log[..0] == [] && log[1..] == [];
    }
  }

  lemma TailStep(c: Config, s: State)
    requires s.rep.phase == Following && s.rep.next < |s.src.log|
    ensures Enabled(c, s, Tail)
    ensures var t := Do(c, s, Tail);
            && t.src == s.src && t.rep.phase == Following && t.rep.next == s.rep.next + 1
            && t.rep.rows == Hear(c, s.rep.rows, s.src.log[s.rep.next])
  {
    hide Hear;
  }

  lemma NoSteps(c: Config, s: State, db: Db, log: seq<LogEntry>)
    requires log == []
    ensures ValidRun(c, s, []) && Final(c, s, []) == s && HearAll(c, db, log) == db
  {
  }

  /** `k` Tail steps hear the next `k` entries. */
  lemma {:induction false} TailsHear(c: Config, s: State, k: nat)
    requires s.rep.phase == Following && s.rep.next + k <= |s.src.log|
    ensures ValidRun(c, s, Tails(k))
    ensures var t := Final(c, s, Tails(k));
            && t.src == s.src && t.rep.phase == Following && t.rep.next == s.rep.next + k
            && t.rep.rows == HearAll(c, s.rep.rows, s.src.log[s.rep.next..s.rep.next + k])
    decreases k
  {
    hide Do, Enabled, ValidRun, Final, Hear, HearAll;
    var n, log := s.rep.next, s.src.log;
    if k == 0 {
      NoSteps(c, s, s.rep.rows, log[n..n]);
    } else {
      TailStep(c, s);
      TailsHear(c, Do(c, s, Tail), k - 1);
      OneMore(c, s, Tail, Tails(k - 1));
      HearStretch(c, s.rep.rows, log, n, k);
    }
  }

  lemma HearStretch(c: Config, db: Db, log: seq<LogEntry>, n: nat, k: nat)
    requires 0 < k && n + k <= |log|
    ensures HearAll(c, db, log[n..n + k]) == HearAll(c, Hear(c, db, log[n]), log[n + 1..n + k])
  {
    hide Hear, HearAll;
    var stretch := log[n..n + k];
    HearFirst(c, db, stretch);
    assert stretch[1..] == log[n + 1..n + k] && stretch[0] == log[n];
  }

  lemma BatchIsTailing(c: Config, s: State, k: nat, clock: seq<U64>)
    requires ReadableInv(c, s) && s.rep.phase == Following && s.rep.next + k <= |s.src.log|
    requires |clock| == |DeliveredOf(c, s.src.log[s.rep.next..s.rep.next + k])|
    ensures var batch := DeliveredOf(c, s.src.log[s.rep.next..s.rep.next + k]);
            && ValidRun(c, s, Tails(k))
            && AppliesUpTo(c.lookup, s.rep.rows, batch, clock, |batch|)
            && Final(c, s, Tails(k)).rep.rows == ApplyAllTimed(c.lookup, s.rep.rows, batch, clock)
  {
    hide ApplyAll, ApplyAllTimed, HearAll, DeliveredOf, AppliesUpTo, RowsNoTtl, AllReadable, Do, Enabled;
    var stretch := s.src.log[s.rep.next..s.rep.next + k];
    var batch := DeliveredOf(c, stretch);
    TailsHear(c, s, k);
    HearAllIsApplyAll(c, s.rep.rows, stretch);
    DeliveredNoTtl(c, stretch);
    ClockIrrelevant(c.lookup, s.rep.rows, batch, clock);
    ReadableBatchApplies(c.lookup, s.rep.rows, batch, clock);
  }

  /** At any point of any run, what FollowBatch does with the delivered entries of the next stretch of
      log, whatever the clock reads, is a run of Tail steps over that stretch, and it goes through. */
  lemma FollowBatchIsTailing(c: Config, s0: State, run: seq<Action>, k: nat, clock: seq<U64>)
    requires Init(c, s0) && ValidRun(c, s0, run)
    requires var s := Final(c, s0, run);
             && s.rep.phase == Following && s.rep.next + k <= |s.src.log|
             && |clock| == |DeliveredOf(c, s.src.log[s.rep.next..s.rep.next + k])|
    ensures var s := Final(c, s0, run);
            var batch := DeliveredOf(c, s.src.log[s.rep.next..s.rep.next + k]);
            && ValidRun(c, s, Tails(k))
            && AppliesUpTo(c.lookup, s.rep.rows, batch, clock, |batch|)
            && Final(c, s, Tails(k)).rep.rows == ApplyAllTimed(c.lookup, s.rep.rows, batch, clock)
  {
    hide ReadableInv, Init, AppliesUpTo, ApplyAllTimed, DeliveredOf;
    InitReadable(c, s0);
    RunKeepsReadable(c, s0, run);
    BatchIsTailing(c, Final(c, s0, run), k, clock);
  }

  // ---- results over whole runs -------------------------------------------------------------

  /** Crash tolerance. Saved progress never runs ahead of what was applied, and a follower that
      crashed and restarted any number of times holds, whenever it is back at its furthest
      entry, exactly the rows of a follower that heard each entry once. */
  lemma CrashTolerance(c: Config, s0: State, run: seq<Action>)
    requires Init(c, s0) && ValidRun(c, s0, run)
    ensures var s := Final(c, s0, run);
            s.rep.phase == Following ==>
              && s.rep.start <= s.rep.saved <= s.rep.progress <= s.rep.next <= s.rep.high <= |s.src.log|
              && (s.rep.next == s.rep.high ==>
                    s.rep.rows == HearAll(c, s.rep.snapshot, s.src.log[s.rep.start..s.rep.next]))
  {
    InitOk(c, s0);
    RunKeepsInv(c, s0, run);
    var s := Final(c, s0, run);
    var r := s.rep;
    if r.phase == Following && r.next == r.high {
      var replay := HearAll(c, r.snapshot, s.src.log[r.start..r.next]);
      forall key
        ensures At(r.rows, key) == At(replay, key)
      {
        assert CaughtUpKeyOk(c, s.src.log, r, key);
        assert CatchesUpFrom(c, s.src.log, r, r.next, key);
        assert s.src.log[r.next..r.high] == [];
        HearAllAt(c, r.snapshot, s.src.log[r.start..r.next], key);
      }
      SameSlotsSameRows(r.rows, replay);
    }
  }

  function Puts(ops: seq<Op>): seq<Op> {
    if ops == [] then []
    else
      var n := |ops| - 1;
      Puts(ops[..n]) + if ops[n].PutOp? then [ops[n]] else []
  }

  /** What a follower hears about a key in its scope: everything if entries answer for their own
      key, only the puts if deletes answer for nothing. */
  lemma {:induction false} HeardInScope(c: Config, log: seq<LogEntry>, key: ByteString)
    requires InScope(c, key) && forall i :: 0 <= i < |log| ==> WellFormed(c, log[i])
    ensures c.lookup.Repaired? ==> Heard(c, log, key) == Writes(log, key)
    ensures c.lookup.Shipped? && (key != [] || !HearsDeletes(c)) ==> Heard(c, log, key) == Puts(Writes(log, key))
    decreases |log|
  {
    if log != [] {
      var n := |log| - 1;
      HeardInScope(c, log[..n], key);
      var before := Writes(log[..n], key);
      if log[n].key == key {
        assert (before + [OpOf(log[n])])[..|before|] == before;
      } else {
        assert before + [] == before;
      }
    }
  }

  lemma {:induction false} PutsSubset(ops: seq<Op>, put: Op)
    ensures put in Puts(ops) <==> put in ops && put.PutOp?
    decreases |ops|
  {
    if ops != [] {
      var n := |ops| - 1;
      PutsSubset(ops[..n], put);
      assert ops == ops[..n] + [ops[n]];
    }
  }

  lemma {:induction false} PutsInOrder(ops: seq<Op>)
    requires NonDecreasing(ops)
    ensures NonDecreasing(Puts(ops))
    decreases |ops|
  {
    if ops != [] {
      var n := |ops| - 1;
      var init := ops[..n];
      PutsInOrder(init);
      forall i | 0 <= i < |Puts(init)|
        ensures Time(Puts(init)[i]) <= Time(ops[n])
      {
        PutsSubset(init, Puts(init)[i]);
        var j :| 0 <= j < |init| && init[j] == Puts(init)[i];
        assert Time(ops[j]) <= Time(ops[n]);
      }
    }
  }

  /** The writes to a key that were logged from the follower's starting position up to `n`. */
  function Tailed(s: State, n: nat, key: ByteString): seq<Op>
    requires s.rep.start <= n <= |s.src.log|
  {
    Writes(s.src.log[s.rep.start..n], key)
  }

  /** Following, at its furthest entry, with every write its scan saw already behind it. */
  predicate Settled(s: State) {
    && s.rep.phase == Following
    && s.rep.unlogged == {}
    && s.rep.horizon <= s.rep.next == s.rep.high
  }

  /** A copy taken somewhere at or after the first `|a|` of a history's writes. */
  lemma CopyMeetsRest(a: seq<Op>, b: seq<Op>, m: nat, copied: Slot)
    requires NonDecreasing(a + b)
    requires |a| <= m <= |a + b| && copied == Latest(Absent, (a + b)[..m])
    ensures NonDecreasing(b)
    ensures Latest(Absent, a + b) == Latest(copied, b)
    ensures b != [] && copied.Present? ==> copied.row.updatedAtNs <= Time(b[|b| - 1])
  {
    forall i, j | 0 <= i <= j < |b|
      ensures Time(b[i]) <= Time(b[j])
    {
      assert (a + b)[|a| + i] == b[i] && (a + b)[|a| + j] == b[j];
    }
    if b == [] {
      assert (a + b)[..m] == a + b;
    } else if copied.Present? {
      assert (a + b)[..m][m - 1] == (a + b)[m - 1];
      assert Time((a + b)[m - 1]) <= Time((a + b)[|a + b| - 1]);
    }
  }

  /** In a settled state the copied row is what the tailed writes start from. */
  lemma SnapshotMeetsTail(c: Config, s: State, key: ByteString)
    requires Inv(c, s) && Settled(s) && InScope(c, key)
    ensures var ops, copied := Tailed(s, s.rep.next, key), At(s.rep.snapshot, key);
            && NonDecreasing(ops)
            && SourceAt(s.src, s.rep.next, key) == Latest(copied, ops)
            && (ops != [] && copied.Present? ==> copied.row.updatedAtNs <= Time(ops[|ops| - 1]))
  {
    var src, r := s.src, s.rep;
    assert SnapshotKeyOk(src, r, key);
    var w :| r.start <= w <= r.horizon && At(r.snapshot, key) == SourceAt(src, w, key);
    HistorySplit(src, r.start, r.next, key);
    HistorySplit(src, w, r.next, key);
    HistorySplit(src, r.start, w, key);
    HistoryNonDecreasing(c, src, r.next, key);
    var m := |History(src, w, key)|;
    assert History(src, r.next, key)[..m] == History(src, w, key);
    CopyMeetsRest(History(src, r.start, key), Tailed(s, r.next, key), m, At(r.snapshot, key));
  }

  lemma HistorySplit(src: Source, m: nat, n: nat, key: ByteString)
    requires m <= n <= |src.log|
    ensures History(src, n, key) == History(src, m, key) + Writes(src.log[m..n], key)
  {
    assert src.log[..n] == src.log[..m] + src.log[m..n];
    WritesConcat(src.log[..m], src.log[m..n], key);
  }

  lemma HistoryNonDecreasing(c: Config, src: Source, n: nat, key: ByteString)
    requires SourceOk(c, src) && n <= |src.log|
    ensures NonDecreasing(History(src, n, key))
  {
    assert SourceKeyOk(src, key);
    HistorySplit(src, n, |src.log|, key);
    var past, all := History(src, n, key), Timeline(src, key);
    forall i, j | 0 <= i <= j < |past|
      ensures Time(past[i]) <= Time(past[j])
    {
      assert past[i] == all[i] && past[j] == all[j];
    }
  }

  /** The follower's row, in a settled state, as a function of what was copied and heard. */
  lemma SettledRow(c: Config, s: State, key: ByteString)
    requires Inv(c, s) && Settled(s)
    ensures At(s.rep.rows, key)
            == Fold(At(s.rep.snapshot, key), Heard(c, s.src.log[s.rep.start..s.rep.next], key))
  {
    var r := s.rep;
    assert CaughtUpKeyOk(c, s.src.log, r, key);
    assert CatchesUpFrom(c, s.src.log, r, r.next, key);
    assert s.src.log[r.next..r.high] == [];
  }

  lemma RepairedRow(c: Config, s: State, key: ByteString)
    requires Inv(c, s) && Settled(s) && c.lookup.Repaired? && InScope(c, key)
    ensures At(s.rep.rows, key) == SourceAt(s.src, s.rep.next, key)
  {
    SettledRow(c, s, key);
    SnapshotMeetsTail(c, s, key);
    HeardInScope(c, s.src.log[s.rep.start..s.rep.next], key);
    FoldFollowsLatest(At(s.rep.snapshot, key), Tailed(s, s.rep.next, key));
  }

  /** Bootstrap then tail, for entries that answer for their own key: in every settled state of
      every run, the follower's row of each key in its scope is the source's row at that log
      position; and once the log is exhausted and nothing is in flight, the source's row. */
  lemma FollowerMeetsSource(c: Config, s0: State, run: seq<Action>, key: ByteString)
    requires Init(c, s0) && ValidRun(c, s0, run) && c.lookup.Repaired? && InScope(c, key)
    ensures var s := Final(c, s0, run);
            Settled(s) ==>
              && s.rep.next <= |s.src.log|
              && At(s.rep.rows, key) == SourceAt(s.src, s.rep.next, key)
              && (s.rep.next == |s.src.log| && key !in s.src.pending ==> At(s.rep.rows, key) == At(s.src.db, key))
  {
    InitOk(c, s0);
    RunKeepsInv(c, s0, run);
    var s := Final(c, s0, run);
    if Settled(s) {
      RepairedRow(c, s, key);
      assert SourceKeyOk(s.src, key);
    }
  }

  /** The tailed writes to the key do not end in a delete, or they are deletes of a row that was
      never copied. */
  predicate NoDeleteLost(s: State, n: nat, key: ByteString)
    requires s.rep.start <= n <= |s.src.log|
  {
    var ops := Tailed(s, n, key);
    || ops == []
    || ops[|ops| - 1].PutOp?
    || (key !in s.rep.snapshot && forall i :: 0 <= i < |ops| ==> ops[i].DeleteOp?)
  }

  /** Whether the follower hears deletes at all: as shipped, all of them carry a zero hash. */
  predicate HearsDeletes(c: Config) {
    c.targetSize == 0 || c.bucketOf(0, c.targetSize) == c.targetShard
  }

  /** After the last write to the empty key, the stretch has only deletes older than this row. */
  predicate NoLaterDelete(stretch: seq<LogEntry>, row: Entry) {
    forall i | 0 <= i < |stretch| && stretch[i].DeleteEntry? && Writes(stretch[i + 1..], []) == [] ::
      stretch[i].updatedAtNs < row.updatedAtNs
  }

  /** What becomes of the empty key's row, on which every delete lands. */
  function EmptyKeyRow(slot: Slot, stretch: seq<LogEntry>): Slot {
    if slot.Present? && NoLaterDelete(stretch, slot.row) then slot else Absent
  }

  lemma NoLaterDeleteStep(init: seq<LogEntry>, e: LogEntry, row: Entry)
    ensures NoLaterDelete(init + [e], row) <==>
            || (e.PutEntry? && e.key == [])
            || ((e.key == [] || NoLaterDelete(init, row)) && (e.DeleteEntry? ==> e.updatedAtNs < row.updatedAtNs))
  {
    var all, n := init + [e], |init|;
    assert all[n] == e && all[n + 1..] == [];
    forall i | 0 <= i < n
      ensures all[i] == init[i]
      ensures Writes(all[i + 1..], []) == Writes(init[i + 1..], []) + if e.key == [] then [OpOf(e)] else []
    {
      assert all[i + 1..] == init[i + 1..] + [e];
      WritesConcat(init[i + 1..], [e], []);
      WritesOfOne(e, []);
    }
    hide Writes;
    assert Writes(all[n + 1..], []) == [] by { WritesOfNone(); }
    if !NoLaterDelete(init, row) && e.key != [] {
      var i :| 0 <= i < n && init[i].DeleteEntry? && Writes(init[i + 1..], []) == []
               && init[i].updatedAtNs >= row.updatedAtNs;
      assert all[i] == init[i] && Writes(all[i + 1..], []) == [];
    }
  }

  lemma WritesOfNone()
    ensures Writes([], []) == []
  {
  }

  lemma EmptyKeyHeard(c: Config, e: LogEntry)
    requires c.lookup.Shipped? && HearsDeletes(c) && InScope(c, []) && WellFormed(c, e)
    ensures Heard(c, [e], []) == if e.DeleteEntry? || e.key == [] then [OpOf(e)] else []
  {
    assert [e][..0] == [];
  }

  /** The empty key's row after a stretch of log, from nothing, or from a row that the stretch does not
      write. */
  lemma {:induction false} EmptyKeyFold(c: Config, slot: Slot, stretch: seq<LogEntry>)
    requires c.lookup.Shipped? && HearsDeletes(c) && InScope(c, [])
    requires forall i | 0 <= i < |stretch| :: WellFormed(c, stretch[i])
    requires NonDecreasing(Writes(stretch, [])) && (slot.Absent? || Writes(stretch, []) == [])
    ensures Fold(slot, Heard(c, stretch, [])) == EmptyKeyRow(Latest(slot, Writes(stretch, [])), stretch)
    decreases |stretch|
  {
    if stretch == [] {
      FoldOfOne(slot, DeleteOp(0));
    } else {
      var n := |stretch| - 1;
      var init, e := stretch[..n], stretch[n];
      assert stretch == init + [e];
      EmptyKeyParts(c, init, e);
      hide Heard, Writes, Delivered, EmptyKeyRow, Latest, Fold, InScope;
      var before, all := Writes(init, []), Writes(stretch, []);
      PrefixNonDecreasing(before, all);
      EmptyKeyFold(c, slot, init);
      OneEmptyKeyStep(slot, init, e, before, all);
      var heard := Heard(c, [e], []);
      FoldConcat(slot, Heard(c, init, []), heard);
      FoldOfOne(EmptyKeyRow(Latest(slot, before), init), OpOf(e));
    }
  }

  lemma PrefixNonDecreasing(before: seq<Op>, all: seq<Op>)
    requires before <= all && NonDecreasing(all)
    ensures NonDecreasing(before)
  {
    assert forall i | 0 <= i < |before| :: before[i] == all[i];
  }

  lemma EmptyKeyParts(c: Config, init: seq<LogEntry>, e: LogEntry)
    requires c.lookup.Shipped? && HearsDeletes(c) && InScope(c, []) && WellFormed(c, e)
    ensures Writes(init + [e], []) == Writes(init, []) + if e.key == [] then [OpOf(e)] else []
    ensures Heard(c, init + [e], []) == Heard(c, init, []) + Heard(c, [e], [])
    ensures Heard(c, [e], []) == if e.DeleteEntry? || e.key == [] then [OpOf(e)] else []
  {
    WritesConcat(init, [e], []);
    WritesOfOne(e, []);
    HeardConcat(c, init, [e], []);
    EmptyKeyHeard(c, e);
  }

  lemma FoldOfOne(slot: Slot, op: Op)
    ensures Fold(slot, [op]) == Step(slot, op) && Fold(slot, []) == slot
  {
    assert [op][..0] == [];
  }

  /** One more entry, seen from the empty key. */
  lemma OneEmptyKeyStep(slot: Slot, init: seq<LogEntry>, e: LogEntry, before: seq<Op>, all: seq<Op>)
    requires all == before + (if e.key == [] then [OpOf(e)] else []) && NonDecreasing(all)
    requires slot.Absent? || all == []
    ensures var prev := EmptyKeyRow(Latest(slot, before), init);
            EmptyKeyRow(Latest(slot, all), init + [e])
            == if e.DeleteEntry? || e.key == [] then Step(prev, OpOf(e)) else prev
  {
    hide NoLaterDelete;
    var was, now := Latest(slot, before), Latest(slot, all);
    if now.Present? {
      NoLaterDeleteStep(init, e, now.row);
    }
    if was.Present? {
      NoLaterDeleteStep(init, e, was.row);
    }
    if e.key == [] && before != [] {
      assert all[|before| - 1] == before[|before| - 1] && all[|before|] == OpOf(e);
      assert Time(before[|before| - 1]) <= Time(OpOf(e));
    }
  }

  lemma {:induction false} LastWriteHeard(c: Config, stretch: seq<LogEntry>)
    requires c.lookup.Shipped? && HearsDeletes(c) && InScope(c, [])
    requires forall i | 0 <= i < |stretch| :: WellFormed(c, stretch[i])
    requires Writes(stretch, []) != []
    ensures Writes(stretch, [])[|Writes(stretch, [])| - 1] in Heard(c, stretch, [])
    decreases |stretch|
  {
    var n := |stretch| - 1;
    var init, e := stretch[..n], stretch[n];
    assert stretch == init + [e];
    HeardConcat(c, init, [e], []);
    EmptyKeyHeard(c, e);
    if e.key != [] {
      LastWriteHeard(c, init);
    }
  }

  /** As shipped, when a follower that hears deletes has the source's row under the empty key. */
  lemma ShippedEmptyKeyFold(c: Config, copied: Slot, stretch: seq<LogEntry>)
    requires c.lookup.Shipped? && HearsDeletes(c) && InScope(c, [])
    requires forall i | 0 <= i < |stretch| :: WellFormed(c, stretch[i])
    requires var ops := Writes(stretch, []);
             NonDecreasing(ops) && (ops != [] && copied.Present? ==> copied.row.updatedAtNs <= Time(ops[|ops| - 1]))
    ensures Fold(copied, Heard(c, stretch, [])) == EmptyKeyRow(Latest(copied, Writes(stretch, [])), stretch)
  {
    hide Heard, Writes, EmptyKeyRow, Fold, InScope;
    var ops, heard := Writes(stretch, []), Heard(c, stretch, []);
    if ops == [] {
      EmptyKeyFold(c, copied, stretch);
    } else {
      EmptyKeyFold(c, Absent, stretch);
      LastWriteHeard(c, stretch);
      FoldForm(copied, heard);
      var i :| 0 <= i < |heard| && heard[i] == ops[|ops| - 1];
      assert copied.Present? ==> !(copied.row.updatedAtNs > Time(heard[i]));
    }
  }

  /** Exactly when a settled follower has the source's row, as shipped. No delete may be lost on the
      key; but the empty key, where a follower that hears deletes applies all of them, must only keep
      clear of later deletes that are not older than its row. */
  predicate MeetsAsShipped(c: Config, s: State, key: ByteString)
    requires s.rep.start <= s.rep.next <= |s.src.log|
  {
    if key == [] && HearsDeletes(c) then
      var slot := SourceAt(s.src, s.rep.next, []);
      slot.Present? ==> NoLaterDelete(s.src.log[s.rep.start..s.rep.next], slot.row)
    else NoDeleteLost(s, s.rep.next, key)
  }

  lemma ShippedRow(c: Config, s: State, key: ByteString)
    requires Inv(c, s) && Settled(s) && c.lookup.Shipped? && InScope(c, key)
    ensures At(s.rep.rows, key) == SourceAt(s.src, s.rep.next, key) <==> MeetsAsShipped(c, s, key)
  {
    hide InScope, Heard, Writes, Fold, Puts, NonDecreasing, HearsDeletes, NoLaterDelete;
    var stretch := s.src.log[s.rep.start..s.rep.next];
    assert forall i | 0 <= i < |stretch| :: WellFormed(c, stretch[i]);
    SettledRow(c, s, key);
    SnapshotMeetsTail(c, s, key);
    hide Inv, SourceAt;
    if key == [] && HearsDeletes(c) {
      ShippedEmptyKeyFold(c, At(s.rep.snapshot, []), stretch);
    } else {
      HeardInScope(c, stretch, key);
      ShippedRowIff(At(s.rep.snapshot, key), Tailed(s, s.rep.next, key));
    }
  }

  /** Bootstrap then tail, as the code ships: in every settled state of every run, the
      follower's row meets the source's exactly when no delete was lost on it or, for the empty key,
      hit it by mistake. */
  lemma ShippedFollowerMeetsSourceIff(c: Config, s0: State, run: seq<Action>, key: ByteString)
    requires Init(c, s0) && ValidRun(c, s0, run) && c.lookup.Shipped? && InScope(c, key)
    ensures var s := Final(c, s0, run);
            Settled(s) ==>
              && s.rep.start <= s.rep.next <= |s.src.log|
              && (At(s.rep.rows, key) == SourceAt(s.src, s.rep.next, key) <==> MeetsAsShipped(c, s, key))
  {
    InitOk(c, s0);
    RunKeepsInv(c, s0, run);
    var s := Final(c, s0, run);
    hide MeetsAsShipped, SourceAt, InScope, Init;
    if Settled(s) {
      ShippedRow(c, s, key);
    }
  }

  lemma ShippedRowIff(copied: Slot, ops: seq<Op>)
    requires NonDecreasing(ops)
    requires ops != [] && copied.Present? ==> copied.row.updatedAtNs <= Time(ops[|ops| - 1])
    ensures Fold(copied, Puts(ops)) == Latest(copied, ops) <==>
            || ops == []
            || ops[|ops| - 1].PutOp?
            || (copied.Absent? && forall i :: 0 <= i < |ops| ==> ops[i].DeleteOp?)
  {
    var puts := Puts(ops);
    PutsInOrder(ops);
    if ops != [] {
      var last := ops[|ops| - 1];
      if last.PutOp? {
        FoldFollowsLatest(copied, puts);
      } else if puts != [] {
        PutsSubset(ops, puts[0]);
        LastPutStays(copied, ops);
      } else {
        forall i | 0 <= i < |ops|
          ensures ops[i].DeleteOp?
        {
          PutsSubset(ops, ops[i]);
        }
      }
    }
  }

  lemma LastPutStays(slot: Slot, ops: seq<Op>)
    requires Puts(ops) != []
    ensures Fold(slot, Puts(ops)).Present?
  {
    var puts := Puts(ops);
    PutsSubset(ops, puts[|puts| - 1]);
  }

  /** As the code ships, a delete is a no-op for the key it names ... */
  lemma ShippedDeleteIgnored(c: Config, db: Db, e: LogEntry)
    requires c.lookup.Shipped? && e.DeleteEntry? && e.key != []
    ensures At(Hear(c, db, e), e.key) == At(db, e.key)
  {
  }

  /** ... is heard only by shard 0 of a cluster that filters ... */
  lemma ShippedDeleteOnlyReachesShardZero(c: Config, e: LogEntry)
    requires c.lookup.Shipped? && e.DeleteEntry?
    requires c.bucketOf == JumpHash.Hash && 1 <= c.targetSize <= JumpHash.TWO_31
    ensures Delivered(c, e) <==> c.targetShard == 0
  {
    JumpHash.HashOfZero(c.targetSize);
  }

  /** ... and takes the row under the empty key with it, if that row is not newer. */
  lemma ShippedDeleteHitsEmptyKey(c: Config, db: Db, e: LogEntry)
    requires c.lookup.Shipped? && e.DeleteEntry? && Delivered(c, e) && [] in db
    ensures [] in Hear(c, db, e) <==> db[[]].updatedAtNs > e.updatedAtNs
  {
    assert [] in Hear(c, db, e) <==> At(Hear(c, db, e), []).Present?;
  }

  lemma OneMore(c: Config, s: State, a: Action, rest: seq<Action>)
    requires Enabled(c, s, a) && ValidRun(c, Do(c, s, a), rest)
    ensures ValidRun(c, s, [a] + rest)
    ensures Final(c, s, [a] + rest) == Final(c, Do(c, s, a), rest)
  {
    hide Enabled, Do;
    assert ([a] + rest)[1..] == rest;
  }

  function Fresh(key: ByteString, row: Entry): State {
    State(Source(map[key := row], map[key := row], map[], []), Replica(Idle, 0, map[], {}, 0, map[], 0, 0, 0, 0))
  }

  function Copied(key: ByteString, row: Entry): State {
    State(Fresh(key, row).src, Replica(Following, 0, map[key := row], {}, 0, map[key := row], 0, 0, 0, 0))
  }

  /** The follower copied a row that its source then deletes, logs and ships. */
  lemma DeleteIsTailed(c: Config, key: ByteString, row: Entry, deletedAtNs: U64)
    requires c.lookup.Shipped? && key != []
    requires InScope(c, key) && WellFormed(c, PutEntry(key, row)) && row.updatedAtNs <= deletedAtNs
    ensures var e := DeleteEntry(key, c.hashOf(key), deletedAtNs);
            var copied := Copied(key, row);
            var run := [Write(e)] + ([Append(key)] + [Tail]);
            && ValidRun(c, copied, run)
            && var s := Final(c, copied, run);
               && Settled(s) && s.rep.next == |s.src.log| && s.src.pending == map[]
               && At(s.rep.rows, key) == Present(row) && At(s.src.db, key) == Absent
  {
    var e := DeleteEntry(key, c.hashOf(key), deletedAtNs);
    var initial: Db := map[key := row];
    var rep := Replica(Following, 0, initial, {}, 0, initial, 0, 0, 0, 0);
    var s1 := State(Source(initial, initial, map[], []), rep);
    var gone := WithSlot(initial, key, Absent);
    var s2 := State(Source(initial, gone, map[key := e], []), rep);
    var s3 := State(Source(initial, gone, map[], [e]), rep);
    assert MayWrite(c, s1.src, e) by {
      assert Writes([], key) == [];
      assert Timeline(s1.src, key) == [PutOp(row)];
    }
    assert Do(c, s1, Write(e)) == s2;
    assert Do(c, s2, Append(key)) == s3 by {
      assert s2.src.pending - {key} == map[];
    }
    hide MayWrite, Writes;
    ShippedDeleteIgnored(c, initial, e);
    OneMore(c, s3, Tail, []);
    assert [Tail] + [] == [Tail];
    OneMore(c, s2, Append(key), [Tail]);
    OneMore(c, s1, Write(e), [Append(key)] + [Tail]);
  }

  /** A five-step run as the code ships: copy a row, delete it at the source, log the delete, tail it.
      The follower has caught up with everything and still holds the row. */
  lemma LostDelete(c: Config, key: ByteString, row: Entry, deletedAtNs: U64)
    requires c.lookup.Shipped? && key != []
    requires InScope(c, key) && WellFormed(c, PutEntry(key, row)) && row.updatedAtNs <= deletedAtNs
    ensures Init(c, Fresh(key, row))
    ensures exists run :: && ValidRun(c, Fresh(key, row), run)
                          && var s := Final(c, Fresh(key, row), run);
                             && Settled(s) && s.rep.next == |s.src.log| && s.src.pending == map[]
                             && At(s.rep.rows, key) == Present(row) && At(s.src.db, key) == Absent
  {
    var e := DeleteEntry(key, c.hashOf(key), deletedAtNs);
    DeleteIsTailed(c, key, row, deletedAtNs);
    var s0 := Fresh(key, row);
    var s1 := Do(c, s0, Locate);
    var tail := [Write(e)] + ([Append(key)] + [Tail]);
    assert Do(c, s1, Copy) == Copied(key, row) by {
      assert Scan(c, s0.src.db) == map[key := row];
      assert s0.src.pending.Keys == {};
    }
    OneMore(c, s1, Copy, tail);
    OneMore(c, s0, Locate, [Copy] + tail);
    assert ValidRun(c, s0, [Locate] + ([Copy] + tail));
  }
}
