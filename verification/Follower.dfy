/** One shard as a writer and as a follower: it applies client writes to its rows and then
    logs them, and it merges the log entries of other shards into its rows. */
module Follower {
  import opened Bytes
  import opened Codec
  import opened LastWriteWins
  import opened Rows

  datatype LogEntry =
    | PutEntry(key: ByteString, row: Entry)
    | DeleteEntry(key: ByteString, partitionHash: U64, updatedAtNs: U64)

  function OpOf(e: LogEntry): Op {
    match e
    case PutEntry(_, row) => PutOp(row)
    case DeleteEntry(_, _, t) => DeleteOp(t)
  }

  /** How a log entry answers GetKey and GetPartitionHash. `Shipped` is the code: the test
      for a missing put compares an interface that holds a typed nil, so a delete answers for a
      nil put request, with no key and a zero hash. `Repaired` is the fall-through to the
      delete request that the code spells out and never reaches. */
  datatype Lookup = Shipped | Repaired

  function GetKey(m: Lookup, e: LogEntry): ByteString {
    if e.DeleteEntry? && m.Shipped? then [] else e.key
  }

  function GetPartitionHash(m: Lookup, e: LogEntry): U64 {
    match e
    case PutEntry(_, row) => row.partitionHash
    case DeleteEntry(_, hash, _) => if m.Shipped? then 0 else hash
  }

  /** processEntry at one reading of the clock. */
  function ApplyTimed(m: Lookup, db: Db, e: LogEntry, nowNs: U64): Db {
    var key := GetKey(m, e);
    WithSlot(db, key, ApplyAt(At(db, key), OpOf(e), nowNs))
  }

  /** processEntry for rows without a time to live. */
  function Apply(m: Lookup, db: Db, e: LogEntry): Db {
    var key := GetKey(m, e);
    WithSlot(db, key, Step(At(db, key), OpOf(e)))
  }

  function ApplyAllTimed(m: Lookup, db: Db, es: seq<LogEntry>, clock: seq<U64>): Db
    requires |clock| == |es|
  {
    if es == [] then db
    else
      var n := |es| - 1;
      ApplyTimed(m, ApplyAllTimed(m, db, es[..n], clock[..n]), es[n], clock[n])
  }

  function ApplyAll(m: Lookup, db: Db, es: seq<LogEntry>): Db {
    if es == [] then db
    else
      var n := |es| - 1;
      Apply(m, ApplyAll(m, db, es[..n]), es[n])
  }

  /** processEntry panics: the row it has to look into does not decode. */
  predicate Panics(m: Lookup, db: Db, e: LogEntry) {
    Unreadable(db, GetKey(m, e))
  }

  /** The first `n` entries of a batch are applied without a panic. */
  ghost predicate AppliesUpTo(m: Lookup, db: Db, es: seq<LogEntry>, clock: seq<U64>, n: nat)
    requires |clock| == |es| && n <= |es|
  {
    forall i | 0 <= i < n :: !Panics(m, ApplyAllTimed(m, db, es[..i], clock[..i]), es[i])
  }

  /** An entry panics exactly when a row with an empty value is stored under the key it answers for. */
  lemma PanicsIff(m: Lookup, db: Db, e: LogEntry)
    ensures Panics(m, db, e) <==> GetKey(m, e) in db && db[GetKey(m, e)].value == []
  {
    UnreadableIff(db, GetKey(m, e));
  }

  /** So a put of an empty value goes through, and whatever entry for that key comes next does not. */
  lemma EmptyValuePanicsNext(m: Lookup, db: Db, key: ByteString, row: Entry, e: LogEntry, nowNs: U64)
    requires row.value == [] && key !in db && GetKey(m, e) == key
    ensures !Panics(m, db, PutEntry(key, row))
    ensures Panics(m, ApplyTimed(m, db, PutEntry(key, row), nowNs), e)
  {
    hide Encode, FromBytes;
    var after := ApplyTimed(m, db, PutEntry(key, row), nowNs);
    assert At(after, key) == Present(row);
    PanicsIff(m, after, e);
  }

  ghost predicate EntryReadable(e: LogEntry) {
    e.PutEntry? ==> e.row.value != []
  }

  lemma ApplyTimedReadable(m: Lookup, db: Db, e: LogEntry, nowNs: U64)
    requires AllReadable(db) && EntryReadable(e)
    ensures AllReadable(ApplyTimed(m, db, e, nowNs)) && AllReadable(Apply(m, db, e))
    ensures !Panics(m, db, e)
  {
    hide IsExpired, Encode, FromBytes;
    ReadableNeverUnreadable(db, GetKey(m, e));
    forall after: Db | after == ApplyTimed(m, db, e, nowNs) || after == Apply(m, db, e)
      ensures AllReadable(after)
    {
      forall k | k in after
        ensures after[k].value != []
      {
        assert At(after, k) == Present(after[k]);
        if k in db {
          assert At(db, k) == Present(db[k]);
        }
      }
    }
  }

  lemma ApplyOneMore(m: Lookup, db: Db, es: seq<LogEntry>, clock: seq<U64>, n: nat)
    requires |clock| == |es| && n < |es|
    ensures ApplyAllTimed(m, db, es[..n + 1], clock[..n + 1])
            == ApplyTimed(m, ApplyAllTimed(m, db, es[..n], clock[..n]), es[n], clock[n])
  {
    hide ApplyTimed;
    assert es[..n + 1][..n] == es[..n] && clock[..n + 1][..n] == clock[..n];
  }

  lemma ApplyNone(m: Lookup, db: Db, es: seq<LogEntry>, clock: seq<U64>)
    requires es == [] && clock == []
    ensures ApplyAllTimed(m, db, es, clock) == db
  {
  }

  lemma {:induction false} BatchStaysReadable(m: Lookup, db: Db, es: seq<LogEntry>, clock: seq<U64>, n: nat)
    requires |clock| == |es| && n <= |es|
    requires AllReadable(db) && (forall i | 0 <= i < |es| :: EntryReadable(es[i]))
    ensures AllReadable(ApplyAllTimed(m, db, es[..n], clock[..n]))
  {
    hide AllReadable, Panics, ApplyTimed, Apply, ApplyAllTimed, EntryReadable;
    if n == 0 {
      ApplyNone(m, db, es[..0], clock[..0]);
    } else {
      BatchStaysReadable(m, db, es, clock, n - 1);
      ApplyOneMore(m, db, es, clock, n - 1);
      ApplyTimedReadable(m, ApplyAllTimed(m, db, es[..n - 1], clock[..n - 1]), es[n - 1], clock[n - 1]);
    }
  }

  /** Where no value is empty, no batch ever panics. */
  lemma ReadableBatchApplies(m: Lookup, db: Db, es: seq<LogEntry>, clock: seq<U64>)
    requires |clock| == |es| && AllReadable(db) && (forall i | 0 <= i < |es| :: EntryReadable(es[i]))
    ensures AppliesUpTo(m, db, es, clock, |es|) && AllReadable(ApplyAllTimed(m, db, es, clock))
  {
    hide AllReadable, Panics, ApplyTimed, Apply, ApplyAllTimed, EntryReadable;
    forall i | 0 <= i < |es|
      ensures !Panics(m, ApplyAllTimed(m, db, es[..i], clock[..i]), es[i])
    {
      BatchStaysReadable(m, db, es, clock, i);
      ApplyTimedReadable(m, ApplyAllTimed(m, db, es[..i], clock[..i]), es[i], clock[i]);
    }
    BatchStaysReadable(m, db, es, clock, |es|);
    assert es[..|es|] == es && clock[..|es|] == clock;
  }

  ghost predicate RowsNoTtl(db: Db) {
    forall k :: NoTtl(At(db, k))
  }

  ghost predicate EntriesNoTtl(es: seq<LogEntry>) {
    forall i :: 0 <= i < |es| ==> OpNoTtl(OpOf(es[i]))
  }

  /** Without times to live the clock does not matter. */
  lemma {:induction false} ClockIrrelevant(m: Lookup, db: Db, es: seq<LogEntry>, clock: seq<U64>)
    requires |clock| == |es|
    requires RowsNoTtl(db) && EntriesNoTtl(es)
    ensures ApplyAllTimed(m, db, es, clock) == ApplyAll(m, db, es)
    ensures RowsNoTtl(ApplyAll(m, db, es))
    decreases |es|
  {
    if es != [] {
      var n := |es| - 1;
      ClockIrrelevant(m, db, es[..n], clock[..n]);
      var before := ApplyAll(m, db, es[..n]);
      var key := GetKey(m, es[n]);
      assert OpNoTtl(OpOf(es[n]));
      ApplyAtWithoutTtl(At(before, key), OpOf(es[n]), clock[n]);
    }
  }

  datatype Position = Position(segment: U32, offset: U64)
  datatype Peer = Peer(shardId: nat, adminAddress: string)

  class Shard {
    var db: Db
    var log: seq<LogEntry>
    const hasBinlog: bool
    var followProgress: map<Peer, Position>
    var savedProgress: map<Peer, Position>

    constructor (hasBinlog: bool)
      ensures db == map[] && log == [] && followProgress == map[] && savedProgress == map[]
      ensures this.hasBinlog == hasBinlog
    {
      this.hasBinlog := hasBinlog;
      db, log, followProgress, savedProgress := map[], [], map[], map[];
    }

    /** processPut: the row is written first and logged second, under the same event time, and
        a write the store refuses is not logged. */
    method ProcessPut(key: ByteString, row: Entry, nowNs: U64, storeOpen: bool, binlogDisabled: bool) returns (ok: bool)
      modifies this`db, this`log
      ensures ok <==> storeOpen
      ensures !ok ==> db == old(db) && log == old(log)
      ensures ok ==>
                var stamped := row.(updatedAtNs := if row.updatedAtNs == 0 then nowNs else row.updatedAtNs);
                && db == old(db)[key := stamped]
                && log == old(log) + if hasBinlog && !binlogDisabled then [PutEntry(key, stamped)] else []
    {
      var at := row.updatedAtNs;
      if at == 0 {
        at := nowNs;
      }
      var stamped := row.(updatedAtNs := at);
      ok := storeOpen;
      if ok {
        db := db[key := stamped];
        if !binlogDisabled && hasBinlog {
          log := log + [PutEntry(key, stamped)];
        }
      }
    }

    /** processDelete */
    method ProcessDelete(key: ByteString, hash: U64, at: U64, nowNs: U64, storeOpen: bool, binlogDisabled: bool)
      returns (ok: bool)
      modifies this`db, this`log
      ensures ok <==> storeOpen
      ensures !ok ==> db == old(db) && log == old(log)
      ensures ok ==>
                && db == old(db) - {key}
                && log == old(log) + if hasBinlog && !binlogDisabled
                                     then [DeleteEntry(key, hash, if at == 0 then nowNs else at)] else []
    {
      ok := storeOpen;
      if ok {
        db := db - {key};
        if !binlogDisabled {
          var stamp := at;
          if stamp == 0 {
            stamp := nowNs;
          }
          if hasBinlog {
            log := log + [DeleteEntry(key, hash, stamp)];
          }
        }
      }
    }

    /** processEntry, branch by branch; false when the follower panics on the way. */
    method ProcessEntry(m: Lookup, e: LogEntry, nowNs: U64) returns (ok: bool)
      modifies this`db
      ensures ok <==> !Panics(m, old(db), e)
      ensures ok <==> !(GetKey(m, e) in old(db) && old(db)[GetKey(m, e)].value == [])
      ensures db == if ok then ApplyTimed(m, old(db), e, nowNs) else old(db)
    {
      hide Encode, FromBytes, IsExpired;
      var key := GetKey(m, e);
      PanicsIff(m, db, e);
      UnreadableIff(db, key);
      match e
      case DeleteEntry(_, _, at) =>
        if key in db {
          var row := FromBytes(Encode(db[key]));
          if row.Rejected? {
            return false;
          }
          if IsExpired(row.entry, nowNs) {
            return true;
          }
          if row.entry.updatedAtNs > at {
            return true;
          }
          db := db - {key};
        }
        return true;
      case PutEntry(putKey, t) =>
        if key !in db {
          db := db[putKey := t];
          return true;
        }
        var row := FromBytes(Encode(db[key]));
        if row.Rejected? {
          return false;
        }
        if IsExpired(row.entry, nowNs) {
          if !IsExpired(t, nowNs) {
            db := db[putKey := t];
          }
        } else {
          if row.entry.updatedAtNs > t.updatedAtNs {
            return true;
          }
          db := db[putKey := t];
        }
        return true;
    }

    /** One batch of followChanges: every entry is applied before the position moves, and the
        position moves only if it is still being tracked. At the first entry that panics the
        follower stops, with the entries before it applied and the position where it was. */
    method FollowBatch(m: Lookup, entries: seq<LogEntry>, clock: seq<U64>, peer: Peer, next: Position, save: bool)
      returns (applied: nat)
      requires |clock| == |entries|
      modifies this`db, this`followProgress
      ensures applied <= |entries| && AppliesUpTo(m, old(db), entries, clock, applied)
      ensures applied < |entries| ==> Panics(m, db, entries[applied])
      ensures db == ApplyAllTimed(m, old(db), entries[..applied], clock[..applied])
      ensures followProgress ==
              if applied == |entries| && save && peer in old(followProgress)
              then old(followProgress)[peer := next] else old(followProgress)
    {
      hide Panics, ApplyTimed;
      applied := 0;
      while applied < |entries|
        invariant applied <= |entries| && AppliesUpTo(m, old(db), entries, clock, applied)
        invariant db == ApplyAllTimed(m, old(db), entries[..applied], clock[..applied])
        invariant followProgress == old(followProgress)
      {
        var ok := ProcessEntry(m, entries[applied], clock[applied]);
        if !ok {
          return;
        }
        assert entries[..applied + 1][..applied] == entries[..applied];
        assert clock[..applied + 1][..applied] == clock[..applied];
        applied := applied + 1;
      }
      if save && peer in followProgress {
        followProgress := followProgress[peer := next];
      }
    }

    /** EverySecond: afterwards every tracked position is on disk, and no other saved position
        has changed. */
    method EverySecond()
      modifies this`savedProgress
      ensures savedProgress == old(savedProgress) + followProgress
    {
      var todo := followProgress.Keys;
      while todo != {}
        invariant todo <= followProgress.Keys
        invariant savedProgress == old(savedProgress) + (followProgress - todo)
        decreases |todo|
      {
        var peer :| peer in todo;
        if peer !in savedProgress || savedProgress[peer] != followProgress[peer] {
          savedProgress := savedProgress[peer := followProgress[peer]];
        }
        todo := todo - {peer};
      }
    }
  }
}
