/** Copying rows between shards: the batched full scan, the filtering copy of one source shard,
    and the merged copy that fills a brand-new shard of a grown cluster. */
module GrowCopy {
  import opened Bytes
  import opened Codec
  import opened MergeHeap
  import opened KWayMerge
  import JumpHash
  import Resize

  /** The rows of a store in iteration order. */
  ghost predicate Ascending(rows: seq<Row>) {
    forall i, j :: 0 <= i < j < |rows| ==> Less(rows[i].key, rows[j].key)
  }

  function Join(batches: seq<seq<Row>>): seq<Row> {
    if batches == [] then [] else Join(batches[..|batches| - 1]) + batches[|batches| - 1]
  }

  lemma JoinMore(batches: seq<seq<Row>>, batch: seq<Row>)
    ensures Join(batches + [batch]) == Join(batches) + batch
  {
    assert (batches + [batch])[..|batches|] == batches;
  }

  function Limited(rows: seq<Row>, limit: nat): seq<Row> {
    if 0 < limit < |rows| then rows[..limit] else rows
  }

  lemma LimitedMember(rows: seq<Row>, limit: nat)
    ensures forall r :: r in Limited(rows, limit) ==> r in rows
  {
  }

  lemma PrefixOfScan(taken: seq<Row>, buffer: seq<Row>, rows: seq<Row>, i: nat, limit: nat)
    requires i <= |rows| && (limit > 0 ==> i <= limit) && taken + buffer == rows[..i]
    ensures taken <= Limited(rows, limit)
    ensures i == |rows| || 0 < i == limit ==> taken + buffer == Limited(rows, limit)
  {
    assert taken == rows[..i][..|taken|];
    assert rows[..|rows|] == rows;
  }

  /** FullScan: the batches the callback took are the scanned rows in order, cut into pieces of
      `batchSize` with only the last one shorter, and none empty. `accepts(k)` is the callback's answer
      to its k-th call; at its first refusal the scan ends, with full batches only. */
  method FullScan(rows: seq<Row>, batchSize: nat, limit: nat, accepts: nat -> bool)
    returns (batches: seq<seq<Row>>, ok: bool)
    requires batchSize > 0
    ensures if ok then Join(batches) == Limited(rows, limit) else Join(batches) <= Limited(rows, limit)
    ensures forall k :: 0 <= k < |batches| ==> 0 < |batches[k]| <= batchSize && accepts(k)
    ensures forall k :: 0 <= k < |batches| - (if ok then 1 else 0) ==> |batches[k]| == batchSize
    ensures !ok ==> !accepts(|batches|)
  {
    hide Join, InBatch, Limited;
    NextCount(0, batchSize);
    batches, ok := [], true;
    assert Join([]) == [] by {
      JoinNone();
    }
    var rowCount, buffer := 0, [];
    var i := 0;
    while i < |rows|
      invariant 0 <= i == rowCount <= |rows| && (limit > 0 ==> rowCount < limit || i == 0)
      invariant |buffer| == InBatch(rowCount, batchSize)
      invariant Join(batches) + buffer == rows[..i]
      invariant forall k :: 0 <= k < |batches| ==> |batches[k]| == batchSize && accepts(k)
    {
      NextCount(rowCount, batchSize);
      assert rows[..i + 1] == rows[..i] + [rows[i]];
      rowCount := rowCount + 1;
      buffer := buffer + [rows[i]];
      i := i + 1;
      if InBatch(rowCount, batchSize) == 0 {
        if !accepts(|batches|) {
          PrefixOfScan(Join(batches), buffer, rows, i, limit);
          return batches, false;
        }
        JoinMore(batches, buffer);
        batches := batches + [buffer];
        buffer := [];
      }
      if limit > 0 && rowCount >= limit {
        break;
      }
    }
    PrefixOfScan(Join(batches), buffer, rows, i, limit);
    NextCount(rowCount, batchSize);
    if |buffer| > 0 {
      if !accepts(|batches|) {
        return batches, false;
      }
      JoinMore(batches, buffer);
      batches := batches + [buffer];
    }
  }

  lemma JoinNone()
    ensures Join([]) == []
  {
  }

  /** How many of the first `n` rows are in an unfinished batch. */
  function InBatch(n: nat, size: nat): nat
    requires size > 0
  {
    n % size
  }

  lemma NextCount(n: nat, size: nat)
    requires size > 0
    ensures InBatch(n, size) < size && InBatch(0, size) == 0
    ensures InBatch(n + 1, size) == 0 <==> InBatch(n, size) == size - 1
    ensures InBatch(n + 1, size) != 0 ==> InBatch(n + 1, size) == InBatch(n, size) + 1
  {
    var q, m := n / size, n % size;
    assert n == q * size + m;
    if m == size - 1 {
      assert n + 1 == (q + 1) * size;
      ModulusOf(n + 1, q + 1, size, 0);
    } else {
      ModulusOf(n + 1, q, size, m + 1);
    }
  }

  lemma ModulusOf(x: nat, q: nat, size: nat, m: nat)
    requires m < size && x == q * size + m
    ensures x % size == m
  {
    var k, t := q - x / size, x % size - m;
    assert x == x / size * size + x % size;
    assert k * size == q * size - x / size * size;
    assert k * size == t;
    assert -k * size == -(k * size);
    if k >= 1 {
      AtLeast(k, size);
    } else if k <= -1 {
      AtLeast(-k, size);
    }
  }

  lemma AtLeast(k: nat, size: nat)
    requires k >= 1
    ensures k * size >= size
  {
  }

  // ---- one source -----------------------------------------------------------------------------

  /** Which shard is asked, in which cluster, for the rows of which shard of which cluster. */
  datatype CopyRequest = CopyRequest(shardId: nat, clusterSize: nat, targetShardId: nat, targetClusterSize: nat)

  predicate IsInternal(row: Row) {
    HasPrefix(row.key, INTERNAL_PREFIX)
  }

  /** Client rows carry a header. */
  ghost predicate WellFormed(rows: seq<Row>) {
    forall i :: 0 <= i < |rows| && !IsInternal(rows[i]) ==> |rows[i].value| >= 8
  }

  function HashOf(row: Row): U64
    requires |row.value| >= 8
  {
    PartitionHashFromBytes(row.value)
  }

  lemma WellFormedIff(rows: seq<Row>)
    ensures WellFormed(rows) <==> forall r | r in rows && !HasPrefix(r.key, INTERNAL_PREFIX) :: |r.value| >= 8
  {
    if WellFormed(rows) {
      forall r | r in rows && !HasPrefix(r.key, INTERNAL_PREFIX)
        ensures |r.value| >= 8
      {
        var i :| 0 <= i < |rows| && rows[i] == r;
      }
    }
  }

  /** A client row the source shard owns and the target shard will own. */
  predicate Wanted(q: CopyRequest, row: Row) {
    && !IsInternal(row) && |row.value| >= 8
    && JumpHash.Hash(HashOf(row), q.clusterSize) == q.shardId
    && (q.targetClusterSize > 0 ==> JumpHash.Hash(HashOf(row), q.targetClusterSize) == q.targetShardId)
  }

  function Kept(q: CopyRequest, rows: seq<Row>): seq<Row> {
    if rows == [] then []
    else
      var n := |rows| - 1;
      Kept(q, rows[..n]) + if Wanted(q, rows[n]) then [rows[n]] else []
  }

  lemma {:induction false} KeptConcat(q: CopyRequest, a: seq<Row>, b: seq<Row>)
    ensures Kept(q, a + b) == Kept(q, a) + Kept(q, b)
    decreases |b|
  {
    hide Wanted;
    if b == [] {
      assert a + b == a;
    } else {
      var n := |b| - 1;
      KeptConcat(q, a, b[..n]);
      assert (a + b)[..|a + b| - 1] == a + b[..n];
    }
  }

  lemma {:induction false} KeptMember(q: CopyRequest, rows: seq<Row>, row: Row)
    ensures row in Kept(q, rows) <==> row in rows && Wanted(q, row)
    decreases |rows|
  {
    hide Wanted;
    if rows != [] {
      var n := |rows| - 1;
      KeptMember(q, rows[..n], row);
      assert rows == rows[..n] + [rows[n]];
    }
  }

  /** Membership, spelled out. */
  lemma KeptExactly(q: CopyRequest, rows: seq<Row>, row: Row)
    ensures row in Kept(q, rows) <==>
            && row in rows && !HasPrefix(row.key, INTERNAL_PREFIX) && |row.value| >= 8
            && JumpHash.Hash(PartitionHashFromBytes(row.value), q.clusterSize) == q.shardId
            && (q.targetClusterSize > 0 ==>
                  JumpHash.Hash(PartitionHashFromBytes(row.value), q.targetClusterSize) == q.targetShardId)
  {
    hide JumpHash.Hash, PartitionHashFromBytes;
    KeptMember(q, rows, row);
  }

  lemma {:induction false} KeptAscending(q: CopyRequest, rows: seq<Row>)
    requires Ascending(rows)
    ensures Ascending(Kept(q, rows))
    decreases |rows|
  {
    hide Wanted, Less;
    if rows != [] {
      var n := |rows| - 1;
      var init := rows[..n];
      KeptAscending(q, init);
      forall i | 0 <= i < |Kept(q, init)|
        ensures Less(Kept(q, init)[i].key, rows[n].key)
      {
        KeptMember(q, init, Kept(q, init)[i]);
        var k :| 0 <= k < |init| && init[k] == Kept(q, init)[i];
        assert Less(rows[k].key, rows[n].key);
      }
    }
  }

  /** BootstrapCopy: one message per scanned batch, holding the batch's wanted rows. Read together the
      messages are the wanted rows of the store, in key order, cut at the request's limit on scanned
      rows. `sends(k)` says whether the k-th message gets through; after one that does not, the
      messages before it are the wanted rows of a first part of the store. */
  method BootstrapCopy(q: CopyRequest, rows: seq<Row>, batchSize: nat, limit: nat, sends: nat -> bool)
    returns (messages: seq<seq<Row>>, ok: bool)
    requires batchSize > 0 && WellFormed(rows)
    ensures ok ==> Join(messages) == Kept(q, Limited(rows, limit))
    ensures ok ==> forall r :: r in Join(messages) <==>
              && r in Limited(rows, limit) && !HasPrefix(r.key, INTERNAL_PREFIX) && |r.value| >= 8
              && JumpHash.Hash(PartitionHashFromBytes(r.value), q.clusterSize) == q.shardId
              && (q.targetClusterSize > 0 ==>
                    JumpHash.Hash(PartitionHashFromBytes(r.value), q.targetClusterSize) == q.targetShardId)
    ensures !ok ==> !sends(|messages|)
    ensures !ok ==> exists n :: 0 <= n <= |Limited(rows, limit)| && Join(messages) == Kept(q, Limited(rows, limit)[..n])
  {
    hide Wanted, Kept, Join, Limited, WellFormed, JumpHash.Hash, HasPrefix, PartitionHashFromBytes;
    var batches;
    batches, ok := FullScan(rows, batchSize, limit, sends);
    ghost var n := |Join(batches)|;
    assert Join(batches) == Limited(rows, limit)[..n];
    assert forall r :: r in Join(batches) ==> r in rows by {
      LimitedMember(rows, limit);
    }
    messages := [];
    JoinNone();
    KeptNone(q);
    var k := 0;
    while k < |batches|
      invariant |messages| == k <= |batches|
      invariant Join(messages) == Kept(q, Join(batches[..k]))
    {
      assert batches[..k + 1] == batches[..k] + [batches[k]];
      JoinMore(batches[..k], batches[k]);
      KeptConcat(q, Join(batches[..k]), batches[k]);
      BatchWellFormed(rows, batches, k);
      WellFormedIff(batches[k]);
      var filtered, _ := FilterBatch(q, batches[k]);
      JoinMore(messages, filtered);
      messages := messages + [filtered];
      k := k + 1;
    }
    assert batches[..k] == batches;
    if ok {
      forall r
        ensures r in Join(messages) <==>
                && r in Limited(rows, limit) && !HasPrefix(r.key, INTERNAL_PREFIX) && |r.value| >= 8
                && JumpHash.Hash(PartitionHashFromBytes(r.value), q.clusterSize) == q.shardId
                && (q.targetClusterSize > 0 ==>
                      JumpHash.Hash(PartitionHashFromBytes(r.value), q.targetClusterSize) == q.targetShardId)
      {
        KeptExactly(q, Limited(rows, limit), r);
      }
    }
  }

  lemma KeptNone(q: CopyRequest)
    ensures Kept(q, []) == []
  {
  }

  /** The filter on one batch. It reads the hash of every client row, and panics exactly when one is too
      short to have it. */
  method FilterBatch(q: CopyRequest, rows: seq<Row>) returns (filtered: seq<Row>, ok: bool)
    ensures ok <==> forall r | r in rows && !HasPrefix(r.key, INTERNAL_PREFIX) :: |r.value| >= 8
    ensures ok ==> filtered == Kept(q, rows)
    ensures ok ==> forall r :: r in filtered <==>
              && r in rows && !HasPrefix(r.key, INTERNAL_PREFIX) && |r.value| >= 8
              && JumpHash.Hash(PartitionHashFromBytes(r.value), q.clusterSize) == q.shardId
              && (q.targetClusterSize > 0 ==>
                    JumpHash.Hash(PartitionHashFromBytes(r.value), q.targetClusterSize) == q.targetShardId)
  {
    hide JumpHash.Hash, PartitionHashFromBytes;
    filtered, ok := [], true;
    var i := 0;
    while i < |rows|
      invariant i <= |rows| && WellFormed(rows[..i])
      invariant filtered == Kept(q, rows[..i])
    {
      var row := rows[i];
      assert rows[..i + 1][..i] == rows[..i];
      i := i + 1;
      if HasPrefix(row.key, INTERNAL_PREFIX) {
        continue;
      }
      if |row.value| < 8 {
        assert row in rows;
        return [], false;
      }
      var partitionHash := PartitionHashFromBytes(row.value);
      if JumpHash.Hash(partitionHash, q.clusterSize) != q.shardId {
        continue;
      }
      if q.targetClusterSize > 0 {
        if JumpHash.Hash(partitionHash, q.targetClusterSize) == q.targetShardId {
          filtered := filtered + [row];
        }
      } else {
        filtered := filtered + [row];
      }
    }
    assert rows[..i] == rows;
    WellFormedIff(rows);
    forall r
      ensures r in filtered <==>
              && r in rows && !HasPrefix(r.key, INTERNAL_PREFIX) && |r.value| >= 8
              && JumpHash.Hash(PartitionHashFromBytes(r.value), q.clusterSize) == q.shardId
              && (q.targetClusterSize > 0 ==>
                    JumpHash.Hash(PartitionHashFromBytes(r.value), q.targetClusterSize) == q.targetShardId)
    {
      KeptExactly(q, rows, r);
    }
  }

  lemma {:induction false} JoinMember(batches: seq<seq<Row>>, k: nat, r: Row)
    requires k < |batches| && r in batches[k]
    ensures r in Join(batches)
    decreases |batches|
  {
    if k < |batches| - 1 {
      JoinMember(batches[..|batches| - 1], k, r);
    }
  }

  lemma BatchWellFormed(rows: seq<Row>, batches: seq<seq<Row>>, k: nat)
    requires WellFormed(rows) && k < |batches| && (forall r :: r in Join(batches) ==> r in rows)
    ensures WellFormed(batches[k])
  {
    hide IsInternal, Join;
    forall i | 0 <= i < |batches[k]| && !IsInternal(batches[k][i])
      ensures |batches[k][i].value| >= 8
    {
      JoinMember(batches, k, batches[k][i]);
    }
  }

  // ---- all sources ----------------------------------------------------------------------------

  function RequestTo(i: nat, from: nat, target: nat, to: nat): CopyRequest {
    CopyRequest(i, from, target, to)
  }

  /** What each old primary sends. */
  function Sent(primaries: seq<seq<Row>>, target: nat, to: nat): (r: seq<seq<Row>>)
    ensures |r| == |primaries|
  {
    seq(|primaries|, i requires 0 <= i < |primaries| => Kept(RequestTo(i, |primaries|, target, to), primaries[i]))
  }

  /** The same key carries the same partition hash wherever it is stored. */
  ghost predicate HashByKey(primaries: seq<seq<Row>>) {
    forall i, j, a, b | 0 <= i < |primaries| && 0 <= j < |primaries| && a in primaries[i] && b in primaries[j] ::
      !IsInternal(a) && |a.value| >= 8 && |b.value| >= 8 && a.key == b.key ==> HashOf(a) == HashOf(b)
  }

  /** No key is sent by two primaries. */
  ghost predicate OneSourcePerKey(sent: seq<seq<Row>>) {
    forall i, j, a, b | 0 <= i < |sent| && 0 <= j < |sent| && a in sent[i] && b in sent[j] ::
      i != j ==> a.key != b.key
  }

  lemma HashByKeyGivesOneSource(primaries: seq<seq<Row>>, target: nat, to: nat)
    requires HashByKey(primaries)
    ensures OneSourcePerKey(Sent(primaries, target, to))
  {
    hide JumpHash.Hash, IsInternal, HashOf, Kept;
    var n := |primaries|;
    forall i, j, a, b | 0 <= i < n && 0 <= j < n && i != j
                        && a in Sent(primaries, target, to)[i] && b in Sent(primaries, target, to)[j]
      ensures a.key != b.key
    {
      KeptMember(RequestTo(i, n, target, to), primaries[i], a);
      KeptMember(RequestTo(j, n, target, to), primaries[j], b);
    }
  }

  ghost predicate StrictlyUp(s: seq<Item>) {
    forall i, j :: 0 <= i < j < |s| ==> Less(s[i].row.key, s[j].row.key)
  }

  lemma {:induction false} TagOnce(rows: seq<Row>, c: nat, x: Item)
    requires Ascending(rows)
    ensures Tag(rows, c)[x] <= 1
    decreases |rows|
  {
    hide Less;
    if rows != [] {
      TagOnce(rows[1..], c, x);
      if x == Item(rows[0], c) && x in Tag(rows[1..], c) {
        TagMember(rows[1..], c, x);
        var k :| 0 <= k < |rows[1..]| && rows[1..][k] == rows[0];
        assert Less(rows[0].key, rows[k + 1].key);
        LessIrreflexive(rows[0].key);
      }
    }
  }

  lemma {:induction false} TaggedOnce(sent: seq<seq<Row>>, x: Item)
    requires forall c :: 0 <= c < |sent| ==> Ascending(sent[c])
    ensures Tagged(sent)[x] <= 1
    decreases |sent|
  {
    hide Less, Tag;
    if sent != [] {
      var n := |sent| - 1;
      TaggedOnce(sent[..n], x);
      TagOnce(sent[n], n, x);
      TaggedMember(sent[..n], x);
      TagMember(sent[n], n, x);
    }
  }

  lemma CountTwice(s: seq<Item>, i: nat, j: nat)
    requires i < j < |s| && s[i] == s[j]
    ensures multiset(s)[s[i]] >= 2
  {
    assert s == s[..j] + [s[j]] + s[j + 1..];
    assert s[i] in s[..j];
  }

  lemma SameSourceSameKeySameRow(rows: seq<Row>, a: Row, b: Row)
    requires Ascending(rows) && a in rows && b in rows && a.key == b.key
    ensures a == b
  {
    hide Less;
    var i :| 0 <= i < |rows| && rows[i] == a;
    var j :| 0 <= j < |rows| && rows[j] == b;
    LessIrreflexive(a.key);
  }

  /** An ordered, complete merge of ascending sources repeats no key exactly when no two sources
      share one. */
  lemma StrictIffOneSource(sst: seq<Item>, sent: seq<seq<Row>>)
    requires forall c :: 0 <= c < |sent| ==> Ascending(sent[c])
    requires SortedItems(sst) && multiset(sst) == Tagged(sent)
    ensures StrictlyUp(sst) <==> OneSourcePerKey(sent)
  {
    hide Less, Tagged, Ascending;
    assert forall x :: x in sst <==> x in multiset(sst);
    if OneSourcePerKey(sent) {
      forall i, j | 0 <= i < j < |sst|
        ensures Less(sst[i].row.key, sst[j].row.key)
      {
        NoRepeat(sst, sent, i, j);
        assert Above(sst[i], sst[j]);
        LessTotal(sst[i].row.key, sst[j].row.key);
      }
    }
    if StrictlyUp(sst) {
      forall i, j, a, b | 0 <= i < |sent| && 0 <= j < |sent| && a in sent[i] && b in sent[j]
        ensures i != j ==> a.key != b.key
      {
        TaggedMember(sent, Item(a, i));
        TaggedMember(sent, Item(b, j));
        assert Item(a, i) in sst && Item(b, j) in sst;
        if i != j {
          KeysApart(sst, Item(a, i), Item(b, j));
        }
      }
    }
  }

  lemma KeysApart(sst: seq<Item>, x: Item, y: Item)
    requires StrictlyUp(sst) && x in sst && y in sst && x != y
    ensures x.row.key != y.row.key
  {
    hide Less;
    var p :| 0 <= p < |sst| && sst[p] == x;
    var q :| 0 <= q < |sst| && sst[q] == y;
    LessIrreflexive(x.row.key);
  }

  lemma NoRepeat(sst: seq<Item>, sent: seq<seq<Row>>, i: nat, j: nat)
    requires forall c :: 0 <= c < |sent| ==> Ascending(sent[c])
    requires multiset(sst) <= Tagged(sent) && OneSourcePerKey(sent) && i < j < |sst|
    ensures sst[i].row.key != sst[j].row.key
  {
    hide Less, Tagged, Ascending;
    var x, y := sst[i], sst[j];
    assert x in multiset(sst) && y in multiset(sst);
    TaggedMember(sent, x);
    TaggedMember(sent, y);
    TaggedOnce(sent, x);
    if x.row.key == y.row.key {
      if x.chan == y.chan {
        SameSourceSameKeySameRow(sent[x.chan], x.row, y.row);
        CountTwice(sst, i, j);
      }
    }
  }

  /** The compaction filter of the new shard does not take the row for a foreign one. */
  ghost predicate KeptByNewShard(target: nat, to: nat, row: Row) {
    var d := FromBytes(row.value);
    d.Accepted? ==> !Resize.Foreign(Resize.Filter(target, to, false), d.entry)
  }

  lemma OwnedIsKept(target: nat, to: nat, row: Row)
    requires |row.value| >= 8 && JumpHash.Hash(PartitionHashFromBytes(row.value), to) == target
    ensures KeptByNewShard(target, to, row)
  {
    hide JumpHash.Hash, FromLittleEndian;
  }

  /** The copy that fills a brand-new shard: every old primary is asked for its own rows that the new
      shard will own, and the streams are merged into one sorted file. The file holds exactly
      those rows, each with the primary it came from. Its keys are strictly increasing, as the file
      writer demands, exactly when no two primaries sent the same key; and they did not if a
      key determines its partition hash. */
  method CopyToNewShard(primaries: seq<seq<Row>>, target: nat, to: nat, batchSize: nat) returns (sst: seq<Item>)
    requires batchSize > 0
    requires forall i :: 0 <= i < |primaries| ==> Ascending(primaries[i]) && WellFormed(primaries[i])
    ensures multiset(sst) == Tagged(Sent(primaries, target, to)) && SortedItems(sst)
    ensures forall x :: x in sst <==>
              && x.chan < |primaries| && x.row in primaries[x.chan]
              && !HasPrefix(x.row.key, INTERNAL_PREFIX) && |x.row.value| >= 8
              && JumpHash.Hash(PartitionHashFromBytes(x.row.value), |primaries|) == x.chan
              && (to > 0 ==> JumpHash.Hash(PartitionHashFromBytes(x.row.value), to) == target)
    ensures to > 0 ==> forall x | x in sst :: KeptByNewShard(target, to, x.row)
    ensures StrictlyUp(sst) <==> OneSourcePerKey(Sent(primaries, target, to))
    ensures HashByKey(primaries) ==> StrictlyUp(sst)
  {
    hide Less, Tagged, Wanted, Kept, HashByKey, OneSourcePerKey, StrictlyUp, WellFormed, Ascending, JumpHash.Hash;
    hide HasPrefix, PartitionHashFromBytes, KeptByNewShard;
    var n := |primaries|;
    ghost var sent := Sent(primaries, target, to);
    var chans: seq<Chan> := [];
    var i := 0;
    while i < n
      invariant i == |chans| <= n
      invariant forall k :: 0 <= k < i ==> chans[k] == Chan(sent[k])
    {
      var messages, ok := BootstrapCopy(RequestTo(i, n, target, to), primaries[i], batchSize, 0, _ => true);
      chans := chans + [Chan(Join(messages))];
      i := i + 1;
    }
    assert Contents(chans) == sent;
    SentAscending(primaries, target, to);
    var counter, ok;
    sst, counter, ok := MergeSorted(chans, 0, (k, row) => true);
    forall x
      ensures x in sst <==>
              && x.chan < |primaries| && x.row in primaries[x.chan]
              && !HasPrefix(x.row.key, INTERNAL_PREFIX) && |x.row.value| >= 8
              && JumpHash.Hash(PartitionHashFromBytes(x.row.value), |primaries|) == x.chan
              && (to > 0 ==> JumpHash.Hash(PartitionHashFromBytes(x.row.value), to) == target)
    {
      assert x in sst <==> x in multiset(sst);
      TaggedMember(sent, x);
      if x.chan < n {
        KeptExactly(RequestTo(x.chan, n, target, to), primaries[x.chan], x.row);
      }
    }
    if to > 0 {
      forall x | x in sst
        ensures KeptByNewShard(target, to, x.row)
      {
        OwnedIsKept(target, to, x.row);
      }
    }
    StrictIffOneSource(sst, sent);
    if HashByKey(primaries) {
      HashByKeyGivesOneSource(primaries, target, to);
    }
  }

  lemma SentAscending(primaries: seq<seq<Row>>, target: nat, to: nat)
    requires forall i :: 0 <= i < |primaries| ==> Ascending(primaries[i])
    ensures forall i :: 0 <= i < |primaries| ==> Ascending(Sent(primaries, target, to)[i])
    ensures SortedEach(Sent(primaries, target, to))
  {
    hide Less, Kept, Ascending, SortedRows;
    forall i | 0 <= i < |primaries|
      ensures Ascending(Sent(primaries, target, to)[i]) && SortedRows(Sent(primaries, target, to)[i])
    {
      KeptAscending(RequestTo(i, |primaries|, target, to), primaries[i]);
      AscendingIsSorted(Sent(primaries, target, to)[i]);
    }
  }

  lemma AscendingIsSorted(rows: seq<Row>)
    requires Ascending(rows)
    ensures SortedRows(rows)
  {
    hide Less;
    forall i, j | 0 <= i < j < |rows|
      ensures Leq(rows[i].key, rows[j].key)
    {
      LessAsymmetric(rows[i].key, rows[j].key);
    }
  }
}
