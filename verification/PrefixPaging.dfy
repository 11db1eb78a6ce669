/** Prefix queries: the scan of one shard, the merge over all shards, and paging by last key. */
module PrefixPaging {
  import opened Bytes
  import opened Codec
  import opened MergeHeap
  import opened KWayMerge
  import opened GrowCopy

  /** A row that a query for `prefix` after `last` should return; no last key means from the start. */
  predicate Matches(prefix: ByteString, last: ByteString, row: Row) {
    HasPrefix(row.key, prefix) && (last == [] || Less(last, row.key))
  }

  function Matching(rows: seq<Row>, prefix: ByteString, last: ByteString): seq<Row> {
    if rows == [] then []
    else
      var n := |rows| - 1;
      Matching(rows[..n], prefix, last) + if Matches(prefix, last, rows[n]) then [rows[n]] else []
  }

  function Take(rows: seq<Row>, limit: int): seq<Row> {
    if limit <= 0 then [] else if |rows| <= limit then rows else rows[..limit]
  }

  lemma {:induction false} MatchingMember(rows: seq<Row>, prefix: ByteString, last: ByteString, row: Row)
    ensures row in Matching(rows, prefix, last) <==> row in rows && Matches(prefix, last, row)
    decreases |rows|
  {
    hide Matches;
    if rows != [] {
      var n := |rows| - 1;
      MatchingMember(rows[..n], prefix, last, row);
      assert rows == rows[..n] + [rows[n]];
    }
  }

  lemma {:induction false} MatchingAscending(rows: seq<Row>, prefix: ByteString, last: ByteString)
    requires Ascending(rows)
    ensures Ascending(Matching(rows, prefix, last))
    decreases |rows|
  {
    hide Matches, Less;
    if rows != [] {
      var n := |rows| - 1;
      var init := rows[..n];
      MatchingAscending(init, prefix, last);
      var sofar := Matching(init, prefix, last);
      forall i | 0 <= i < |sofar|
        ensures Less(sofar[i].key, rows[n].key)
      {
        MatchingMember(init, prefix, last, sofar[i]);
        var k :| 0 <= k < |init| && init[k] == sofar[i];
        assert Less(rows[k].key, rows[n].key);
      }
    }
  }

  // ---- ascending sequences are determined by their members -------------------------------------

  /** A selection that leaves out only larger rows. */
  ghost predicate SelectsLeast(part: seq<Row>, whole: seq<Row>) {
    && (forall r :: r in part ==> r in whole)
    && (forall a, b :: a in part && b in whole && b !in part ==> Less(a.key, b.key))
  }

  lemma SameFirst(part: seq<Row>, whole: seq<Row>)
    requires Ascending(part) && Ascending(whole) && SelectsLeast(part, whole) && part != []
    ensures whole != [] && part[0] == whole[0]
  {
    hide Less;
    assert part[0] in part;
    var j :| 0 <= j < |whole| && whole[j] == part[0];
    if j > 0 {
      assert Less(whole[0].key, part[0].key);
      LessAsymmetric(whole[0].key, part[0].key);
    }
  }

  /** Such a selection, ascending, from an ascending whole is a prefix of it. */
  lemma {:induction false} SelectionIsPrefix(part: seq<Row>, whole: seq<Row>)
    requires Ascending(part) && Ascending(whole) && SelectsLeast(part, whole)
    ensures |part| <= |whole| && part == whole[..|part|]
    decreases |whole|
  {
    hide Less, Ascending;
    if part != [] {
      SameFirst(part, whole);
      TailOfAscending(part);
      TailOfAscending(whole);
      SelectionIsPrefix(part[1..], whole[1..]);
      assert part == [part[0]] + part[1..] && whole == [whole[0]] + whole[1..];
    }
  }

  lemma TailOfAscending(rows: seq<Row>)
    requires Ascending(rows) && rows != []
    ensures Ascending(rows[1..])
    ensures forall r :: r in rows[1..] <==> r in rows && r != rows[0]
  {
    hide Less;
    LessIrreflexive(rows[0].key);
    assert rows == [rows[0]] + rows[1..];
    forall r | r in rows[1..]
      ensures r != rows[0]
    {
      var i :| 0 <= i < |rows[1..]| && rows[1..][i] == r;
      assert Less(rows[0].key, rows[i + 1].key);
    }
  }

  // ---- one shard ---------------------------------------------------------------------------------

  /** Seek: the first row not before `key`. */
  method Seek(rows: seq<Row>, key: ByteString) returns (at: nat)
    requires Ascending(rows)
    ensures at <= |rows|
    ensures forall i :: 0 <= i < at ==> Less(rows[i].key, key)
    ensures forall i :: at <= i < |rows| ==> Leq(key, rows[i].key)
  {
    hide Less;
    at := 0;
    while at < |rows| && Less(rows[at].key, key)
      invariant at <= |rows|
      invariant forall i :: 0 <= i < at ==> Less(rows[i].key, key)
    {
      at := at + 1;
    }
    forall i | at <= i < |rows|
      ensures Leq(key, rows[i].key)
    {
      LessLeqTransitive(key, rows[at].key, rows[i].key);
      if i > at {
        LessAsymmetric(rows[at].key, rows[i].key);
        LeqTransitive(key, rows[at].key, rows[i].key);
      }
    }
  }

  /** The iterator's place before the first row is delivered. */
  ghost predicate StartsAt(rows: seq<Row>, prefix: ByteString, last: ByteString, start: nat) {
    && start <= |rows|
    && (forall i :: 0 <= i < start ==> if last == [] then Less(rows[i].key, prefix) else Leq(rows[i].key, last))
    && (forall i :: start <= i < |rows| ==> if last == [] then Leq(prefix, rows[i].key) else Less(last, rows[i].key))
  }

  method SeekStart(rows: seq<Row>, prefix: ByteString, last: ByteString) returns (at: nat)
    requires Ascending(rows)
    ensures StartsAt(rows, prefix, last, at)
  {
    hide Less;
    if |last| == 0 {
      at := Seek(rows, prefix);
    } else {
      at := Seek(rows, last);
      LessIrreflexive(last);
      ghost var found := at;
      if at < |rows| && rows[at].key == last {
        at := at + 1;
      }
      forall i | 0 <= i < at
        ensures Leq(rows[i].key, last)
      {
        if i < found {
          LessAsymmetric(rows[i].key, last);
        }
      }
      forall i | at <= i < |rows|
        ensures Less(last, rows[i].key)
      {
        LessTotal(last, rows[i].key);
        if found < i {
          LessIrreflexive(rows[i].key);
          assert Less(rows[found].key, rows[i].key);
          LessLeqTransitive(last, rows[found].key, rows[i].key);
        }
      }
    }
  }

  /** enumerate: the unbroken run of rows with the prefix from the starting place on, cut at a
      positive limit. */
  method Enumerate(rows: seq<Row>, prefix: ByteString, last: ByteString, limit: int)
    returns (out: seq<Row>, ghost start: nat)
    requires Ascending(rows)
    ensures StartsAt(rows, prefix, last, start)
    ensures start + |out| <= |rows| && out == rows[start..start + |out|]
    ensures forall r :: r in out ==> HasPrefix(r.key, prefix)
    ensures limit > 0 ==> |out| <= limit
    ensures (limit > 0 && |out| == limit) || start + |out| == |rows| || !HasPrefix(rows[start + |out|].key, prefix)
  {
    hide Less;
    var at := SeekStart(rows, prefix, last);
    start := at;
    out := [];
    var i := 0;
    while at < |rows|
      invariant start <= at <= |rows| && out == rows[start..at] && i == (if limit > 0 then |out| else 0)
      invariant forall r :: r in out ==> HasPrefix(r.key, prefix)
      invariant limit > 0 ==> |out| <= limit
    {
      if limit > 0 {
        i := i + 1;
        if i > limit {
          break;
        }
      }
      if !HasPrefix(rows[at].key, prefix) {
        break;
      }
      assert rows[start..at + 1] == rows[start..at] + [rows[at]];
      out := out + [rows[at]];
      at := at + 1;
    }
  }

  /** For a last key that a former page can have returned, the scan is the plain filter, cut at
      the limit. */
  lemma RunIsMatching(rows: seq<Row>, prefix: ByteString, last: ByteString, limit: int, out: seq<Row>, start: nat)
    requires Ascending(rows) && limit > 0 && (last == [] || HasPrefix(last, prefix))
    requires StartsAt(rows, prefix, last, start)
    requires start + |out| <= |rows| && out == rows[start..start + |out|] && |out| <= limit
    requires forall r :: r in out ==> HasPrefix(r.key, prefix)
    requires |out| == limit || start + |out| == |rows| || !HasPrefix(rows[start + |out|].key, prefix)
    ensures out == Take(Matching(rows, prefix, last), limit)
  {
    hide Less, Matching, Ascending, HasPrefix;
    var m := Matching(rows, prefix, last);
    MatchingAscending(rows, prefix, last);
    SliceAscending(rows, start, start + |out|);
    forall r | r in out
      ensures r in m
    {
      var i :| 0 <= i < |out| && out[i] == r;
      assert rows[start + i] == r;
      MatchingMember(rows, prefix, last, r);
    }
    forall a, b | a in out && b in m && b !in out
      ensures Less(a.key, b.key)
    {
      OthersComeAfter(rows, prefix, last, out, start, a, b);
    }
    SelectionIsPrefix(out, m);
    if |out| < limit {
      forall b | b in m
        ensures b in out
      {
        NothingPastTheRun(rows, prefix, last, out, start, b);
      }
      AllSelected(out, m);
    }
  }

  lemma SliceMember(rows: seq<Row>, i: nat, j: nat, k: nat)
    requires i <= k < j <= |rows|
    ensures rows[k] in rows[i..j]
  {
    assert rows[i..j][k - i] == rows[k];
  }

  lemma SliceAscending(rows: seq<Row>, i: nat, j: nat)
    requires Ascending(rows) && i <= j <= |rows|
    ensures Ascending(rows[i..j])
  {
    hide Less;
  }

  /** A prefix that holds every member is the whole. */
  lemma AllSelected(part: seq<Row>, whole: seq<Row>)
    requires Ascending(whole) && |part| <= |whole| && part == whole[..|part|]
    requires forall b :: b in whole ==> b in part
    ensures part == whole
  {
    hide Less;
    if |part| < |whole| {
      var b := whole[|part|];
      assert b in whole;
      var i :| 0 <= i < |part| && part[i] == b;
      assert Less(whole[i].key, whole[|part|].key);
      LessIrreflexive(b.key);
    }
  }

  lemma MatchingIndex(rows: seq<Row>, prefix: ByteString, last: ByteString, start: nat, b: Row) returns (k: nat)
    requires Ascending(rows) && StartsAt(rows, prefix, last, start) && b in Matching(rows, prefix, last)
    ensures start <= k < |rows| && rows[k] == b && HasPrefix(b.key, prefix)
  {
    hide Less, Matching, Ascending, HasPrefix;
    MatchingMember(rows, prefix, last, b);
    k :| 0 <= k < |rows| && rows[k] == b;
    if k < start && last == [] {
      PrefixIsLeast(prefix, b.key);
    }
  }

  lemma OthersComeAfter(rows: seq<Row>, prefix: ByteString, last: ByteString, out: seq<Row>, start: nat, a: Row, b: Row)
    requires Ascending(rows) && StartsAt(rows, prefix, last, start)
    requires start + |out| <= |rows| && out == rows[start..start + |out|]
    requires a in out && b in Matching(rows, prefix, last) && b !in out
    ensures Less(a.key, b.key)
  {
    hide Less, Matching, HasPrefix, StartsAt;
    var i :| 0 <= i < |out| && out[i] == a;
    var k := MatchingIndex(rows, prefix, last, start, b);
    assert rows[start + i] == a;
    if k < start + |out| {
      SliceMember(rows, start, start + |out|, k);
    }
  }

  lemma NothingPastTheRun(rows: seq<Row>, prefix: ByteString, last: ByteString, out: seq<Row>, start: nat, b: Row)
    requires Ascending(rows) && StartsAt(rows, prefix, last, start) && (last == [] || HasPrefix(last, prefix))
    requires start + |out| <= |rows| && out == rows[start..start + |out|]
    requires start + |out| == |rows| || !HasPrefix(rows[start + |out|].key, prefix)
    requires b in Matching(rows, prefix, last)
    ensures b in out
  {
    hide Less, Matching, HasPrefix;
    var k := MatchingIndex(rows, prefix, last, start, b);
    var stop := start + |out|;
    if k < stop {
      assert out[k - start] == b;
    } else {
      var mid := rows[stop].key;
      if last != [] {
        PrefixIsLeast(prefix, last);
        LessAsymmetric(last, mid);
        LeqTransitive(prefix, last, mid);
      }
      if stop < k {
        LessAsymmetric(mid, b.key);
      } else {
        LessIrreflexive(mid);
      }
      PrefixRangeConvex(prefix, mid, b.key);
    }
  }

  /** The rows that have not expired. */
  function Live(rows: seq<Row>, nowNs: U64): seq<Row> {
    if rows == [] then []
    else
      var rest, d := Live(rows[..|rows| - 1], nowNs), FromBytes(rows[|rows| - 1].value);
      if d.Accepted? && !IsExpired(d.entry, nowNs) then rest + [rows[|rows| - 1]] else rest
  }

  lemma {:induction false} LiveMember(rows: seq<Row>, nowNs: U64, r: Row)
    ensures r in Live(rows, nowNs) <==>
            r in rows && FromBytes(r.value).Accepted? && !IsExpired(FromBytes(r.value).entry, nowNs)
    decreases |rows|
  {
    hide IsExpired, FromBytes;
    if rows != [] {
      var n := |rows| - 1;
      LiveMember(rows[..n], nowNs, r);
      assert rows == rows[..n] + [rows[n]];
    }
  }

  /** The row decodes and has not expired. */
  ghost predicate IsLive(r: Row, nowNs: U64) {
    FromBytes(r.value).Accepted? && !IsExpired(FromBytes(r.value).entry, nowNs)
  }

  ghost predicate AllDecode(rows: seq<Row>) {
    forall r | r in rows :: FromBytes(r.value).Accepted?
  }

  /** Every row decodes and has not expired. */
  ghost predicate AllLive(rows: seq<Row>, nowNs: U64) {
    AllDecode(rows) && forall r | r in rows :: !IsExpired(FromBytes(r.value).entry, nowNs)
  }

  lemma {:induction false} LiveAscending(rows: seq<Row>, nowNs: U64)
    requires Ascending(rows)
    ensures Ascending(Live(rows, nowNs)) && forall r :: r in Live(rows, nowNs) ==> r in rows
    decreases |rows|
  {
    hide Less, IsExpired, FromBytes;
    if rows != [] {
      var n := |rows| - 1;
      var init := rows[..n];
      LiveAscending(init, nowNs);
      var rest := Live(init, nowNs);
      forall i | 0 <= i < |rest|
        ensures Less(rest[i].key, rows[n].key)
      {
        assert rest[i] in init;
        var k :| 0 <= k < |init| && init[k] == rest[i];
        assert Less(rows[k].key, rows[n].key);
      }
    }
  }

  /** Where every row is live, the answer is the scan itself. */
  lemma {:induction false} LiveIsAll(rows: seq<Row>, nowNs: U64)
    requires AllLive(rows, nowNs)
    ensures Live(rows, nowNs) == rows
    decreases |rows|
  {
    hide IsExpired, FromBytes;
    if rows != [] {
      var n := |rows| - 1;
      assert rows == rows[..n] + [rows[n]];
      LiveIsAll(rows[..n], nowNs);
    }
  }

  /** processPrefix, the shard's side of a query. It decodes every scanned row and panics exactly when
      one does not decode: a row with an empty value, or one of the store's own. Otherwise it answers
      with the live ones; expired rows still take their place in the limit. */
  method ProcessPrefix(rows: seq<Row>, prefix: ByteString, last: ByteString, limit: int, nowNs: U64)
    returns (ok: bool, out: seq<Row>)
    requires Ascending(rows)
    ensures Ascending(out) && forall r :: r in out ==> r in rows && HasPrefix(r.key, prefix)
    ensures limit > 0 && (last == [] || HasPrefix(last, prefix)) ==>
              var page := Take(Matching(rows, prefix, last), limit);
              && (ok <==> AllDecode(page))
              && out == (if ok then Live(page, nowNs) else [])
              && (ok ==> forall r :: r in out <==> r in page && !IsExpired(FromBytes(r.value).entry, nowNs))
    ensures forall r | r in out :: FromBytes(r.value).Accepted? && !IsExpired(FromBytes(r.value).entry, nowNs)
    ensures (forall r | r in rows && HasPrefix(r.key, prefix) :: FromBytes(r.value).Accepted?) ==> ok
  {
    hide Less, Matching, Take, IsExpired, FromBytes;
    var scanned, start := Enumerate(rows, prefix, last, limit);
    SliceAscending(rows, start, start + |scanned|);
    LiveAscending(scanned, nowNs);
    if limit > 0 && (last == [] || HasPrefix(last, prefix)) {
      RunIsMatching(rows, prefix, last, limit, scanned, start);
    }
    ok, out := true, [];
    var i := 0;
    while i < |scanned|
      invariant i <= |scanned| && AllDecode(scanned[..i]) && out == Live(scanned[..i], nowNs)
    {
      assert scanned[..i + 1] == scanned[..i] + [scanned[i]];
      assert scanned[..i + 1][..i] == scanned[..i];
      var d := FromBytes(scanned[i].value);
      if d.Rejected? {
        assert scanned[i] in scanned && scanned[i] in rows;
        return false, [];
      }
      if !IsExpired(d.entry, nowNs) {
        out := out + [scanned[i]];
      }
      i := i + 1;
    }
    assert scanned[..i] == scanned;
    forall r
      ensures r in out <==> r in scanned && FromBytes(r.value).Accepted? && !IsExpired(FromBytes(r.value).entry, nowNs)
    {
      LiveMember(scanned, nowNs, r);
    }
  }

  // ---- all shards --------------------------------------------------------------------------------

  function RowsOf(items: seq<Item>): (r: seq<Row>)
    ensures |r| == |items|
  {
    seq(|items|, i requires 0 <= i < |items| => items[i].row)
  }

  lemma RowsOfMember(items: seq<Item>, x: Item)
    requires x in items
    ensures x.row in RowsOf(items)
  {
    var k :| 0 <= k < |items| && items[k] == x;
    assert RowsOf(items)[k] == x.row;
  }

  /** All shards' rows as one ascending sequence. */
  ghost predicate IsUnion(g: seq<Row>, shards: seq<seq<Row>>) {
    Ascending(g) && forall r :: r in g <==> exists i :: 0 <= i < |shards| && r in shards[i]
  }

  /** Each shard's answer: its first `limit` matching rows. */
  ghost predicate Answers(outs: seq<seq<Row>>, shards: seq<seq<Row>>, prefix: ByteString, last: ByteString,
                          limit: int) {
    && |outs| >= |shards|
    && (forall i :: 0 <= i < |shards| ==> outs[i] == Take(Matching(shards[i], prefix, last), limit))
    && (forall i :: |shards| <= i < |outs| ==> outs[i] == [])
  }

  ghost predicate EachAscending(shards: seq<seq<Row>>) {
    forall i :: 0 <= i < |shards| ==> Ascending(shards[i])
  }

  lemma AnswerMember(outs: seq<seq<Row>>, shards: seq<seq<Row>>, prefix: ByteString, last: ByteString, limit: int,
                     i: nat, r: Row)
    requires Answers(outs, shards, prefix, last, limit) && i < |outs| && r in outs[i]
    ensures i < |shards| && r in shards[i] && Matches(prefix, last, r)
  {
    hide Less, Matching, Matches;
    assert r in Matching(shards[i], prefix, last);
    MatchingMember(shards[i], prefix, last, r);
  }

  lemma AnswersAscending(outs: seq<seq<Row>>, shards: seq<seq<Row>>, prefix: ByteString, last: ByteString, limit: int)
    requires Answers(outs, shards, prefix, last, limit) && EachAscending(shards) && OneSourcePerKey(shards)
    ensures EachAscending(outs) && SortedEach(outs) && OneSourcePerKey(outs)
  {
    hide Less, Matching, Matches;
    forall i | 0 <= i < |outs|
      ensures Ascending(outs[i]) && SortedRows(outs[i])
    {
      if i < |shards| {
        MatchingAscending(shards[i], prefix, last);
        var m := Matching(shards[i], prefix, last);
        SliceAscending(m, 0, if |m| <= limit then |m| else if limit <= 0 then 0 else limit);
      }
      AscendingIsSorted(outs[i]);
    }
    forall i, j, a, b | 0 <= i < |outs| && 0 <= j < |outs| && a in outs[i] && b in outs[j]
      ensures i != j ==> a.key != b.key
    {
      AnswerMember(outs, shards, prefix, last, limit, i, a);
      AnswerMember(outs, shards, prefix, last, limit, j, b);
    }
  }

  lemma ResultsAscending(results: seq<Item>, outs: seq<seq<Row>>)
    requires InOrder(results, Tagged(outs)) && EachAscending(outs) && OneSourcePerKey(outs)
    ensures Ascending(RowsOf(results))
  {
    hide Less, Tagged, AllAbove, OneSourcePerKey;
    forall i, j | 0 <= i < j < |results|
      ensures Less(results[i].row.key, results[j].row.key)
    {
      NoRepeat(results, outs, i, j);
      assert Above(results[i], results[j]);
      LessTotal(results[i].row.key, results[j].row.key);
    }
  }

  lemma ResultMember(results: seq<Item>, outs: seq<seq<Row>>, r: Row) returns (x: Item)
    requires InOrder(results, Tagged(outs)) && r in RowsOf(results)
    ensures x in results && x.row == r && x.chan < |outs| && r in outs[x.chan]
  {
    hide Less, Tagged, AllAbove, SortedItems;
    var i :| 0 <= i < |results| && RowsOf(results)[i] == r;
    x := results[i];
    assert x in multiset(results);
    TaggedMember(outs, x);
  }

  ghost function Members(rows: seq<Row>): set<Row> {
    set r | r in rows
  }

  lemma {:induction false} MembersCount(rows: seq<Row>)
    requires Ascending(rows)
    ensures |Members(rows)| == |rows|
    decreases |rows|
  {
    hide Less;
    if rows != [] {
      TailOfAscending(rows);
      MembersCount(rows[1..]);
      assert Members(rows) == Members(rows[1..]) + {rows[0]};
    }
  }

  /** A selection as large as the whole is the whole. */
  lemma FullSelection(part: seq<Row>, whole: seq<Row>, r: Row)
    requires Ascending(part) && Ascending(whole) && |whole| <= |part| && r in whole
    requires forall y :: y in part ==> y in whole
    ensures r in part
  {
    hide Less, Ascending;
    MembersCount(part);
    MembersCount(whole);
    assert Members(part) <= Members(whole);
    SubsetOfSameSize(Members(part), Members(whole));
    assert r in Members(whole);
  }

  lemma SubsetOfSameSize(a: set<Row>, b: set<Row>)
    requires a <= b && |b| <= |a|
    ensures a == b
  {
    assert b == a + (b - a);
    assert |b| == |a| + |b - a|;
  }

  lemma SmallerSelection(part: seq<Row>, whole: seq<Row>)
    requires Ascending(part) && Ascending(whole)
    requires forall y :: y in part ==> y in whole
    ensures |part| <= |whole|
  {
    hide Less, Ascending;
    MembersCount(part);
    MembersCount(whole);
    assert Members(part) <= Members(whole);
    assert Members(whole) == Members(part) + (Members(whole) - Members(part));
  }

  /** A shard answer that was offered but not returned is not smaller than what was returned. */
  lemma OfferedIsAbove(results: seq<Item>, outs: seq<seq<Row>>, a: Row, i: nat, b: Row)
    requires InOrder(results, Tagged(outs)) && a in RowsOf(results)
    requires i < |outs| && b in outs[i] && b !in RowsOf(results)
    ensures Leq(a.key, b.key)
  {
    hide Less, Tagged, SortedItems;
    var x := ResultMember(results, outs, a);
    var y := Item(b, i);
    TaggedMember(outs, y);
    if y in results {
      RowsOfMember(results, y);
    }
    assert y !in multiset(results);
    assert y in Tagged(outs) - multiset(results);
  }

  lemma OthersComeLater(results: seq<Item>, outs: seq<seq<Row>>, shards: seq<seq<Row>>,
                        prefix: ByteString, last: ByteString, limit: int, a: Row, i: nat, b: Row)
    requires Answers(outs, shards, prefix, last, limit) && limit > 0 && |results| <= limit
    requires EachAscending(shards) && EachAscending(outs) && Ascending(RowsOf(results))
    requires InOrder(results, Tagged(outs)) && a in RowsOf(results)
    requires i < |shards| && b in Matching(shards[i], prefix, last) && b !in RowsOf(results)
    ensures Leq(a.key, b.key)
  {
    hide Less, Tagged, InOrder, Matching;
    var m, rows := Matching(shards[i], prefix, last), RowsOf(results);
    if b in outs[i] {
      OfferedIsAbove(results, outs, a, i, b);
    } else {
      MatchingAscending(shards[i], prefix, last);
      if forall y :: y in outs[i] ==> y in rows {
        FullSelection(outs[i], rows, a);
        CutComesFirst(m, limit, a, b);
        LessAsymmetric(a.key, b.key);
      } else {
        var y :| y in outs[i] && y !in rows;
        OfferedIsAbove(results, outs, a, i, y);
        CutComesFirst(m, limit, y, b);
        LessLeqTransitive(a.key, y.key, b.key);
        LessAsymmetric(a.key, b.key);
      }
    }
  }

  lemma CutComesFirst(m: seq<Row>, limit: int, a: Row, b: Row)
    requires Ascending(m) && a in Take(m, limit) && b in m && b !in Take(m, limit)
    ensures Less(a.key, b.key)
  {
    hide Less;
    var i :| 0 <= i < |Take(m, limit)| && Take(m, limit)[i] == a;
    var j :| 0 <= j < |m| && m[j] == b;
    assert m[i] == a;
  }

  lemma UnionMatching(g: seq<Row>, shards: seq<seq<Row>>, prefix: ByteString, last: ByteString, b: Row) returns (i: nat)
    requires IsUnion(g, shards) && b in Matching(g, prefix, last)
    ensures i < |shards| && b in Matching(shards[i], prefix, last)
  {
    hide Less, Matching, Matches;
    MatchingMember(g, prefix, last, b);
    i :| 0 <= i < |shards| && b in shards[i];
    MatchingMember(shards[i], prefix, last, b);
  }

  lemma DifferentKeys(m: seq<Row>, a: Row, b: Row)
    requires Ascending(m) && a in m && b in m && a != b && Leq(a.key, b.key)
    ensures Less(a.key, b.key)
  {
    hide Less;
    var i :| 0 <= i < |m| && m[i] == a;
    var j :| 0 <= j < |m| && m[j] == b;
  }

  /** Pushing the limit down to every shard and merging with the same limit loses nothing: the
      result is the page that one big sorted store would have given. */
  lemma PageOfUnion(g: seq<Row>, shards: seq<seq<Row>>, outs: seq<seq<Row>>, results: seq<Item>,
                    prefix: ByteString, last: ByteString, limit: int)
    requires IsUnion(g, shards) && EachAscending(shards) && OneSourcePerKey(shards) && limit > 0
    requires Answers(outs, shards, prefix, last, limit)
    requires InOrder(results, Tagged(outs))
    requires |results| == if |Tagged(outs)| < limit then |Tagged(outs)| else limit
    ensures RowsOf(results) == Take(Matching(g, prefix, last), limit)
  {
    hide Less, Tagged, InOrder, Matching, Matches, OneSourcePerKey, Answers, EachAscending;
    var rows, m := RowsOf(results), Matching(g, prefix, last);
    AnswersAscending(outs, shards, prefix, last, limit);
    ResultsAscending(results, outs);
    MatchingAscending(g, prefix, last);
    forall r | r in rows
      ensures r in m
    {
      var x := ResultMember(results, outs, r);
      AnswerMember(outs, shards, prefix, last, limit, x.chan, r);
      MatchingMember(g, prefix, last, r);
    }
    forall a, b | a in rows && b in m && b !in rows
      ensures Less(a.key, b.key)
    {
      var i := UnionMatching(g, shards, prefix, last, b);
      OthersComeLater(results, outs, shards, prefix, last, limit, a, i, b);
      DifferentKeys(m, a, b);
    }
    SelectionIsPrefix(rows, m);
    if |results| < limit {
      forall b | b in m
        ensures b in rows
      {
        var i := UnionMatching(g, shards, prefix, last, b);
        EverythingReturned(results, outs, shards, prefix, last, limit, i, b);
      }
      AllSelected(rows, m);
    }
  }

  lemma EverythingReturned(results: seq<Item>, outs: seq<seq<Row>>, shards: seq<seq<Row>>,
                           prefix: ByteString, last: ByteString, limit: int, i: nat, b: Row)
    requires Answers(outs, shards, prefix, last, limit) && limit > 0 && EachAscending(outs)
    requires InOrder(results, Tagged(outs)) && Ascending(RowsOf(results))
    requires |results| == |Tagged(outs)| < limit
    requires i < |shards| && b in Matching(shards[i], prefix, last)
    ensures b in RowsOf(results)
  {
    hide Less, Tagged, Matching;
    assert multiset(results) == Tagged(outs) by {
      assert Tagged(outs) == multiset(results) + (Tagged(outs) - multiset(results));
    }
    forall y | y in outs[i]
      ensures y in RowsOf(results)
    {
      TaggedMember(outs, Item(y, i));
      assert Item(y, i) in multiset(results);
      RowsOfMember(results, Item(y, i));
    }
    SmallerSelection(outs[i], RowsOf(results));
  }

  /** Every row with the prefix, on every shard, is live. */
  ghost predicate AllShardsLive(shards: seq<seq<Row>>, prefix: ByteString, nowNs: U64) {
    forall i, r | 0 <= i < |shards| && r in shards[i] && HasPrefix(r.key, prefix) :: AllLive([r], nowNs)
  }

  lemma LivePage(shards: seq<seq<Row>>, i: nat, prefix: ByteString, last: ByteString, limit: int, nowNs: U64)
    requires AllShardsLive(shards, prefix, nowNs) && i < |shards|
    ensures forall r | r in shards[i] && HasPrefix(r.key, prefix) :: FromBytes(r.value).Accepted?
    ensures var page := Take(Matching(shards[i], prefix, last), limit); Live(page, nowNs) == page
  {
    hide IsExpired, FromBytes, Matching, HasPrefix;
    forall r | r in shards[i] && HasPrefix(r.key, prefix)
      ensures FromBytes(r.value).Accepted? && !IsExpired(FromBytes(r.value).entry, nowNs)
    {
      assert AllLive([r], nowNs) && r in [r];
    }
    var page := Take(Matching(shards[i], prefix, last), limit);
    forall r | r in page
      ensures r in shards[i] && HasPrefix(r.key, prefix)
    {
      assert r in Matching(shards[i], prefix, last);
      MatchingMember(shards[i], prefix, last, r);
    }
    LiveIsAll(page, nowNs);
  }

  lemma ResultWasSent(results: seq<Item>, outs: seq<seq<Row>>, x: Item)
    requires InOrder(results, Tagged(outs)) && x in results
    ensures x.chan < |outs| && x.row in outs[x.chan]
  {
    hide Tagged, SortedItems, AllAbove;
    assert x in multiset(results) && x in Tagged(outs);
    TaggedMember(outs, x);
  }

  /** CollectByPrefix: ask every shard for a page, then merge. A shard that panics gives nothing and makes
      the call report an error. Where every row is live, the result is the page of the union. */
  method CollectByPrefix(shards: seq<seq<Row>>, prefix: ByteString, limit: nat, last: ByteString, nowNs: U64)
    returns (results: seq<Item>, ok: bool)
    requires EachAscending(shards)
    ensures limit == 0 ==> results == []
    ensures forall x | x in results ::
              FromBytes(x.row.value).Accepted? && !IsExpired(FromBytes(x.row.value).entry, nowNs)
    ensures limit > 0 && (last == [] || HasPrefix(last, prefix)) ==>
              (ok <==> forall i | 0 <= i < |shards| :: AllDecode(Take(Matching(shards[i], prefix, last), limit)))
    ensures AllShardsLive(shards, prefix, nowNs) ==> ok
    ensures AllShardsLive(shards, prefix, nowNs) && limit > 0 && OneSourcePerKey(shards)
            && (last == [] || HasPrefix(last, prefix)) ==>
              forall g :: IsUnion(g, shards) ==> RowsOf(results) == Take(Matching(g, prefix, last), limit)
  {
    hide Less, Tagged, Matching, Matches, OneSourcePerKey, IsUnion, Take, AllLive, AllDecode, Live, AllShardsLive;
    var n := |shards|;
    var outs: seq<seq<Row>> := [];
    var chans: seq<Chan> := [];
    ok := true;
    var i := 0;
    while i < 16 * n
      invariant 0 <= i == |outs| == |chans| <= 16 * n
      invariant forall k :: 0 <= k < i ==> Ascending(outs[k])
      invariant forall k :: 0 <= k < i ==>
                  if k < n then chans[k] == Chan(outs[k]) else chans[k] == NilChan && outs[k] == []
      invariant limit > 0 && (last == [] || HasPrefix(last, prefix)) ==>
                  (ok <==> forall k | 0 <= k < n && k < i :: AllDecode(Take(Matching(shards[k], prefix, last), limit)))
      invariant forall k, r | 0 <= k < i && r in outs[k] :: IsLive(r, nowNs)
      invariant AllShardsLive(shards, prefix, nowNs) ==> ok
      invariant AllShardsLive(shards, prefix, nowNs) && limit > 0 && (last == [] || HasPrefix(last, prefix)) ==>
                  forall k :: 0 <= k < i && k < n ==> outs[k] == Take(Matching(shards[k], prefix, last), limit)
    {
      if i < n {
        var answered, out := ProcessPrefix(shards[i], prefix, last, limit, nowNs);
        if AllShardsLive(shards, prefix, nowNs) {
          LivePage(shards, i, prefix, last, limit, nowNs);
        }
        ok := ok && answered;
        outs, chans := outs + [out], chans + [Chan(out)];
      } else {
        outs, chans := outs + [[]], chans + [NilChan];
      }
      i := i + 1;
    }
    assert Contents(chans) == outs;
    EachSorted(outs);
    results := LimitedMergeSorted(chans, limit);
    forall x | x in results
      ensures IsLive(x.row, nowNs)
    {
      ResultWasSent(results, outs, x);
    }
    if && AllShardsLive(shards, prefix, nowNs) && limit > 0 && OneSourcePerKey(shards)
       && (last == [] || HasPrefix(last, prefix)) {
      forall g | IsUnion(g, shards)
        ensures RowsOf(results) == Take(Matching(g, prefix, last), limit)
      {
        PageOfUnion(g, shards, outs, results, prefix, last, limit);
      }
    }
  }

  lemma EachSorted(outs: seq<seq<Row>>)
    requires EachAscending(outs)
    ensures SortedEach(outs)
  {
    hide Less;
    forall i | 0 <= i < |outs|
      ensures SortedRows(outs[i])
    {
      AscendingIsSorted(outs[i]);
    }
  }

  // ---- paging ------------------------------------------------------------------------------------

  /** The first `k` pages of a client that passes the last key it was given. */
  function FirstPages(g: seq<Row>, prefix: ByteString, limit: nat, k: nat): seq<Row> {
    if k == 0 then []
    else
      var seen := FirstPages(g, prefix, limit, k - 1);
      var last := if seen == [] then [] else seen[|seen| - 1].key;
      seen + Take(Matching(g, prefix, last), limit)
  }

  /** How many rows `k` full pages hold. */
  function PageCount(total: nat, limit: nat, k: nat): (n: nat)
    ensures n <= total
  {
    if k == 0 then 0
    else
      var n := PageCount(total, limit, k - 1);
      if total - n <= limit then total else n + limit
  }

  /** A row under the empty key, alone on a page: its key says "from the start" again. */
  ghost predicate Stuck(m: seq<Row>, limit: nat) {
    m != [] && m[0].key == [] && (limit == 1 || |m| == 1)
  }

  /** After the first `n` matching rows, the matching rows are the others. */
  lemma RestAfter(g: seq<Row>, prefix: ByteString, n: nat)
    requires Ascending(g) && 0 < n <= |Matching(g, prefix, [])| && Matching(g, prefix, [])[n - 1].key != []
    ensures Matching(g, prefix, Matching(g, prefix, [])[n - 1].key) == Matching(g, prefix, [])[n..]
  {
    hide Less, Matching;
    var all := Matching(g, prefix, []);
    var last := all[n - 1].key;
    var rest := Matching(g, prefix, last);
    MatchingAscending(g, prefix, []);
    MatchingAscending(g, prefix, last);
    SliceAscending(all, n, |all|);
    forall r
      ensures r in rest <==> r in all[n..]
    {
      MatchingMember(g, prefix, [], r);
      MatchingMember(g, prefix, last, r);
      AfterIndex(all, n, r);
    }
    SelectionIsPrefix(rest, all[n..]);
    AllSelected(rest, all[n..]);
  }

  lemma AfterIndex(all: seq<Row>, n: nat, r: Row)
    requires Ascending(all) && 0 < n <= |all|
    ensures r in all[n..] <==> r in all && Less(all[n - 1].key, r.key)
  {
    hide Less;
    if r in all && Less(all[n - 1].key, r.key) {
      var i :| 0 <= i < |all| && all[i] == r;
      LessIrreflexive(r.key);
      if i < n - 1 {
        LessAsymmetric(all[i].key, all[n - 1].key);
      }
      assert all[n..][i - n] == r;
    }
  }

  lemma OneMorePage(all: seq<Row>, n: nat, limit: nat)
    requires n <= |all| && limit > 0
    ensures all[..n] + Take(all[n..], limit) == all[..if |all| - n <= limit then |all| else n + limit]
  {
  }

  lemma {:induction false} PagesAre(g: seq<Row>, prefix: ByteString, limit: nat, k: nat)
    requires Ascending(g) && limit > 0 && !Stuck(Matching(g, prefix, []), limit)
    ensures FirstPages(g, prefix, limit, k) == Matching(g, prefix, [])[..PageCount(|Matching(g, prefix, [])|, limit, k)]
    decreases k
  {
    hide Less, Matching, Take, Stuck;
    if k > 0 {
      PagesAre(g, prefix, limit, k - 1);
      var all := Matching(g, prefix, []);
      var n := PageCount(|all|, limit, k - 1);
      OneMorePage(all, n, limit);
      if n > 0 {
        NotTheEmptyKey(g, prefix, limit, k - 1);
        RestAfter(g, prefix, n);
        assert all[..n][n - 1] == all[n - 1];
      } else {
        assert all[..0] == [] && all[0..] == all;
      }
    }
  }

  lemma NotTheEmptyKey(g: seq<Row>, prefix: ByteString, limit: nat, k: nat)
    requires Ascending(g) && limit > 0 && !Stuck(Matching(g, prefix, []), limit)
    requires PageCount(|Matching(g, prefix, [])|, limit, k) > 0
    ensures Matching(g, prefix, [])[PageCount(|Matching(g, prefix, [])|, limit, k) - 1].key != []
  {
    hide Matching;
    var all := Matching(g, prefix, []);
    var n := PageCount(|all|, limit, k);
    MatchingAscending(g, prefix, []);
    if n > 1 {
      assert Less(all[0].key, all[n - 1].key);
    } else {
      CountOfOne(|all|, limit, k);
    }
  }

  lemma {:induction false} CountOfOne(total: nat, limit: nat, k: nat)
    requires limit > 0 && PageCount(total, limit, k) == 1
    ensures limit == 1 || total == 1
    decreases k
  {
  }

  lemma StuckRepeats(g: seq<Row>, prefix: ByteString, limit: nat)
    requires Ascending(g) && limit > 0 && Stuck(Matching(g, prefix, []), limit)
    ensures FirstPages(g, prefix, limit, 2) == [Matching(g, prefix, [])[0], Matching(g, prefix, [])[0]]
  {
    hide Matching;
    var all := Matching(g, prefix, []);
    assert FirstPages(g, prefix, limit, 0) == [];
    assert Take(all, limit) == [all[0]];
    assert FirstPages(g, prefix, limit, 1) == [all[0]];
  }

  /** Distributed paging. Asking again and again with the last key returned walks through every
      matching row exactly once and in key order, page by page, unless a row under the empty key
      ever ends a page. */
  lemma PagingIsExactIff(g: seq<Row>, prefix: ByteString, limit: nat)
    requires Ascending(g) && limit > 0
    ensures var all := Matching(g, prefix, []);
            (forall k :: FirstPages(g, prefix, limit, k) == all[..PageCount(|all|, limit, k)]) <==> !Stuck(all, limit)
  {
    hide Less, Matching, Ascending, FirstPages, PageCount;
    var all := Matching(g, prefix, []);
    forall k: nat
      ensures FirstPages(g, prefix, limit, k) == all[..PageCount(|all|, limit, k)] <==> k < 2 || !Stuck(all, limit)
    {
      PagesRightIff(g, prefix, limit, k);
    }
    assert FirstPages(g, prefix, limit, 2) == all[..PageCount(|all|, limit, 2)] <==> !Stuck(all, limit);
  }

  lemma NotTwice(all: seq<Row>, n: nat)
    requires Ascending(all) && all != [] && n <= |all|
    ensures !([all[0], all[0]] <= all[..n])
  {
    hide Less;
    if n >= 2 {
      LessIrreflexive(all[0].key);
      assert all[..n][1] == all[1] && Less(all[0].key, all[1].key);
    }
  }

  lemma {:induction false} PagesOnlyGrow(g: seq<Row>, prefix: ByteString, limit: nat, j: nat, k: nat)
    requires j <= k
    ensures FirstPages(g, prefix, limit, j) <= FirstPages(g, prefix, limit, k)
    decreases k
  {
    hide Matching, Take;
    if j < k {
      PagesOnlyGrow(g, prefix, limit, j, k - 1);
    }
  }

  /** The pages are right up to the first one, and from the second on exactly when not stuck. */
  lemma PagesRightIff(g: seq<Row>, prefix: ByteString, limit: nat, k: nat)
    requires Ascending(g) && limit > 0
    ensures var all := Matching(g, prefix, []);
            FirstPages(g, prefix, limit, k) == all[..PageCount(|all|, limit, k)] <==> k < 2 || !Stuck(all, limit)
  {
    hide Less, Matching, Ascending;
    var all := Matching(g, prefix, []);
    if !Stuck(all, limit) {
      PagesAre(g, prefix, limit, k);
    } else if k >= 2 {
      StuckRepeats(g, prefix, limit);
      PagesOnlyGrow(g, prefix, limit, 2, k);
      MatchingAscending(g, prefix, []);
      NotTwice(all, PageCount(|all|, limit, k));
    } else if k == 1 {
      assert FirstPages(g, prefix, limit, 0) == [] && PageCount(|all|, limit, 0) == 0;
    }
  }

  /** Enough pages return everything. */
  lemma {:induction false} PagesReachTheEnd(total: nat, limit: nat, k: nat)
    requires limit > 0 && k >= total
    ensures PageCount(total, limit, k) == total
    decreases k
  {
    PagesGrow(total, limit, k);
  }

  lemma {:induction false} PagesGrow(total: nat, limit: nat, k: nat)
    requires limit > 0
    ensures PageCount(total, limit, k) == total || PageCount(total, limit, k) >= k
    decreases k
  {
    if k > 0 {
      PagesGrow(total, limit, k - 1);
    }
  }

  /** `k` full pages hold `k` times the limit, until nothing is left. */
  lemma {:induction false} PageCountIs(total: nat, limit: nat, k: nat)
    ensures PageCount(total, limit, k) == if k * limit < total then k * limit else total
    decreases k
  {
    if k > 0 {
      PageCountIs(total, limit, k - 1);
      assert k * limit == (k - 1) * limit + limit;
    }
  }

  // ---- paging over the shards ----------------------------------------------------------------------

  lemma {:induction false} Inserted(g: seq<Row>, r: Row) returns (h: seq<Row>)
    requires Ascending(g) && forall x :: x in g ==> x.key != r.key
    ensures Ascending(h) && forall x :: x in h <==> x in g || x == r
    decreases |g|
  {
    hide Less;
    if g == [] {
      h := [r];
    } else if Less(r.key, g[0].key) {
      h := [r] + g;
      forall i, j | 0 <= i < j < |h|
        ensures Less(h[i].key, h[j].key)
      {
        if i == 0 && j > 1 {
          LessTransitive(r.key, g[0].key, g[j - 1].key);
        }
      }
    } else {
      LessTotal(g[0].key, r.key);
      assert g[0] in g && forall x :: x in g[1..] ==> x in g;
      TailOfAscending(g);
      var rest := Inserted(g[1..], r);
      h := [g[0]] + rest;
      forall j | 0 <= j < |rest|
        ensures Less(g[0].key, rest[j].key)
      {
        assert rest[j] in rest;
        if rest[j] != r {
          var k :| 0 <= k < |g[1..]| && g[1..][k] == rest[j];
          assert Less(g[0].key, g[k + 1].key);
        }
      }
    }
  }

  lemma {:induction false} InsertedAll(g: seq<Row>, rows: seq<Row>) returns (h: seq<Row>)
    requires Ascending(g) && Ascending(rows) && forall x, y :: x in g && y in rows ==> x.key != y.key
    ensures Ascending(h) && forall x :: x in h <==> x in g || x in rows
    decreases |rows|
  {
    hide Less;
    if rows == [] {
      h := g;
    } else {
      var n := |rows| - 1;
      var init, last := rows[..n], rows[n];
      assert rows == init + [last];
      var mid := InsertedAll(g, init);
      LessIrreflexive(last.key);
      forall x | x in mid
        ensures x.key != last.key
      {
        if x in init {
          var k :| 0 <= k < |init| && init[k] == x;
          assert Less(rows[k].key, rows[n].key);
        }
      }
      h := Inserted(mid, last);
    }
  }

  /** Ascending shards without a common key have a union. */
  lemma {:induction false} UnionOf(shards: seq<seq<Row>>) returns (g: seq<Row>)
    requires EachAscending(shards) && OneSourcePerKey(shards)
    ensures IsUnion(g, shards)
    decreases |shards|
  {
    hide Less;
    if shards == [] {
      g := [];
    } else {
      var n := |shards| - 1;
      var init := shards[..n];
      var most := UnionOf(init);
      forall x, y | x in most && y in shards[n]
        ensures x.key != y.key
      {
        var i :| 0 <= i < |init| && x in init[i];
        assert x in shards[i];
      }
      g := InsertedAll(most, shards[n]);
      forall r
        ensures r in g <==> exists i :: 0 <= i < |shards| && r in shards[i]
      {
        if r in most {
          var i :| 0 <= i < |init| && r in init[i];
          assert r in shards[i];
        }
        if i :| 0 <= i < |shards| && r in shards[i] {
          if i < n {
            assert r in init[i];
          }
        }
      }
    }
  }

  lemma {:induction false} SeenHasPrefix(g: seq<Row>, prefix: ByteString, limit: nat, k: nat, r: Row)
    requires r in FirstPages(g, prefix, limit, k)
    ensures HasPrefix(r.key, prefix)
    decreases k
  {
    hide Matching;
    var seen := FirstPages(g, prefix, limit, k - 1);
    if r in seen {
      SeenHasPrefix(g, prefix, limit, k - 1, r);
    } else {
      var last := if seen == [] then [] else seen[|seen| - 1].key;
      assert r in Matching(g, prefix, last);
      MatchingMember(g, prefix, last, r);
    }
  }

  /** A client that asks all shards for `k` pages, each time after the last key it was given. What it has
      seen is, in key order and each once, the first rows of all shards that match; after as many pages
      as there are such rows it is all of them. That holds exactly when no row under the empty key ends a
      page, or only one page was asked for. */
  method PageThrough(shards: seq<seq<Row>>, prefix: ByteString, limit: nat, k: nat, clock: nat -> U64)
    returns (seen: seq<Row>)
    requires EachAscending(shards) && OneSourcePerKey(shards) && limit > 0
    requires forall i :: AllShardsLive(shards, prefix, clock(i))
    ensures exists g ::
              && IsUnion(g, shards)
              && var all := Matching(g, prefix, []);
                 && (seen == (if k * limit < |all| then all[..k * limit] else all) <==> k < 2 || !Stuck(all, limit))
                 && (!Stuck(all, limit) && k >= |all| ==> seen == all)
  {
    hide Matching, IsUnion, OneSourcePerKey, EachAscending, Stuck, Take, AllShardsLive;
    ghost var g := UnionOf(shards);
    seen := [];
    var i := 0;
    while i < k
      invariant i <= k && seen == FirstPages(g, prefix, limit, i)
    {
      var last := if seen == [] then [] else seen[|seen| - 1].key;
      if seen != [] {
        SeenHasPrefix(g, prefix, limit, i, seen[|seen| - 1]);
      }
      var page, ok := CollectByPrefix(shards, prefix, limit, last, clock(i));
      seen := seen + RowsOf(page);
      i := i + 1;
    }
    hide FirstPages, PageCount;
    ghost var all := Matching(g, prefix, []);
    assert Ascending(g) by { UnionAscending(g, shards); }
    PagesRightIff(g, prefix, limit, k);
    PageCountIs(|all|, limit, k);
    assert all[..|all|] == all;
    if k >= |all| {
      PagesReachTheEnd(|all|, limit, k);
      assert all[..|all|] == all;
    }
  }

  lemma UnionAscending(g: seq<Row>, shards: seq<seq<Row>>)
    requires IsUnion(g, shards)
    ensures Ascending(g)
  {
  }
}
