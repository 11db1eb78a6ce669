/** Merging sorted channels through the heap: MergeSorted for copies between shards,
    limitedMergeSorted for prefix queries. */
module KWayMerge {
  import opened Bytes
  import opened MergeHeap

  /** A channel that was never made, or one that will deliver these rows and close. */
  datatype Chan = NilChan | Chan(rows: seq<Row>)

  function Contents(chans: seq<Chan>): (r: seq<seq<Row>>)
    ensures |r| == |chans|
  {
    seq(|chans|, i requires 0 <= i < |chans| => if chans[i].NilChan? then [] else chans[i].rows)
  }

  ghost predicate SortedRows(rows: seq<Row>) {
    forall i, j :: 0 <= i < j < |rows| ==> Leq(rows[i].key, rows[j].key)
  }

  ghost predicate SortedItems(s: seq<Item>) {
    forall i, j :: 0 <= i < j < |s| ==> Above(s[i], s[j])
  }

  ghost predicate SortedEach(rest: seq<seq<Row>>) {
    forall c :: 0 <= c < |rest| ==> SortedRows(rest[c])
  }

  function Tag(rows: seq<Row>, c: nat): multiset<Item> {
    if rows == [] then multiset{} else multiset{Item(rows[0], c)} + Tag(rows[1..], c)
  }

  /** Every row still in some channel, with the channel it is in. */
  function Tagged(rest: seq<seq<Row>>): multiset<Item> {
    if rest == [] then multiset{} else Tagged(rest[..|rest| - 1]) + Tag(rest[|rest| - 1], |rest| - 1)
  }

  lemma {:induction false} TagMember(rows: seq<Row>, c: nat, x: Item)
    ensures x in Tag(rows, c) <==> x.chan == c && x.row in rows
    decreases |rows|
  {
    if rows != [] {
      TagMember(rows[1..], c, x);
      assert rows == [rows[0]] + rows[1..];
    }
  }

  lemma {:induction false} TaggedMember(rest: seq<seq<Row>>, x: Item)
    ensures x in Tagged(rest) <==> x.chan < |rest| && x.row in rest[x.chan]
    decreases |rest|
  {
    if rest != [] {
      var n := |rest| - 1;
      TaggedMember(rest[..n], x);
      TagMember(rest[n], n, x);
    }
  }

  /** Receiving the front row of channel `c`. */
  lemma {:induction false} TaggedReceive(rest: seq<seq<Row>>, c: nat)
    requires c < |rest| && rest[c] != []
    ensures Tagged(rest) == Tagged(rest[c := rest[c][1..]]) + multiset{Item(rest[c][0], c)}
    decreases |rest|
  {
    var n := |rest| - 1;
    var after := rest[c := rest[c][1..]];
    if c < n {
      TaggedReceive(rest[..n], c);
      assert after[..n] == rest[..n][c := rest[c][1..]];
    } else {
      assert after[..n] == rest[..n];
    }
  }

  // ---- the invariant of the merge loop -------------------------------------------------------

  /** Some item of channel `c` is on the heap and no larger than `r`. */
  ghost predicate HasFront(items: seq<Item>, c: nat, r: Row) {
    exists y :: y in items && y.chan == c && Leq(y.row.key, r.key)
  }

  /** Every channel that still has rows is represented on the heap, `except` perhaps one. */
  ghost predicate Guarded(items: seq<Item>, rest: seq<seq<Row>>, except: int) {
    forall c :: 0 <= c < |rest| && c != except && rest[c] != [] ==> HasFront(items, c, rest[c][0])
  }

  ghost predicate Conserved(emitted: seq<Item>, items: seq<Item>, rest: seq<seq<Row>>, all: multiset<Item>) {
    multiset(emitted) + multiset(items) + Tagged(rest) == all
  }

  ghost predicate MergeInv(items: seq<Item>, rest: seq<seq<Row>>, emitted: seq<Item>, all: multiset<Item>) {
    && IsHeap(items)
    && (forall y :: y in items ==> y.chan < |rest|)
    && SortedEach(rest)
    && Guarded(items, rest, -1)
    && Conserved(emitted, items, rest, all)
    && SortedItems(emitted)
    && (forall e, z :: e in emitted && z in items ==> Above(e, z))
  }

  /** What is left in the channels is not smaller than a least item of the heap. */
  lemma GuardBounds(items: seq<Item>, rest: seq<seq<Row>>, x: Item, z: Item)
    requires Guarded(items, rest, -1) && SortedEach(rest)
    requires (forall y :: y in items ==> Above(x, y)) && z in Tagged(rest)
    ensures Above(x, z)
  {
    hide Less, Tagged;
    TaggedMember(rest, z);
    var rows := rest[z.chan];
    assert HasFront(items, z.chan, rows[0]);
    var y :| y in items && y.chan == z.chan && Leq(y.row.key, rows[0].key);
    var i :| 0 <= i < |rows| && rows[i] == z.row;
    LeqTransitive(x.row.key, y.row.key, rows[0].key);
    if i > 0 {
      LeqTransitive(x.row.key, rows[0].key, rows[i].key);
    }
  }

  /** Everything not yet emitted. */
  ghost predicate AllAbove(emitted: seq<Item>, all: multiset<Item>) {
    forall a, b :: a in emitted && b in all - multiset(emitted) ==> Above(a, b)
  }

  lemma InvAllAbove(items: seq<Item>, rest: seq<seq<Row>>, emitted: seq<Item>, all: multiset<Item>)
    requires MergeInv(items, rest, emitted, all)
    ensures AllAbove(emitted, all)
  {
    hide Less, Tagged, IsHeap;
    forall a, b | a in emitted && b in all - multiset(emitted)
      ensures Above(a, b)
    {
      assert all - multiset(emitted) == multiset(items) + Tagged(rest);
      if b !in items {
        GuardBounds(items, rest, a, b);
      }
    }
  }

  /** A least item was popped and handed on. */
  lemma Popped(items: seq<Item>, after: seq<Item>, x: Item, rest: seq<seq<Row>>,
               emitted: seq<Item>, all: multiset<Item>)
    requires MergeInv(items, rest, emitted, all)
    requires multiset(after) + multiset{x} == multiset(items)
    requires forall y :: y in items ==> Above(x, y)
    ensures x in items && x.chan < |rest|
    ensures SortedItems(emitted + [x]) && Conserved(emitted + [x], after, rest, all)
    ensures AllAbove(emitted + [x], all)
    ensures forall e, z :: e in emitted + [x] && (z in after || z in Tagged(rest)) ==> Above(e, z)
    ensures Guarded(after, rest, x.chan)
    ensures forall y :: y in after ==> y.chan < |rest|
  {
    hide Less, Tagged, IsHeap, Above;
    assert x in multiset(items);
    PoppedMembers(items, after, x);
    assert multiset(emitted + [x]) == multiset(emitted) + multiset{x};
    forall e, z | e in emitted + [x] && (z in after || z in Tagged(rest))
      ensures Above(e, z)
    {
      if z !in after {
        if e == x {
          GuardBounds(items, rest, x, z);
        } else {
          GuardBounds(items, rest, e, z);
        }
      }
    }
    assert all - multiset(emitted + [x]) == multiset(after) + Tagged(rest);
    forall c | 0 <= c < |rest| && c != x.chan && rest[c] != []
      ensures HasFront(after, c, rest[c][0])
    {
      assert HasFront(items, c, rest[c][0]);
      var y :| y in items && y.chan == c && Leq(y.row.key, rest[c][0].key);
      assert y in after;
    }
  }

  lemma PoppedMembers(items: seq<Item>, after: seq<Item>, x: Item)
    requires multiset(after) + multiset{x} == multiset(items)
    ensures forall y :: y in items <==> y in after || y == x
  {
    assert forall y :: y in items <==> y in multiset(items);
    assert forall y :: y in after <==> y in multiset(after);
  }

  /** The channel of the popped item has no more rows. */
  lemma Exhausted(after: seq<Item>, x: Item, rest: seq<seq<Row>>, emitted: seq<Item>, all: multiset<Item>)
    requires IsHeap(after) && x.chan < |rest| && rest[x.chan] == [] && SortedEach(rest)
    requires SortedItems(emitted) && Conserved(emitted, after, rest, all)
    requires forall e, z :: e in emitted && z in after ==> Above(e, z)
    requires Guarded(after, rest, x.chan) && (forall y :: y in after ==> y.chan < |rest|)
    ensures MergeInv(after, rest, emitted, all)
  {
    hide Less, Tagged, IsHeap, HasFront;
  }

  /** The next row of the popped item's channel went onto the heap. */
  lemma Refilled(after: seq<Item>, pushed: seq<Item>, c: nat, rest: seq<seq<Row>>,
                 emitted: seq<Item>, all: multiset<Item>)
    requires c < |rest| && rest[c] != [] && SortedEach(rest) && IsHeap(pushed)
    requires multiset(pushed) == multiset(after) + multiset{Item(rest[c][0], c)}
    requires SortedItems(emitted) && Conserved(emitted, after, rest, all)
    requires forall e, z :: e in emitted && (z in after || z in Tagged(rest)) ==> Above(e, z)
    requires Guarded(after, rest, c) && (forall y :: y in after ==> y.chan < |rest|)
    ensures MergeInv(pushed, rest[c := rest[c][1..]], emitted, all)
  {
    hide Less, Tagged, IsHeap, Above;
    var x, left := Item(rest[c][0], c), rest[c := rest[c][1..]];
    TaggedReceive(rest, c);
    TaggedMember(rest, x);
    PoppedMembers(pushed, after, x);
    forall k | 0 <= k < |left|
      ensures SortedRows(left[k])
    {
      assert SortedRows(rest[k]);
    }
    forall k | 0 <= k < |left| && left[k] != []
      ensures HasFront(pushed, k, left[k][0])
    {
      if k == c {
        assert x in pushed;
        assert Leq(x.row.key, rest[c][1].key);
      } else {
        assert HasFront(after, k, rest[k][0]);
        var y :| y in after && y.chan == k && Leq(y.row.key, rest[k][0].key);
        assert y in pushed;
      }
    }
  }

  /** With the heap empty, so are the channels. */
  lemma NothingLeft(rest: seq<seq<Row>>)
    requires Guarded([], rest, -1)
    ensures Tagged(rest) == multiset{}
  {
    hide Less, Tagged;
    assert forall c, r :: !HasFront([], c, r);
    forall x
      ensures x !in Tagged(rest)
    {
      TaggedMember(rest, x);
    }
  }

  // ---- the methods ---------------------------------------------------------------------------

  lemma FillStep(items: seq<Item>, rest: seq<seq<Row>>, i: nat)
    requires i < |rest| && rest[i] != [] && SortedEach(rest)
    requires forall k :: 0 <= k < i && rest[k] != [] ==> HasFront(items, k, rest[k][0])
    ensures var more, left := items + [Item(rest[i][0], i)], rest[i := rest[i][1..]];
            && SortedEach(left)
            && forall k :: 0 <= k <= i && left[k] != [] ==> HasFront(more, k, left[k][0])
  {
    hide Less;
    var more, left := items + [Item(rest[i][0], i)], rest[i := rest[i][1..]];
    forall k | 0 <= k < |left|
      ensures SortedRows(left[k])
    {
      assert SortedRows(rest[k]);
    }
    forall k | 0 <= k <= i && left[k] != []
      ensures HasFront(more, k, left[k][0])
    {
      if k == i {
        assert Item(rest[i][0], i) in more;
        assert SortedRows(rest[i]);
        assert Leq(rest[i][0].key, rest[i][1].key);
      } else {
        var y :| y in items && y.chan == k && Leq(y.row.key, rest[k][0].key);
        assert y in more;
      }
    }
  }

  /** Reordering the heap keeps every channel represented. */
  lemma ReorderedGuard(a: seq<Item>, b: seq<Item>, rest: seq<seq<Row>>)
    requires multiset(a) == multiset(b)
    requires Guarded(a, rest, -1) && forall y :: y in a ==> y.chan < |rest|
    ensures Guarded(b, rest, -1) && forall y :: y in b ==> y.chan < |rest|
  {
    hide Less;
    assert forall y :: y in a <==> y in multiset(a);
    assert forall y :: y in b <==> y in multiset(b);
    forall c | 0 <= c < |rest| && rest[c] != []
      ensures HasFront(b, c, rest[c][0])
    {
      assert HasFront(a, c, rest[c][0]);
      var y :| y in a && y.chan == c && Leq(y.row.key, rest[c][0].key);
      assert y in b;
    }
  }

  /** The first row of every channel goes onto the heap. */
  method Fill(chans: seq<Chan>) returns (pq: PriorityQueue, rest: seq<seq<Row>>)
    requires SortedEach(Contents(chans))
    ensures fresh(pq) && |rest| == |chans|
    ensures MergeInv(pq.items, rest, [], Tagged(Contents(chans)))
  {
    hide Less, Tagged;
    rest := Contents(chans);
    pq := new PriorityQueue();
    var i := 0;
    while i < |chans|
      invariant i <= |chans| == |rest|
      invariant forall k :: i <= k < |chans| ==> rest[k] == Contents(chans)[k]
      invariant SortedEach(rest)
      invariant forall y :: y in pq.items ==> y.chan < |rest|
      invariant forall k :: 0 <= k < i && rest[k] != [] ==> HasFront(pq.items, k, rest[k][0])
      invariant multiset(pq.items) + Tagged(rest) == Tagged(Contents(chans))
    {
      if chans[i].Chan? && chans[i].rows != [] {
        TaggedReceive(rest, i);
        FillStep(pq.items, rest, i);
        pq.items := pq.items + [Item(rest[i][0], i)];
        rest := rest[i := rest[i][1..]];
      }
      i := i + 1;
    }
    ghost var unordered := pq.items;
    assert Guarded(unordered, rest, -1);
    pq.Init();
    ReorderedGuard(unordered, pq.items, rest);
  }

  /** Item `x` has just been taken off the heap and is the last of `emitted`; its channel has not
      been asked for another row yet. */
  ghost predicate Taken(items: seq<Item>, x: Item, rest: seq<seq<Row>>, emitted: seq<Item>, all: multiset<Item>) {
    && x.chan < |rest| && IsHeap(items) && SortedEach(rest)
    && SortedItems(emitted) && Conserved(emitted, items, rest, all) && AllAbove(emitted, all)
    && (forall e, z :: e in emitted && (z in items || z in Tagged(rest)) ==> Above(e, z))
    && Guarded(items, rest, x.chan) && (forall y :: y in items ==> y.chan < |rest|)
  }

  /** What a merge loop may conclude between turns, and in the middle of one. */
  ghost predicate InOrder(emitted: seq<Item>, all: multiset<Item>) {
    SortedItems(emitted) && AllAbove(emitted, all) && multiset(emitted) <= all && |emitted| <= |all|
  }

  /** Byte by byte: every emitted key is not after the ones emitted later, nor after those that were not
      emitted. */
  ghost predicate InByteOrder(emitted: seq<Item>, all: multiset<Item>) {
    && (forall i, j | 0 <= i < j < |emitted| :: NotAfter(emitted[i].row.key, emitted[j].row.key))
    && (forall i, y | 0 <= i < |emitted| && y in all - multiset(emitted) :: NotAfter(emitted[i].row.key, y.row.key))
  }

  lemma OrderIsByteOrder(emitted: seq<Item>, all: multiset<Item>)
    requires InOrder(emitted, all)
    ensures InByteOrder(emitted, all)
  {
    hide Less;
    forall i, j | 0 <= i < j < |emitted|
      ensures NotAfter(emitted[i].row.key, emitted[j].row.key)
    {
      LeqIffNotAfter(emitted[i].row.key, emitted[j].row.key);
    }
    forall i, y | 0 <= i < |emitted| && y in all - multiset(emitted)
      ensures NotAfter(emitted[i].row.key, y.row.key)
    {
      assert emitted[i] in emitted;
      LeqIffNotAfter(emitted[i].row.key, y.row.key);
    }
  }

  lemma InvInOrder(items: seq<Item>, rest: seq<seq<Row>>, emitted: seq<Item>, all: multiset<Item>)
    requires MergeInv(items, rest, emitted, all)
    ensures InOrder(emitted, all)
    ensures items != [] ==> |emitted| < |all|
    ensures items == [] ==> multiset(emitted) == all
  {
    hide Less, Tagged, IsHeap, AllAbove, SortedItems;
    InvAllAbove(items, rest, emitted, all);
    assert |all| == |multiset(emitted)| + |multiset(items)| + |Tagged(rest)|;
    if items == [] {
      NothingLeft(rest);
    }
  }

  lemma TakenInOrder(items: seq<Item>, x: Item, rest: seq<seq<Row>>, emitted: seq<Item>, all: multiset<Item>)
    requires Taken(items, x, rest, emitted, all)
    ensures InOrder(emitted, all)
  {
    hide Less, Tagged, IsHeap, AllAbove, SortedItems, Guarded;
    assert |all| == |multiset(emitted)| + |multiset(items)| + |Tagged(rest)|;
  }

  /** One turn of a merge loop: take a least item ... */
  method TakeLeast(pq: PriorityQueue, rest: seq<seq<Row>>, ghost emitted: seq<Item>, ghost all: multiset<Item>)
    returns (x: Item)
    requires pq.items != [] && MergeInv(pq.items, rest, emitted, all)
    modifies pq
    ensures Taken(pq.items, x, rest, emitted + [x], all)
  {
    hide Less, Tagged, Above;
    ghost var before := pq.items;
    x := pq.Pop();
    Popped(before, pq.items, x, rest, emitted, all);
  }

  /** ... then refill from its channel. */
  method Refill(pq: PriorityQueue, rest: seq<seq<Row>>, x: Item, ghost emitted: seq<Item>, ghost all: multiset<Item>)
    returns (left: seq<seq<Row>>)
    requires Taken(pq.items, x, rest, emitted, all)
    modifies pq
    ensures |left| == |rest| && MergeInv(pq.items, left, emitted, all)
  {
    hide Less, Tagged, Above;
    left := rest;
    if rest[x.chan] != [] {
      ghost var before := pq.items;
      pq.Push(Item(rest[x.chan][0], x.chan));
      assert pq.items != [] by {
        assert Item(rest[x.chan][0], x.chan) in multiset(pq.items);
      }
      pq.Fix(|pq.items| - 1);
      Refilled(before, pq.items, x.chan, rest, emitted, all);
      left := rest[x.chan := rest[x.chan][1..]];
    } else {
      Exhausted(pq.items, x, rest, emitted, all);
    }
  }

  /** MergeSorted. `accepts(k, row)` is the callback's answer to its k-th call; the run stops at its
      first refusal, of the row that was next in order. Otherwise every row comes out, or with a
      positive limit that many; always in order, each once per channel it was in, and none larger than
      one that stayed behind. */
  method MergeSorted(chans: seq<Chan>, limit: int, accepts: (nat, Row) -> bool)
    returns (emitted: seq<Item>, counter: nat, ok: bool)
    requires SortedEach(Contents(chans))
    ensures counter == |emitted| && InOrder(emitted, Tagged(Contents(chans)))
    ensures InByteOrder(emitted, Tagged(Contents(chans)))
    ensures forall k :: 0 <= k < |emitted| ==> accepts(k, emitted[k].row)
    ensures ok && limit <= 0 ==> multiset(emitted) == Tagged(Contents(chans))
    ensures ok && limit > 0 ==>
              |emitted| == if |Tagged(Contents(chans))| < limit then |Tagged(Contents(chans))| else limit
    ensures !ok ==> exists x :: InOrder(emitted + [x], Tagged(Contents(chans))) && !accepts(|emitted|, x.row)
  {
    hide Tagged, MergeInv, Taken, InOrder, InByteOrder;
    ghost var all := Tagged(Contents(chans));
    var pq, rest := Fill(chans);
    emitted, counter, ok := [], 0, true;
    while pq.items != []
      invariant fresh(pq) && MergeInv(pq.items, rest, emitted, all)
      invariant counter == |emitted| && (limit > 0 ==> counter < limit)
      invariant forall k :: 0 <= k < |emitted| ==> accepts(k, emitted[k].row)
      decreases |all| - |emitted|
    {
      InvInOrder(pq.items, rest, emitted, all);
      var x := TakeLeast(pq, rest, emitted, all);
      TakenInOrder(pq.items, x, rest, emitted + [x], all);
      if !accepts(counter, x.row) {
        ok := false;
        OrderIsByteOrder(emitted, all);
        return;
      }
      emitted := emitted + [x];
      counter := counter + 1;
      if limit > 0 && counter >= limit {
        InOrderCount(emitted, all);
        OrderIsByteOrder(emitted, all);
        return;
      }
      rest := Refill(pq, rest, x, emitted, all);
    }
    InvInOrder(pq.items, rest, emitted, all);
    OrderIsByteOrder(emitted, all);
  }

  lemma InOrderCount(emitted: seq<Item>, all: multiset<Item>)
    requires InOrder(emitted, all)
    ensures |emitted| <= |all|
  {
  }

  /** limitedMergeSorted: the `limit` least rows, in order. */
  method LimitedMergeSorted(chans: seq<Chan>, limit: int) returns (results: seq<Item>)
    requires SortedEach(Contents(chans))
    ensures InOrder(results, Tagged(Contents(chans)))
    ensures InByteOrder(results, Tagged(Contents(chans)))
    ensures |results| == if limit <= 0 then 0
                         else if |Tagged(Contents(chans))| < limit then |Tagged(Contents(chans))| else limit
  {
    hide Tagged, MergeInv, Taken, InOrder, InByteOrder;
    ghost var all := Tagged(Contents(chans));
    var pq, rest := Fill(chans);
    results := [];
    var left := limit;
    while pq.items != [] && left > 0
      invariant fresh(pq) && MergeInv(pq.items, rest, results, all)
      invariant if limit <= 0 then left == limit && results == [] else 0 <= left == limit - |results|
      decreases left
    {
      left := left - 1;
      var x := TakeLeast(pq, rest, results, all);
      results := results + [x];
      rest := Refill(pq, rest, x, results, all);
    }
    InvInOrder(pq.items, rest, results, all);
    InOrderCount(results, all);
    OrderIsByteOrder(results, all);
  }
}
