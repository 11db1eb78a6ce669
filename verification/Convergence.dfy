/** Replicas that hear the same puts, by the binlog or by backfill copies, in any order, any number of
    times, and at any readings of the clock. */
module Convergence {
  import opened Bytes
  import opened Codec
  import opened LastWriteWins
  import opened Rows
  import opened Follower

  datatype Write = Write(key: ByteString, row: Entry)

  /** A put reaches a replica as a binlog entry or as a copied row, at some reading of the clock. */
  datatype Delivery = Follow(write: Write, nowNs: U64) | Backfill(write: Write, nowNs: U64)

  const LAST_NS: U64 := 0xFFFF_FFFF_FFFF_FFFF

  /** The sorted-insert backfill replaces an expired row by any row, and otherwise a row only by a
      strictly newer one; the binlog rule lets an equally old put through. */
  function BackfillAt(slot: Slot, row: Entry, nowNs: U64): Slot {
    if slot.Absent? || IsExpired(slot.row, nowNs) || slot.row.updatedAtNs < row.updatedAtNs then Present(row) else slot
  }

  /** To readers then and later, a backfilled row replaces what was visible exactly when it is newer. */
  lemma ReadersSeeBackfill(slot: Slot, row: Entry, nowNs: U64, laterNs: U64)
    requires nowNs <= laterNs
    ensures var seen := Visible(slot, nowNs);
            Visible(BackfillAt(slot, row, nowNs), laterNs)
            == Visible(if seen.Present? && row.updatedAtNs <= seen.row.updatedAtNs then seen else Present(row), laterNs)
  {
    hide IsExpired;
  }

  function Delivered(slot: Slot, d: Delivery): Slot {
    match d
    case Follow(w, nowNs) => ApplyAt(slot, PutOp(w.row), nowNs)
    case Backfill(w, nowNs) => BackfillAt(slot, w.row, nowNs)
  }

  function Receive(db: Db, d: Delivery): Db {
    WithSlot(db, d.write.key, Delivered(At(db, d.write.key), d))
  }

  function ReceiveAll(db: Db, ds: seq<Delivery>): Db {
    if ds == [] then db else Receive(ReceiveAll(db, ds[..|ds| - 1]), ds[|ds| - 1])
  }

  /** A binlog delivery is what a follower does with the logged put. */
  lemma FollowIsProcessEntry(m: Lookup, db: Db, w: Write, nowNs: U64)
    ensures Receive(db, Follow(w, nowNs)) == ApplyTimed(m, db, PutEntry(w.key, w.row), nowNs)
    ensures DeliveryPanics(db, Follow(w, nowNs)) <==> Panics(m, db, PutEntry(w.key, w.row))
  {
    hide Unreadable;
  }

  /** The replica panics: the stored row does not decode or, when a copied row meets a live one, the
      copied row does not. */
  predicate DeliveryPanics(db: Db, d: Delivery) {
    var key := d.write.key;
    || Unreadable(db, key)
    || (d.Backfill? && key in db && !IsExpired(db[key], d.nowNs) && FromBytes(Encode(d.write.row)).Rejected?)
  }

  lemma DeliveryPanicsIff(db: Db, d: Delivery)
    ensures var key := d.write.key;
            DeliveryPanics(db, d) <==>
              && key in db
              && (db[key].value == [] || (d.Backfill? && !IsExpired(db[key], d.nowNs) && d.write.row.value == []))
  {
    hide Encode, FromBytes, IsExpired;
    UnreadableIff(db, d.write.key);
    RoundTrip(d.write.row);
  }

  /** The replica lives through the first `n` of these deliveries. */
  ghost predicate SurvivesUpTo(db: Db, ds: seq<Delivery>, n: nat)
    requires n <= |ds|
  {
    forall i | 0 <= i < n :: !DeliveryPanics(ReceiveAll(db, ds[..i]), ds[i])
  }

  ghost predicate Survives(ds: seq<Delivery>) {
    SurvivesUpTo(map[], ds, |ds|)
  }

  // ---- what a replica holds ------------------------------------------------------------------------

  ghost function WritesOf(ds: seq<Delivery>): set<Write> {
    set i | 0 <= i < |ds| :: ds[i].write
  }

  lemma WritesOfAppend(ds: seq<Delivery>, d: Delivery)
    ensures WritesOf(ds + [d]) == WritesOf(ds) + {d.write}
  {
    var more := ds + [d];
    assert more[|ds|] == d && forall i | 0 <= i < |ds| :: more[i] == ds[i];
    forall w | w in WritesOf(more)
      ensures w in WritesOf(ds) + {d.write}
    {
      var i :| 0 <= i < |more| && more[i].write == w;
      if i < |ds| {
        assert ds[i].write == w;
      }
    }
    forall w | w in WritesOf(ds)
      ensures w in WritesOf(more)
    {
      var i :| 0 <= i < |ds| && ds[i].write == w;
      assert more[i].write == w;
    }
    assert more[|ds|].write in WritesOf(more);
  }

  lemma PrefixWrites(ds: seq<Delivery>, n: nat)
    requires n <= |ds|
    ensures WritesOf(ds[..n]) <= WritesOf(ds)
  {
    forall w | w in WritesOf(ds[..n])
      ensures w in WritesOf(ds)
    {
      var i :| 0 <= i < n && ds[..n][i].write == w;
      assert ds[i].write == w;
    }
  }

  /** One more delivery, seen from one key. */
  lemma OneMoreDelivery(ds: seq<Delivery>, d: Delivery, key: ByteString)
    ensures At(ReceiveAll(map[], ds + [d]), key)
            == var slot := At(ReceiveAll(map[], ds), key); if d.write.key == key then Delivered(slot, d) else slot
  {
    hide Delivered;
    assert (ds + [d])[..|ds|] == ds;
  }

  /** The stored row is one of the puts to its key, and there is one as soon as there was a put. */
  lemma {:induction false} StoredWasPut(ds: seq<Delivery>, key: ByteString)
    ensures match At(ReceiveAll(map[], ds), key)
            case Present(row) => Write(key, row) in WritesOf(ds)
            case Absent => forall w :: w in WritesOf(ds) ==> w.key != key
    decreases |ds|
  {
    hide IsExpired;
    if ds != [] {
      var init, last := ds[..|ds| - 1], ds[|ds| - 1];
      assert ds == init + [last];
      StoredWasPut(init, key);
      WritesOfAppend(init, last);
      OneMoreDelivery(init, last, key);
      hide WritesOf, ReceiveAll;
    }
  }

  ghost predicate NoEmptyValue(ws: set<Write>) {
    forall w | w in ws :: w.row.value != []
  }

  lemma NoEmptyValueSurvives(ds: seq<Delivery>)
    requires NoEmptyValue(WritesOf(ds))
    ensures Survives(ds)
  {
    hide DeliveryPanics;
    forall i | 0 <= i < |ds|
      ensures !DeliveryPanics(ReceiveAll(map[], ds[..i]), ds[i])
    {
      var db, key := ReceiveAll(map[], ds[..i]), ds[i].write.key;
      DeliveryPanicsIff(db, ds[i]);
      StoredWasPut(ds[..i], key);
      PrefixWrites(ds, i);
      assert ds[i].write in WritesOf(ds);
      assert key in db ==> At(db, key) == Present(db[key]);
      assert key in db ==> Write(key, db[key]) in WritesOf(ds);
    }
  }

  // ---- the newest put ------------------------------------------------------------------------------

  /** `row` is a newest put to `key` among `ws`. */
  ghost predicate IsNewest(ws: set<Write>, key: ByteString, row: Entry) {
    Write(key, row) in ws && forall w :: w in ws && w.key == key ==> w.row.updatedAtNs <= row.updatedAtNs
  }

  lemma {:induction false} SomeNewest(ws: set<Write>, w: Write) returns (row: Entry)
    requires w in ws
    ensures IsNewest(ws, w.key, row)
    decreases |ws|
  {
    var rest := ws - {w};
    if v :| v in rest && v.key == w.key {
      var best := SomeNewest(rest, v);
      row := if best.updatedAtNs < w.row.updatedAtNs then w.row else best;
      assert ws == rest + {w};
    } else {
      row := w.row;
      assert forall v | v in ws && v.key == w.key :: v == w;
    }
  }

  ghost predicate OnlyPut(ws: set<Write>, key: ByteString, row: Entry) {
    forall w | w in ws && w.key == key :: w.row == row
  }

  /** A newest put of the key never expires, or no other put could take its place. */
  ghost predicate Lasts(ws: set<Write>, key: ByteString) {
    forall row | IsNewest(ws, key, row) :: !IsExpired(row, LAST_NS) || OnlyPut(ws, key, row)
  }

  lemma NeverExpires(row: Entry, nowNs: U64)
    requires !IsExpired(row, LAST_NS)
    ensures !IsExpired(row, nowNs)
  {
  }

  /** At every reading of the clock the key's newest puts have not expired, or have no rival. */
  ghost predicate LastsThrough(ws: set<Write>, key: ByteString, ds: seq<Delivery>) {
    forall row, i | IsNewest(ws, key, row) && 0 <= i < |ds| ::
      !IsExpired(row, ds[i].nowNs) || OnlyPut(ws, key, row)
  }

  lemma LastingLastsThrough(ws: set<Write>, key: ByteString, ds: seq<Delivery>)
    requires Lasts(ws, key)
    ensures LastsThrough(ws, key, ds)
  {
    hide IsExpired;
    forall row, i | IsNewest(ws, key, row) && 0 <= i < |ds|
      ensures !IsExpired(row, ds[i].nowNs) || OnlyPut(ws, key, row)
    {
      if !IsExpired(row, LAST_NS) {
        NeverExpires(row, ds[i].nowNs);
      }
    }
  }

  ghost predicate HeardNewest(ws: set<Write>, key: ByteString, ds: seq<Delivery>) {
    exists row :: IsNewest(ws, key, row) && Write(key, row) in WritesOf(ds)
  }

  /** A newest put takes the slot when it arrives ... */
  lemma NewestIsTaken(ws: set<Write>, slot: Slot, d: Delivery)
    requires LastsThrough(ws, d.write.key, [d]) && IsNewest(ws, d.write.key, d.write.row)
    requires slot.Present? ==> Write(d.write.key, slot.row) in ws
    ensures Delivered(slot, d).Present? && IsNewest(ws, d.write.key, Delivered(slot, d).row)
  {
    hide IsExpired;
    var key, row := d.write.key, d.write.row;
    if OnlyPut(ws, key, row) {
      assert slot.Present? ==> slot.row == row;
    } else {
      assert !IsExpired(row, [d][0].nowNs);
      assert slot.Present? ==> slot.row.updatedAtNs <= row.updatedAtNs;
    }
  }

  /** ... and is not replaced by an older one. */
  lemma NewestIsKept(ws: set<Write>, slot: Slot, d: Delivery)
    requires LastsThrough(ws, d.write.key, [d]) && d.write in ws && !IsNewest(ws, d.write.key, d.write.row)
    requires slot.Present? && IsNewest(ws, d.write.key, slot.row)
    ensures Delivered(slot, d) == slot
  {
    hide IsExpired;
    assert d.write == Write(d.write.key, d.write.row);
    assert !OnlyPut(ws, d.write.key, slot.row);
    assert !IsExpired(slot.row, [d][0].nowNs);
  }

  lemma {:induction false} NewestSettles(ws: set<Write>, ds: seq<Delivery>, key: ByteString)
    requires LastsThrough(ws, key, ds) && WritesOf(ds) <= ws && HeardNewest(ws, key, ds)
    ensures var slot := At(ReceiveAll(map[], ds), key); slot.Present? && IsNewest(ws, key, slot.row)
    decreases |ds|
  {
    hide IsExpired, Delivered, IsNewest, OnlyPut;
    if ds != [] {
      var init, d := ds[..|ds| - 1], ds[|ds| - 1];
      assert ds == init + [d];
      assert LastsThrough(ws, key, init) by { assert forall i | 0 <= i < |init| :: init[i] == ds[i]; }
      assert LastsThrough(ws, key, [d]) by { assert [d][0] == ds[|ds| - 1]; }
      hide LastsThrough;
      WritesOfAppend(init, d);
      OneMoreDelivery(init, d, key);
      var slot := At(ReceiveAll(map[], init), key);
      if d.write.key == key && IsNewest(ws, key, d.write.row) {
        StoredWasPut(init, key);
        NewestIsTaken(ws, slot, d);
      } else {
        var row :| IsNewest(ws, key, row) && Write(key, row) in WritesOf(ds);
        assert Write(key, row) != d.write;
        assert HeardNewest(ws, key, init);
        NewestSettles(ws, init, key);
        if d.write.key == key {
          NewestIsKept(ws, slot, d);
        }
      }
    }
  }

  /** After any deliveries of puts with values the replica is alive and, if at every reading of the clock
      the key's newest puts had not expired or had no rival, holds one of them, and nothing for a key never
      put. */
  lemma HoldsANewest(ds: seq<Delivery>, key: ByteString)
    requires NoEmptyValue(WritesOf(ds)) && LastsThrough(WritesOf(ds), key, ds)
    ensures Survives(ds)
    ensures match At(ReceiveAll(map[], ds), key)
            case Present(row) => IsNewest(WritesOf(ds), key, row)
            case Absent => forall w :: w in WritesOf(ds) ==> w.key != key
  {
    NoEmptyValueSurvives(ds);
    StoredWasPut(ds, key);
    hide Survives, LastsThrough, IsNewest, ReceiveAll;
    var slot := At(ReceiveAll(map[], ds), key);
    if slot.Present? {
      var row := SomeNewest(WritesOf(ds), Write(key, slot.row));
      NewestWasPut(WritesOf(ds), key, row);
      assert HeardNewest(WritesOf(ds), key, ds);
      NewestSettles(WritesOf(ds), ds, key);
    }
  }

  lemma NewestWasPut(ws: set<Write>, key: ByteString, row: Entry)
    requires IsNewest(ws, key, row)
    ensures Write(key, row) in ws
  {
  }

  // ---- convergence ---------------------------------------------------------------------------------

  /** For every key one put is newer than, or the same as, all the others. */
  ghost predicate UniqueNewest(ws: set<Write>) {
    forall key, a, b :: IsNewest(ws, key, a) && IsNewest(ws, key, b) ==> a == b
  }

  ghost predicate AllLast(ws: set<Write>) {
    forall key :: Lasts(ws, key)
  }

  /** The clock does not go back. */
  ghost predicate Timely(ds: seq<Delivery>) {
    forall i, j | 0 <= i < j < |ds| :: ds[i].nowNs <= ds[j].nowNs
  }

  /** `ds` delivers exactly `ws`, in time order. */
  ghost predicate Delivers(ds: seq<Delivery>, ws: set<Write>) {
    WritesOf(ds) == ws && Timely(ds)
  }

  /** Any two replicas that received exactly `ws`, each under its own clock, are alive and hold the same
      rows. */
  ghost predicate AlwaysConverges(ws: set<Write>) {
    forall x, y | Delivers(x, ws) && Delivers(y, ws) ::
      Survives(x) && Survives(y) && ReceiveAll(map[], x) == ReceiveAll(map[], y)
  }

  /** Enough for convergence, even under clocks that go back. */
  lemma UniqueNewestConverges(ws: set<Write>, x: seq<Delivery>, y: seq<Delivery>)
    requires NoEmptyValue(ws) && UniqueNewest(ws) && AllLast(ws) && WritesOf(x) == ws && WritesOf(y) == ws
    ensures Survives(x) && Survives(y)
    ensures ReceiveAll(map[], x) == ReceiveAll(map[], y)
  {
    hide Survives, Lasts, LastsThrough, IsNewest, ReceiveAll;
    NoEmptyValueSurvives(x);
    NoEmptyValueSurvives(y);
    forall key
      ensures At(ReceiveAll(map[], x), key) == At(ReceiveAll(map[], y), key)
    {
      LastingLastsThrough(ws, key, x);
      LastingLastsThrough(ws, key, y);
      HoldsANewest(x, key);
      HoldsANewest(y, key);
      StoredWasPut(x, key);
      StoredWasPut(y, key);
    }
    SameSlotsSameRows(ReceiveAll(map[], x), ReceiveAll(map[], y));
  }

  // ---- what breaks it otherwise ----------------------------------------------------------------------

  ghost predicate AtZero(ds: seq<Delivery>) {
    forall i | 0 <= i < |ds| :: ds[i].nowNs == 0
  }

  /** Some delivery order exists for every set of puts; here all at the first instant. */
  lemma {:induction false} SomeOrder(ws: set<Write>) returns (ds: seq<Delivery>)
    ensures WritesOf(ds) == ws && AtZero(ds)
    decreases |ws|
  {
    if ws == {} {
      ds := [];
    } else {
      var w :| w in ws;
      var rest := SomeOrder(ws - {w});
      ds := rest + [Follow(w, 0)];
      WritesOfAppend(rest, Follow(w, 0));
    }
  }

  /** At the first instant nothing has expired, so hearing a newest put last leaves that very put in
      place. */
  lemma RepeatedNewestWins(ds: seq<Delivery>, key: ByteString, row: Entry)
    requires IsNewest(WritesOf(ds), key, row)
    ensures WritesOf(ds + [Follow(Write(key, row), 0)]) == WritesOf(ds)
    ensures At(ReceiveAll(map[], ds + [Follow(Write(key, row), 0)]), key) == Present(row)
  {
    var d := Follow(Write(key, row), 0);
    WritesOfAppend(ds, d);
    OneMoreDelivery(ds, d, key);
    StoredWasPut(ds, key);
    hide WritesOf, ReceiveAll;
  }

  lemma TieDiverges(ws: set<Write>, key: ByteString, a: Entry, b: Entry)
    requires IsNewest(ws, key, a) && IsNewest(ws, key, b) && a != b
    ensures !AlwaysConverges(ws)
  {
    hide Survives, ReceiveAll, IsNewest;
    var ds := SomeOrder(ws);
    RepeatedNewestWins(ds, key, a);
    RepeatedNewestWins(ds, key, b);
    var x, y := ds + [Follow(Write(key, a), 0)], ds + [Follow(Write(key, b), 0)];
    assert Delivers(x, ws) && Delivers(y, ws);
    assert ReceiveAll(map[], x) != ReceiveAll(map[], y);
  }

  /** A newest put that can expire gives way to an older put that is backfilled after that. */
  lemma LapseDiverges(ws: set<Write>, key: ByteString, row: Entry, other: Entry)
    requires IsNewest(ws, key, row) && IsExpired(row, LAST_NS) && Write(key, other) in ws && other != row
    ensures !AlwaysConverges(ws)
  {
    hide Survives, ReceiveAll, IsNewest, IsExpired;
    var ds := SomeOrder(ws);
    RepeatedNewestWins(ds, key, row);
    var x := ds + [Follow(Write(key, row), 0)];
    var late := Backfill(Write(key, other), LAST_NS);
    WritesOfAppend(x, late);
    OneMoreDelivery(x, late, key);
    var y := x + [late];
    assert WritesOf(y) == ws;
    assert Delivers(x, ws) && Delivers(y, ws);
    assert At(ReceiveAll(map[], y), key) == Present(other);
  }

  lemma WritesOfMore(w: Write, rest: seq<Delivery>)
    ensures WritesOf([Follow(w, 0)] + rest) == {w} + WritesOf(rest)
  {
    var more := [Follow(w, 0)] + rest;
    assert more[0].write == w && forall i :: 0 <= i < |rest| ==> more[i + 1] == rest[i];
    forall v | v in WritesOf(more)
      ensures v in {w} + WritesOf(rest)
    {
      var i :| 0 <= i < |more| && more[i].write == v;
      if i > 0 {
        assert rest[i - 1].write == v;
      }
    }
    forall v | v in WritesOf(rest)
      ensures v in WritesOf(more)
    {
      var i :| 0 <= i < |rest| && rest[i].write == v;
      assert more[i + 1].write == v;
    }
  }

  /** Hearing a put of an empty value first, and then hearing it again, kills the replica. */
  lemma HeardTwicePanics(w: Write, rest: seq<Delivery>)
    requires w.row.value == []
    ensures !Survives([Follow(w, 0)] + ([Follow(w, 0)] + rest))
  {
    hide DeliveryPanics, IsExpired;
    var ds := [Follow(w, 0)] + ([Follow(w, 0)] + rest);
    var first := ds[..1];
    assert first[..0] == [] && first[0] == Follow(w, 0);
    assert ReceiveAll(map[], first[..0]) == map[];
    var db := ReceiveAll(map[], first);
    assert At(db, w.key) == Present(w.row);
    DeliveryPanicsIff(db, ds[1]);
  }

  lemma EmptyValueKills(ws: set<Write>, w: Write)
    requires w in ws && w.row.value == []
    ensures !AlwaysConverges(ws)
  {
    hide Survives, ReceiveAll;
    var rest := SomeOrder(ws);
    var ds := [Follow(w, 0)] + ([Follow(w, 0)] + rest);
    WritesOfMore(w, rest);
    WritesOfMore(w, [Follow(w, 0)] + rest);
    HeardTwicePanics(w, rest);
    assert WritesOf(ds) == ws;
    assert Delivers(ds, ws);
  }

  /** Replicas stay alive and converge, whatever the order, duplication, path and time of delivery,
      exactly when no put has an empty value, no key has two different puts tied for newest, and every
      key's newest put never expires or is its only one. */
  lemma ConvergesIffUniqueNewest(ws: set<Write>)
    ensures AlwaysConverges(ws) <==> NoEmptyValue(ws) && UniqueNewest(ws) && AllLast(ws)
  {
    hide Survives, ReceiveAll, IsNewest, IsExpired;
    if !NoEmptyValue(ws) {
      var w :| w in ws && w.row.value == [];
      EmptyValueKills(ws, w);
    } else if !UniqueNewest(ws) {
      var key, a, b :| IsNewest(ws, key, a) && IsNewest(ws, key, b) && a != b;
      TieDiverges(ws, key, a, b);
    } else if !AllLast(ws) {
      var key :| !Lasts(ws, key);
      var row :| IsNewest(ws, key, row) && IsExpired(row, LAST_NS) && !OnlyPut(ws, key, row);
      var w :| w in ws && w.key == key && w.row != row;
      assert w == Write(key, w.row);
      LapseDiverges(ws, key, row, w.row);
    } else {
      forall x, y | Delivers(x, ws) && Delivers(y, ws)
        ensures Survives(x) && Survives(y) && ReceiveAll(map[], x) == ReceiveAll(map[], y)
      {
        UniqueNewestConverges(ws, x, y);
      }
    }
  }

  // ---- the sorted-insert backfill --------------------------------------------------------------------

  function AsBackfill(ws: seq<Write>, clock: seq<U64>): seq<Delivery>
    requires |clock| == |ws|
  {
    seq(|ws|, i requires 0 <= i < |ws| => Backfill(ws[i], clock[i]))
  }

  lemma ReceiveNone(db: Db, ds: seq<Delivery>)
    requires ds == []
    ensures ReceiveAll(db, ds) == db
  {
  }

  lemma ReceiveMore(db: Db, ds: seq<Delivery>, i: nat)
    requires i < |ds|
    ensures ReceiveAll(db, ds[..i + 1]) == Receive(ReceiveAll(db, ds[..i]), ds[i])
  {
    assert ds[..i + 1][..i] == ds[..i];
  }

  lemma ReceiveReadable(db: Db, d: Delivery)
    requires AllReadable(db) && d.write.row.value != []
    ensures AllReadable(Receive(db, d)) && !DeliveryPanics(db, d)
  {
    hide IsExpired, Encode, FromBytes;
    DeliveryPanicsIff(db, d);
    var after := Receive(db, d);
    forall k | k in after
      ensures after[k].value != []
    {
      assert At(after, k) == Present(after[k]);
      assert k in db ==> At(db, k) == Present(db[k]);
    }
  }

  lemma {:induction false} StaysReadable(db: Db, ds: seq<Delivery>, n: nat)
    requires n <= |ds| && AllReadable(db) && (forall i | 0 <= i < |ds| :: ds[i].write.row.value != [])
    ensures AllReadable(ReceiveAll(db, ds[..n]))
  {
    hide Receive, AllReadable;
    if n > 0 {
      StaysReadable(db, ds, n - 1);
      ReceiveMore(db, ds, n - 1);
      ReceiveReadable(ReceiveAll(db, ds[..n - 1]), ds[n - 1]);
    }
  }

  /** Where no value is empty, every delivery goes through. */
  lemma ReadableDeliveriesApply(db: Db, ds: seq<Delivery>)
    requires AllReadable(db) && (forall i | 0 <= i < |ds| :: ds[i].write.row.value != [])
    ensures SurvivesUpTo(db, ds, |ds|)
  {
    hide ReceiveAll, Receive, DeliveryPanics, AllReadable;
    forall i | 0 <= i < |ds|
      ensures !DeliveryPanics(ReceiveAll(db, ds[..i]), ds[i])
    {
      StaysReadable(db, ds, i);
      ReceiveReadable(ReceiveAll(db, ds[..i]), ds[i]);
    }
  }

  datatype Outcome = Added | Expired | Updated | Skipped | Panicked

  /** The callback on one merged row: what it stores, which counter it raises, and when it panics. */
  method InsertRow(db: Db, w: Write, nowNs: U64) returns (r: Db, outcome: Outcome)
    ensures outcome.Panicked? <==> DeliveryPanics(db, Backfill(w, nowNs))
    ensures outcome.Panicked? <==>
            w.key in db && (db[w.key].value == [] || (!IsExpired(db[w.key], nowNs) && w.row.value == []))
    ensures r == if outcome.Panicked? then db else Receive(db, Backfill(w, nowNs))
    ensures outcome.Added? <==> w.key !in db
    ensures outcome.Skipped? ==> r == db
    ensures |r| == |db| + if outcome.Added? then 1 else 0
  {
    hide IsExpired, Encode, FromBytes, DeliveryPanics;
    DeliveryPanicsIff(db, Backfill(w, nowNs));
    if w.key !in db {
      return db[w.key := w.row], Added;
    }
    RoundTrip(db[w.key]);
    RoundTrip(w.row);
    var existing := FromBytes(Encode(db[w.key]));
    if existing.Rejected? {
      return db, Panicked;
    }
    if IsExpired(existing.entry, nowNs) {
      return db[w.key := w.row], Expired;
    }
    var incoming := FromBytes(Encode(w.row));
    if incoming.Rejected? {
      return db, Panicked;
    }
    if existing.entry.updatedAtNs < incoming.entry.updatedAtNs {
      return db[w.key := w.row], Updated;
    }
    assert db[w.key := db[w.key]] == db;
    return db, Skipped;
  }

  /** The slow backfill is a sequence of backfill deliveries. Every incoming row is counted once, as new,
      over an expired row, as an update, or skipped; if all are skipped nothing changed. It stops at the
      first row that panics. */
  method SortedInsert(db: Db, ws: seq<Write>, clock: seq<U64>)
    returns (r: Db, added: nat, expired: nat, updated: nat, skipped: nat)
    requires |clock| == |ws|
    ensures var n, ds := added + expired + updated + skipped, AsBackfill(ws, clock);
            && n <= |ws| && SurvivesUpTo(db, ds, n)
            && r == ReceiveAll(db, ds[..n])
            && (n < |ws| ==> DeliveryPanics(r, ds[n]))
            && (skipped == n ==> r == db)
    ensures |r| == |db| + added
  {
    hide Receive, ReceiveAll, DeliveryPanics;
    ghost var ds := AsBackfill(ws, clock);
    ReceiveNone(db, ds[..0]);
    r, added, expired, updated, skipped := db, 0, 0, 0, 0;
    var i := 0;
    while i < |ws|
      invariant i <= |ws| && r == ReceiveAll(db, ds[..i])
      invariant added + expired + updated + skipped == i && SurvivesUpTo(db, ds, i)
      invariant skipped == i ==> r == db
      invariant |r| == |db| + added
    {
      ReceiveMore(db, ds, i);
      var outcome;
      r, outcome := InsertRow(r, ws[i], clock[i]);
      if outcome.Panicked? {
        return;
      }
      i := i + 1;
      match outcome
      case Added => added := added + 1;
      case Expired => expired := expired + 1;
      case Updated => updated := updated + 1;
      case Skipped => skipped := skipped + 1;
    }
  }
}
