/** The rule by which a replica merges incoming writes into one row, and the algebra
    that makes replaying a log safe. */
module LastWriteWins {
  import opened Codec

  /** One key of a store: no row, or a row. */
  datatype Slot = Absent | Present(row: Entry)

  /** One write to one key, with its event time. */
  datatype Op = PutOp(row: Entry) | DeleteOp(deletedAtNs: U64)

  function Time(op: Op): U64 {
    match op
    case PutOp(row) => row.updatedAtNs
    case DeleteOp(t) => t
  }

  predicate NoTtl(slot: Slot) {
    slot.Present? ==> slot.row.ttlSecond == 0
  }

  predicate OpNoTtl(op: Op) {
    op.PutOp? ==> op.row.ttlSecond == 0
  }

  /** What a write leaves behind when nothing newer is there. */
  function Effect(op: Op): Slot {
    match op
    case PutOp(row) => Present(row)
    case DeleteOp(_) => Absent
  }

  /** processEntry on one key, expiry checks included. */
  function ApplyAt(slot: Slot, op: Op, nowNs: U64): Slot {
    match op
    case DeleteOp(t) =>
      if slot.Absent? || IsExpired(slot.row, nowNs) || slot.row.updatedAtNs > t then slot else Absent
    case PutOp(row) =>
      if slot.Absent? then Present(row)
      else if IsExpired(slot.row, nowNs) then (if IsExpired(row, nowNs) then slot else Present(row))
      else if slot.row.updatedAtNs > row.updatedAtNs then slot
      else Present(row)
  }

  /** The same rule for rows that never expire: only a strictly newer row resists a write. */
  function Step(slot: Slot, op: Op): Slot {
    if slot.Present? && slot.row.updatedAtNs > Time(op) then slot else Effect(op)
  }

  lemma ApplyAtWithoutTtl(slot: Slot, op: Op, nowNs: U64)
    requires NoTtl(slot) && OpNoTtl(op)
    ensures ApplyAt(slot, op, nowNs) == Step(slot, op)
    ensures NoTtl(Step(slot, op))
  {
  }

  /** What a reader sees at some time. */
  function Visible(slot: Slot, nowNs: U64): Slot {
    if slot.Present? && IsExpired(slot.row, nowNs) then Absent else slot
  }

  lemma StaysExpired(row: Entry, nowNs: U64, laterNs: U64)
    requires IsExpired(row, nowNs) && nowNs <= laterNs
    ensures IsExpired(row, laterNs)
  {
  }

  /** Whatever the times to live, to readers then and later a write acts as last write wins on what was
      visible: a live row yields only to a write that is not older, and an expired one is as good as none. */
  lemma ReadersSeeLastWriteWins(slot: Slot, op: Op, nowNs: U64, laterNs: U64)
    requires nowNs <= laterNs
    ensures Visible(ApplyAt(slot, op, nowNs), laterNs) == Visible(Step(Visible(slot, nowNs), op), laterNs)
  {
    if slot.Present? && IsExpired(slot.row, nowNs) {
      StaysExpired(slot.row, nowNs, laterNs);
      if op.PutOp? && IsExpired(op.row, nowNs) {
        StaysExpired(op.row, nowNs, laterNs);
      }
    }
  }

  /** What is stored: a live row goes exactly when the write is not older, an expired one exactly for a put
      that has not expired itself. */
  lemma StoredRowGoesIff(slot: Slot, op: Op, nowNs: U64)
    requires slot.Present? && Effect(op) != slot
    ensures ApplyAt(slot, op, nowNs) != slot <==>
            if Visible(slot, nowNs).Present? then slot.row.updatedAtNs <= Time(op)
            else Visible(Effect(op), nowNs).Present?
    ensures ApplyAt(slot, op, nowNs) == slot || ApplyAt(slot, op, nowNs) == Effect(op)
  {
  }

  /** Applies writes in order. */
  function Fold(slot: Slot, ops: seq<Op>): Slot {
    if ops == [] then slot else Step(Fold(slot, ops[..|ops| - 1]), ops[|ops| - 1])
  }

  lemma {:induction false} FoldConcat(slot: Slot, a: seq<Op>, b: seq<Op>)
    ensures Fold(slot, a + b) == Fold(Fold(slot, a), b)
    decreases |b|
  {
    if b == [] {
      assert a + b == a;
    } else {
      var init := b[..|b| - 1];
      FoldConcat(slot, a, init);
      assert (a + b)[..|a + b| - 1] == a + init;
    }
  }

  ghost predicate StrictlyNewer(slot: Slot, ops: seq<Op>) {
    slot.Present? && forall i :: 0 <= i < |ops| ==> slot.row.updatedAtNs > Time(ops[i])
  }

  /** A row that a log produces on its own is one of the log's own puts. */
  lemma {:induction false} FoldComesFromLog(ops: seq<Op>)
    ensures Fold(Absent, ops).Present? ==> PutOp(Fold(Absent, ops).row) in ops
    decreases |ops|
  {
    if ops != [] {
      var init := ops[..|ops| - 1];
      FoldComesFromLog(init);
      assert ops == init + [ops[|ops| - 1]];
    }
  }

  /** The effect of any log on one key: keep the local row if it is strictly newer than
      everything in the log, otherwise forget it and take the log's own result. */
  lemma {:induction false} FoldForm(slot: Slot, ops: seq<Op>)
    ensures Fold(slot, ops) == if StrictlyNewer(slot, ops) then slot else Fold(Absent, ops)
    decreases |ops|
  {
    if ops != [] {
      var init := ops[..|ops| - 1];
      FoldForm(slot, init);
      FoldComesFromLog(init);
      if StrictlyNewer(slot, init) && Fold(Absent, init).Present? {
        var i :| 0 <= i < |init| && init[i] == PutOp(Fold(Absent, init).row);
        assert slot.row.updatedAtNs > Time(init[i]);
      }
      if !StrictlyNewer(slot, init) && slot.Present? {
        var i :| 0 <= i < |init| && slot.row.updatedAtNs <= Time(init[i]);
        assert ops[i] == init[i];
      }
    }
  }

  /** Applying a write ahead of a log that contains it changes nothing. */
  lemma FoldAbsorbs(slot: Slot, op: Op, ops: seq<Op>)
    requires op in ops
    ensures Fold(Step(slot, op), ops) == Fold(slot, ops)
  {
    FoldForm(slot, ops);
    FoldForm(Step(slot, op), ops);
    var i :| 0 <= i < |ops| && ops[i] == op;
    if StrictlyNewer(slot, ops) {
      assert slot.row.updatedAtNs > Time(ops[i]);
    }
  }

  /** Replaying any stretch of writes twice equals replaying it once. */
  lemma {:induction false} FoldIdempotent(slot: Slot, ops: seq<Op>)
    ensures Fold(Fold(slot, ops), ops) == Fold(slot, ops)
  {
    FoldAbsorbsPrefix(slot, ops, |ops|);
    assert ops[..|ops|] == ops;
  }

  lemma {:induction false} FoldAbsorbsPrefix(slot: Slot, ops: seq<Op>, n: nat)
    requires n <= |ops|
    ensures Fold(Fold(slot, ops[..n]), ops) == Fold(slot, ops)
    decreases n
  {
    if n > 0 {
      FoldAbsorbsPrefix(slot, ops, n - 1);
      assert ops[..n][..n - 1] == ops[..n - 1];
      assert ops[n - 1] in ops;
      FoldAbsorbs(Fold(slot, ops[..n - 1]), ops[n - 1], ops);
    } else {
      assert ops[..0] == [];
    }
  }

  ghost predicate NonDecreasing(ops: seq<Op>) {
    forall i, j :: 0 <= i <= j < |ops| ==> Time(ops[i]) <= Time(ops[j])
  }

  /** A source writes blindly: its row is the effect of its latest write. */
  function Latest(slot: Slot, ops: seq<Op>): Slot {
    if ops == [] then slot else Effect(ops[|ops| - 1])
  }

  /** When event times never go back, the merging rule and blind overwriting agree,
      whatever row (no newer than the last write) the replica began with. */
  lemma FoldFollowsLatest(slot: Slot, ops: seq<Op>)
    requires NonDecreasing(ops)
    requires slot.Present? && ops != [] ==> slot.row.updatedAtNs <= Time(ops[|ops| - 1])
    ensures Fold(slot, ops) == Latest(slot, ops)
  {
    if ops != [] {
      var n := |ops| - 1;
      var init := ops[..n];
      FoldForm(slot, init);
      FoldComesFromLog(init);
      var before := Fold(slot, init);
      if before.Present? && before != slot {
        var i :| 0 <= i < |init| && init[i] == PutOp(before.row);
        assert Time(ops[i]) <= Time(ops[n]);
      }
    }
  }
}
