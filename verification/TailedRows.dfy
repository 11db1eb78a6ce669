/** From the bytes of a source's log to the rows of its follower: a tailing run, entry by entry, is a run
    of the replication system. */
module TailedRows {
  import opened Bytes
  import opened Codec
  import opened FrameFormat
  import opened LastWriteWins
  import opened Rows
  import opened Follower
  import Tail
  import R = Replication

  /** The log entries that payloads stand for. */
  function Decoded(decode: Payload -> LogEntry, ps: seq<Payload>): seq<LogEntry> {
    seq(|ps|, i requires 0 <= i < |ps| => decode(ps[i]))
  }

  /** The server's filter is the filter on the decoded entry. */
  ghost predicate SameFilter(c: R.Config, q: Tail.Request, decode: Payload -> LogEntry) {
    forall p :: q.wanted(p) <==> R.Delivered(c, decode(p))
  }

  /** Filtering payloads, then decoding, is decoding, then filtering entries. */
  lemma {:induction false} WantedIsDelivered(c: R.Config, q: Tail.Request, decode: Payload -> LogEntry,
                                             ps: seq<Payload>)
    requires SameFilter(c, q, decode)
    ensures Decoded(decode, Tail.Wanted(q, ps)) == R.DeliveredOf(c, Decoded(decode, ps))
    decreases |ps|
  {
    hide R.Delivered;
    if ps != [] {
      var n := |ps| - 1;
      WantedIsDelivered(c, q, decode, ps[..n]);
      assert Decoded(decode, ps)[..n] == Decoded(decode, ps[..n]);
      var before := Tail.Wanted(q, ps[..n]);
      assert Decoded(decode, before + [ps[n]]) == Decoded(decode, before) + [decode(ps[n])];
    }
  }

  /** A follower that stands at the entry where a tailing run starts, and whose source's log decodes from
      the history that run ends in. */
  ghost predicate Aligned(c: R.Config, s: R.State, q: Tail.Request, t: Tail.State, start: nat,
                          decode: Payload -> LogEntry) {
    && SameFilter(c, q, decode)
    && s.rep.phase == R.Following && s.rep.next == start
    && s.src.log == Decoded(decode, Tail.Flat(t.hist))
  }

  /** Applying what a tailing run delivered is taking one Tail step for every entry it read. */
  lemma TailingIsTailSteps(c: R.Config, s: R.State, q: Tail.Request, t0: Tail.State, run: seq<Tail.Action>,
                           start: nat, decode: Payload -> LogEntry)
    requires Tail.Init(t0, start) && Tail.ValidRun(q, t0, run)
    requires Aligned(c, s, q, Tail.Final(q, t0, run), start, decode)
    ensures var reader := Tail.Final(q, t0, run).reader;
            && start + |reader.read| <= |s.src.log|
            && R.ValidRun(c, s, R.Tails(|reader.read|))
            && var u := R.Final(c, s, R.Tails(|reader.read|));
               && u.src == s.src && u.rep.phase == R.Following && u.rep.next == start + |reader.read|
               && u.rep.rows == ApplyAll(c.lookup, s.rep.rows, Decoded(decode, reader.delivered))
  {
    hide Tail.Flat, Tail.Wanted, Tail.Init, Tail.ValidRun, Tail.Final, R.ValidRun, R.Final, R.HearAll, R.DeliveredOf;
    hide ApplyAll, SameFilter;
    Tail.TailContiguity(q, t0, run, start);
    var t := Tail.Final(q, t0, run);
    var all, k := Tail.Flat(t.hist), |t.reader.read|;
    assert start + k <= |all|;
    R.TailsHear(c, s, k);
    var stretch := s.src.log[start..start + k];
    R.HearAllIsApplyAll(c, s.rep.rows, stretch);
    assert stretch == Decoded(decode, all[start..start + k]);
    WantedIsDelivered(c, q, decode, all[start..start + k]);
  }

  /** From bytes to rows. A follower anywhere in a run of the replication system tails its source's log from
      its position, against any appends, rotations and purges. Once it has applied what it was sent and is
      past every write its copy saw, its row of every key in scope is the source's row at the entry where
      the reading ended. */
  lemma TailedRowsMeetSource(c: R.Config, s0: R.State, steps: seq<R.Action>, q: Tail.Request, t0: Tail.State,
                             run: seq<Tail.Action>, start: nat, decode: Payload -> LogEntry, key: ByteString)
    requires R.Init(c, s0) && R.ValidRun(c, s0, steps) && c.lookup.Repaired? && R.InScope(c, key)
    requires Tail.Init(t0, start) && Tail.ValidRun(q, t0, run)
    requires Aligned(c, R.Final(c, s0, steps), q, Tail.Final(q, t0, run), start, decode)
    ensures var s, reader := R.Final(c, s0, steps), Tail.Final(q, t0, run).reader;
            var end := start + |reader.read|;
            && R.ValidRun(c, s, R.Tails(|reader.read|))
            && var u := R.Final(c, s, R.Tails(|reader.read|));
               && u.rep.rows == ApplyAll(c.lookup, s.rep.rows, Decoded(decode, reader.delivered))
               && end <= |s.src.log| && (R.Settled(u) ==> At(u.rep.rows, key) == R.SourceAt(s.src, end, key))
  {
    hide Tail.Init, Tail.ValidRun, Tail.Final, R.ValidRun, R.Final, R.Inv, R.Init, R.InScope, R.SourceAt;
    hide ApplyAll, Aligned, Decoded;
    var s := R.Final(c, s0, steps);
    R.InitOk(c, s0);
    R.RunKeepsInv(c, s0, steps);
    TailingIsTailSteps(c, s, q, t0, run, start, decode);
    var k := |Tail.Final(q, t0, run).reader.read|;
    R.RunKeepsInv(c, s, R.Tails(k));
    var u := R.Final(c, s, R.Tails(k));
    if R.Settled(u) {
      R.RepairedRow(c, u, key);
    }
  }
}
