/** When a tail of the binlog waits, when it reads on, and when it is stuck for good. */
module TailProgress {
  import opened FrameFormat
  import opened Binlog
  import opened Tail

  /** A file is open, or it was closed and its readers were told so. */
  ghost predicate Notified(l: Log) {
    forall k | k in l.files :: l.files[k].isOpen <==> !l.files[k].hasShutdown
  }

  predicate Readable(l: Log, segment: nat) {
    segment in l.files && l.files[segment].isOpen && !l.files[segment].hasShutdown
  }

  // ---- waiting -----------------------------------------------------------------------------

  /** A log that starts in an empty directory is in that state after any appends. */
  lemma {:induction false} NotifiedFromEmpty(maxSize: nat, countLimit: nat, ps: seq<Payload>)
    ensures Notified(AppendAll(EmptyLog(maxSize, countLimit), ps))
    decreases |ps|
  {
    if ps != [] {
      NotifiedFromEmpty(maxSize, countLimit, ps[..|ps| - 1]);
      hide Frame;
    }
  }

  lemma StepKeepsNotified(q: Request, s: State, a: Action)
    requires |s.hist| > 0 && Enabled(s, a) && Notified(s.log)
    ensures Notified(Do(q, s, a).log)
  {
    hide Frame, ReadOneMore, EnterRead, SendBatch;
  }

  lemma {:induction false} RunKeepsNotified(q: Request, s: State, run: seq<Action>)
    requires ValidRun(q, s, run) && Notified(s.log)
    ensures Notified(Final(q, s, run).log)
    decreases |run|
  {
    if run != [] {
      StepKeepsNotified(q, s, run[0]);
      RunKeepsNotified(q, Do(q, s, run[0]), run[1..]);
    }
  }

  /** It has read everything, and does not stand at the end of a full segment. */
  ghost predicate HasReadAll(s: State, start: nat) {
    && start + |s.reader.read| == |Flat(s.hist)|
    && (s.reader.segment < |s.hist| ==> !Full(s.hist[s.reader.segment], s.log.maxSize))
  }

  lemma EndOfSegmentIs(ps: seq<Payload>, i: nat)
    requires i <= |ps|
    ensures Boundary(ps, i) <= |Frames(ps)| == Boundary(ps, |ps|)
    ensures Boundary(ps, i) == |Frames(ps)| <==> i == |ps|
  {
    assert ps[..|ps|] == ps;
    if i < |ps| {
      BoundariesIncrease(ps, i, |ps|);
    }
  }

  lemma LastSegmentEnds(hist: seq<seq<Payload>>)
    requires |hist| > 0
    ensures Base(hist, |hist|) == |Flat(hist)| == Base(hist, |hist| - 1) + |hist[|hist| - 1]|
  {
    assert hist[..|hist|] == hist;
  }

  /** Only the last segment is not full, and a reader there has read all exactly at its end. */
  lemma ReadAllIsEnd(s: State, start: nat)
    requires LogOk(s) && ReaderOk(s, start) && s.reader.mode.Calling?
    ensures HasReadAll(s, start) <==>
            || s.reader.segment == |s.hist|
            || (&& s.reader.segment == s.log.segment && !Full(s.hist[s.log.segment], s.log.maxSize)
                && s.reader.at == |s.hist[s.log.segment]|)
  {
    hide Flat, Frames, Full, FilesOk;
    LastSegmentEnds(s.hist);
  }

  /** A tail about to read waits if and only if it has read all there is. */
  lemma WaitsIff(s: State, start: nat)
    requires LogOk(s) && ReaderOk(s, start) && s.reader.mode.Calling? && Notified(s.log)
    ensures !MayEnter(s.log, s.reader) <==> HasReadAll(s, start)
  {
    ReadAllIsEnd(s, start);
    hide Flat, Frames, HasReadAll;
    var r := s.reader;
    if r.segment < |s.hist| {
      EndOfSegmentIs(s.hist[r.segment], r.at);
    }
  }

  /** No lost wake-up. However appends, rotations, purges and reads interleave, a tail about to
      read waits if and only if it has read all there is; a closed segment never keeps it waiting. */
  lemma TailWaitsIff(q: Request, s0: State, run: seq<Action>, start: nat)
    requires Init(s0, start) && Notified(s0.log) && ValidRun(q, s0, run)
    ensures var s := Final(q, s0, run);
            s.reader.mode.Calling? ==> (!Enabled(s, Enter) <==> HasReadAll(s, start))
  {
    hide Flat, Frames, LogOk, ReaderOk, HasReadAll, ValidRun, Final, Init;
    InitOk(q, s0, start);
    RunKeepsInv(q, s0, run, start);
    RunKeepsNotified(q, s0, run);
    var s := Final(q, s0, run);
    if s.reader.mode.Calling? {
      WaitsIff(s, start);
    }
  }

  // ---- one batch ---------------------------------------------------------------------------

  lemma ReadFindsIff(s: State, start: nat)
    requires LogOk(s) && ReaderOk(s, start) && s.reader.mode.Reading?
    ensures var r := s.reader; var i := r.at + |r.mode.batch|;
            ReadOne(s.log, r.segment, r.mode.next).ReadOk? <==>
            r.segment in s.log.files && s.log.files[r.segment].isOpen && i < |s.hist[r.segment]|
  {
    hide Flat, Frames, ReadFrame;
    var r := s.reader;
    var ps, i := s.hist[r.segment], r.at + |r.mode.batch|;
    if r.segment in s.log.files {
      ReadAtBoundary(ps, i);
    }
  }

  /** A batch grows until it has the limit, the open file has no further entry, or the entry just
      read crosses the rotation size. */
  lemma BatchGrowsIff(q: Request, s: State, start: nat)
    requires LogOk(s) && ReaderOk(s, start) && s.reader.mode.Reading?
    ensures var r := s.reader; var i := r.at + |r.mode.batch|;
            ReadOneMore(q, s.log, r).mode.Reading? <==>
            && |r.mode.batch| < q.limit
            && r.segment in s.log.files && s.log.files[r.segment].isOpen && i < |s.hist[r.segment]|
            && Boundary(s.hist[r.segment], i + 1) < s.log.maxSize
  {
    ReadFindsIff(s, start);
    hide Flat, Frames, ReadOne, Boundary, LogOk, ReaderOk;
    if ReadOne(s.log, s.reader.segment, s.reader.mode.next).ReadOk? {
      ReadFindsNext(s, start);
    }
  }

  // ---- a tail that fell behind -------------------------------------------------------------

  function Phase(m: Mode): nat {
    match m
    case Calling(second) => if second then 2 else 4
    case Reading(second, _, _) => if second then 1 else 3
    case _ => 0
  }

  function Remaining(s: State): nat {
    var r := s.reader;
    if r.mode.Reading? && r.segment < |s.hist| && r.at + |r.mode.batch| <= |s.hist[r.segment]|
    then |s.hist[r.segment]| - r.at - |r.mode.batch|
    else 0
  }

  /** An unread entry in a segment that can be read, and a batch worth sending. */
  ghost predicate OnItsWay(s: State) {
    var r := s.reader;
    && Readable(s.log, r.segment)
    && r.segment < |s.hist| && r.at < |s.hist[r.segment]|
    && !r.mode.Stopped? && (r.mode.Sending? ==> r.mode.batch != [])
  }

  lemma EnterOnItsWay(q: Request, s: State, start: nat)
    requires LogOk(s) && ReaderOk(s, start) && OnItsWay(s) && s.reader.mode.Calling?
    ensures Enabled(s, Enter)
    ensures var t := Do(q, s, Enter);
            LogOk(t) && ReaderOk(t, start) && OnItsWay(t) && Phase(t.reader.mode) == Phase(s.reader.mode) - 1
  {
    hide Flat, Frames;
    EndOfSegmentIs(s.hist[s.reader.segment], s.reader.at);
    assert MayEnter(s.log, s.reader);
    EnterKeepsReader(s, start);
    assert BeginsBelow(s.hist[s.reader.segment], s.log.maxSize);
  }

  lemma BatchInSegment(s: State, start: nat)
    requires LogOk(s) && ReaderOk(s, start) && s.reader.mode.Reading?
    ensures s.reader.segment < |s.hist| && s.reader.at + |s.reader.mode.batch| <= |s.hist[s.reader.segment]|
    ensures forall r: Reader :: LogOk(s.(reader := r))
  {
    hide Flat, Frames;
  }

  /** One more entry, or a batch that is returned. */
  lemma ReadMovesOn(q: Request, s: State, start: nat)
    requires LogOk(s) && ReaderOk(s, start) && OnItsWay(s) && s.reader.mode.Reading? && q.limit > 0
    ensures var r, t := s.reader, ReadOneMore(q, s.log, s.reader);
            && t == r.(mode := t.mode) && !t.mode.Stopped?
            && (t.mode.Calling? ==> t.mode.second && !r.mode.second)
            && (t.mode.Sending? ==> t.mode.batch != [])
            && (t.mode.Reading? ==> t.mode.second == r.mode.second && |t.mode.batch| == |r.mode.batch| + 1)
  {
    ReadFindsIff(s, start);
    hide Flat, Frames, ReadOne, LogOk, ReaderOk, Boundary;
  }

  lemma ReadOnItsWay(q: Request, s: State, start: nat)
    requires LogOk(s) && ReaderOk(s, start) && OnItsWay(s) && s.reader.mode.Reading? && q.limit > 0
    ensures var t := s.(reader := ReadOneMore(q, s.log, s.reader));
            && LogOk(t) && ReaderOk(t, start) && OnItsWay(t)
            && (|| Phase(t.reader.mode) < Phase(s.reader.mode)
                || (Phase(t.reader.mode) == Phase(s.reader.mode) && Remaining(t) < Remaining(s)))
  {
    var t := s.(reader := ReadOneMore(q, s.log, s.reader));
    ReadKeepsReader(q, s, start);
    ReadMovesOn(q, s, start);
    BatchInSegment(s, start);
    if t.reader.mode.Reading? {
      BatchInSegment(t, start);
    }
    hide Flat, Frames, ReadOneMore, LogOk, ReaderOk;
  }

  lemma HasSegments(s: State)
    requires LogOk(s)
    ensures |s.hist| > 0
  {
  }

  lemma BatchAtHand(s: State)
    requires OnItsWay(s)
    ensures !s.reader.mode.Stopped? && (s.reader.mode.Sending? ==> s.reader.mode.batch != [])
  {
  }

  /** From there the tail can go on alone until it has sent something. */
  lemma {:induction false} SendsSomething(q: Request, s: State, start: nat) returns (run: seq<Action>)
    requires LogOk(s) && ReaderOk(s, start) && OnItsWay(s) && q.limit > 0
    ensures ValidRun(q, s, run) && Final(q, s, run).reader.read != []
    decreases Phase(s.reader.mode), Remaining(s)
  {
    hide LogOk, ReaderOk, OnItsWay;
    HasSegments(s);
    BatchAtHand(s);
    if s.reader.mode.Sending? {
      run := [Send];
      assert Final(q, s, run) == Final(q, Do(q, s, Send), run[1..]);
    } else {
      var a := if s.reader.mode.Calling? then Enter else ReadEntry;
      if s.reader.mode.Calling? {
        EnterOnItsWay(q, s, start);
      } else {
        ReadOnItsWay(q, s, start);
      }
      var rest := SendsSomething(q, Do(q, s, a), start);
      run := [a] + rest;
      assert run[1..] == rest;
    }
  }

  /** Nothing read, nothing at hand, and nothing to come: the limit is not positive, or the
      segment can no longer be read and its end is still ahead. */
  ghost predicate Silent(q: Request, s: State) {
    var r := s.reader;
    && r.read == []
    && (r.mode.Reading? || r.mode.Sending? ==> r.mode.batch == [])
    && (q.limit > 0 ==>
          && !r.mode.Sending? && r.offset < s.log.maxSize
          && r.segment <= s.log.segment && !Readable(s.log, r.segment)
          && (r.mode.Reading? && r.segment in s.log.files ==> !s.log.files[r.segment].isOpen))
  }

  lemma StepKeepsSilent(q: Request, s: State, a: Action)
    requires |s.hist| > 0 && Enabled(s, a) && Silent(q, s)
    ensures Silent(q, Do(q, s, a))
  {
    hide Frame, ReadFrame;
  }

  lemma {:induction false} StaysSilent(q: Request, s: State, run: seq<Action>)
    requires ValidRun(q, s, run) && Silent(q, s)
    ensures Final(q, s, run).reader.read == []
    decreases |run|
  {
    if run != [] {
      StepKeepsSilent(q, s, run[0]);
      StaysSilent(q, Do(q, s, run[0]), run[1..]);
    }
  }

  ghost predicate CanRead(q: Request, s: State) {
    exists run :: ValidRun(q, s, run) && Final(q, s, run).reader.read != []
  }

  /** A tail that asks for an unread entry can get it if and only if it may read entries at all and
      the entry's segment is the one still being written. Once a segment was rotated away, no run,
      however long, gives a follower that is still inside it another entry. */
  lemma TailReadsIff(q: Request, s: State, start: nat)
    requires Init(s, start) && s.reader.at < |s.hist[s.reader.segment]|
    ensures CanRead(q, s) <==> q.limit > 0 && Readable(s.log, s.reader.segment)
  {
    hide Flat, Frames, ValidRun, Final;
    if q.limit > 0 && Readable(s.log, s.reader.segment) {
      InitOk(q, s, start);
      var run := SendsSomething(q, s, start);
    } else {
      assert BeginsBelow(s.hist[s.reader.segment], s.log.maxSize);
      assert Silent(q, s);
      forall run | ValidRun(q, s, run)
        ensures Final(q, s, run).reader.read == []
      {
        StaysSilent(q, s, run);
      }
    }
  }
}
