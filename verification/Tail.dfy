/** TailBinlog reading the segmented log while one writer appends, rotates and purges. */
module Tail {
  import opened FrameFormat
  import opened Binlog

  /** A read that returns this few entries is repeated once before it is sent. */
  const RETRY_BELOW := 100

  /** The read limit and the shard filter of one request. */
  datatype Request = Request(limit: int, wanted: Payload -> bool)

  /** Where the tailing loop is: about to call ReadEntries (first or second attempt), between two
      entries of that call, holding a batch to send, or ended by an error. */
  datatype Mode =
    | Calling(second: bool)
    | Reading(second: bool, next: nat, batch: seq<Payload>)
    | Sending(batch: seq<Payload>, nextSegment: nat, nextOffset: nat)
    | Stopped

  /** `at` and `read` record history: which entry of its segment the offset stands for, and
      everything read so far, wanted or not. */
  datatype Reader = Reader(
    segment: nat,
    offset: nat,
    mode: Mode,
    delivered: seq<Payload>,
    at: nat,
    read: seq<Payload>)

  /** `hist` records every entry ever appended, by segment. */
  datatype State = State(log: Log, rotating: bool, hist: seq<seq<Payload>>, reader: Reader)

  datatype Action =
    | AppendEntry(payload: Payload)
    | StartRotation
    | FinishRotation
    | Enter
    | ReadEntry
    | Send
    | SendFails

  function Flat(hist: seq<seq<Payload>>): seq<Payload> {
    if hist == [] then [] else Flat(hist[..|hist| - 1]) + hist[|hist| - 1]
  }

  /** How many entries precede segment `segment`. */
  function Base(hist: seq<seq<Payload>>, segment: nat): nat
    requires segment <= |hist|
  {
    |Flat(hist[..segment])|
  }

  function Wanted(q: Request, ps: seq<Payload>): seq<Payload> {
    if ps == [] then []
    else
      var n := |ps| - 1;
      Wanted(q, ps[..n]) + if q.wanted(ps[n]) then [ps[n]] else []
  }

  // ---- the reader's steps ------------------------------------------------------------------

  /** ReadEntries returned normally. */
  function Returned(r: Reader, second: bool, batch: seq<Payload>, next: nat): Reader {
    if !second && |batch| <= RETRY_BELOW then r.(mode := Calling(true))
    else r.(mode := Sending(batch, r.segment, next))
  }

  /** ReadEntries returned io.EOF: the segment is exhausted. */
  function ReturnedEof(r: Reader, batch: seq<Payload>): Reader {
    r.(mode := Sending(batch, r.segment + 1, 0))
  }

  /** ReadEntries waits for the segment to exist and for bytes past the offset. */
  predicate MayEnter(l: Log, r: Reader) {
    && r.mode.Calling?
    && r.segment <= l.segment
    && (r.segment in l.files && r.offset < l.maxSize ==>
          r.offset < l.files[r.segment].offset || l.files[r.segment].hasShutdown)
  }

  function EnterRead(l: Log, r: Reader): Reader
    requires r.mode.Calling?
  {
    if r.segment !in l.files then r.(mode := Stopped)
    else if r.offset >= l.maxSize then ReturnedEof(r, [])
    else if l.files[r.segment].hasShutdown then r.(mode := Stopped)
    else r.(mode := Reading(r.mode.second, r.offset, []))
  }

  function ReadOneMore(q: Request, l: Log, r: Reader): Reader
    requires r.mode.Reading?
  {
    var Reading(second, next, batch) := r.mode;
    if |batch| >= q.limit then Returned(r, second, batch, next)
    else
      match ReadOne(l, r.segment, next)
      case ReadError => if batch == [] then r.(mode := Stopped) else Returned(r, second, batch, next)
      case ReadOk(p, after) =>
        if after >= l.maxSize then ReturnedEof(r, batch + [p])
        else r.(mode := Reading(second, after, batch + [p]))
  }

  function SendBatch(q: Request, r: Reader): Reader
    requires r.mode.Sending?
  {
    var Sending(batch, nextSegment, nextOffset) := r.mode;
    Reader(nextSegment, nextOffset, Calling(false),
           r.delivered + Wanted(q, batch),
           if nextSegment == r.segment then r.at + |batch| else 0,
           r.read + batch)
  }

  // ---- the system --------------------------------------------------------------------------

  predicate Enabled(s: State, a: Action) {
    match a
    case AppendEntry(p) => !s.rotating && s.log.segment in s.log.files && !MustRotate(s.log) && Fits(p)
    case StartRotation => !s.rotating && s.log.segment in s.log.files && MustRotate(s.log)
    case FinishRotation => s.rotating && s.log.segment + 1 < TWO_32
    case Enter => MayEnter(s.log, s.reader)
    case ReadEntry => s.reader.mode.Reading?
    case Send => s.reader.mode.Sending?
    case SendFails => s.reader.mode.Sending?
  }

  function Do(q: Request, s: State, a: Action): State
    requires Enabled(s, a)
    requires |s.hist| > 0
  {
    var n := |s.hist| - 1;
    match a
    case AppendEntry(p) => s.(log := AppendFrame(s.log, p), hist := s.hist[n := s.hist[n] + [p]])
    case StartRotation => s.(log := CloseCurrent(s.log), rotating := true)
    case FinishRotation => s.(log := StartNext(s.log), rotating := false, hist := s.hist + [[]])
    case Enter => s.(reader := EnterRead(s.log, s.reader))
    case ReadEntry => s.(reader := ReadOneMore(q, s.log, s.reader))
    case Send => s.(reader := SendBatch(q, s.reader))
    case SendFails => s.(reader := s.reader.(mode := Stopped))
  }

  // ---- invariants --------------------------------------------------------------------------

  ghost predicate SegmentFits(ps: seq<Payload>) {
    forall i :: 0 <= i < |ps| ==> Fits(ps[i])
  }

  /** Every entry of a segment begins below the rotation size. */
  ghost predicate BeginsBelow(ps: seq<Payload>, maxSize: nat) {
    forall i :: 0 <= i < |ps| ==> Boundary(ps, i) < maxSize
  }

  predicate Full(ps: seq<Payload>, maxSize: nat) {
    Boundary(ps, |ps|) >= maxSize
  }

  ghost predicate HistOk(hist: seq<seq<Payload>>, maxSize: nat) {
    forall k :: 0 <= k < |hist| ==> SegmentFits(hist[k]) && BeginsBelow(hist[k], maxSize)
  }

  ghost predicate FilesOk(l: Log, rotating: bool, hist: seq<seq<Payload>>)
    requires |hist| == l.segment + 1
  {
    && l.segment in l.files
    && (forall k | k in l.files :: k <= l.segment && l.files[k].data == Frames(hist[k]))
    && (forall k | k in l.files :: l.files[k].isOpen ==> k == l.segment)
    && (!rotating ==> l.files[l.segment].isOpen && l.files[l.segment].offset == |Frames(hist[l.segment])|)
    && (rotating ==> !l.files[l.segment].isOpen && Full(hist[l.segment], l.maxSize))
  }

  ghost predicate LogOk(s: State) {
    && |s.hist| == s.log.segment + 1
    && s.log.maxSize > 0
    && HistOk(s.hist, s.log.maxSize)
    && (forall k :: 0 <= k < s.log.segment ==> Full(s.hist[k], s.log.maxSize))
    && FilesOk(s.log, s.rotating, s.hist)
  }

  /** (segment, offset) is entry `at` of its segment and entry `index` of the whole log. A position
      in a segment that does not exist yet stands for the end of a full log. */
  ghost predicate PosOk(hist: seq<seq<Payload>>, maxSize: nat, segment: nat, offset: nat, at: nat, index: nat) {
    if segment < |hist| then
      && at <= |hist[segment]| && offset == Boundary(hist[segment], at)
      && index == Base(hist, segment) + at
    else
      && segment == |hist| > 0 && offset == 0 && at == 0
      && Full(hist[segment - 1], maxSize) && index == Base(hist, segment)
  }

  ghost predicate ReadingOk(hist: seq<seq<Payload>>, maxSize: nat, segment: nat, at: nat, next: nat,
                            batch: seq<Payload>) {
    && segment < |hist|
    && at + |batch| <= |hist[segment]|
    && batch == hist[segment][at..at + |batch|]
    && next == Boundary(hist[segment], at + |batch|)
    && next < maxSize
  }

  ghost predicate IsStretch(flat: seq<Payload>, start: nat, ps: seq<Payload>) {
    start + |ps| <= |flat| && ps == flat[start..start + |ps|]
  }

  /** The entry of the next segment or of the same one that follows a sent batch. */
  function NextAt(r: Reader): nat
    requires r.mode.Sending?
  {
    if r.mode.nextSegment == r.segment then r.at + |r.mode.batch| else 0
  }

  ghost predicate ModeOk(hist: seq<seq<Payload>>, maxSize: nat, r: Reader, index: nat) {
    match r.mode
    case Calling(_) => PosOk(hist, maxSize, r.segment, r.offset, r.at, index)
    case Reading(_, next, batch) =>
      && PosOk(hist, maxSize, r.segment, r.offset, r.at, index)
      && ReadingOk(hist, maxSize, r.segment, r.at, next, batch)
    case Sending(batch, nextSegment, nextOffset) =>
      && IsStretch(Flat(hist), index, batch)
      && PosOk(hist, maxSize, nextSegment, nextOffset, NextAt(r), index + |batch|)
    case Stopped => true
  }

  ghost predicate ReaderOk(s: State, start: nat) {
    && IsStretch(Flat(s.hist), start, s.reader.read)
    && ModeOk(s.hist, s.log.maxSize, s.reader, start + |s.reader.read|)
  }

  // ---- the history as one sequence ---------------------------------------------------------

  lemma {:induction false} FlatConcat(a: seq<seq<Payload>>, b: seq<seq<Payload>>)
    ensures Flat(a + b) == Flat(a) + Flat(b)
    decreases |b|
  {
    if b == [] {
      assert a + b == a;
    } else {
      var n := |b| - 1;
      FlatConcat(a, b[..n]);
      assert (a + b)[..|a + b| - 1] == a + b[..n];
    }
  }

  lemma MiddleSlice(a: seq<Payload>, b: seq<Payload>, c: seq<Payload>, i: nat, j: nat)
    requires i <= j <= |b|
    ensures (a + b + c)[|a| + i..|a| + j] == b[i..j]
  {
    assert a + b + c == a + (b + c);
    assert (a + b + c)[|a| + i..|a| + j] == (b + c)[i..j];
  }

  lemma FlatOfOne(ps: seq<Payload>)
    ensures Flat([ps]) == ps
  {
    assert [ps][..0] == [];
  }

  lemma FlatSplit(hist: seq<seq<Payload>>, k: nat)
    requires k < |hist|
    ensures Flat(hist[..k + 1]) == Flat(hist[..k]) + hist[k]
    ensures Flat(hist) == Flat(hist[..k]) + hist[k] + Flat(hist[k + 1..])
  {
    hide Flat;
    var before, upTo, rest := hist[..k], hist[..k + 1], hist[k + 1..];
    FlatOfOne(hist[k]);
    assert upTo == before + [hist[k]];
    FlatConcat(before, [hist[k]]);
    assert hist == upTo + rest;
    FlatConcat(upTo, rest);
  }

  /** A stretch of one segment is the same stretch of the whole log. */
  lemma SegmentInFlat(hist: seq<seq<Payload>>, k: nat, i: nat, j: nat)
    requires k < |hist| && i <= j <= |hist[k]|
    ensures Base(hist, k + 1) == Base(hist, k) + |hist[k]| <= |Flat(hist)|
    ensures hist[k][i..j] == Flat(hist)[Base(hist, k) + i..Base(hist, k) + j]
  {
    FlatSplit(hist, k);
    hide Flat;
    MiddleSlice(Flat(hist[..k]), hist[k], Flat(hist[k + 1..]), i, j);
  }

  // ---- the writer --------------------------------------------------------------------------

  lemma GrownHistory(hist: seq<seq<Payload>>, p: Payload)
    requires |hist| > 0
    ensures var n := |hist| - 1; var grown := hist[n := hist[n] + [p]];
            && Flat(grown) == Flat(hist) + [p]
            && forall k :: 0 <= k <= n ==> Base(grown, k) == Base(hist, k)
  {
    var n := |hist| - 1;
    var grown := hist[n := hist[n] + [p]];
    assert grown[..n] == hist[..n];
    forall k | 0 <= k <= n
      ensures Base(grown, k) == Base(hist, k)
    {
      assert grown[..k] == hist[..k];
    }
    assert Flat(hist) == Flat(hist[..n]) + hist[n];
    assert Flat(grown) == Flat(hist[..n]) + (hist[n] + [p]);
  }

  lemma AppendKeepsPos(hist: seq<seq<Payload>>, p: Payload, maxSize: nat, segment: nat, offset: nat, at: nat,
                       index: nat)
    requires |hist| > 0 && !Full(hist[|hist| - 1], maxSize)
    requires PosOk(hist, maxSize, segment, offset, at, index)
    ensures PosOk(hist[|hist| - 1 := hist[|hist| - 1] + [p]], maxSize, segment, offset, at, index)
  {
    GrownHistory(hist, p);
    if segment == |hist| - 1 {
      BoundaryStable(hist[segment], p, at);
    }
  }

  lemma NewSegmentFlat(hist: seq<seq<Payload>>)
    ensures Flat(hist + [[]]) == Flat(hist)
  {
    assert (hist + [[]])[..|hist|] == hist;
    assert Flat(hist) + [] == Flat(hist);
  }

  lemma NewSegmentKeepsPos(hist: seq<seq<Payload>>, maxSize: nat, segment: nat, offset: nat, at: nat, index: nat)
    requires PosOk(hist, maxSize, segment, offset, at, index)
    ensures PosOk(hist + [[]], maxSize, segment, offset, at, index)
  {
    if segment < |hist| {
      assert (hist + [[]])[..segment] == hist[..segment];
    } else {
      assert (hist + [[]])[..segment] == hist[..segment];
      assert (hist + [[]])[segment][..0] == [];
    }
  }

  lemma AppendKeepsSegment(ps: seq<Payload>, p: Payload, maxSize: nat)
    requires SegmentFits(ps) && BeginsBelow(ps, maxSize) && Fits(p) && !Full(ps, maxSize)
    ensures SegmentFits(ps + [p]) && BeginsBelow(ps + [p], maxSize)
  {
    hide Frames;
    forall i | 0 <= i < |ps + [p]|
      ensures Boundary(ps + [p], i) < maxSize
    {
      BoundaryStable(ps, p, i);
    }
  }

  lemma AppendKeepsLog(q: Request, s: State, p: Payload)
    requires LogOk(s) && Enabled(s, AppendEntry(p))
    ensures LogOk(Do(q, s, AppendEntry(p)))
  {
    hide Frames, Flat;
    var ps := s.hist[s.log.segment];
    BoundaryStable(ps, p, |ps|);
    assert ps[..|ps|] == ps;
    AppendKeepsSegment(ps, p, s.log.maxSize);
  }

  lemma StartRotationKeepsLog(q: Request, s: State)
    requires LogOk(s) && Enabled(s, StartRotation)
    ensures LogOk(Do(q, s, StartRotation))
  {
    hide Frames, Flat;
    var ps := s.hist[s.log.segment];
    assert ps[..|ps|] == ps;
  }

  lemma NextFilesOk(l: Log, hist: seq<seq<Payload>>)
    requires |hist| == l.segment + 1 && l.segment + 1 < TWO_32 && FilesOk(l, true, hist)
    ensures StartNext(l).segment == l.segment + 1
    ensures FilesOk(StartNext(l), false, hist + [[]])
  {
    assert Frames([]) == [];
    hide Frames, Full;
  }

  lemma EmptySegmentOk(maxSize: nat)
    ensures SegmentFits([]) && BeginsBelow([], maxSize)
  {
  }

  lemma FinishRotationKeepsLog(q: Request, s: State)
    requires LogOk(s) && Enabled(s, FinishRotation)
    ensures LogOk(Do(q, s, FinishRotation))
  {
    hide Frames, Flat, FilesOk, SegmentFits, BeginsBelow, Full;
    NextFilesOk(s.log, s.hist);
    EmptySegmentOk(s.log.maxSize);
    assert Full(s.hist[s.log.segment], s.log.maxSize) by {
      RotatingIsFull(s);
    }
  }

  lemma RotatingIsFull(s: State)
    requires LogOk(s) && s.rotating
    ensures Full(s.hist[s.log.segment], s.log.maxSize)
  {
  }

  lemma WriterKeepsLog(q: Request, s: State, a: Action)
    requires LogOk(s) && Enabled(s, a)
    ensures LogOk(Do(q, s, a))
  {
    match a
    case AppendEntry(p) => AppendKeepsLog(q, s, p);
    case StartRotation => StartRotationKeepsLog(q, s);
    case FinishRotation => FinishRotationKeepsLog(q, s);
    case _ =>
  }

  lemma AppendKeepsMode(hist: seq<seq<Payload>>, p: Payload, maxSize: nat, r: Reader, index: nat)
    requires |hist| > 0 && !Full(hist[|hist| - 1], maxSize)
    requires ModeOk(hist, maxSize, r, index)
    ensures ModeOk(hist[|hist| - 1 := hist[|hist| - 1] + [p]], maxSize, r, index)
  {
    hide Frames, Flat;
    var n := |hist| - 1;
    match r.mode
    case Calling(_) => AppendKeepsPos(hist, p, maxSize, r.segment, r.offset, r.at, index);
    case Reading(_, _, batch) =>
      AppendKeepsPos(hist, p, maxSize, r.segment, r.offset, r.at, index);
      if r.segment == n {
        BoundaryStable(hist[n], p, r.at + |batch|);
      }
    case Sending(batch, nextSegment, nextOffset) =>
      GrownHistory(hist, p);
      AppendKeepsPos(hist, p, maxSize, nextSegment, nextOffset, NextAt(r), index + |batch|);
    case Stopped =>
  }

  lemma AppendKeepsReader(q: Request, s: State, p: Payload, start: nat)
    requires LogOk(s) && ReaderOk(s, start) && Enabled(s, AppendEntry(p))
    ensures ReaderOk(Do(q, s, AppendEntry(p)), start)
  {
    hide Frames, Flat, ModeOk;
    var ps := s.hist[s.log.segment];
    assert ps[..|ps|] == ps;
    GrownHistory(s.hist, p);
    AppendKeepsMode(s.hist, p, s.log.maxSize, s.reader, start + |s.reader.read|);
  }

  lemma NewSegmentKeepsMode(hist: seq<seq<Payload>>, maxSize: nat, r: Reader, index: nat)
    requires ModeOk(hist, maxSize, r, index)
    ensures ModeOk(hist + [[]], maxSize, r, index)
  {
    hide Frames, Flat;
    NewSegmentFlat(hist);
    match r.mode
    case Calling(_) => NewSegmentKeepsPos(hist, maxSize, r.segment, r.offset, r.at, index);
    case Reading(_, _, _) => NewSegmentKeepsPos(hist, maxSize, r.segment, r.offset, r.at, index);
    case Sending(batch, nextSegment, nextOffset) =>
      NewSegmentKeepsPos(hist, maxSize, nextSegment, nextOffset, NextAt(r), index + |batch|);
    case Stopped =>
  }

  lemma NewSegmentKeepsReader(q: Request, s: State, start: nat)
    requires LogOk(s) && ReaderOk(s, start) && Enabled(s, FinishRotation)
    ensures ReaderOk(Do(q, s, FinishRotation), start)
  {
    hide Frames, Flat, ModeOk;
    NewSegmentFlat(s.hist);
    NewSegmentKeepsMode(s.hist, s.log.maxSize, s.reader, start + |s.reader.read|);
  }

  // ---- the reader --------------------------------------------------------------------------

  /** A position at or past the rotation size is the end of its segment, and so the start of
      the next one. */
  lemma PastMaxIsEnd(s: State, k: nat, i: nat)
    requires LogOk(s) && k < |s.hist| && i <= |s.hist[k]| && Boundary(s.hist[k], i) >= s.log.maxSize
    ensures i == |s.hist[k]|
    ensures PosOk(s.hist, s.log.maxSize, k + 1, 0, 0, Base(s.hist, k) + i)
  {
    assert BeginsBelow(s.hist[k], s.log.maxSize);
    SegmentInFlat(s.hist, k, 0, 0);
    if k + 1 < |s.hist| {
      assert s.hist[k + 1][..0] == [];
    }
  }

  lemma EnterKeepsReader(s: State, start: nat)
    requires LogOk(s) && ReaderOk(s, start) && MayEnter(s.log, s.reader)
    ensures ReaderOk(s.(reader := EnterRead(s.log, s.reader)), start)
  {
    hide Flat, Frames;
    var r := s.reader;
    if r.segment in s.log.files {
      SegmentInFlat(s.hist, r.segment, r.at, r.at);
      if r.offset >= s.log.maxSize {
        PastMaxIsEnd(s, r.segment, r.at);
      }
    }
  }

  /** A normal return leaves the batch and the position after it in step. */
  lemma ReturnedKeepsReader(s: State, start: nat)
    requires LogOk(s) && ReaderOk(s, start) && s.reader.mode.Reading?
    ensures var Reading(second, next, batch) := s.reader.mode;
            ReaderOk(s.(reader := Returned(s.reader, second, batch, next)), start)
  {
    hide Flat, Frames;
    var r := s.reader;
    SegmentInFlat(s.hist, r.segment, r.at, r.at + |r.mode.batch|);
  }

  /** What a successful read finds is the next entry of the segment. */
  lemma ReadFindsNext(s: State, start: nat)
    requires LogOk(s) && ReaderOk(s, start) && s.reader.mode.Reading?
    requires ReadOne(s.log, s.reader.segment, s.reader.mode.next).ReadOk?
    ensures var ps, i := s.hist[s.reader.segment], s.reader.at + |s.reader.mode.batch|;
            i < |ps| && ReadOne(s.log, s.reader.segment, s.reader.mode.next) == ReadOk(ps[i], Boundary(ps, i + 1))
  {
    hide Flat, Frames, ReadFrame;
    ReadAtBoundary(s.hist[s.reader.segment], s.reader.at + |s.reader.mode.batch|);
  }

  lemma GrownBatchIsStretch(s: State, start: nat)
    requires ReaderOk(s, start) && s.reader.mode.Reading?
    requires s.reader.at + |s.reader.mode.batch| < |s.hist[s.reader.segment]|
    ensures var r := s.reader;
            var ps, i, index := s.hist[r.segment], r.at + |r.mode.batch|, start + |r.read|;
            && r.mode.batch + [ps[i]] == ps[r.at..i + 1]
            && IsStretch(Flat(s.hist), index, r.mode.batch + [ps[i]])
            && index == Base(s.hist, r.segment) + r.at
  {
    hide Flat, Frames, Base;
    var r := s.reader;
    var ps, i := s.hist[r.segment], r.at + |r.mode.batch|;
    assert ps[r.at..i] + [ps[i]] == ps[r.at..i + 1];
    SegmentInFlat(s.hist, r.segment, r.at, i + 1);
  }

  lemma GrownBatchKeepsReader(s: State, start: nat)
    requires LogOk(s) && ReaderOk(s, start) && s.reader.mode.Reading?
    requires s.reader.at + |s.reader.mode.batch| < |s.hist[s.reader.segment]|
    ensures var Reading(second, _, batch) := s.reader.mode;
            var ps, i := s.hist[s.reader.segment], s.reader.at + |batch|;
            var after := Boundary(ps, i + 1);
            ReaderOk(s.(reader := if after >= s.log.maxSize then ReturnedEof(s.reader, batch + [ps[i]])
                        else s.reader.(mode := Reading(second, after, batch + [ps[i]]))), start)
  {
    hide Flat, Frames, Base, Boundary, LogOk;
    GrownBatchIsStretch(s, start);
    var ps, i := s.hist[s.reader.segment], s.reader.at + |s.reader.mode.batch|;
    if Boundary(ps, i + 1) >= s.log.maxSize {
      PastMaxIsEnd(s, s.reader.segment, i + 1);
    }
  }

  lemma ReadKeepsReader(q: Request, s: State, start: nat)
    requires LogOk(s) && ReaderOk(s, start) && s.reader.mode.Reading?
    ensures ReaderOk(s.(reader := ReadOneMore(q, s.log, s.reader)), start)
  {
    hide Flat, Frames, ReadFrame;
    ReturnedKeepsReader(s, start);
    if ReadOne(s.log, s.reader.segment, s.reader.mode.next).ReadOk? {
      ReadFindsNext(s, start);
      GrownBatchKeepsReader(s, start);
    }
  }

  lemma SendKeepsReader(q: Request, s: State, start: nat)
    requires ReaderOk(s, start) && s.reader.mode.Sending?
    ensures ReaderOk(s.(reader := SendBatch(q, s.reader)), start)
  {
    var r, flat := s.reader, Flat(s.hist);
    var index, n := start + |r.read|, |r.mode.batch|;
    assert flat[start..index] + flat[index..index + n] == flat[start..index + n];
  }

  ghost predicate Inv(q: Request, s: State, start: nat) {
    LogOk(s) && ReaderOk(s, start) && s.reader.delivered == Wanted(q, s.reader.read)
  }

  lemma {:induction false} WantedConcat(q: Request, a: seq<Payload>, b: seq<Payload>)
    ensures Wanted(q, a + b) == Wanted(q, a) + Wanted(q, b)
    decreases |b|
  {
    if b == [] {
      assert a + b == a;
    } else {
      var n := |b| - 1;
      WantedConcat(q, a, b[..n]);
      assert (a + b)[..|a + b| - 1] == a + b[..n];
    }
  }

  lemma StepKeepsReader(q: Request, s: State, a: Action, start: nat)
    requires LogOk(s) && ReaderOk(s, start) && Enabled(s, a)
    ensures ReaderOk(Do(q, s, a), start)
  {
    hide Flat, Frames, LogOk, ModeOk, ReadOneMore, EnterRead;
    match a
    case AppendEntry(p) => AppendKeepsReader(q, s, p, start);
    case StartRotation =>
    case FinishRotation => NewSegmentKeepsReader(q, s, start);
    case Enter => EnterKeepsReader(s, start);
    case ReadEntry => ReadKeepsReader(q, s, start);
    case Send => SendKeepsReader(q, s, start);
    case SendFails => StoppedOk(s, start);
  }

  lemma StoppedOk(s: State, start: nat)
    requires ReaderOk(s, start)
    ensures ReaderOk(s.(reader := s.reader.(mode := Stopped)), start)
  {
    hide Flat, Frames;
  }

  lemma EnterKeepsRead(s: State)
    ensures s.reader.mode.Calling? ==>
              var r := EnterRead(s.log, s.reader); r.read == s.reader.read && r.delivered == s.reader.delivered
  {
  }

  lemma ReadKeepsRead(q: Request, s: State)
    ensures s.reader.mode.Reading? ==>
              var r := ReadOneMore(q, s.log, s.reader); r.read == s.reader.read && r.delivered == s.reader.delivered
  {
    hide ReadFrame, Flat, Frames;
  }

  lemma StepKeepsWanted(q: Request, s: State, a: Action)
    requires |s.hist| > 0 && Enabled(s, a) && s.reader.delivered == Wanted(q, s.reader.read)
    ensures var r := Do(q, s, a).reader; r.delivered == Wanted(q, r.read)
  {
    hide Wanted, EnterRead, ReadOneMore, AppendFrame, StartNext;
    EnterKeepsRead(s);
    ReadKeepsRead(q, s);
    if a.Send? {
      WantedConcat(q, s.reader.read, s.reader.mode.batch);
    }
  }

  lemma StepKeepsInv(q: Request, s: State, a: Action, start: nat)
    requires Inv(q, s, start) && Enabled(s, a)
    ensures Inv(q, Do(q, s, a), start)
  {
    hide Flat, Frames, ReaderOk, Do, Enabled;
    WriterKeepsLog(q, s, a);
    StepKeepsReader(q, s, a, start);
    StepKeepsWanted(q, s, a);
  }

  // ---- results over whole runs -------------------------------------------------------------

  /** The log has some past and the request names an entry boundary of a retained segment. */
  ghost predicate Init(s: State, start: nat) {
    && LogOk(s)
    && s.reader.mode == Calling(false) && s.reader.read == [] && s.reader.delivered == []
    && s.reader.segment in s.log.files
    && PosOk(s.hist, s.log.maxSize, s.reader.segment, s.reader.offset, s.reader.at, start)
  }

  lemma InitOk(q: Request, s: State, start: nat)
    requires Init(s, start)
    ensures Inv(q, s, start)
  {
    hide Flat, Frames;
    SegmentInFlat(s.hist, s.reader.segment, s.reader.at, s.reader.at);
  }

  ghost predicate ValidRun(q: Request, s: State, run: seq<Action>)
    decreases |run|
  {
    run == [] || (|s.hist| > 0 && Enabled(s, run[0]) && ValidRun(q, Do(q, s, run[0]), run[1..]))
  }

  ghost function Final(q: Request, s: State, run: seq<Action>): State
    requires ValidRun(q, s, run)
    decreases |run|
  {
    if run == [] then s else Final(q, Do(q, s, run[0]), run[1..])
  }

  lemma {:induction false} RunKeepsInv(q: Request, s: State, run: seq<Action>, start: nat)
    requires Inv(q, s, start) && ValidRun(q, s, run)
    ensures Inv(q, Final(q, s, run), start)
    decreases |run|
  {
    if run != [] {
      StepKeepsInv(q, s, run[0], start);
      RunKeepsInv(q, Do(q, s, run[0]), run[1..], start);
    }
  }

  /** Tail contiguity. From any entry boundary, whatever the rotation size, the read limit and the
      interleaving with appends, rotations and purges, the entries read are one unbroken,
      unrepeated stretch of the append history; what was delivered is its wanted part; and the
      position reported with each batch is exactly where that stretch ends. A failed read stops the
      run, it never skips. */
  lemma TailContiguity(q: Request, s0: State, run: seq<Action>, start: nat)
    requires Init(s0, start) && ValidRun(q, s0, run)
    ensures var s := Final(q, s0, run);
            var r := s.reader;
            var end := start + |r.read|;
            && IsStretch(Flat(s.hist), start, r.read)
            && r.delivered == Wanted(q, Flat(s.hist)[start..end])
            && (r.mode.Calling? ==> PosOk(s.hist, s.log.maxSize, r.segment, r.offset, r.at, end))
  {
    hide Flat, Frames, LogOk, Wanted, ValidRun, Final, Init;
    InitOk(q, s0, start);
    RunKeepsInv(q, s0, run, start);
  }

  /** The history only grows, so a later run that resumes from a reported position continues
      the same stretch. */
  lemma {:induction false} HistoryOnlyGrows(q: Request, s: State, run: seq<Action>)
    requires |s.hist| > 0 && ValidRun(q, s, run)
    ensures Flat(s.hist) <= Flat(Final(q, s, run).hist)
    decreases |run|
  {
    if run != [] {
      var t := Do(q, s, run[0]);
      if run[0].AppendEntry? {
        GrownHistory(s.hist, run[0].payload);
      } else if run[0].FinishRotation? {
        NewSegmentFlat(s.hist);
      }
      HistoryOnlyGrows(q, t, run[1..]);
    }
  }
}
