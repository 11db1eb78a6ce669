/** The segmented binlog as values: segment files, rotation and retention. */
module Binlog {
  import opened Bytes
  import opened FrameFormat

  /** A segment file on disk and the writer's view of it. Closing a file zeroes the offset and
      leaves the bytes on disk. */
  datatype Segment = Segment(data: ByteString, offset: nat, isOpen: bool, hasShutdown: bool)

  datatype Log = Log(maxSize: nat, countLimit: nat, files: map<nat, Segment>, segment: nat)

  const FRESH := Segment([], 0, true, false)

  function Closed(f: Segment): Segment {
    f.(offset := 0, isOpen := false, hasShutdown := true)
  }

  /** A file opened again is written from its end. */
  function Opened(f: Segment): Segment {
    f.(offset := |f.data|, isOpen := true)
  }

  /** Purged when segment + limit < current, in 32-bit arithmetic. */
  predicate TooOld(segment: nat, countLimit: nat, current: nat) {
    (segment + countLimit) % TWO_32 < current
  }

  function EmptyLog(maxSize: nat, countLimit: nat): Log {
    Log(maxSize, countLimit, map[0 := FRESH], 0)
  }

  predicate MustRotate(l: Log)
    requires l.segment in l.files
  {
    l.files[l.segment].offset >= l.maxSize
  }

  /** First half of a rotation: the full segment is closed. */
  function CloseCurrent(l: Log): Log
    requires l.segment in l.files
  {
    l.(files := l.files[l.segment := Closed(l.files[l.segment])])
  }

  /** Second half: step to the next segment, purge, and open a fresh file. */
  function StartNext(l: Log): Log {
    OpenFile(Purged(l.(segment := (l.segment + 1) % TWO_32)))
  }

  /** maybeRemoveOldFiles */
  function Purged(l: Log): Log {
    l.(files := map s | s in l.files && !TooOld(s, l.countLimit, l.segment) :: l.files[s])
  }

  /** maybePrepareCurrentFileForWrite, without a last file ... */
  function OpenFile(l: Log): Log {
    l.(files := l.files[l.segment := FRESH])
  }

  /** ... and with one. */
  function ReopenFile(l: Log): Log
    requires l.segment in l.files
  {
    l.(files := l.files[l.segment := Opened(l.files[l.segment])])
  }

  function AppendFrame(l: Log, p: Payload): Log
    requires l.segment in l.files
  {
    var f := l.files[l.segment];
    l.(files := l.files[l.segment := f.(data := f.data + Frame(p), offset := f.offset + 4 + |p|)])
  }

  /** AppendEntry as one step. */
  function Append(l: Log, p: Payload): Log
    requires l.segment in l.files
  {
    if MustRotate(l) then AppendFrame(StartNext(CloseCurrent(l)), p) else AppendFrame(l, p)
  }

  function AppendAll(l: Log, ps: seq<Payload>): (r: Log)
    requires l.segment in l.files
    ensures r.segment in r.files
  {
    if ps == [] then l else Append(AppendAll(l, ps[..|ps| - 1]), ps[|ps| - 1])
  }

  /** readOneEntry: a closed or purged file only gives errors. */
  function ReadOne(l: Log, segment: nat, offset: nat): ReadResult {
    if segment in l.files && l.files[segment].isOpen then ReadFrame(l.files[segment].data, offset) else ReadError
  }

  // ---- retention ---------------------------------------------------------------------------

  /** The retained segments end at the current one and reach back `countLimit` further. */
  ghost predicate Window(l: Log) {
    forall s: nat :: s in l.files <==> l.segment - l.countLimit <= s <= l.segment
  }

  lemma AppendKeepsWindow(l: Log, p: Payload)
    requires l.segment in l.files && Window(l) && l.segment + 1 + l.countLimit < TWO_32
    ensures Window(Append(l, p))
    ensures l.segment <= Append(l, p).segment <= l.segment + 1
  {
  }

  /** No segment number along the way comes near the 32-bit wrap. */
  ghost predicate BelowWrap(maxSize: nat, countLimit: nat, ps: seq<Payload>) {
    forall n | 0 <= n <= |ps| :: AppendAll(EmptyLog(maxSize, countLimit), ps[..n]).segment + 1 + countLimit < TWO_32
  }

  lemma {:induction false} AppendAllKeepsWindow(maxSize: nat, countLimit: nat, ps: seq<Payload>)
    requires BelowWrap(maxSize, countLimit, ps)
    ensures Window(AppendAll(EmptyLog(maxSize, countLimit), ps))
    decreases |ps|
  {
    if ps != [] {
      var n := |ps| - 1;
      assert BelowWrap(maxSize, countLimit, ps[..n]) by {
        assert forall k | 0 <= k <= n :: ps[..n][..k] == ps[..k];
      }
      AppendAllKeepsWindow(maxSize, countLimit, ps[..n]);
      AppendAllKeepsOptions(EmptyLog(maxSize, countLimit), ps[..n]);
      AppendKeepsWindow(AppendAll(EmptyLog(maxSize, countLimit), ps[..n]), ps[n]);
    }
  }

  lemma WindowSize(l: Log)
    requires Window(l)
    ensures |l.files| == if l.segment < l.countLimit then l.segment + 1 else l.countLimit + 1
  {
    var first := if l.segment < l.countLimit then 0 else l.segment - l.countLimit;
    assert l.files.Keys == Interval(first, l.segment + 1);
  }

  /** From an empty directory, after any appends, the files are exactly the last
      countLimit + 1 segments (fewer only while the log is young), as long as segment numbers
      stay clear of the 32-bit wrap. How many entries were appended does not matter. */
  lemma RetentionWindow(maxSize: nat, countLimit: nat, ps: seq<Payload>)
    requires BelowWrap(maxSize, countLimit, ps)
    ensures var l := AppendAll(EmptyLog(maxSize, countLimit), ps);
            && Window(l)
            && l.countLimit == countLimit
            && |l.files| == if l.segment < countLimit then l.segment + 1 else countLimit + 1
  {
    AppendAllKeepsWindow(maxSize, countLimit, ps);
    AppendAllKeepsOptions(EmptyLog(maxSize, countLimit), ps);
    WindowSize(AppendAll(EmptyLog(maxSize, countLimit), ps));
  }

  lemma {:induction false} AppendAllKeepsOptions(l: Log, ps: seq<Payload>)
    requires l.segment in l.files
    ensures AppendAll(l, ps).countLimit == l.countLimit && AppendAll(l, ps).maxSize == l.maxSize
    decreases |ps|
  {
    if ps != [] {
      AppendAllKeepsOptions(l, ps[..|ps| - 1]);
    }
  }

  function Interval(lo: nat, hi: nat): (r: set<nat>)
    requires lo <= hi
    ensures |r| == hi - lo
    ensures forall s: nat :: s in r <==> lo <= s < hi
    decreases hi - lo
  {
    if lo == hi then {} else Interval(lo, hi - 1) + {hi - 1}
  }
}
