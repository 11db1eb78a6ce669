/** The binlog objects that are updated in place: segment files and their manager. */
module LogManager {
  import opened Bytes
  import opened FrameFormat
  import opened Binlog

  const MAX_INT_32 := 0x7FFF_FFFF

  /** How a call to readEntries ends. `Waits` is a caller parked on the condition variable. */
  datatype Outcome =
    | Waits
    | Failed
    | Batch(entries: seq<Payload>, next: nat)
    | EndOfSegment(entries: seq<Payload>)

  class SegmentFile {
    const maxSize: nat
    var data: ByteString
    var offset: nat
    var isOpen: bool
    var hasShutdown: bool

    ghost predicate Valid()
      reads this
    {
      isOpen ==> offset == |data| && !hasShutdown
    }

    function View(): Segment
      reads this
    {
      Segment(data, offset, isOpen, hasShutdown)
    }

    /** newLogSegmentFile followed by open, on a file that did not exist. */
    constructor (maxSize: nat)
      ensures Valid() && View() == FRESH && this.maxSize == maxSize
    {
      this.maxSize := maxSize;
      data, offset, isOpen, hasShutdown := [], 0, true, false;
    }

    /** appendEntry: size first, then data, then the offset moves over both. */
    method AppendEntry(p: Payload) returns (ok: bool)
      requires Valid()
      modifies this
      ensures Valid()
      ensures ok <==> old(isOpen)
      ensures !ok ==> View() == old(View())
      ensures ok ==> View() == Segment(old(data) + Frame(p), old(offset) + 4 + |p|, true, old(hasShutdown))
      ensures ok ==> data == old(data) + LittleEndian(|p|, 4) + p
    {
      ok := isOpen;
      if ok {
        data := data[..offset] + LittleEndian(|p|, 4);
        data := data[..offset + 4] + p;
        offset := offset + 4 + |p|;
      }
    }

    /** readEntries from entry `i` of a file that holds `ps`: the batch is the entries from `i` on,
        cut at the limit, at the end of the file, or where the rotation size is crossed, and the
        reported offset is the boundary after it. */
    method ReadEntries(from: nat, limit: int, ghost ps: seq<Payload>, ghost i: nat) returns (o: Outcome)
      requires Valid()
      requires data == Frames(ps) && (forall k :: 0 <= k < |ps| ==> Fits(ps[k]))
      requires i <= |ps| && from == Boundary(ps, i)
      ensures from >= maxSize ==> o == EndOfSegment([])
      ensures from < maxSize && from >= offset && !hasShutdown ==> o == Waits
      ensures from < maxSize && hasShutdown ==> o == Failed
      ensures from < maxSize && isOpen && i < |ps| ==>
                match o
                case Batch(es, next) =>
                  && i + |es| <= |ps| && es == ps[i..i + |es|] && next == Boundary(ps, i + |es|) < maxSize
                  && (|es| == limit || (limit <= 0 && es == []) || (|es| < limit && i + |es| == |ps|))
                case EndOfSegment(es) =>
                  && 0 < |es| <= limit && i + |es| <= |ps| && es == ps[i..i + |es|]
                  && Boundary(ps, i + |es| - 1) < maxSize <= Boundary(ps, i + |es|)
                case _ => false
    {
      hide Frames, ReadFrame;
      if from >= maxSize {
        return EndOfSegment([]);
      }
      if from >= offset && !hasShutdown {
        assert isOpen ==> i == |ps| by {
          AtEnd(ps, i, offset);
        }
        return Waits;
      }
      if hasShutdown {
        return Failed;
      }
      if !isOpen {
        return Failed;
      }
      var next, entries, n := from, [], 0;
      while n < limit
        invariant 0 <= n == |entries| && (if limit <= 0 then n == 0 else n <= limit)
        invariant i + n <= |ps| && entries == ps[i..i + n] && next == Boundary(ps, i + n) < maxSize
        decreases limit - n
      {
        ReadAtBoundary(ps, i + n);
        match ReadFrame(data, next)
        case ReadError =>
          if n == 0 {
            return Failed;
          }
          return Batch(entries, next);
        case ReadOk(p, after) =>
          assert ps[i..i + n] + [p] == ps[i..i + n + 1];
          entries := entries + [p];
          next := after;
          if next >= maxSize {
            return EndOfSegment(entries);
          }
          n := n + 1;
      }
      return Batch(entries, next);
    }

    /** open: the file is kept as it is on disk and written from its end. */
    method Open()
      requires !hasShutdown
      modifies this
      ensures Valid() && View() == Opened(old(View()))
    {
      isOpen, offset := true, |data|;
    }

    method Close()
      modifies this
      ensures Valid() && View() == Closed(old(View()))
    {
      hasShutdown, isOpen, offset := true, false, 0;
    }
  }

  lemma AtEnd(ps: seq<Payload>, i: nat, offset: nat)
    requires i <= |ps|
    ensures Boundary(ps, i) >= offset == |Frames(ps)| ==> i == |ps|
  {
    hide Frames;
    BoundariesIncrease(ps, i, |ps|);
    assert ps[..|ps|] == ps;
  }

  class Manager {
    const maxSize: nat
    const countLimit: nat
    var files: map<nat, SegmentFile>
    var lastLogFile: SegmentFile?
    var segment: nat

    ghost predicate FilesValid()
      reads this, files.Values
    {
      && (forall s | s in files :: files[s].Valid() && files[s].maxSize == maxSize)
      && (forall s, t | s in files && t in files && s != t :: files[s] != files[t])
    }

    ghost predicate Valid()
      reads this, files.Values
    {
      FilesValid() && segment in files && files[segment] == lastLogFile && lastLogFile.isOpen
    }

    function View(): Log
      reads this, files.Values
    {
      Log(maxSize, countLimit, map s | s in files :: files[s].View(), segment)
    }

    /** Initialze on an empty directory. */
    constructor (maxSize: nat, countLimit: nat)
      ensures Valid() && View() == EmptyLog(maxSize, countLimit) && fresh(files.Values)
    {
      this.maxSize, this.countLimit := maxSize, countLimit;
      var f := new SegmentFile(maxSize);
      files, lastLogFile, segment := map[0 := f], f, 0;
    }

    /** purge, and the removal from the map. */
    method PurgeOne(s: nat)
      requires FilesValid() && s in files
      modifies this`files, files[s]
      ensures FilesValid() && files == old(files) - {s}
      ensures forall t | t in files :: files[t].View() == old(files[t].View())
    {
      files[s].Close();
      files := files - {s};
    }

    /** maybeRemoveOldFiles: the purged files are closed and forgotten, the others untouched. */
    method MaybeRemoveOldFiles()
      requires FilesValid()
      modifies this`files, files.Values
      ensures FilesValid()
      ensures View() == Purged(old(View()))
      ensures files.Values <= old(files.Values)
    {
      hide TooOld, SegmentFile.View, SegmentFile.Valid;
      PurgeEach();
    }

    /** The loop over the map. */
    method PurgeEach()
      requires FilesValid()
      modifies this`files, files.Values
      ensures FilesValid()
      ensures forall s | s in old(files) :: s in files <==> !TooOld(s, countLimit, segment)
      ensures forall s | s in files :: s in old(files) && files[s] == old(files)[s]
      ensures forall s | s in files :: files[s].View() == old(files[s].View())
    {
      hide TooOld, FilesValid, SegmentFile.View, SegmentFile.Valid;
      var todo := files.Keys;
      while todo != {}
        invariant FilesValid()
        invariant todo <= files.Keys
        invariant forall s | s in old(files) :: s in files <==> s in todo || !TooOld(s, countLimit, segment)
        invariant forall s | s in files :: s in old(files) && files[s] == old(files)[s]
        invariant forall s | s in files :: files[s].View() == old(files[s].View())
        decreases |todo|
      {
        var s :| s in todo;
        if TooOld(s, countLimit, segment) {
          PurgeOne(s);
        }
        todo := todo - {s};
      }
    }

    /** A new file for the current segment. */
    method NewCurrentFile()
      requires FilesValid()
      modifies this`files, this`lastLogFile
      ensures Valid() && fresh(files.Values - old(files.Values))
      ensures View() == OpenFile(old(View()))
    {
      var f := new SegmentFile(maxSize);
      assert forall s | s in files :: files[s] != f && files[s].Valid();
      lastLogFile := f;
      files := files[segment := f];
    }

    /** The last file, opened again. */
    method ReopenLast()
      requires FilesValid() && segment in files && files[segment] == lastLogFile && !lastLogFile.hasShutdown
      modifies lastLogFile
      ensures Valid()
      ensures View() == ReopenFile(old(View()))
    {
      lastLogFile.Open();
    }

    /** maybePrepareCurrentFileForWrite: without a last file a new one, otherwise the one there is. */
    method PrepareCurrentFile()
      requires FilesValid()
      requires lastLogFile != null ==> segment in files && files[segment] == lastLogFile && !lastLogFile.hasShutdown
      modifies this`files, this`lastLogFile, lastLogFile
      ensures Valid() && fresh(files.Values - old(files.Values))
      ensures View() == if old(lastLogFile) == null then OpenFile(old(View())) else ReopenFile(old(View()))
    {
      hide OpenFile, ReopenFile, FilesValid;
      if lastLogFile == null {
        NewCurrentFile();
      } else {
        ReopenLast();
      }
    }

    method CloseLast()
      requires Valid()
      modifies lastLogFile
      ensures FilesValid() && segment in files
      ensures View() == CloseCurrent(old(View()))
    {
      lastLogFile.Close();
    }

    /** The next segment number, and the files that are too old for it. */
    method NextSegment()
      requires FilesValid()
      modifies this`segment, this`files, this`lastLogFile, files.Values
      ensures FilesValid() && lastLogFile == null
      ensures View() == Purged(old(View()).(segment := (old(segment) + 1) % TWO_32))
      ensures files.Values <= old(files.Values)
    {
      hide Purged, SegmentFile.View, SegmentFile.Valid;
      segment := (segment + 1) % TWO_32;
      lastLogFile := null;
      assert View() == old(View()).(segment := segment);
      MaybeRemoveOldFiles();
    }

    /** The rest of the rotation inside AppendEntry. */
    method OpenNext()
      requires FilesValid()
      modifies this, files.Values
      ensures Valid() && fresh(files.Values - old(files.Values))
      ensures View() == StartNext(old(View()))
    {
      hide OpenFile, Purged, FilesValid, SegmentFile.View, SegmentFile.Valid;
      NextSegment();
      PrepareCurrentFile();
    }

    method AppendLast(p: Payload)
      requires Valid()
      modifies lastLogFile
      ensures Valid() && View() == AppendFrame(old(View()), p)
    {
      hide Frame;
      var ok := lastLogFile.AppendEntry(p);
    }

    /** AppendEntry refines the one-step append on values. */
    method AppendEntry(p: Payload)
      requires Valid()
      modifies this, files.Values
      ensures Valid() && fresh(files.Values - old(files.Values))
      ensures View() == Append(old(View()), p)
    {
      hide StartNext, CloseCurrent, AppendFrame, FilesValid;
      if lastLogFile.offset >= maxSize {
        CloseLast();
        OpenNext();
      }
      AppendLast(p);
    }

    method HasSegment(s: nat) returns (found: bool)
      ensures found <==> s in files
      ensures Window(View()) ==> (found <==> segment - countLimit <= s <= segment)
    {
      found := s in files;
      assert s in View().files <==> s in files;
    }

    method GetSegmentOffset() returns (s: nat, offset: nat)
      requires Valid()
      ensures s == segment && offset == View().files[segment].offset
    {
      s, offset := segment, lastLogFile.offset;
    }

    /** GetSegmentRange: exact over the retained window below 2^31; in general the lower end is
        capped by the starting value of the search. */
    method GetSegmentRange() returns (earliest: nat, latest: nat)
      ensures files == map[] ==> earliest == 0 && latest == 0
      ensures files != map[] ==>
                && latest in files && (forall s | s in files :: s <= latest)
                && (forall s | s in files :: earliest <= s)
                && (earliest in files || (earliest == MAX_INT_32 && forall s | s in files :: s > MAX_INT_32))
      ensures Window(View()) ==>
                && latest == segment
                && earliest == if segment <= countLimit then 0
                               else if segment - countLimit <= MAX_INT_32 then segment - countLimit else MAX_INT_32
    {
      earliest, latest := 0, 0;
      if files == map[] {
        assert segment !in View().files;
        return;
      }
      earliest := MAX_INT_32;
      var todo := files.Keys;
      while todo != {}
        invariant todo <= files.Keys && earliest <= MAX_INT_32
        invariant forall s | s in files && s !in todo :: earliest <= s <= latest
        invariant earliest in files || (earliest == MAX_INT_32 && forall s | s in files && s !in todo :: s > MAX_INT_32)
        invariant latest in files || (latest == 0 && forall s | s in files && s !in todo :: s == 0)
        invariant todo != files.Keys ==> latest in files
        decreases |todo|
      {
        var k :| k in todo;
        if k <= earliest {
          earliest := k;
        }
        if k > latest {
          latest := k;
        }
        todo := todo - {k};
      }
      WindowEnds(View(), earliest, latest);
    }
  }

  lemma WindowEnds(l: Log, earliest: nat, latest: nat)
    requires l.files != map[] && earliest <= MAX_INT_32
    requires latest in l.files && (forall s | s in l.files :: earliest <= s <= latest)
    requires earliest in l.files || (earliest == MAX_INT_32 && forall s | s in l.files :: s > MAX_INT_32)
    ensures Window(l) ==>
              && latest == l.segment
              && earliest == if l.segment <= l.countLimit then 0
                             else if l.segment - l.countLimit <= MAX_INT_32 then l.segment - l.countLimit
                             else MAX_INT_32
  {
    if Window(l) {
      var first := if l.segment <= l.countLimit then 0 else l.segment - l.countLimit;
      assert first in l.files && l.segment in l.files;
    }
  }
}
