/** The byte layout of a binlog segment: each marshalled entry behind a 4-byte little-endian
    length. */
module FrameFormat {
  import opened Bytes

  /** One marshalled log entry. */
  type Payload = ByteString

  const TWO_32 := 0x1_0000_0000

  /** The length and the step over the frame both have to fit 32 bits. */
  predicate Fits(p: Payload) {
    |p| + 4 < TWO_32
  }

  function Frame(p: Payload): ByteString {
    LittleEndian(|p|, 4) + p
  }

  /** A segment file that holds exactly `ps`. */
  function Frames(ps: seq<Payload>): ByteString {
    if ps == [] then [] else Frames(ps[..|ps| - 1]) + Frame(ps[|ps| - 1])
  }

  /** The file offset of entry `i`. */
  function Boundary(ps: seq<Payload>, i: nat): nat
    requires i <= |ps|
  {
    |Frames(ps[..i])|
  }

  datatype ReadResult = ReadError | ReadOk(payload: Payload, next: nat)

  /** readOneEntry on an open file; the step over the frame is taken in 32 bits. */
  function ReadFrame(data: ByteString, offset: nat): ReadResult {
    if offset + 4 > |data| then ReadError
    else
      var n := FromLittleEndian(data[offset..offset + 4]);
      if offset + 4 + n > |data| then ReadError
      else ReadOk(data[offset + 4..offset + 4 + n], offset + (n + 4) % TWO_32)
  }

  lemma BoundaryStep(ps: seq<Payload>, i: nat)
    requires i < |ps|
    ensures Boundary(ps, i + 1) == Boundary(ps, i) + 4 + |ps[i]|
    ensures Frames(ps[..i + 1]) == Frames(ps[..i]) + Frame(ps[i])
  {
    assert ps[..i + 1][..i] == ps[..i];
  }

  lemma {:induction false} BoundariesIncrease(ps: seq<Payload>, i: nat, j: nat)
    requires i <= j <= |ps|
    ensures Boundary(ps, i) + 4 * (j - i) <= Boundary(ps, j)
    decreases j
  {
    if i < j {
      BoundariesIncrease(ps, i, j - 1);
      BoundaryStep(ps, j - 1);
    }
  }

  lemma {:induction false} FramesPrefix(ps: seq<Payload>, i: nat)
    requires i <= |ps|
    ensures Frames(ps[..i]) <= Frames(ps)
    decreases |ps| - i
  {
    if i < |ps| {
      BoundaryStep(ps, i);
      FramesPrefix(ps, i + 1);
    } else {
      assert ps[..i] == ps;
    }
  }

  lemma ReadFrameAt(before: ByteString, p: Payload, after: ByteString)
    requires Fits(p)
    ensures ReadFrame(before + Frame(p) + after, |before|) == ReadOk(p, |before| + 4 + |p|)
  {
    var data, at := before + Frame(p) + after, |before|;
    var size := LittleEndian(|p|, 4);
    assert data == before + (size + (p + after));
    assert data[at..at + 4] == size;
    PowersOf256();
    LittleEndianRoundTrip(|p|, 4);
    assert data[at + 4..at + 4 + |p|] == p;
  }

  /** Reading back: at entry boundary `i` the reader finds entry `i` and lands on boundary
      `i + 1`; at the end of the file it finds an error. */
  lemma ReadAtBoundary(ps: seq<Payload>, i: nat)
    requires i <= |ps| && forall k :: 0 <= k < |ps| ==> Fits(ps[k])
    ensures i < |ps| ==> ReadFrame(Frames(ps), Boundary(ps, i)) == ReadOk(ps[i], Boundary(ps, i + 1))
    ensures i == |ps| ==> ReadFrame(Frames(ps), Boundary(ps, i)) == ReadError
  {
    if i < |ps| {
      BoundaryStep(ps, i);
      FramesPrefix(ps, i + 1);
      var upTo := Frames(ps[..i + 1]);
      assert Frames(ps) == upTo + Frames(ps)[|upTo|..];
      ReadFrameAt(Frames(ps[..i]), ps[i], Frames(ps)[|upTo|..]);
    } else {
      assert ps[..i] == ps;
    }
  }

  /** Appending an entry moves no earlier boundary. */
  lemma BoundaryStable(ps: seq<Payload>, p: Payload, i: nat)
    requires i <= |ps|
    ensures Boundary(ps + [p], i) == Boundary(ps, i)
    ensures Frames(ps + [p]) == Frames(ps) + Frame(p)
  {
    assert (ps + [p])[..i] == ps[..i];
    assert (ps + [p])[..|ps + [p]| - 1] == ps;
  }
}
