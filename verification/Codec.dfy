/** The on-disk row format: a 21-byte little-endian header followed by the value. */
module Codec {
  import opened Bytes

  type U32 = x: nat | x < 0x1_0000_0000
  type U64 = x: nat | x < 0x1_0000_0000_0000_0000

  const HEADER_SIZE := 21
  const NANOS_PER_SECOND := 1_000_000_000
  const NANOS_PER_MILLI := 1_000_000

  /** Keys with this prefix are the store's own; their values are not rows. */
  const INTERNAL_PREFIX: ByteString := [95, 118, 97, 115, 116, 111, 46] // "_vasto."

  datatype Entry = Entry(
    partitionHash: U64,
    updatedAtNs: U64,
    ttlSecond: U32,
    opAndDataType: Byte,
    value: ByteString)

  datatype Decoded = Rejected | Accepted(entry: Entry)

  function Encode(e: Entry): (b: ByteString)
    ensures |b| == HEADER_SIZE + |e.value|
  {
    LittleEndian(e.partitionHash, 8) + LittleEndian(e.updatedAtNs, 8) + LittleEndian(e.ttlSecond, 4)
    + [e.opAndDataType] + e.value
  }

  /** FromBytes; the nil result is `Rejected`. */
  function FromBytes(b: ByteString): (d: Decoded)
    ensures d.Accepted? ==> |d.entry.value| > 0
  {
    if |b| <= HEADER_SIZE then Rejected
    else
      PowersOf256();
      Accepted(Entry(
                 FromLittleEndian(b[0..8]),
                 FromLittleEndian(b[8..16]),
                 FromLittleEndian(b[16..20]),
                 b[20],
                 b[21..]))
  }

  function PartitionHashFromBytes(b: ByteString): (h: U64)
    requires |b| >= 8
  {
    PowersOf256();
    FromLittleEndian(b[0..8])
  }

  /** Writes the `n` low bytes of `v` at `at`, leaving every other byte alone. */
  method PutUint(b: array<Byte>, at: nat, v: nat, n: nat)
    requires at + n <= b.Length
    modifies b
    ensures b[at..at + n] == LittleEndian(v, n)
    ensures forall k :: 0 <= k < at || at + n <= k < b.Length ==> b[k] == old(b[k])
  {
    var rest, i := v, 0;
    while i < n
      invariant i <= n
      invariant b[at..at + i] + LittleEndian(rest, n - i) == LittleEndian(v, n)
      invariant forall k :: 0 <= k < at || at + n <= k < b.Length ==> b[k] == old(b[k])
    {
      ghost var done := b[at..at + i];
      b[at + i] := rest % 256;
      assert b[at..at + i + 1] == done + [rest % 256];
      rest, i := rest / 256, i + 1;
    }
  }

  /** ToBytes fills a fresh buffer field by field. */
  method ToBytes(e: Entry) returns (b: array<Byte>)
    ensures fresh(b)
    ensures b[..] == Encode(e)
  {
    b := new Byte[|e.value| + HEADER_SIZE];
    PutUint(b, 0, e.partitionHash, 8);
    PutUint(b, 8, e.updatedAtNs, 8);
    assert b[0..8] == LittleEndian(e.partitionHash, 8);
    PutUint(b, 16, e.ttlSecond, 4);
    assert b[0..8] == LittleEndian(e.partitionHash, 8);
    assert b[8..16] == LittleEndian(e.updatedAtNs, 8);
    b[20] := e.opAndDataType;
    ghost var header := b[..21];
    assert header[0..8] == LittleEndian(e.partitionHash, 8);
    assert header[8..16] == LittleEndian(e.updatedAtNs, 8);
    assert header[16..20] == LittleEndian(e.ttlSecond, 4);
    assert header == header[0..8] + header[8..16] + header[16..20] + [header[20]];
    forall i | 0 <= i < |e.value| {
      b[HEADER_SIZE + i] := e.value[i];
    }
    assert b[..21] == header;
    assert b[21..] == e.value;
    assert b[..] == b[..21] + b[21..];
  }

  lemma EncodeFields(e: Entry)
    ensures Encode(e)[0..8] == LittleEndian(e.partitionHash, 8)
    ensures Encode(e)[8..16] == LittleEndian(e.updatedAtNs, 8)
    ensures Encode(e)[16..20] == LittleEndian(e.ttlSecond, 4)
    ensures Encode(e)[20] == e.opAndDataType
    ensures Encode(e)[21..] == e.value
  {
  }

  /** A row survives the disk exactly when its value is not empty: a 21-byte row
      is rejected on the way back. */
  lemma RoundTrip(e: Entry)
    ensures FromBytes(Encode(e)) == Accepted(e) <==> e.value != []
    ensures e.value == [] ==> FromBytes(Encode(e)) == Rejected
  {
    EncodeFields(e);
    PowersOf256();
    LittleEndianRoundTrip(e.partitionHash, 8);
    LittleEndianRoundTrip(e.updatedAtNs, 8);
    LittleEndianRoundTrip(e.ttlSecond, 4);
  }

  /** Decoding loses nothing either: every accepted byte string is the encoding of its entry. */
  lemma DecodeRoundTrip(b: ByteString)
    requires FromBytes(b).Accepted?
    ensures Encode(FromBytes(b).entry) == b
  {
    FromLittleEndianRoundTrip(b[0..8]);
    FromLittleEndianRoundTrip(b[8..16]);
    FromLittleEndianRoundTrip(b[16..20]);
    assert b == b[0..8] + b[8..16] + b[16..20] + [b[20]] + b[21..];
  }

  /** The shortcut reader agrees with the full decoder, even on rows the decoder rejects. */
  lemma PartitionHashAgrees(e: Entry)
    ensures PartitionHashFromBytes(Encode(e)) == e.partitionHash
  {
    EncodeFields(e);
    PowersOf256();
    LittleEndianRoundTrip(e.partitionHash, 8);
  }

  /** IsExpired: the product TtlSecond*1e9 is a 32-bit product, the sum a 64-bit one. */
  predicate IsExpired(e: Entry, nowNs: U64) {
    e.ttlSecond > 0 &&
    (e.updatedAtNs + e.ttlSecond * NANOS_PER_SECOND % 0x1_0000_0000) % 0x1_0000_0000_0000_0000 < nowNs
  }

  /** The compaction filter's rule: milliseconds plus seconds against a clock in seconds. */
  predicate TtlDropped(e: Entry, nowNs: U64) {
    e.ttlSecond > 0 &&
    (e.updatedAtNs / NANOS_PER_MILLI + e.ttlSecond) % 0x1_0000_0000_0000_0000 < nowNs / NANOS_PER_SECOND
  }

  /** Compaction never removes a row a reader could still see, now or at any later time. */
  lemma TtlAgreement(e: Entry, nowNs: U64, laterNs: U64)
    requires TtlDropped(e, nowNs)
    requires nowNs <= laterNs
    ensures IsExpired(e, laterNs)
  {
    var seconds := nowNs / NANOS_PER_SECOND;
    var wrapped := e.ttlSecond * NANOS_PER_SECOND % 0x1_0000_0000;
    var millis := e.updatedAtNs / NANOS_PER_MILLI;
    assert e.updatedAtNs < (millis + 1) * NANOS_PER_MILLI;
    assert millis + 1 + e.ttlSecond <= seconds;
    assert seconds * NANOS_PER_SECOND <= nowNs;
    if e.ttlSecond <= 4 {
      assert wrapped == e.ttlSecond * NANOS_PER_SECOND;
    }
  }

  /** A row with a time to live is gone for readers within 4.3 seconds, whatever its time to live. */
  lemma LifetimeIsShort(e: Entry, nowNs: U64)
    requires e.ttlSecond > 0 && e.updatedAtNs + 0x1_0000_0000 <= nowNs
    ensures IsExpired(e, nowNs)
  {
    var wrapped := e.ttlSecond * NANOS_PER_SECOND % 0x1_0000_0000;
    assert e.updatedAtNs + wrapped < 0x1_0000_0000_0000_0000;
  }

  /** Readers see a row for exactly its time to live if and only if that is at most 4 seconds. */
  lemma LifetimeIff(e: Entry)
    requires e.ttlSecond > 0 && e.updatedAtNs + e.ttlSecond * NANOS_PER_SECOND < 0xFFFF_FFFF_FFFF_FFFF
    ensures (forall nowNs: U64 :: IsExpired(e, nowNs) <==> nowNs > e.updatedAtNs + e.ttlSecond * NANOS_PER_SECOND)
            <==> e.ttlSecond <= 4
  {
    var wrapped := e.ttlSecond * NANOS_PER_SECOND % 0x1_0000_0000;
    if e.ttlSecond > 4 {
      var early: U64 := e.updatedAtNs + wrapped + 1;
      assert IsExpired(e, early);
    } else {
      assert wrapped == e.ttlSecond * NANOS_PER_SECOND;
    }
  }

  /** The age rule takes milliseconds for seconds: it drops a row from this many seconds on. */
  lemma AgeRuleFiresFrom(e: Entry, nowNs: U64)
    requires e.ttlSecond > 0
    ensures TtlDropped(e, nowNs) <==>
            (e.updatedAtNs / NANOS_PER_MILLI + e.ttlSecond + 1) * NANOS_PER_SECOND <= nowNs
  {
    var due, seconds := e.updatedAtNs / NANOS_PER_MILLI + e.ttlSecond, nowNs / NANOS_PER_SECOND;
    assert due < 0x1_0000_0000_0000_0000;
    assert nowNs < (seconds + 1) * NANOS_PER_SECOND && seconds * NANOS_PER_SECOND <= nowNs;
  }

  /** So it can ever fire only for rows written within 214 days of the epoch. */
  lemma AgeRuleFiresIff(e: Entry)
    ensures (exists nowNs: U64 :: TtlDropped(e, nowNs))
            <==> e.ttlSecond > 0 && e.updatedAtNs / NANOS_PER_MILLI + e.ttlSecond < 18_446_744_073
  {
    if e.ttlSecond > 0 {
      if e.updatedAtNs / NANOS_PER_MILLI + e.ttlSecond < 18_446_744_073 {
        AgeRuleFiresFrom(e, 0xFFFF_FFFF_FFFF_FFFF);
        assert TtlDropped(e, 0xFFFF_FFFF_FFFF_FFFF);
      } else {
        forall nowNs: U64
          ensures !TtlDropped(e, nowNs)
        {
          AgeRuleFiresFrom(e, nowNs);
        }
      }
    }
  }
}
