/** A shard's rows as a map, seen one key at a time. */
module Rows {
  import opened Bytes
  import opened Codec
  import opened LastWriteWins

  type Db = map<ByteString, Entry>

  function At(db: Db, key: ByteString): Slot {
    if key in db then Present(db[key]) else Absent
  }

  /** The store after one key is overwritten or removed; every other key keeps its row. */
  function WithSlot(db: Db, key: ByteString, slot: Slot): (r: Db)
    ensures forall k :: At(r, k) == if k == key then slot else At(db, k)
  {
    match slot
    case Absent => db - {key}
    case Present(row) => db[key := row]
  }

  lemma SameSlotsSameRows(a: Db, b: Db)
    requires forall k :: At(a, k) == At(b, k)
    ensures a == b
  {
    assert forall k :: k in a <==> At(a, k).Present?;
    assert forall k :: k in b <==> At(b, k).Present?;
    forall k | k in a
      ensures a[k] == b[k]
    {
      assert At(a, k) == At(b, k);
    }
  }

  /** The stored bytes of this key do not decode, so looking into the row dereferences nil. */
  predicate Unreadable(db: Db, key: ByteString) {
    key in db && FromBytes(Encode(db[key])).Rejected?
  }

  /** That is exactly a stored row with an empty value; any other row is read back as it was. */
  lemma UnreadableIff(db: Db, key: ByteString)
    ensures Unreadable(db, key) <==> key in db && db[key].value == []
    ensures key in db && !Unreadable(db, key) ==> FromBytes(Encode(db[key])) == Accepted(db[key])
  {
    hide Encode, FromBytes;
    if key in db {
      RoundTrip(db[key]);
    }
  }

  /** No stored row has an empty value. */
  ghost predicate AllReadable(db: Db) {
    forall key | key in db :: db[key].value != []
  }

  lemma ReadableNeverUnreadable(db: Db, key: ByteString)
    requires AllReadable(db)
    ensures !Unreadable(db, key)
  {
    hide Encode, FromBytes;
    UnreadableIff(db, key);
  }
}
