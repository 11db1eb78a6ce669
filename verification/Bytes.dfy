/** Byte strings: the lexicographic key order (`bytes.Compare`), prefixes, and
    little-endian unsigned integers. */
module Bytes {

  type Byte = b: int | 0 <= b < 256
  type ByteString = seq<Byte>

  /** bytes.Compare(a, b) < 0 */
  predicate Less(a: ByteString, b: ByteString)
    decreases |a|
  {
    if b == [] then false
    else if a == [] then true
    else if a[0] != b[0] then a[0] < b[0]
    else Less(a[1..], b[1..])
  }

  predicate Leq(a: ByteString, b: ByteString) {
    !Less(b, a)
  }

  lemma {:induction false} LessIrreflexive(a: ByteString)
    ensures !Less(a, a)
    decreases |a|
  {
    if a != [] {
      LessIrreflexive(a[1..]);
    }
  }

  /** `a` stops where `b` goes on, or has the smaller byte where they first differ, at `i`. */
  predicate FirstDifference(a: ByteString, b: ByteString, i: nat) {
    && i <= |a| && i < |b| && a[..i] == b[..i]
    && (i < |a| ==> a[i] < b[i])
  }

  lemma {:induction false} FindDifference(a: ByteString, b: ByteString) returns (i: nat)
    requires Less(a, b)
    ensures FirstDifference(a, b, i)
    decreases |a|
  {
    if a == [] || a[0] != b[0] {
      i := 0;
    } else {
      var k := FindDifference(a[1..], b[1..]);
      i := k + 1;
      assert a[..i] == [a[0]] + a[1..][..k] && b[..i] == [b[0]] + b[1..][..k];
    }
  }

  lemma {:induction false} DifferenceIsLess(a: ByteString, b: ByteString, i: nat)
    requires FirstDifference(a, b, i)
    ensures Less(a, b)
    decreases i
  {
    if i > 0 {
      assert a[0] == a[..i][0] == b[..i][0] == b[0];
      assert a[1..][..i - 1] == a[..i][1..] && b[1..][..i - 1] == b[..i][1..];
      DifferenceIsLess(a[1..], b[1..], i - 1);
    }
  }

  /** The key order, by the first difference: the shorter of two that do not differ comes first. */
  lemma LessIffFirstDifference(a: ByteString, b: ByteString)
    ensures Less(a, b) <==>
            || a < b
            || exists i :: 0 <= i < |a| && i < |b| && a[..i] == b[..i] && a[i] < b[i]
  {
    hide Less;
    if Less(a, b) {
      var i := FindDifference(a, b);
      assert i == |a| ==> a == b[..i];
    } else if a < b {
      assert FirstDifference(a, b, |a|);
      DifferenceIsLess(a, b, |a|);
    } else if i :| 0 <= i < |a| && i < |b| && a[..i] == b[..i] && a[i] < b[i] {
      DifferenceIsLess(a, b, i);
    }
  }

  lemma {:induction false} LessTotal(a: ByteString, b: ByteString)
    ensures a == b || Less(a, b) || Less(b, a)
    decreases |a|
  {
    if a != [] && b != [] && a[0] == b[0] {
      LessTotal(a[1..], b[1..]);
      assert a == [a[0]] + a[1..] && b == [b[0]] + b[1..];
    }
  }

  /** `a` is a first part of `b`, or has the smaller byte where they first differ. */
  ghost predicate NotAfter(a: ByteString, b: ByteString) {
    a <= b || exists i :: 0 <= i < |a| && i < |b| && a[..i] == b[..i] && a[i] < b[i]
  }

  lemma LeqIffNotAfter(a: ByteString, b: ByteString)
    ensures Leq(a, b) <==> NotAfter(a, b)
  {
    hide Less;
    LessTotal(a, b);
    LessIffFirstDifference(a, b);
    if Less(a, b) {
      LessAsymmetric(a, b);
    } else {
      LessIrreflexive(a);
      if a != b {
        assert !(a < b) && !(a <= b);
      }
    }
  }

  lemma {:induction false} LessTransitive(a: ByteString, b: ByteString, c: ByteString)
    requires Less(a, b) && Less(b, c)
    ensures Less(a, c)
    decreases |a|
  {
    if a != [] && a[0] == b[0] == c[0] {
      LessTransitive(a[1..], b[1..], c[1..]);
    }
  }

  lemma LessAsymmetric(a: ByteString, b: ByteString)
    requires Less(a, b)
    ensures !Less(b, a)
  {
    if Less(b, a) {
      LessTransitive(a, b, a);
      LessIrreflexive(a);
    }
  }

  lemma LeqTransitive(a: ByteString, b: ByteString, c: ByteString)
    requires Leq(a, b) && Leq(b, c)
    ensures Leq(a, c)
  {
    if Less(c, a) {
      LessTotal(a, b);
      if a == b {
        assert false;
      } else {
        LessTransitive(c, a, b);
      }
    }
  }

  lemma LessLeqTransitive(a: ByteString, b: ByteString, c: ByteString)
    ensures Less(a, b) && Leq(b, c) ==> Less(a, c)
    ensures Leq(a, b) && Less(b, c) ==> Less(a, c)
  {
    LessTotal(a, b);
    LessTotal(b, c);
    if Less(a, b) && Less(b, c) {
      LessTransitive(a, b, c);
    }
  }

  /** bytes.HasPrefix */
  predicate HasPrefix(key: ByteString, prefix: ByteString) {
    prefix <= key
  }

  lemma HasPrefixIff(key: ByteString, prefix: ByteString)
    ensures HasPrefix(key, prefix) <==> exists rest :: key == prefix + rest
  {
    if HasPrefix(key, prefix) {
      assert key == prefix + key[|prefix|..];
    }
  }

  lemma {:induction false} PrefixIsLeast(prefix: ByteString, key: ByteString)
    requires HasPrefix(key, prefix)
    ensures Leq(prefix, key)
    decreases |prefix|
  {
    if prefix != [] {
      assert key[0] == prefix[0];
      PrefixIsLeast(prefix[1..], key[1..]);
    }
  }

  /** The keys that carry a prefix form one unbroken range of the key order. */
  lemma {:induction false} PrefixRangeConvex(prefix: ByteString, mid: ByteString, last: ByteString)
    requires HasPrefix(last, prefix)
    requires Leq(prefix, mid) && Leq(mid, last)
    ensures HasPrefix(mid, prefix)
    decreases |prefix|
  {
    if prefix != [] {
      assert last[0] == prefix[0];
      assert mid != [] && mid[0] == prefix[0];
      PrefixRangeConvex(prefix[1..], mid[1..], last[1..]);
      assert mid == [mid[0]] + mid[1..];
    }
  }

  function Pow256(n: nat): (r: nat)
    ensures r >= 1
  {
    if n == 0 then 1 else 256 * Pow256(n - 1)
  }

  /** The low `n` bytes of `v`, least significant first (binary.LittleEndian.PutUint*). */
  function LittleEndian(v: nat, n: nat): (s: ByteString)
    ensures |s| == n
  {
    if n == 0 then [] else [v % 256] + LittleEndian(v / 256, n - 1)
  }

  /** binary.LittleEndian.Uint* */
  function FromLittleEndian(s: ByteString): (v: nat)
    ensures v < Pow256(|s|)
  {
    if s == [] then 0 else s[0] + 256 * FromLittleEndian(s[1..])
  }

  /** A further byte has the next higher weight. */
  lemma {:induction false} LastByteWeighsMost(s: ByteString, b: Byte)
    ensures FromLittleEndian(s + [b]) == FromLittleEndian(s) + b * Pow256(|s|)
    decreases |s|
  {
    if s != [] {
      var t := s[1..];
      assert (s + [b])[1..] == t + [b];
      LastByteWeighsMost(t, b);
      var power := Pow256(|t|);
      assert 256 * (b * power) == b * (256 * power);
    }
  }

  lemma {:induction false} LittleEndianRoundTrip(v: nat, n: nat)
    requires v < Pow256(n)
    ensures FromLittleEndian(LittleEndian(v, n)) == v
  {
    if n > 0 {
      LittleEndianRoundTrip(v / 256, n - 1);
      assert LittleEndian(v, n)[1..] == LittleEndian(v / 256, n - 1);
    }
  }

  lemma {:induction false} FromLittleEndianRoundTrip(s: ByteString)
    ensures LittleEndian(FromLittleEndian(s), |s|) == s
  {
    if s != [] {
      var high := FromLittleEndian(s[1..]);
      FromLittleEndianRoundTrip(s[1..]);
      assert (s[0] + 256 * high) % 256 == s[0] && (s[0] + 256 * high) / 256 == high;
      assert s == [s[0]] + s[1..];
    }
  }

  lemma PowersOf256()
    ensures Pow256(4) == 0x1_0000_0000
    ensures Pow256(8) == 0x1_0000_0000_0000_0000
  {
    assert Pow256(1) == 256;
    assert Pow256(2) == 65536;
    assert Pow256(3) == 16777216;
    assert Pow256(4) == 4294967296;
    assert Pow256(5) == 256 * Pow256(4);
    assert Pow256(6) == 256 * Pow256(5);
    assert Pow256(7) == 256 * Pow256(6);
  }
}
