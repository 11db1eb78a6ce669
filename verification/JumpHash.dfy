/** Jump consistent hash (Lamping and Veach, arXiv:1406.2294), with exact integer division
    where the published code divides floating-point numbers. */
module JumpHash {
  import opened Codec

  const MULTIPLIER := 2862933555777941757
  const TWO_31 := 0x8000_0000
  const TWO_33 := 0x2_0000_0000
  const TWO_64 := 0x1_0000_0000_0000_0000

  function NextKey(key: U64): U64 {
    (key * MULTIPLIER + 1) % TWO_64
  }

  /** The jump taken from bucket `b` under the already advanced key. */
  function NextJump(b: nat, key: U64): (j: nat)
    ensures j > b
  {
    JumpsForward(b, key);
    (b + 1) * TWO_31 / (key / TWO_33 + 1)
  }

  lemma JumpsForward(b: nat, key: U64)
    ensures (b + 1) * TWO_31 / (key / TWO_33 + 1) > b
  {
    var d := key / TWO_33 + 1;
    MulMonotone(d, TWO_31, b + 1);
    QuotientAtLeast((b + 1) * TWO_31, d, b + 1);
  }

  lemma MulMonotone(a: nat, b: nat, c: nat)
    requires a <= b
    ensures a * c <= b * c
  {
  }

  lemma QuotientAtLeast(x: nat, d: nat, k: nat)
    requires d > 0 && d * k <= x
    ensures k <= x / d
  {
    var q, r := x / d, x % d;
    assert x == d * q + r;
    assert d * (q + 1) == d * q + d;
    if q < k {
      MulMonotone(q + 1, k, d);
    }
  }

  function HashFrom(key: U64, b: int, j: nat, n: int): int
    decreases n - j
  {
    if j >= n then b
    else
      var advanced := NextKey(key);
      HashFrom(advanced, j, NextJump(j, advanced), n)
  }

  /** The bucket of `key` among `n`; -1 when there are no buckets. */
  function Hash(key: U64, n: int): int {
    HashFrom(key, -1, 0, n)
  }

  /** The loop of the published algorithm. */
  method JumpLoop(key: U64, n: int) returns (b: int)
    ensures b == Hash(key, n)
  {
    var k, j := key, 0;
    b := -1;
    while j < n
      invariant HashFrom(k, b, j, n) == Hash(key, n)
      decreases n - j
    {
      b := j;
      k := NextKey(k);
      j := NextJump(b, k);
    }
  }

  /** The jumps of a key, starting at 0; they do not depend on the number of buckets. */
  function JumpAt(key: U64, i: nat): nat {
    if i == 0 then 0 else NextJump(JumpAt(key, i - 1), KeyAt(key, i))
  }

  function KeyAt(key: U64, i: nat): U64 {
    if i == 0 then key else NextKey(KeyAt(key, i - 1))
  }

  lemma {:induction false} HashFromJump(key: U64, i: nat, b: int, n: int) returns (last: nat)
    requires JumpAt(key, i) < n
    ensures i <= last
    ensures HashFrom(KeyAt(key, i), b, JumpAt(key, i), n) == JumpAt(key, last)
    ensures JumpAt(key, last) < n <= JumpAt(key, last + 1)
    decreases n - JumpAt(key, i)
  {
    if JumpAt(key, i + 1) >= n {
      last := i;
    } else {
      last := HashFromJump(key, i + 1, JumpAt(key, i), n);
    }
  }

  lemma {:induction false} JumpsIncrease(key: U64, i: nat, j: nat)
    requires i <= j
    ensures JumpAt(key, i) + j - i <= JumpAt(key, j)
    decreases j
  {
    if i < j {
      JumpsIncrease(key, i, j - 1);
    }
  }

  /** The bucket is the last jump below the number of buckets. */
  lemma HashIsLastJump(key: U64, n: int) returns (last: nat)
    requires n >= 1
    ensures Hash(key, n) == JumpAt(key, last)
    ensures JumpAt(key, last) < n <= JumpAt(key, last + 1)
  {
    last := HashFromJump(key, 0, -1, n);
  }

  /** Every key has a bucket, and it is one of the `n`. */
  lemma HashInRange(key: U64, n: int)
    ensures n >= 1 ==> 0 <= Hash(key, n) < n
    ensures n < 1 ==> Hash(key, n) == -1
  {
    if n >= 1 {
      var last := HashIsLastJump(key, n);
    }
  }

  /** Consistency: as the cluster changes between `m` and `n` buckets a key either stays or
      moves between a bucket below `m` and one of the buckets `m .. n`. */
  lemma HashConsistent(key: U64, m: int, n: int)
    requires 1 <= m <= n
    ensures Hash(key, n) == Hash(key, m) || m <= Hash(key, n) < n
    ensures Hash(key, n) < m ==> Hash(key, n) == Hash(key, m)
  {
    var a := HashIsLastJump(key, m);
    var b := HashIsLastJump(key, n);
    if b < a {
      JumpsIncrease(key, b + 1, a);
    } else if a < b {
      JumpsIncrease(key, a + 1, b);
    }
  }

  /** A zero hash always lands in bucket 0. */
  lemma HashOfZero(n: int)
    requires 1 <= n <= TWO_31
    ensures Hash(0, n) == 0
  {
    assert NextKey(0) == 1;
    assert NextJump(0, 1) == TWO_31;
    assert HashFrom(0, -1, 0, n) == HashFrom(1, 0, TWO_31, n);
  }

  /** One turn of the loop. */
  lemma OneJump(key: U64, b: int, j: nat, n: int, advanced: U64, next: nat)
    requires j < n
    requires advanced == (key * 2862933555777941757 + 1) % 0x1_0000_0000_0000_0000
    requires next * (advanced / 0x2_0000_0000 + 1) <= (j + 1) * 0x8000_0000
    requires (j + 1) * 0x8000_0000 < (next + 1) * (advanced / 0x2_0000_0000 + 1)
    ensures HashFrom(key, b, j, n) == HashFrom(advanced, j, next, n)
  {
    var d, x := advanced / TWO_33 + 1, (j + 1) * TWO_31;
    QuotientAtLeast(x, d, next);
    QuotientBelow(x, d, next);
    assert NextKey(key) == advanced;
    assert NextJump(j, advanced) == x / d;
  }

  lemma QuotientBelow(x: nat, d: nat, k: nat)
    requires d > 0 && x < (k + 1) * d
    ensures x / d <= k
  {
    var q, r := x / d, x % d;
    assert x == d * q + r;
    if q > k {
      MulMonotone(k + 1, q, d);
    }
  }

  /** The jumps of three keys, in numbers: key 42 is in bucket 43 of 57, key 256 in bucket 520 of 1024, and
      key 2 in bucket 3 of 5. */
  lemma HashOfSomeKeys()
    ensures Hash(42, 57) == 43
    ensures Hash(256, 1024) == 520
    ensures Hash(2, 5) == 3
  {
    hide HashFrom;
    OneJump(42, -1, 0, 57, 9562744900416244099, 1);
    OneJump(9562744900416244099, 0, 1, 57, 14010661636263409272, 2);
    OneJump(14010661636263409272, 1, 2, 57, 2482660656413906073, 22);
    OneJump(2482660656413906073, 2, 22, 57, 12779540726165998390, 33);
    OneJump(12779540726165998390, 22, 33, 57, 15469935623126070367, 40);
    OneJump(15469935623126070367, 33, 40, 57, 17576256497753526756, 43);
    OneJump(17576256497753526756, 40, 43, 57, 1419670933141876309, 571);
    JumpedPast(1419670933141876309, 43, 571, 57);
    OneJump(256, -1, 0, 1024, 13487971404480576769, 1);
    OneJump(13487971404480576769, 0, 1, 1024, 14592341821717395966, 2);
    OneJump(14592341821717395966, 1, 2, 1024, 15464308700622647303, 3);
    OneJump(15464308700622647303, 2, 3, 1024, 4569389403071022828, 16);
    OneJump(4569389403071022828, 3, 16, 1024, 2277514397722515261, 137);
    OneJump(2277514397722515261, 16, 137, 1024, 4889150287270209354, 520);
    OneJump(4889150287270209354, 137, 520, 1024, 2460374328665044003, 3906);
    JumpedPast(2460374328665044003, 520, 3906, 1024);
    OneJump(2, -1, 0, 5, 5725867111555883515, 3);
    OneJump(5725867111555883515, 0, 3, 5, 12177941594710369552, 6);
    JumpedPast(12177941594710369552, 3, 6, 5);
  }

  lemma JumpedPast(key: U64, b: int, j: nat, n: int)
    requires j >= n
    ensures HashFrom(key, b, j, n) == b
  {
  }
}
