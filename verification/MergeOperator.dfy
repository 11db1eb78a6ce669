/** The RocksDB merge operator: rows of one key are folded by the type of the incoming operand, and
    the store may fold neighbouring operands ahead of time. */
module MergeOperator {
  import opened Bytes
  import opened Codec

  const BYTES: Byte := 0
  const FLOAT64: Byte := 1
  const MAX_FLOAT64: Byte := 2
  const MIN_FLOAT64: Byte := 3

  /** The numbers behind an 8-byte value, left open: `add`, `less` and the two conversions. */
  datatype Arith<!N> = Arith(add: (N, N) -> N, less: (N, N) -> bool, dec: ByteString -> N, enc: N -> ByteString)

  /** Eight bytes hold a number and only the first eight are read. */
  ghost predicate Faithful<N(!new)>(ar: Arith<N>) {
    && (forall x :: |ar.enc(x)| == 8 && ar.dec(ar.enc(x)) == x)
    && (forall v :: |v| >= 8 ==> ar.dec(v) == ar.dec(v[..8]))
  }

  ghost predicate Associative<N(!new)>(ar: Arith<N>) {
    forall x, y, z :: ar.add(ar.add(x, y), z) == ar.add(x, ar.add(y, z))
  }

  /** `less` is a strict weak order: no not-a-number. */
  ghost predicate Ordered<N(!new)>(ar: Arith<N>) {
    && (forall x, y :: ar.less(x, y) ==> !ar.less(y, x))
    && (forall x, y, z :: ar.less(x, z) ==> ar.less(x, y) || ar.less(y, z))
  }

  ghost predicate Exact<N(!new)>(ar: Arith<N>) {
    Faithful(ar) && Associative(ar) && Ordered(ar)
  }

  // ---- values ------------------------------------------------------------------------------------

  /** A value, or the panic of reading a number from fewer than eight bytes. */
  datatype Value = Panic | Value(bytes: ByteString)

  predicate IsNumeric(t: Byte) {
    t == FLOAT64 || t == MAX_FLOAT64 || t == MIN_FLOAT64
  }

  /** What an operand of type `t` does to the value it meets; an unknown type does nothing. */
  function MergeValue<N>(ar: Arith<N>, t: Byte, left: ByteString, right: ByteString): Value {
    if t == BYTES then Value(left + right)
    else if IsNumeric(t) && (|left| < 8 || |right| < 8) then Panic
    else if t == FLOAT64 then Value(ar.enc(ar.add(ar.dec(left), ar.dec(right))))
    else if t == MAX_FLOAT64 then Value(if ar.less(ar.dec(left), ar.dec(right)) then right else left)
    else if t == MIN_FLOAT64 then Value(if ar.less(ar.dec(right), ar.dec(left)) then right else left)
    else Value(left)
  }

  function Then<N>(ar: Arith<N>, t: Byte, left: Value, right: Value): Value {
    if left.Panic? || right.Panic? then Panic else MergeValue(ar, t, left.bytes, right.bytes)
  }

  /** Both groupings of three values, the middle one met by type `t` and the last by type `u`. */
  predicate Regroups<N>(ar: Arith<N>, t: Byte, u: Byte, x: ByteString, y: ByteString, z: ByteString) {
    Then(ar, u, MergeValue(ar, t, x, y), Value(z)) == Then(ar, t, Value(x), MergeValue(ar, u, y, z))
  }

  lemma SameTypeRegroups<N(!new)>(ar: Arith<N>, t: Byte, x: ByteString, y: ByteString, z: ByteString)
    requires Exact(ar)
    ensures Regroups(ar, t, t, x, y, z)
  {
    if t == BYTES {
      assert x + y + z == x + (y + z);
    }
  }

  lemma UnknownTypeRegroups<N>(ar: Arith<N>, t: Byte, u: Byte, x: ByteString, y: ByteString, z: ByteString)
    requires u > MIN_FLOAT64
    ensures Regroups(ar, t, u, x, y, z)
  {
  }

  // ---- entries -----------------------------------------------------------------------------------

  /** An entry, or the panic of using one that did not decode. */
  datatype Outcome = Crashed | Merged(entry: Entry)

  datatype Existing = Absent | Present(bytes: ByteString)

  datatype Raw = Crash | Raw(bytes: ByteString)

  function Decode(b: ByteString): Outcome {
    match FromBytes(b)
    case Rejected => Crashed
    case Accepted(e) => Merged(e)
  }

  function ToRaw(o: Outcome): Raw {
    if o.Crashed? then Crash else Raw(Encode(o.entry))
  }

  /** MergeWith on decoded rows: the left header stays, the right type decides. */
  function Join<N>(ar: Arith<N>, x: Outcome, y: Outcome): Outcome {
    if x.Crashed? || y.Crashed? then Crashed
    else
      var v := MergeValue(ar, y.entry.opAndDataType, x.entry.value, y.entry.value);
      if v.Panic? then Crashed else Merged(x.entry.(value := v.bytes))
  }

  /** Two rows that decode panic exactly when the operand is numeric and one of the values is too short to
      hold a number. */
  lemma JoinCrashesIff<N>(ar: Arith<N>, x: Entry, y: Entry)
    ensures Join(ar, Merged(x), Merged(y)).Crashed? <==>
            1 <= y.opAndDataType <= 3 && (|x.value| < 8 || |y.value| < 8)
  {
  }

  function MergeWith<N>(ar: Arith<N>, e: Entry, b: ByteString): Outcome {
    Join(ar, Merged(e), Decode(b))
  }

  function MergeEntry<N>(ar: Arith<N>, a: Existing, b: ByteString): Outcome {
    if a.Absent? then Decode(b)
    else
      var x := Decode(a.bytes);
      if x.Crashed? then Crashed else MergeWith(ar, x.entry, b)
  }

  function PartialMerge<N>(ar: Arith<N>, left: ByteString, right: ByteString): Raw {
    ToRaw(MergeEntry(ar, Present(left), right))
  }

  /** All operands in turn onto `start`. */
  function Fold<N>(ar: Arith<N>, start: Outcome, operands: seq<ByteString>): Outcome {
    if operands == [] then start
    else Join(ar, Fold(ar, start, operands[..|operands| - 1]), Decode(operands[|operands| - 1]))
  }

  function Folded<N>(ar: Arith<N>, existing: Existing, operands: seq<ByteString>): Outcome {
    if operands == [] then Crashed
    else if existing.Absent? then Fold(ar, Decode(operands[0]), operands[1..])
    else Fold(ar, Decode(existing.bytes), operands)
  }

  method FullMerge<N>(ar: Arith<N>, existing: Existing, operands: seq<ByteString>) returns (r: Raw)
    ensures r == ToRaw(Folded(ar, existing, operands))
  {
    var entry := Crashed;
    var i := 0;
    while i < |operands|
      invariant i <= |operands|
      invariant entry == Folded(ar, existing, operands[..i])
    {
      ghost var before := operands[..i];
      assert operands[..i + 1] == before + [operands[i]];
      if i == 0 {
        entry := MergeEntry(ar, existing, operands[i]);
        assert operands[..1] == [operands[0]];
        assert Fold(ar, Decode(operands[0]), operands[..1][1..]) == Decode(operands[0]);
        if existing.Present? {
          FoldOne(ar, Decode(existing.bytes), operands[0]);
        }
      } else {
        FoldedGrows(ar, existing, before, operands[i]);
        if entry.Merged? {
          entry := MergeWith(ar, entry.entry, operands[i]);
        }
      }
      i := i + 1;
    }
    assert operands[..i] == operands;
    r := ToRaw(entry);
  }

  lemma FoldOne<N>(ar: Arith<N>, start: Outcome, b: ByteString)
    ensures Fold(ar, start, [b]) == Join(ar, start, Decode(b))
  {
    assert [b][..0] == [];
  }

  lemma FoldedGrows<N>(ar: Arith<N>, existing: Existing, operands: seq<ByteString>, b: ByteString)
    requires operands != []
    ensures Folded(ar, existing, operands + [b]) == Join(ar, Folded(ar, existing, operands), Decode(b))
  {
    var more := operands + [b];
    assert more[..|operands|] == operands;
    assert more[1..] == operands[1..] + [b];
    assert (operands[1..] + [b])[..|operands| - 1] == operands[1..];
  }

  // ---- folding ahead of time ---------------------------------------------------------------------

  /** How the store grouped a stretch of operands. */
  datatype Tree = Leaf(operand: ByteString) | Node(left: Tree, right: Tree)

  function Leaves(t: Tree): seq<ByteString> {
    match t
    case Leaf(b) => [b]
    case Node(l, r) => Leaves(l) + Leaves(r)
  }

  function Collapse<N>(ar: Arith<N>, t: Tree): Raw {
    match t
    case Leaf(b) => Raw(b)
    case Node(l, r) =>
      var x, y := Collapse(ar, l), Collapse(ar, r);
      if x.Crash? || y.Crash? then Crash else PartialMerge(ar, x.bytes, y.bytes)
  }

  /** An operand that decodes at all is of type `t`. */
  predicate OfType(b: ByteString, t: Byte) {
    Decode(b).Merged? ==> Decode(b).entry.opAndDataType == t
  }

  predicate AllOfType(bs: seq<ByteString>, t: Byte) {
    forall i | 0 <= i < |bs| :: OfType(bs[i], t)
  }

  lemma PartsOfType(first: seq<ByteString>, second: seq<ByteString>, t: Byte)
    requires AllOfType(first + second, t)
    ensures AllOfType(first, t) && AllOfType(second, t)
  {
    hide OfType;
    var both := first + second;
    assert forall i | 0 <= i < |first| :: first[i] == both[i];
    assert forall i | 0 <= i < |second| :: second[i] == both[|first| + i];
  }

  function Meaning(r: Raw): Outcome {
    if r.Crash? then Crashed else Decode(r.bytes)
  }

  lemma JoinIsStored<N(!new)>(ar: Arith<N>, l: ByteString, r: ByteString)
    requires Faithful(ar)
    ensures Meaning(PartialMerge(ar, l, r)) == Join(ar, Decode(l), Decode(r))
  {
    hide Encode;
    var j := Join(ar, Decode(l), Decode(r));
    if j.Merged? {
      assert j.entry.value != [];
      RoundTrip(j.entry);
    }
  }

  lemma JoinRegroups<N(!new)>(ar: Arith<N>, x: Outcome, y: Outcome, z: Outcome)
    requires Exact(ar)
    requires y.Merged? && z.Merged? ==> y.entry.opAndDataType == z.entry.opAndDataType
    ensures Join(ar, Join(ar, x, y), z) == Join(ar, x, Join(ar, y, z))
  {
    hide Exact;
    if x.Merged? && y.Merged? && z.Merged? {
      SameTypeRegroups(ar, y.entry.opAndDataType, x.entry.value, y.entry.value, z.entry.value);
      hide MergeValue;
    }
  }

  lemma {:induction false} FoldSplits<N>(ar: Arith<N>, start: Outcome, first: seq<ByteString>, second: seq<ByteString>)
    ensures Fold(ar, start, first + second) == Fold(ar, Fold(ar, start, first), second)
    decreases |second|
  {
    hide Join, Decode;
    if second == [] {
      assert first + second == first;
    } else {
      var n := |second| - 1;
      assert (first + second)[..|first| + n] == first + second[..n];
      FoldSplits(ar, start, first, second[..n]);
    }
  }

  /** A collapsed stretch acts on any row as its operands do one after the other. */
  lemma {:induction false} CollapseActs<N(!new)>(ar: Arith<N>, t: Byte, tree: Tree, start: Outcome)
    requires Exact(ar) && AllOfType(Leaves(tree), t)
    ensures Join(ar, start, Meaning(Collapse(ar, tree))) == Fold(ar, start, Leaves(tree))
    ensures Meaning(Collapse(ar, tree)).Merged? ==> Meaning(Collapse(ar, tree)).entry.opAndDataType == t
    decreases tree
  {
    match tree
    case Leaf(b) =>
      FoldOne(ar, start, b);
      assert OfType(Leaves(tree)[0], t);
    case Node(l, r) =>
      NodeActs(ar, t, l, r, start);
  }

  lemma {:induction false} NodeActs<N(!new)>(ar: Arith<N>, t: Byte, l: Tree, r: Tree, start: Outcome)
    requires Exact(ar) && AllOfType(Leaves(Node(l, r)), t)
    ensures Join(ar, start, Meaning(Collapse(ar, Node(l, r)))) == Fold(ar, start, Leaves(Node(l, r)))
    ensures var m := Meaning(Collapse(ar, Node(l, r))); m.Merged? ==> m.entry.opAndDataType == t
    decreases Node(l, r), 0
  {
    hide Exact, Decode, Collapse, MergeValue, Fold, AllOfType;
    PartsOfType(Leaves(l), Leaves(r), t);
    var x, y := Collapse(ar, l), Collapse(ar, r);
    CollapseActs(ar, t, l, start);
    CollapseActs(ar, t, r, Fold(ar, start, Leaves(l)));
    CollapseActs(ar, t, r, start);
    FoldSplits(ar, start, Leaves(l), Leaves(r));
    JoinRegroups(ar, start, Meaning(x), Meaning(y));
    NodeIsJoin(ar, l, r);
  }

  function FlatLeaves(forest: seq<Tree>): seq<ByteString> {
    if forest == [] then [] else FlatLeaves(forest[..|forest| - 1]) + Leaves(forest[|forest| - 1])
  }

  /** The operands the store hands over; none when some early merge crashed. */
  datatype Stretch = Lost | Stretch(operands: seq<ByteString>)

  function CollapseAll<N>(ar: Arith<N>, forest: seq<Tree>): Stretch {
    if forest == [] then Stretch([])
    else
      var before, last := CollapseAll(ar, forest[..|forest| - 1]), Collapse(ar, forest[|forest| - 1]);
      if before.Lost? || last.Crash? then Lost else Stretch(before.operands + [last.bytes])
  }

  /** With nothing stored, the stretch starts from its own first operand. */
  lemma {:induction false} FirstActs<N(!new)>(ar: Arith<N>, t: Byte, tree: Tree)
    requires Exact(ar) && AllOfType(Leaves(tree), t)
    ensures Leaves(tree) != []
    ensures Fold(ar, Decode(Leaves(tree)[0]), Leaves(tree)[1..]) == Meaning(Collapse(ar, tree))
    decreases tree
  {
    hide Exact, Decode, Join, AllOfType;
    match tree
    case Leaf(b) =>
      assert Leaves(tree)[1..] == [];
    case Node(l, r) =>
      hide Collapse, Fold;
      PartsOfType(Leaves(l), Leaves(r), t);
      FirstActs(ar, t, l);
      var start := Decode(Leaves(l)[0]);
      assert Leaves(tree)[1..] == Leaves(l)[1..] + Leaves(r);
      FoldSplits(ar, start, Leaves(l)[1..], Leaves(r));
      CollapseActs(ar, t, r, Meaning(Collapse(ar, l)));
      NodeIsJoin(ar, l, r);
  }

  lemma NodeIsJoin<N(!new)>(ar: Arith<N>, l: Tree, r: Tree)
    requires Exact(ar)
    ensures Meaning(Collapse(ar, Node(l, r))) == Join(ar, Meaning(Collapse(ar, l)), Meaning(Collapse(ar, r)))
  {
    assert Faithful(ar);
    hide Faithful, Exact, Decode, PartialMerge;
    var x, y := Collapse(ar, l), Collapse(ar, r);
    if x.Raw? && y.Raw? {
      JoinIsStored(ar, x.bytes, y.bytes);
    }
  }

  lemma FoldedExtends<N>(ar: Arith<N>, existing: Existing, first: seq<ByteString>, second: seq<ByteString>)
    requires first != []
    ensures Folded(ar, existing, first + second) == Fold(ar, Folded(ar, existing, first), second)
  {
    hide Fold, Decode;
    if existing.Absent? {
      assert (first + second)[1..] == first[1..] + second;
      FoldSplits(ar, Decode(first[0]), first[1..], second);
    } else {
      FoldSplits(ar, Decode(existing.bytes), first, second);
    }
  }

  lemma OneTreeActs<N(!new)>(ar: Arith<N>, t: Byte, existing: Existing, tree: Tree)
    requires Exact(ar) && AllOfType(Leaves(tree), t)
    ensures Leaves(tree) != []
    ensures var c := Collapse(ar, tree);
            Folded(ar, existing, Leaves(tree)) == if c.Crash? then Crashed else Folded(ar, existing, [c.bytes])
  {
    hide Exact, Decode, Collapse, Leaves, OfType;
    FirstActs(ar, t, tree);
    var c := Collapse(ar, tree);
    if existing.Present? {
      CollapseActs(ar, t, tree, Decode(existing.bytes));
      if c.Raw? {
        FoldOne(ar, Decode(existing.bytes), c.bytes);
      }
    }
  }

  lemma {:induction false} ForestActs<N(!new)>(ar: Arith<N>, t: Byte, existing: Existing, forest: seq<Tree>)
    requires Exact(ar) && forest != [] && AllOfType(FlatLeaves(forest), t)
    ensures FlatLeaves(forest) != []
    ensures var c := CollapseAll(ar, forest);
            && (c.Stretch? ==> |c.operands| == |forest|)
            && Folded(ar, existing, FlatLeaves(forest))
               == if c.Lost? then Crashed else Folded(ar, existing, c.operands)
  {
    hide Exact, Decode, Collapse, Leaves, AllOfType, Fold, Folded;
    var n := |forest| - 1;
    var last := forest[n];
    var front := FlatLeaves(forest[..n]);
    PartsOfType(front, Leaves(last), t);
    OneTreeActs(ar, t, existing, last);
    var c := Collapse(ar, last);
    if n == 0 {
      assert front + Leaves(last) == Leaves(last);
      assert c.Raw? ==> CollapseAll(ar, forest) == Stretch([c.bytes]);
    } else {
      ForestActs(ar, t, existing, forest[..n]);
      FoldedExtends(ar, existing, front, Leaves(last));
      CollapseActs(ar, t, last, Folded(ar, existing, front));
      var before := CollapseAll(ar, forest[..n]);
      if before.Stretch? && c.Raw? {
        FoldedGrows(ar, existing, before.operands, c.bytes);
      }
    }
  }

  /** The merge-operator contract. For operands of one type and any existing row or none, FullMerge
      after any partial merging of neighbours gives what FullMerge gives on the original list; a
      partial merge panics only when the full merge would. */
  lemma BracketingIsIrrelevant<N(!new)>(ar: Arith<N>, t: Byte, existing: Existing, forest: seq<Tree>)
    requires Exact(ar) && forest != [] && AllOfType(FlatLeaves(forest), t)
    ensures var early := CollapseAll(ar, forest);
            ToRaw(Folded(ar, existing, FlatLeaves(forest)))
            == if early.Lost? then Crash else ToRaw(Folded(ar, existing, early.operands))
  {
    hide Folded, CollapseAll, FlatLeaves, Exact, AllOfType;
    ForestActs(ar, t, existing, forest);
  }

  // ---- exactly when two operands may be merged early -----------------------------------------------

  /** A row with this value and type; the other fields play no part in the arithmetic. */
  function RowOf(t: Byte, v: ByteString): Entry {
    Entry(0, 0, 0, t, v)
  }

  /** Merging the two operands early changes nothing for this stored row. */
  predicate PairAgrees<N>(ar: Arith<N>, x: Entry, y: Entry, z: Entry) {
    var early := PartialMerge(ar, Encode(y), Encode(z));
    Folded(ar, Present(Encode(x)), [Encode(y), Encode(z)])
    == if early.Crash? then Crashed else Folded(ar, Present(Encode(x)), [early.bytes])
  }

  lemma AgreesIffRegroups<N(!new)>(ar: Arith<N>, x: Entry, y: Entry, z: Entry)
    requires Faithful(ar) && x.value != [] && y.value != [] && z.value != []
    ensures PairAgrees(ar, x, y, z)
            <==> Regroups(ar, y.opAndDataType, z.opAndDataType, x.value, y.value, z.value)
  {
    hide Encode, FromBytes, Faithful, MergeValue;
    RoundTrip(x);
    RoundTrip(y);
    RoundTrip(z);
    var early := PartialMerge(ar, Encode(y), Encode(z));
    JoinIsStored(ar, Encode(y), Encode(z));
    FoldTwo(ar, Merged(x), Encode(y), Encode(z));
    if early.Raw? {
      FoldOne(ar, Merged(x), early.bytes);
    }
  }

  lemma FoldTwo<N>(ar: Arith<N>, start: Outcome, b: ByteString, c: ByteString)
    ensures Fold(ar, start, [b, c]) == Join(ar, Join(ar, start, Decode(b)), Decode(c))
  {
    hide Join, Decode;
    assert [b, c][..1] == [b];
    FoldOne(ar, start, b);
  }

  /** For float sums the contract is exactly associativity of the addition in use. */
  lemma SumsRegroupIffAssociative<N(!new)>(ar: Arith<N>)
    requires Faithful(ar)
    ensures (forall x: Entry, y: Entry, z: Entry | x.value != [] && y.value != [] && z.value != []
               && y.opAndDataType == FLOAT64 && z.opAndDataType == FLOAT64 :: PairAgrees(ar, x, y, z))
            <==> Associative(ar)
  {
    hide PairAgrees;
    if Associative(ar) {
      forall x: Entry, y: Entry, z: Entry | x.value != [] && y.value != [] && z.value != []
        && y.opAndDataType == FLOAT64 && z.opAndDataType == FLOAT64
        ensures PairAgrees(ar, x, y, z)
      {
        AgreesIffRegroups(ar, x, y, z);
      }
    } else {
      var x, y, z :| ar.add(ar.add(x, y), z) != ar.add(x, ar.add(y, z));
      var p, q, r := RowOf(BYTES, ar.enc(x)), RowOf(FLOAT64, ar.enc(y)), RowOf(FLOAT64, ar.enc(z));
      assert |p.value| == 8 && |q.value| == 8 && |r.value| == 8;
      AgreesIffRegroups(ar, p, q, r);
      assert ar.dec(ar.enc(ar.add(ar.add(x, y), z))) != ar.dec(ar.enc(ar.add(x, ar.add(y, z))));
      assert !PairAgrees(ar, p, q, r);
    }
  }

  /** `num` finds the integers from -2 to 2 among the numbers. */
  ghost predicate CountsToTwo<N(!new)>(ar: Arith<N>, num: int -> N) {
    && (forall a: int, b: int, c: int | -2 <= a <= 2 && -2 <= b <= 2 && -2 <= c == a + b <= 2 ::
          ar.add(num(a), num(b)) == num(c))
    && (forall a: int, b: int | -2 <= a <= 2 && -2 <= b <= 2 :: ar.less(num(a), num(b)) <==> a < b)
  }

  function WitnessStored(t: Byte, u: Byte): int {
    if t == FLOAT64 && u == MAX_FLOAT64 then 1 else if t == FLOAT64 && u == MIN_FLOAT64 then -1 else 0
  }

  function WitnessLast(t: Byte, u: Byte): int {
    if u == MIN_FLOAT64 || (u == FLOAT64 && t == MAX_FLOAT64) then -1 else 1
  }

  /** Two different types, the second a known one: some three numbers tell the groupings apart. */
  lemma MixedTypesDiffer<N(!new)>(ar: Arith<N>, num: int -> N, t: Byte, u: Byte)
    requires Faithful(ar) && CountsToTwo(ar, num) && t != u && u <= MIN_FLOAT64
    ensures !Regroups(ar, t, u, ar.enc(num(WitnessStored(t, u))), ar.enc(num(0)), ar.enc(num(WitnessLast(t, u))))
  {
    var x, y, z := ar.enc(num(WitnessStored(t, u))), ar.enc(num(0)), ar.enc(num(WitnessLast(t, u)));
    assert (x + y)[..8] == x && (y + z)[..8] == y;
    assert ar.dec(x + y) == num(WitnessStored(t, u)) && ar.dec(y + z) == num(0);
    assert ar.less(num(-2), num(-1)) && ar.less(num(-1), num(0)) && ar.less(num(0), num(1)) && ar.less(num(1), num(2));
    assert ar.dec(x) == num(WitnessStored(t, u)) && ar.dec(y) == num(0) && ar.dec(z) == num(WitnessLast(t, u));
  }

  /** Two operands may be merged early for every stored row exactly when they are of one type or the
      second is of no known type. */
  lemma EarlyMergeIsSafeIff<N(!new)>(ar: Arith<N>, num: int -> N, t: Byte, u: Byte)
    requires Exact(ar) && CountsToTwo(ar, num)
    ensures (forall x: Entry, y: Entry, z: Entry | x.value != [] && y.value != [] && z.value != []
               && y.opAndDataType == t && z.opAndDataType == u :: PairAgrees(ar, x, y, z))
            <==> t == u || u > MIN_FLOAT64
  {
    hide PairAgrees, Regroups;
    if t == u || u > MIN_FLOAT64 {
      forall x: Entry, y: Entry, z: Entry | x.value != [] && y.value != [] && z.value != []
        && y.opAndDataType == t && z.opAndDataType == u
        ensures PairAgrees(ar, x, y, z)
      {
        AgreesIffRegroups(ar, x, y, z);
        if t == u {
          SameTypeRegroups(ar, t, x.value, y.value, z.value);
        } else {
          UnknownTypeRegroups(ar, t, u, x.value, y.value, z.value);
        }
      }
    } else {
      MixedTypesDiffer(ar, num, t, u);
      var p := RowOf(BYTES, ar.enc(num(WitnessStored(t, u))));
      var q, r := RowOf(t, ar.enc(num(0))), RowOf(u, ar.enc(num(WitnessLast(t, u))));
      assert |p.value| == 8 && |q.value| == 8 && |r.value| == 8;
      AgreesIffRegroups(ar, p, q, r);
      assert !PairAgrees(ar, p, q, r);
    }
  }

  // ---- what the merged value is --------------------------------------------------------------------

  function Concat(vs: seq<ByteString>): ByteString {
    if vs == [] then [] else Concat(vs[..|vs| - 1]) + vs[|vs| - 1]
  }

  function Sum<N>(ar: Arith<N>, vs: seq<ByteString>): N
    requires vs != []
  {
    if |vs| == 1 then ar.dec(vs[0]) else ar.add(Sum(ar, vs[..|vs| - 1]), ar.dec(vs[|vs| - 1]))
  }

  /** `v` is the earliest value that no other beats. */
  ghost predicate FirstBest<N(!new)>(beats: (N, N) -> bool, dec: ByteString -> N, vs: seq<ByteString>, v: ByteString) {
    exists i :: 0 <= i < |vs| && v == vs[i]
                && (forall j | 0 <= j < i :: beats(dec(v), dec(vs[j])))
                && (forall j | 0 <= j < |vs| :: !beats(dec(vs[j]), dec(v)))
  }

  /** What operands of type `t`, over the first value, amount to. */
  ghost predicate Amounts<N(!new)>(ar: Arith<N>, t: Byte, vs: seq<ByteString>, v: ByteString)
    requires vs != []
  {
    match t
    case 0 => v == Concat(vs)
    case 1 => ar.dec(v) == Sum(ar, vs)
    case 2 => FirstBest((a, b) => ar.less(b, a), ar.dec, vs, v)
    case 3 => FirstBest(ar.less, ar.dec, vs, v)
    case _ => v == vs[0]
  }

  function ValuesOf(es: seq<Entry>): seq<ByteString> {
    seq(|es|, i requires 0 <= i < |es| => es[i].value)
  }

  function Encoded(es: seq<Entry>): seq<ByteString> {
    seq(|es|, i requires 0 <= i < |es| => Encode(es[i]))
  }

  lemma BestGrows<N(!new)>(beats: (N, N) -> bool, dec: ByteString -> N, vs: seq<ByteString>,
                           v: ByteString, w: ByteString)
    requires forall x, y :: beats(x, y) ==> !beats(y, x)
    requires forall x, y, z :: beats(x, z) ==> beats(x, y) || beats(y, z)
    requires FirstBest(beats, dec, vs, v)
    ensures FirstBest(beats, dec, vs + [w], if beats(dec(w), dec(v)) then w else v)
  {
    var more := vs + [w];
    var i :| 0 <= i < |vs| && v == vs[i]
             && (forall j | 0 <= j < i :: beats(dec(v), dec(vs[j])))
             && (forall j | 0 <= j < |vs| :: !beats(dec(vs[j]), dec(v)));
    assert forall j | 0 <= j < |vs| :: more[j] == vs[j];
    if beats(dec(w), dec(v)) {
      assert more[|vs|] == w;
    } else {
      assert more[i] == v;
    }
  }

  lemma AmountsGrows<N(!new)>(ar: Arith<N>, t: Byte, vs: seq<ByteString>, v: ByteString, w: ByteString)
    requires Faithful(ar) && Ordered(ar) && vs != [] && Amounts(ar, t, vs, v)
    requires IsNumeric(t) ==> |v| >= 8 && |w| >= 8
    ensures MergeValue(ar, t, v, w).Value? && Amounts(ar, t, vs + [w], MergeValue(ar, t, v, w).bytes)
    ensures IsNumeric(t) ==> |MergeValue(ar, t, v, w).bytes| >= 8
  {
    var more := vs + [w];
    assert more[..|more| - 1] == vs && more[|more| - 1] == w;
    if t == MAX_FLOAT64 {
      BestGrows((a, b) => ar.less(b, a), ar.dec, vs, v, w);
    } else if t == MIN_FLOAT64 {
      BestGrows(ar.less, ar.dec, vs, v, w);
    }
  }

  lemma AmountsToFirst<N(!new)>(ar: Arith<N>, t: Byte, v: ByteString)
    requires Ordered(ar)
    ensures Amounts(ar, t, [v], v)
  {
    assert Concat([v][..0]) == [];
    assert [v][0] == v;
  }

  /** Rows `es[1..]` of type `t` folded onto the row `es[0]`: the header is the first row's, and the
      value is the concatenation, the sum, or the earliest maximum or minimum of all the values. */
  lemma {:induction false} FoldAmounts<N(!new)>(ar: Arith<N>, t: Byte, es: seq<Entry>)
    requires Faithful(ar) && Ordered(ar) && es != []
    requires forall i | 0 <= i < |es| :: es[i].value != [] && (i > 0 ==> es[i].opAndDataType == t)
    requires IsNumeric(t) ==> forall i | 0 <= i < |es| :: |es[i].value| >= 8
    ensures var r := Fold(ar, Merged(es[0]), Encoded(es[1..]));
            && r.Merged?
            && r.entry == es[0].(value := r.entry.value)
            && (IsNumeric(t) ==> |r.entry.value| >= 8)
            && Amounts(ar, t, ValuesOf(es), r.entry.value)
  {
    hide Faithful, Ordered, Amounts, MergeValue, Encode, FromBytes;
    var n := |es| - 1;
    if n == 0 {
      AmountsToFirst(ar, t, es[0].value);
      assert ValuesOf(es) == [es[0].value];
    } else {
      var front := es[..n];
      FoldAmounts(ar, t, front);
      var bs := Encoded(es[1..]);
      assert bs[..n - 1] == Encoded(front[1..]);
      assert bs[n - 1] == Encode(es[n]);
      RoundTrip(es[n]);
      var r := Fold(ar, Merged(es[0]), Encoded(front[1..]));
      assert ValuesOf(es) == ValuesOf(front) + [es[n].value];
      AmountsGrows(ar, t, ValuesOf(front), r.entry.value, es[n].value);
    }
  }

  /** FullMerge on well-formed rows of one type, over a stored row or over none. */
  lemma FullMergeAmounts<N(!new)>(ar: Arith<N>, t: Byte, es: seq<Entry>, stored: bool)
    requires Faithful(ar) && Ordered(ar) && |es| >= if stored then 2 else 1
    requires forall i | 0 <= i < |es| :: es[i].value != [] && (i > 0 ==> es[i].opAndDataType == t)
    requires IsNumeric(t) ==> forall i | 0 <= i < |es| :: |es[i].value| >= 8
    ensures var r := if stored then Folded(ar, Present(Encode(es[0])), Encoded(es[1..]))
                     else Folded(ar, Absent, Encoded(es));
            && r.Merged?
            && r.entry == es[0].(value := r.entry.value)
            && Amounts(ar, t, ValuesOf(es), r.entry.value)
  {
    hide Faithful, Ordered, Amounts, Encode, FromBytes, Fold;
    FoldAmounts(ar, t, es);
    RoundTrip(es[0]);
    assert Encoded(es)[0] == Encode(es[0]) && Encoded(es)[1..] == Encoded(es[1..]);
  }

  // ---- an exact arithmetic exists --------------------------------------------------------------------

  const TWO_63 := 0x8000_0000_0000_0000
  const TWO_64 := 0x1_0000_0000_0000_0000

  function Word(x: int): U64 {
    x % TWO_64
  }

  function DecodeWord(v: ByteString): U64 {
    PowersOf256();
    if |v| < 8 then 0 else FromLittleEndian(v[..8])
  }

  /** Eight bytes as a two's complement 64-bit integer, wrapping around. */
  function Words(): Arith<U64> {
    Arith((x: U64, y: U64) => Word(x + y), (x: U64, y: U64) => Word(x + TWO_63) < Word(y + TWO_63),
          (v: ByteString) => DecodeWord(v), (x: U64) => LittleEndian(x, 8))
  }

  lemma WordSum(x: int, y: int, z: int)
    ensures Word(Word(x + y) + z) == Word(x + y + z) == Word(x + Word(y + z))
  {
    assert x + y == (x + y) / TWO_64 * TWO_64 + Word(x + y);
    assert y + z == (y + z) / TWO_64 * TWO_64 + Word(y + z);
  }

  lemma WordsAreFaithful()
    ensures Faithful(Words())
  {
    hide LittleEndian, FromLittleEndian, Word;
    var ar := Words();
    PowersOf256();
    forall x: U64
      ensures |ar.enc(x)| == 8 && ar.dec(ar.enc(x)) == x
    {
      LittleEndianRoundTrip(x, 8);
      assert LittleEndian(x, 8)[..8] == LittleEndian(x, 8);
    }
    forall v: ByteString | |v| >= 8
      ensures ar.dec(v) == ar.dec(v[..8])
    {
      assert v[..8][..8] == v[..8];
    }
  }

  lemma WordsAreAssociative()
    ensures Associative(Words())
  {
    hide LittleEndian, FromLittleEndian, Word;
    forall x: U64, y: U64, z: U64
      ensures Words().add(Words().add(x, y), z) == Words().add(x, Words().add(y, z))
    {
      WordSum(x, y, z);
    }
  }

  lemma WordsAreOrdered()
    ensures Ordered(Words())
  {
    hide LittleEndian, FromLittleEndian, Word;
  }

  lemma NearWord(x: int)
    requires -TWO_64 <= x < TWO_64 + TWO_64
    ensures Word(x) == if x < 0 then x + TWO_64 else if x < TWO_64 then x else x - TWO_64
  {
  }

  function SmallWord(a: int): U64 {
    Word(a)
  }

  lemma SmallWords(a: int, b: int)
    requires -2 <= a <= 2 && -2 <= b <= 2
    ensures Word(Word(a) + Word(b)) == Word(a + b)
    ensures Word(Word(a) + TWO_63) == a + TWO_63
  {
    hide Word;
    NearWord(a);
    NearWord(b);
    NearWord(a + b);
    NearWord(Word(a) + Word(b));
    NearWord(Word(a) + TWO_63);
  }

  lemma WordsCountToTwo()
    ensures CountsToTwo(Words(), SmallWord)
  {
    hide LittleEndian, FromLittleEndian, Word;
    forall a: int, b: int, c: int | -2 <= a <= 2 && -2 <= b <= 2 && -2 <= c == a + b <= 2
      ensures Words().add(SmallWord(a), SmallWord(b)) == SmallWord(c)
    {
      SmallWords(a, b);
    }
    forall a: int, b: int | -2 <= a <= 2 && -2 <= b <= 2
      ensures Words().less(SmallWord(a), SmallWord(b)) <==> a < b
    {
      SmallWords(a, b);
      SmallWords(b, a);
    }
  }

  /** The hypotheses above are met by an arithmetic on eight bytes. */
  lemma WordsAreExact()
    ensures Exact(Words()) && CountsToTwo(Words(), SmallWord)
  {
    hide Faithful, Associative, Ordered, CountsToTwo;
    WordsAreFaithful();
    WordsAreAssociative();
    WordsAreOrdered();
    WordsCountToTwo();
  }
}
