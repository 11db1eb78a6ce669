/** The binary heap of a k-way merge, kept in place in a slice (container/heap). */
module MergeHeap {
  import opened Bytes

  datatype Row = Row(key: ByteString, value: ByteString)

  /** The next row of one channel. */
  datatype Item = Item(row: Row, chan: nat)

  predicate Before(a: Item, b: Item) {
    Less(a.row.key, b.row.key)
  }

  /** `a` may stand above `b`. */
  predicate Above(a: Item, b: Item) {
    Leq(a.row.key, b.row.key)
  }

  lemma AboveTransitive(a: Item, b: Item, c: Item)
    requires Above(a, b) && Above(b, c)
    ensures Above(a, c)
  {
    LeqTransitive(a.row.key, b.row.key, c.row.key);
  }

  lemma BeforeIsAbove(a: Item, b: Item)
    requires Before(a, b)
    ensures Above(a, b)
  {
    LessAsymmetric(a.row.key, b.row.key);
  }

  lemma AboveReflexive(a: Item)
    ensures Above(a, a)
  {
    LessIrreflexive(a.row.key);
  }

  function Parent(i: nat): nat
    requires i >= 1
  {
    (i - 1) / 2
  }

  /** Heap order on the first `n` items, for the parents from `lo` on. */
  ghost predicate HeapFrom(s: seq<Item>, n: nat, lo: nat)
    requires n <= |s|
  {
    forall i :: 1 <= i < n && Parent(i) >= lo ==> Above(s[Parent(i)], s[i])
  }

  ghost predicate IsHeap(s: seq<Item>) {
    HeapFrom(s, |s|, 0)
  }

  /** Heap order but for the children of `hole`, whose parent is still above them. */
  ghost predicate DownOk(s: seq<Item>, n: nat, lo: nat, hole: nat)
    requires n <= |s|
  {
    && (forall i :: 1 <= i < n && Parent(i) >= lo && Parent(i) != hole ==> Above(s[Parent(i)], s[i]))
    && (hole >= 1 && Parent(hole) >= lo ==>
          forall i :: 1 <= i < n && Parent(i) == hole ==> Above(s[Parent(hole)], s[i]))
  }

  /** Heap order but for `leaf` under its parent, which is still above the children of `leaf`. */
  ghost predicate UpOk(s: seq<Item>, leaf: nat) {
    && (forall i :: 1 <= i < |s| && i != leaf ==> Above(s[Parent(i)], s[i]))
    && (1 <= leaf < |s| ==> forall i :: 1 <= i < |s| && Parent(i) == leaf ==> Above(s[Parent(leaf)], s[i]))
  }

  function Swap(s: seq<Item>, i: nat, j: nat): (r: seq<Item>)
    requires i < |s| && j < |s|
    ensures |r| == |s|
  {
    s[i := s[j]][j := s[i]]
  }

  lemma SwapKeepsItems(s: seq<Item>, i: nat, j: nat)
    requires i < |s| && j < |s|
    ensures multiset(Swap(s, i, j)) == multiset(s)
  {
  }

  lemma UpStep(s: seq<Item>, j: nat)
    requires 1 <= j < |s| && UpOk(s, j) && Before(s[j], s[Parent(j)])
    ensures UpOk(Swap(s, Parent(j), j), Parent(j))
  {
    hide Less;
    var i := Parent(j);
    var t := Swap(s, i, j);
    BeforeIsAbove(s[j], s[i]);
    forall k | 1 <= k < |t| && k != i
      ensures Above(t[Parent(k)], t[k])
    {
      if k != j && Parent(k) == i {
        AboveTransitive(s[j], s[i], s[k]);
      }
    }
    if i >= 1 {
      forall k | 1 <= k < |t| && Parent(k) == i
        ensures Above(t[Parent(i)], t[k])
      {
        if k != j {
          AboveTransitive(s[Parent(i)], s[i], s[k]);
        }
      }
    }
  }

  lemma DownStep(s: seq<Item>, n: nat, lo: nat, i: nat, j: nat)
    requires n <= |s| && lo <= i && DownOk(s, n, lo, i)
    requires 1 <= j < n && Parent(j) == i && Before(s[j], s[i])
    requires forall k :: 1 <= k < n && Parent(k) == i ==> Above(s[j], s[k])
    ensures DownOk(Swap(s, i, j), n, lo, j)
  {
    hide Less;
    var t := Swap(s, i, j);
    BeforeIsAbove(s[j], s[i]);
    forall k | 1 <= k < n && Parent(k) >= lo && Parent(k) != j
      ensures Above(t[Parent(k)], t[k])
    {
      if k == i {
        assert Above(s[Parent(i)], s[j]);
      } else if Parent(k) == i && k != j {
        assert Above(s[j], s[k]);
      }
    }
  }

  /** The child that Down compares with: the right one only if it is strictly smaller. */
  function LeastChild(s: seq<Item>, n: nat, i: nat): (j: nat)
    requires 2 * i + 1 < n <= |s|
    ensures 1 <= j < n && Parent(j) == i
    ensures forall k :: 1 <= k < n && Parent(k) == i ==> Above(s[j], s[k])
  {
    var left := 2 * i + 1;
    AboveReflexive(s[left]);
    if left + 1 < n && Before(s[left + 1], s[left]) then
      BeforeIsAbove(s[left + 1], s[left]);
      AboveReflexive(s[left + 1]);
      left + 1
    else
      left
  }

  /** Sifting down may stop at a leaf or above a child that is not smaller. */
  lemma DownStops(s: seq<Item>, n: nat, lo: nat, i: nat)
    requires n <= |s| && i <= n && DownOk(s, n, lo, i)
    requires 2 * i + 1 < n ==> !Before(s[LeastChild(s, n, i)], s[i])
    ensures HeapFrom(s, n, lo)
  {
    hide Less, LeastChild;
    forall k | 1 <= k < n && Parent(k) >= lo
      ensures Above(s[Parent(k)], s[k])
    {
      if Parent(k) == i {
        AboveTransitive(s[i], s[LeastChild(s, n, i)], s[k]);
      }
    }
  }

  lemma NoInversion(s: seq<Item>, n: nat, lo: nat, i: nat, j: nat)
    requires n <= |s| && 1 <= j < n && Parent(j) == i >= lo
    ensures HeapFrom(s, n, lo) ==> !Before(s[j], s[i])
  {
    hide Less;
  }

  lemma SwapKeepsTail(s: seq<Item>, i: nat, j: nat, n: nat)
    requires i < n <= |s| && j < n
    ensures Swap(s, i, j)[n..] == s[n..]
  {
  }

  lemma {:induction false} RootIsLeast(s: seq<Item>, i: nat)
    requires i < |s| && IsHeap(s)
    ensures Above(s[0], s[i])
    decreases i
  {
    if i == 0 {
      LessIrreflexive(s[0].row.key);
    } else {
      RootIsLeast(s, Parent(i));
      AboveTransitive(s[0], s[Parent(i)], s[i]);
    }
  }

  class PriorityQueue {
    var items: seq<Item>

    constructor ()
      ensures items == []
    {
      items := [];
    }

    method Up(from: nat)
      requires from < |items| && UpOk(items, from)
      modifies this
      ensures IsHeap(items) && multiset(items) == multiset(old(items)) && |items| == |old(items)|
      ensures old(IsHeap(items)) ==> items == old(items)
    {
      hide Less;
      var j: nat := from;
      while j > 0
        invariant j < |items| == |old(items)| && UpOk(items, j)
        invariant multiset(items) == multiset(old(items))
        invariant old(IsHeap(items)) ==> items == old(items)
      {
        var i := (j - 1) / 2;
        if !Before(items[j], items[i]) {
          break;
        }
        UpStep(items, j);
        SwapKeepsItems(items, i, j);
        items := Swap(items, i, j);
        j := i;
      }
    }

    /** Sifts item `from` down among the first `n`; the rest stay put. */
    method Down(from: nat, n: nat, ghost lo: nat) returns (moved: bool)
      requires lo <= from <= n <= |items| && DownOk(items, n, lo, from)
      modifies this
      ensures |items| == |old(items)| && HeapFrom(items, n, lo)
      ensures multiset(items) == multiset(old(items))
      ensures items[n..] == old(items)[n..]
      ensures !moved ==> items == old(items)
      ensures old(HeapFrom(items, n, lo)) ==> !moved
    {
      hide Less, DownOk, HeapFrom, Swap;
      var i := from;
      moved := false;
      while 2 * i + 1 < n
        invariant lo <= from <= i <= n <= |items| == |old(items)| && DownOk(items, n, lo, i)
        invariant multiset(items) == multiset(old(items)) && items[n..] == old(items)[n..]
        invariant if moved then i > from else i == from && items == old(items)
        invariant old(HeapFrom(items, n, lo)) ==> !moved
        decreases n - i
      {
        var j := LeastChild(items, n, i);
        if !Before(items[j], items[i]) {
          DownStops(items, n, lo, i);
          return;
        }
        NoInversion(items, n, lo, i, j);
        DownStep(items, n, lo, i, j);
        SwapKeepsItems(items, i, j);
        SwapKeepsTail(items, i, j, n);
        items := Swap(items, i, j);
        i := j;
        moved := true;
      }
      DownStops(items, n, lo, i);
    }

    /** heap.Init */
    method Init()
      modifies this
      ensures IsHeap(items) && multiset(items) == multiset(old(items))
    {
      hide Less;
      var n := |items|;
      var i: nat := n / 2;
      while i > 0
        invariant i <= n / 2 && n == |items|
        invariant HeapFrom(items, n, i)
        invariant multiset(items) == multiset(old(items))
      {
        i := i - 1;
        var moved := Down(i, n, i);
      }
    }

    /** heap.Push */
    method Push(x: Item)
      requires IsHeap(items)
      modifies this
      ensures IsHeap(items) && multiset(items) == multiset(old(items)) + multiset{x}
    {
      hide Less;
      items := items + [x];
      Up(|items| - 1);
    }

    /** heap.Pop removes a least item. */
    method Pop() returns (x: Item)
      requires items != [] && IsHeap(items)
      modifies this
      ensures IsHeap(items) && multiset(items) + multiset{x} == multiset(old(items))
      ensures |items| == |old(items)| - 1
      ensures forall y :: y in old(items) ==> Above(x, y)
    {
      hide Above;
      var n := |items| - 1;
      RootAboveAll(items);
      SwapKeepsItems(items, 0, n);
      RootSwappedOut(items);
      items := Swap(items, 0, n);
      var moved := Down(0, n, 0);
      x := items[n];
      assert items[n..] == [x];
      SplitLast(items);
      items := items[..n];
    }

    /** heap.Fix; on a heap, as after every push, it changes nothing. */
    method Fix(i: nat)
      requires i < |items| && IsHeap(items)
      modifies this
      ensures items == old(items)
    {
      hide Less;
      HeapIsDownOk(items, i);
      var moved := Down(i, |items|, 0);
      if !moved {
        HeapIsUpOk(items, i);
        Up(i);
      }
    }
  }

  lemma RootAboveAll(s: seq<Item>)
    requires s != [] && IsHeap(s)
    ensures forall y :: y in s ==> Above(s[0], y)
  {
    hide Above;
    forall y | y in s
      ensures Above(s[0], y)
    {
      var i :| 0 <= i < |s| && s[i] == y;
      RootIsLeast(s, i);
    }
  }

  lemma RootSwappedOut(s: seq<Item>)
    requires s != [] && IsHeap(s)
    ensures var n := |s| - 1;
            DownOk(Swap(s, 0, n), n, 0, 0) && Swap(s, 0, n)[n..] == [s[0]]
  {
    hide Above;
  }

  lemma SplitLast(s: seq<Item>)
    requires s != []
    ensures var n := |s| - 1;
            && multiset(s[..n]) + multiset{s[n]} == multiset(s)
            && (HeapFrom(s, n, 0) ==> IsHeap(s[..n]))
  {
    hide Above;
    assert s == s[..|s| - 1] + [s[|s| - 1]];
  }

  lemma HeapIsDownOk(s: seq<Item>, i: nat)
    requires i < |s| && IsHeap(s)
    ensures DownOk(s, |s|, 0, i)
  {
    hide Less;
    if i >= 1 {
      forall k | 1 <= k < |s| && Parent(k) == i
        ensures Above(s[Parent(i)], s[k])
      {
        AboveTransitive(s[Parent(i)], s[i], s[k]);
      }
    }
  }

  lemma HeapIsUpOk(s: seq<Item>, i: nat)
    requires i < |s| && IsHeap(s)
    ensures UpOk(s, i)
  {
    hide Less;
    HeapIsDownOk(s, i);
  }
}
