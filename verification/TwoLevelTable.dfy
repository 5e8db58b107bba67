// Two-level lookup tables.  An array is cut into blocks, equal blocks are
// stored once and packed by the overlap compressor, and the array of block
// offsets is compressed once more in the same way.  Shifts and masks find an
// element again.
module TwoLevelTable {
  import opened Basics
  import opened OverlapCompressor
  import opened Words

  // ------------------------------------------------------------------------
  // Blocks

  // The number of blocks, counting a short last one.
  function BlockCount<T>(size: nat, data: seq<T>): nat
    requires size > 0
  {
    (|data| + size - 1) / size
  }

  function Block<T>(size: nat, data: seq<T>, n: nat): seq<T> {
    var start := Min(n * size, |data|);
    data[start..Min(start + size, |data|)]
  }

  // An index lies in the block that its high part names, at its low part.
  lemma ElementInBlock<T>(size: nat, data: seq<T>, i: nat)
    requires size > 0 && i < |data|
    ensures i / size < BlockCount(size, data)
    ensures i % size < |Block(size, data, i / size)|
    ensures Block(size, data, i / size)[i % size] == data[i]
  {
    var n, count := i / size, BlockCount(size, data);
    assert i == n * size + i % size;
    LastBlock(|data|, size, count, n);
  }

  lemma LastBlock(length: nat, size: nat, count: nat, n: nat)
    requires size > 0 && count == (length + size - 1) / size && n * size < length
    ensures n < count
  {
    assert length + size - 1 == count * size + (length + size - 1) % size;
    if n >= count {
      TimesMonotone(count, n, size);
    }
  }

  lemma TimesMonotone(a: nat, b: nat, size: nat)
    requires a <= b
    ensures a * size <= b * size
  {
    assert (b - a) * size >= 0;
  }

  // Blocks with the positions at which each occurs, in the order of their
  // first occurrence.
  datatype Groups<T(==)> = Groups(order: seq<seq<T>>, positions: map<seq<T>, seq<nat>>)

  // The positions of a block, in ascending order.
  ghost predicate PositionsOk<T>(c: seq<T>, positions: seq<nat>, size: nat, data: seq<T>, count: nat) {
    && positions != []
    && (forall k :: 0 <= k < |positions| ==> positions[k] < count && Block(size, data, positions[k]) == c)
    && (forall k, l :: 0 <= k < l < |positions| ==> positions[k] < positions[l])
  }

  ghost predicate BlockFiled<T>(g: Groups<T>, size: nat, data: seq<T>, n: nat) {
    Block(size, data, n) in g.positions && n in g.positions[Block(size, data, n)]
  }

  // The first position of a block.
  ghost predicate FirstBelow<T>(g: Groups<T>, c: seq<T>, n: nat) {
    c in g.positions && g.positions[c] != [] && g.positions[c][0] < n
  }

  ghost predicate OrderOk<T>(g: Groups<T>) {
    && ToSet(g.order) == g.positions.Keys
    && (forall c :: c in g.positions ==> g.positions[c] != [])
    && (forall i, j :: 0 <= i < j < |g.order| ==> FirstBelow(g, g.order[i], g.positions[g.order[j]][0]))
  }

  ghost predicate GroupsOk<T>(g: Groups<T>, size: nat, data: seq<T>, count: nat) {
    && Distinct(g.order) && OrderOk(g)
    && (forall c :: c in g.positions ==> PositionsOk(c, g.positions[c], size, data, count))
    && (forall n :: 0 <= n < count ==> BlockFiled(g, size, data, n))
  }

  method GenerateGroups<T(==)>(size: nat, data: seq<T>) returns (g: Groups<T>)
    requires size > 0
    ensures GroupsOk(g, size, data, BlockCount(size, data))
  {
    g := Groups([], map[]);
    for n := 0 to BlockCount(size, data)
      invariant GroupsOk(g, size, data, n)
    {
      var d := Block(size, data, n);
      AddKeepsGroups(g, size, data, n);
      g := Add(g, d, n);
    }
  }

  function Add<T(==)>(g: Groups<T>, d: seq<T>, n: nat): Groups<T> {
    if d in g.positions then Groups(g.order, g.positions[d := g.positions[d] + [n]])
    else Groups(g.order + [d], g.positions[d := [n]])
  }

  lemma AddKeepsGroups<T>(g: Groups<T>, size: nat, data: seq<T>, n: nat)
    requires GroupsOk(g, size, data, n)
    ensures GroupsOk(Add(g, Block(size, data, n), n), size, data, n + 1)
  {
    var d := Block(size, data, n);
    var g' := Add(g, d, n);
    forall c | c in g.positions
      ensures FirstBelow(g, c, n)
    {
      assert PositionsOk(c, g.positions[c], size, data, n);
    }
    AddKeepsOrder(g, d, n);
    forall c | c in g'.positions
      ensures PositionsOk(c, g'.positions[c], size, data, n + 1)
    {
      if c in g.positions {
        PositionsGrow(c, g.positions[c], size, data, n);
      }
    }
    forall k | 0 <= k < n + 1
      ensures BlockFiled(g', size, data, k)
    {
      if k < n {
        assert BlockFiled(g, size, data, k);
      }
      AddFiles(g, size, data, n, k);
    }
  }

  lemma PositionsGrow<T>(c: seq<T>, positions: seq<nat>, size: nat, data: seq<T>, n: nat)
    requires PositionsOk(c, positions, size, data, n)
    ensures PositionsOk(c, positions, size, data, n + 1)
    ensures Block(size, data, n) == c ==> PositionsOk(c, positions + [n], size, data, n + 1)
  {
  }

  lemma AddFiles<T>(g: Groups<T>, size: nat, data: seq<T>, n: nat, k: nat)
    requires k == n || BlockFiled(g, size, data, k)
    ensures BlockFiled(Add(g, Block(size, data, n), n), size, data, k)
  {
    var d := Block(size, data, n);
    var g' := Add(g, d, n);
    assert g'.positions[d][|g'.positions[d]| - 1] == n;
  }

  lemma AddKeepsOrder<T>(g: Groups<T>, d: seq<T>, n: nat)
    requires Distinct(g.order) && OrderOk(g) && forall c :: c in g.positions ==> FirstBelow(g, c, n)
    ensures Distinct(Add(g, d, n).order) && OrderOk(Add(g, d, n))
  {
    var g' := Add(g, d, n);
    forall c | c in g.positions
      ensures g'.positions[c] != [] && g'.positions[c][0] == g.positions[c][0]
    {
      assert FirstBelow(g, c, n);
    }
    if d !in g.positions {
      assert d !in ToSet(g.order);
      assert ToSet(g.order + [d]) == ToSet(g.order) + {d};
      forall i | 0 <= i < |g.order|
        ensures g.order[i] in g.positions
      {
        assert g.order[i] in ToSet(g.order);
      }
    }
    forall i, j | 0 <= i < j < |g'.order|
      ensures FirstBelow(g', g'.order[i], g'.positions[g'.order[j]][0])
    {
      assert g.order[i] in ToSet(g.order);
      assert FirstBelow(g, g.order[i], n);
      if j < |g.order| {
        assert g.order[j] in ToSet(g.order);
        assert FirstBelow(g, g.order[i], g.positions[g.order[j]][0]);
      }
    }
  }

  // ------------------------------------------------------------------------
  // One level of compression

  datatype CompressedArray<T> = CompressedArray(data: seq<T>, offsets: seq<nat>)

  // Every block of the source occurs in the data at the offset of its number.
  ghost predicate Encodes<T>(a: CompressedArray<T>, size: nat, source: seq<T>)
    requires size > 0
  {
    && |a.offsets| == BlockCount(size, source)
    && forall n :: 0 <= n < |a.offsets| ==> OccursAt(a.data, Block(size, source, n), a.offsets[n])
  }

  // No element is made up.
  ghost predicate Within<T>(data: seq<T>, source: seq<T>) {
    forall i :: 0 <= i < |data| ==> data[i] in source
  }

  lemma FilledWithin<T>(l: Layout<T>, g: Groups<T>, size: nat, source: seq<T>)
    requires size > 0 && GroupsOk(g, size, source, BlockCount(size, source))
    requires Sound(l) && l.offsets.Keys == g.positions.Keys
    ensures Within(l.data, source)
  {
    forall i | 0 <= i < |l.data|
      ensures l.data[i] in source
    {
      assert InChunk(l, i);
      var c :| c in l.offsets && CoveredBy(l, c, i);
      assert OccursAt(l.data, c, l.offsets[c]);
      assert l.data[i] == l.data[l.offsets[c]..l.offsets[c] + |c|][i - l.offsets[c]] == c[i - l.offsets[c]];
      assert PositionsOk(c, g.positions[c], size, source, BlockCount(size, source));
      BlockWithin(size, source, g.positions[c][0], i - l.offsets[c]);
    }
  }

  lemma BlockWithin<T>(size: nat, source: seq<T>, n: nat, k: nat)
    requires k < |Block(size, source, n)|
    ensures Block(size, source, n)[k] in source
  {
    assert Block(size, source, n)[k] == source[Min(n * size, |source|) + k];
  }

  // The offsets in the order of the positions.  Since the positions are the
  // numbers of the blocks, each once, sorting the groups by position amounts
  // to looking for the group of each number.
  method FromOverlappedSequences<T(==)>(s: OverlappedSequences<T>, g: Groups<T>, size: nat, source: seq<T>)
    returns (a: CompressedArray<T>)
    requires size > 0 && GroupsOk(g, size, source, BlockCount(size, source))
    requires Sound(s.Value()) && s.offsets.Keys == g.positions.Keys
    ensures Encodes(a, size, source) && Within(a.data, source)
  {
    FilledWithin(s.Value(), g, size, source);
    var offsets: seq<nat> := [];
    for n := 0 to BlockCount(size, source)
      invariant |offsets| == n
      invariant forall k :: 0 <= k < n ==> OccursAt(s.data, Block(size, source, k), offsets[k])
    {
      var offset := OffsetOf(s, g, size, source, n);
      offsets := offsets + [offset];
    }
    a := CompressedArray(s.data, offsets);
  }

  method OffsetOf<T(==)>(s: OverlappedSequences<T>, g: Groups<T>, size: nat, source: seq<T>, n: nat)
    returns (offset: nat)
    requires size > 0 && n < BlockCount(size, source) && GroupsOk(g, size, source, BlockCount(size, source))
    requires Placed(s.Value()) && s.offsets.Keys == g.positions.Keys
    ensures OccursAt(s.data, Block(size, source, n), offset)
  {
    assert BlockFiled(g, size, source, n);
    var d :| d in g.positions && n in g.positions[d];
    assert PositionsOk(d, g.positions[d], size, source, BlockCount(size, source));
    assert d in s.Value().offsets;
    offset := s.offsets[d];
  }

  method CompressArray<T(==)>(size: nat, source: seq<T>) returns (a: CompressedArray<T>)
    requires size > 0 && source != []
    ensures Encodes(a, size, source) && Within(a.data, source)
  {
    var g := GenerateGroups(size, source);
    ElementInBlock(size, source, 0);
    assert BlockFiled(g, size, source, 0);
    assert g.order != [];
    ghost var run, moves;
    var s;
    s, run, moves := Compress(g.order);
    a := FromOverlappedSequences(s, g, size, source);
  }

  // An element is read back from the block and the place in it.
  lemma ReadBack<T>(a: CompressedArray<T>, size: nat, source: seq<T>, i: nat, q: nat, r: nat)
    requires size > 0 && Encodes(a, size, source) && i < |source|
    requires q == i / size && r == i % size
    ensures q < |a.offsets|
    ensures a.offsets[q] + r < |a.data|
    ensures a.data[a.offsets[q] + r] == source[i]
  {
    ElementInBlock(size, source, i);
    var block, at := Block(size, source, q), a.offsets[q];
    assert OccursAt(a.data, block, at);
    assert a.data[at..at + |block|][r] == a.data[at + r];
  }

  // ------------------------------------------------------------------------
  // Two levels

  datatype Table<T> = Table(k1: nat, k2: nat, data: seq<T>, offsets1: seq<nat>, offsets2: seq<nat>)

  // The position in each array that a lookup reads, with indices of `w` bits.
  function Mask(w: nat, x: nat, k: nat): nat { BitAnd(w, x, Pow2(k) - 1) }

  function Slot2<T>(t: Table<T>, x: nat): nat {
    ShiftRight(x, t.k1 + t.k2)
  }

  function Slot1<T>(w: nat, t: Table<T>, x: nat): nat
    requires Slot2(t, x) < |t.offsets2|
  {
    t.offsets2[Slot2(t, x)] + Mask(w, ShiftRight(x, t.k1), t.k2)
  }

  function Slot0<T>(w: nat, t: Table<T>, x: nat): nat
    requires Slot2(t, x) < |t.offsets2| && Slot1(w, t, x) < |t.offsets1|
  {
    t.offsets1[Slot1(w, t, x)] + Mask(w, x, t.k1)
  }

  // The lookup of an index stays in bounds and finds the source element.
  ghost predicate Finds<T>(w: nat, t: Table<T>, x: nat, element: T) {
    && Slot2(t, x) < |t.offsets2|
    && Slot1(w, t, x) < |t.offsets1|
    && Slot0(w, t, x) < |t.data|
    && t.data[Slot0(w, t, x)] == element
  }

  ghost predicate Represents<T>(t: Table<T>, source: seq<T>, offsets: seq<nat>) {
    && Encodes(CompressedArray(t.data, offsets), Pow2(t.k1), source)
    && Encodes(CompressedArray(t.offsets1, t.offsets2), Pow2(t.k2), offsets)
  }

  lemma DivideTwice(x: nat, a: int, b: int)
    requires a > 0 && b > 0 && a * b > 0
    ensures (x / a) / b == x / (a * b)
  {
    var h := x / a;
    DivisionLaw(x, a);
    DivisionLaw(h, b);
    Digits(a, b, h / b, h % b, x % a);
    ResidueUnique(x, a * b, h / b, a * (h % b) + x % a);
  }

  lemma DivisionLaw(x: int, a: int)
    requires a > 0
    ensures x == a * (x / a) + x % a && 0 <= x % a < a
  {
  }

  // Two digits make one, in a larger base.
  lemma Digits(a: int, b: int, q: int, d: int, e: int)
    requires 0 <= d < b && 0 <= e < a
    ensures a * (b * q + d) + e == q * (a * b) + (a * d + e)
    ensures 0 <= a * d + e < a * b
  {
    Distribute(a, b * q, d);
    Regroup(a, b, q);
    TimesMonotone(d, b - 1, a);
    Distribute(a, b, -1);
  }

  lemma Distribute(a: int, x: int, y: int)
    ensures a * (x + y) == a * x + a * y
  {
  }

  lemma Regroup(a: int, b: int, q: int)
    ensures a * (b * q) == q * (a * b)
  {
  }

  lemma ShiftTwice(x: nat, k1: nat, k2: nat)
    ensures ShiftRight(ShiftRight(x, k1), k2) == ShiftRight(x, k1 + k2)
  {
    Pow2Split(k1, k1 + k2);
    DivideTwice(x, Pow2(k1), Pow2(k2));
  }

  // One level, read with a shift and a mask.
  lemma ReadBackBits<T>(w: nat, a: CompressedArray<T>, k: nat, source: seq<T>, i: nat)
    requires Encodes(a, Pow2(k), source) && i < |source| && i < Pow2(w) && k <= w
    ensures ShiftRight(i, k) < |a.offsets|
    ensures a.offsets[ShiftRight(i, k)] + Mask(w, i, k) < |a.data|
    ensures a.data[a.offsets[ShiftRight(i, k)] + Mask(w, i, k)] == source[i]
  {
    MaskIsResidue(w, i, k);
    ReadBack(a, Pow2(k), source, i, ShiftRight(i, k), Mask(w, i, k));
  }

  // Looking up any index of the source yields the source element.
  lemma LookupFinds<T>(w: nat, t: Table<T>, source: seq<T>, offsets: seq<nat>, x: nat)
    requires Represents(t, source, offsets)
    requires x < |source| && x < Pow2(w) && t.k1 <= w && t.k2 <= w
    ensures Finds(w, t, x, source[x])
  {
    var q := ShiftRight(x, t.k1);
    ReadBackBits(w, CompressedArray(t.data, offsets), t.k1, source, x);
    ReadBackBits(w, CompressedArray(t.offsets1, t.offsets2), t.k2, offsets, q);
    ShiftTwice(x, t.k1, t.k2);
    TwoReads(w, t, x, source[x], offsets[q]);
  }

  // A lookup is two reads.
  lemma TwoReads<T>(w: nat, t: Table<T>, x: nat, element: T, offset: nat)
    requires var q := ShiftRight(x, t.k1);
             && ShiftRight(q, t.k2) == ShiftRight(x, t.k1 + t.k2) < |t.offsets2|
             && t.offsets2[ShiftRight(q, t.k2)] + Mask(w, q, t.k2) < |t.offsets1|
             && t.offsets1[t.offsets2[ShiftRight(q, t.k2)] + Mask(w, q, t.k2)] == offset
    requires offset + Mask(w, x, t.k1) < |t.data| && t.data[offset + Mask(w, x, t.k1)] == element
    ensures Finds(w, t, x, element)
  {
  }

  // Compress an array, and the offsets of its blocks once more.  The table
  // represents the array and holds no other elements.
  method BuildTable<T(==)>(w: nat, k1: nat, k2: nat, source: seq<T>) returns (t: Table<T>, ghost offsets: seq<nat>)
    requires source != [] && |source| <= Pow2(w) && k1 <= w && k2 <= w
    ensures t.k1 == k1 && t.k2 == k2 && Represents(t, source, offsets) && Within(t.data, source)
    ensures forall x :: 0 <= x < |source| ==> Finds(w, t, x, source[x])
  {
    var level1 := CompressArray(Pow2(k1), source);
    ElementInBlock(Pow2(k1), source, 0);
    var level2 := CompressArray(Pow2(k2), level1.offsets);
    t := Table(k1, k2, level1.data, level2.data, level2.offsets);
    offsets := level1.offsets;
    forall x | 0 <= x < |source|
      ensures Finds(w, t, x, source[x])
    {
      LookupFinds(w, t, source, offsets, x);
    }
  }
}
