// Packing chunks into one sequence in which every chunk occurs at a recorded
// offset, letting chunks overlap.  A greedy loop repeatedly applies the move
// with the largest overlap: insert a chunk into a partial sequence, merge two
// partial sequences, or start a sequence from a pair of chunks.
module OverlapCompressor {
  import opened Basics

  // ------------------------------------------------------------------------
  // Overlaps

  datatype Overlap = Overlap(offset: nat, overlap: nat)

  // The last `n` elements of one sequence are the first `n` of another.
  predicate SuffixIsPrefix<T(==)>(s1: seq<T>, s2: seq<T>, n: nat) {
    n <= |s1| && n <= |s2| && s1[|s1| - n..] == s2[..n]
  }

  // The largest non-empty suffix, of length at most `n`, that is a prefix of
  // the other sequence; zero if there is none.
  function SimpleUpTo<T(==)>(s1: seq<T>, s2: seq<T>, n: nat): (r: nat)
    requires n <= |s1|
    ensures r <= n && SuffixIsPrefix(s1, s2, r)
    ensures forall m :: r < m <= n ==> !SuffixIsPrefix(s1, s2, m)
  {
    if n == 0 then 0
    else if SuffixIsPrefix(s1, s2, n) then n
    else SimpleUpTo(s1, s2, n - 1)
  }

  function ComputeSimple<T(==)>(s1: seq<T>, s2: seq<T>): (r: nat)
    ensures r <= |s1| && r <= |s2| && SuffixIsPrefix(s1, s2, r)
    ensures forall m :: r < m <= |s1| ==> !SuffixIsPrefix(s1, s2, m)
  {
    SimpleUpTo(s1, s2, |s1|)
  }

  // How much of `s2` lies within `s1` when it is placed at `start`.
  function OverlapAt<T>(s1: seq<T>, s2: seq<T>, start: nat): nat
    requires start <= |s1|
  {
    Min(|s2|, |s1| - start)
  }

  // Placing `s2` at `start` agrees with `s1` on a non-empty common part.
  predicate Agrees<T(==)>(s1: seq<T>, s2: seq<T>, start: nat)
    requires start <= |s1|
  {
    var n := OverlapAt(s1, s2, start);
    n > 0 && s1[start..start + n] == s2[..n]
  }

  // The first of the placements with the largest overlap, from `start` on.
  function ComputeFrom<T(==)>(s1: seq<T>, s2: seq<T>, start: nat): (r: Overlap)
    requires start <= |s1|
    ensures start <= r.offset <= |s1| && r.overlap == OverlapAt(s1, s2, r.offset)
    ensures s1[r.offset..r.offset + r.overlap] == s2[..r.overlap]
    ensures forall i :: start <= i <= |s1| && Agrees(s1, s2, i) ==> OverlapAt(s1, s2, i) <= r.overlap
    decreases |s1| - start
  {
    if start == |s1| then Overlap(|s1|, 0)
    else
      var rest := ComputeFrom(s1, s2, start + 1);
      if Agrees(s1, s2, start) && OverlapAt(s1, s2, start) >= rest.overlap
      then Overlap(start, OverlapAt(s1, s2, start))
      else rest
  }

  function Compute<T(==)>(s1: seq<T>, s2: seq<T>): (r: Overlap)
    ensures r.offset <= |s1| && r.overlap == OverlapAt(s1, s2, r.offset)
    ensures s1[r.offset..r.offset + r.overlap] == s2[..r.overlap]
    ensures forall i :: 0 <= i <= |s1| && Agrees(s1, s2, i) ==> OverlapAt(s1, s2, i) <= r.overlap
  {
    ComputeFrom(s1, s2, 0)
  }

  // ------------------------------------------------------------------------
  // Sequences with the offsets of the chunks they contain

  datatype Layout<T(==)> = Layout(data: seq<T>, offsets: map<seq<T>, nat>)

  predicate OccursAt<T(==)>(data: seq<T>, x: seq<T>, offset: nat) {
    offset + |x| <= |data| && data[offset..offset + |x|] == x
  }

  // Every recorded chunk occurs at its offset.
  ghost predicate Placed<T>(l: Layout<T>) {
    forall c :: c in l.offsets ==> OccursAt(l.data, c, l.offsets[c])
  }

  predicate CoveredBy<T(==)>(l: Layout<T>, c: seq<T>, i: nat) {
    c in l.offsets && l.offsets[c] <= i < l.offsets[c] + |c|
  }

  // Every element of the data belongs to a recorded chunk.
  ghost predicate Filled<T>(l: Layout<T>) {
    forall i :: 0 <= i < |l.data| ==> InChunk(l, i)
  }

  ghost predicate InChunk<T>(l: Layout<T>, i: nat) {
    exists c :: c in l.offsets && CoveredBy(l, c, i)
  }

  ghost predicate Sound<T>(l: Layout<T>) {
    Placed(l) && Filled(l)
  }

  // What a placement must satisfy for the assertions of insertion and merging
  // to hold.  A negative offset puts `x` in front.
  predicate FitsAt<T(==)>(data: seq<T>, offset: int, overlap: nat, x: seq<T>) {
    if offset < 0 then
      0 < overlap && offset == overlap - |x| && SuffixIsPrefix(x, data, overlap)
    else if offset <= |data| - |x| then
      data[offset..offset + |x|] == x
    else
      offset <= |data| && overlap == |data| - offset && overlap <= |x| && data[offset..] == x[..overlap]
  }

  function PlacedData<T(==)>(data: seq<T>, offset: int, overlap: nat, x: seq<T>): (data': seq<T>)
    requires FitsAt(data, offset, overlap, x)
    ensures OccursAt(data', x, if offset < 0 then 0 else offset)
    ensures OccursAt(data', data, if offset < 0 then -offset else 0)
  {
    if offset < 0 then x[..|x| - overlap] + data
    else if offset <= |data| - |x| then data
    else
      assert (data + x[overlap..])[offset..offset + |x|] == data[offset..] + x[overlap..];
      assert x == x[..overlap] + x[overlap..];
      data + x[overlap..]
  }

  function Shifted<T(==)>(offsets: map<seq<T>, nat>, distance: nat): (r: map<seq<T>, nat>)
    ensures r.Keys == offsets.Keys
  {
    map c | c in offsets :: offsets[c] + distance
  }

  function InsertAt<T(==)>(l: Layout<T>, offset: int, overlap: nat, chunk: seq<T>): Layout<T>
    requires FitsAt(l.data, offset, overlap, chunk)
  {
    var data := PlacedData(l.data, offset, overlap, chunk);
    if offset < 0 then Layout(data, Shifted(l.offsets, -offset)[chunk := 0])
    else Layout(data, l.offsets[chunk := offset])
  }

  function MergeAt<T(==)>(l: Layout<T>, offset: int, overlap: nat, s: Layout<T>): Layout<T>
    requires FitsAt(l.data, offset, overlap, s.data)
  {
    var data := PlacedData(l.data, offset, overlap, s.data);
    if offset < 0 then Layout(data, Shifted(l.offsets, -offset) + s.offsets)
    else Layout(data, l.offsets + Shifted(s.offsets, offset))
  }

  lemma OccursWithin<T>(outer: seq<T>, inner: seq<T>, at: nat, x: seq<T>, offset: nat)
    requires OccursAt(outer, inner, at) && OccursAt(inner, x, offset)
    ensures OccursAt(outer, x, at + offset)
  {
    forall i | 0 <= i < |x|
      ensures outer[at + offset + i] == x[i]
    {
      assert x[i] == inner[offset..offset + |x|][i] == inner[offset + i];
      assert inner[offset + i] == outer[at..at + |inner|][offset + i];
    }
  }

  // Inserting keeps every chunk in its place and adds one.
  lemma InsertPlaces<T>(l: Layout<T>, offset: int, overlap: nat, chunk: seq<T>)
    requires Placed(l) && FitsAt(l.data, offset, overlap, chunk)
    ensures Placed(InsertAt(l, offset, overlap, chunk))
    ensures InsertAt(l, offset, overlap, chunk).offsets.Keys == l.offsets.Keys + {chunk}
  {
    var r := InsertAt(l, offset, overlap, chunk);
    forall c | c in r.offsets
      ensures OccursAt(r.data, c, r.offsets[c])
    {
      if c != chunk {
        OccursWithin(r.data, l.data, if offset < 0 then -offset else 0, c, l.offsets[c]);
      }
    }
  }

  // Merging keeps every chunk of both sequences in its place.
  lemma MergePlaces<T>(l: Layout<T>, offset: int, overlap: nat, s: Layout<T>)
    requires Placed(l) && Placed(s) && FitsAt(l.data, offset, overlap, s.data)
    ensures Placed(MergeAt(l, offset, overlap, s))
    ensures MergeAt(l, offset, overlap, s).offsets.Keys == l.offsets.Keys + s.offsets.Keys
  {
    var r := MergeAt(l, offset, overlap, s);
    forall c | c in r.offsets
      ensures OccursAt(r.data, c, r.offsets[c])
    {
      MergedOccurs(l, offset, overlap, s, c);
    }
  }

  lemma MergedOccurs<T>(l: Layout<T>, offset: int, overlap: nat, s: Layout<T>, c: seq<T>)
    requires Placed(l) && Placed(s) && FitsAt(l.data, offset, overlap, s.data)
    requires c in MergeAt(l, offset, overlap, s).offsets
    ensures var r := MergeAt(l, offset, overlap, s);
            OccursAt(r.data, c, r.offsets[c])
  {
    var data := PlacedData(l.data, offset, overlap, s.data);
    if c in s.offsets {
      OccursWithin(data, s.data, if offset < 0 then 0 else offset, c, s.offsets[c]);
    }
    if c in l.offsets {
      OccursWithin(data, l.data, if offset < 0 then -offset else 0, c, l.offsets[c]);
    }
  }

  // Inserting a chunk that was not recorded leaves no gap.
  lemma InsertFills<T>(l: Layout<T>, offset: int, overlap: nat, chunk: seq<T>)
    requires Filled(l) && FitsAt(l.data, offset, overlap, chunk) && chunk !in l.offsets
    ensures Filled(InsertAt(l, offset, overlap, chunk))
  {
    var r := InsertAt(l, offset, overlap, chunk);
    var before := if offset < 0 then -offset else 0;
    forall i | 0 <= i < |r.data|
      ensures InChunk(r, i)
    {
      if before <= i < before + |l.data| {
        assert InChunk(l, i - before);
        var c :| c in l.offsets && CoveredBy(l, c, i - before);
        assert CoveredBy(r, c, i);
      } else {
        assert CoveredBy(r, chunk, i);
      }
    }
  }

  // Neither does merging sequences that record different chunks.
  lemma MergeFills<T>(l: Layout<T>, offset: int, overlap: nat, s: Layout<T>)
    requires Filled(l) && Filled(s) && FitsAt(l.data, offset, overlap, s.data) && l.offsets.Keys !! s.offsets.Keys
    ensures Filled(MergeAt(l, offset, overlap, s))
  {
    var r := MergeAt(l, offset, overlap, s);
    var before, at := if offset < 0 then -offset else 0, if offset < 0 then 0 else offset;
    forall i | 0 <= i < |r.data|
      ensures InChunk(r, i)
    {
      if before <= i < before + |l.data| {
        assert InChunk(l, i - before);
        var c :| c in l.offsets && CoveredBy(l, c, i - before);
        assert CoveredBy(r, c, i);
      } else {
        assert InChunk(s, i - at);
        var c :| c in s.offsets && CoveredBy(s, c, i - at);
        assert CoveredBy(r, c, i);
      }
    }
  }

  // A placement that fits, with the number of elements that it shares.
  predicate OverlapsAt<T(==)>(data: seq<T>, offset: int, overlap: nat, x: seq<T>) {
    FitsAt(data, offset, overlap, x) && (0 <= offset <= |data| - |x| ==> overlap == |x|)
  }

  // So much shorter than the two sequences together is the result.
  lemma PlacedLength<T>(data: seq<T>, offset: int, overlap: nat, x: seq<T>)
    requires OverlapsAt(data, offset, overlap, x)
    ensures |PlacedData(data, offset, overlap, x)| + overlap == |data| + |x|
  {
  }

  // Both ways of computing an overlap yield such a placement.
  lemma PrependFits<T>(data: seq<T>, chunk: seq<T>)
    requires ComputeSimple(chunk, data) > 0
    ensures OverlapsAt(data, ComputeSimple(chunk, data) - |chunk|, ComputeSimple(chunk, data), chunk)
  {
    var n := ComputeSimple(chunk, data);
    if n == |chunk| {
      assert chunk[|chunk| - n..] == chunk;
    }
  }

  lemma ComputedFits<T>(data: seq<T>, x: seq<T>)
    ensures OverlapsAt(data, Compute(data, x).offset, Compute(data, x).overlap, x)
  {
    var r := Compute(data, x);
    assert x[..|x|] == x;
    assert data[r.offset..|data|] == data[r.offset..];
  }

  // Concatenation is a placement without overlap.
  lemma AppendFits<T>(data: seq<T>, x: seq<T>)
    ensures OverlapsAt(data, |data|, 0, x)
  {
    if x == [] {
      assert data[|data|..|data|] == x;
    }
  }

  // ------------------------------------------------------------------------
  // Pairs of chunks

  function ToSet<T(==)>(chunks: seq<T>): set<T> {
    set c | c in chunks
  }

  datatype Pair<T> = Pair(d1: seq<T>, d2: seq<T>, overlap: nat)

  predicate PairOk<T(==)>(p: Pair<T>, remaining: set<seq<T>>) {
    p.d1 in remaining && p.d2 in remaining && p.d1 != p.d2
    && p.overlap == ComputeSimple(p.d1, p.d2) && p.overlap > 0
  }

  ghost predicate PairsOk<T>(pairs: seq<Pair<T>>, remaining: set<seq<T>>) {
    forall p :: p in pairs ==> PairOk(p, remaining)
  }

  lemma PairsOkAfter<T>(pairs: seq<Pair<T>>, remaining: set<seq<T>>, pairs': seq<Pair<T>>, chunks: set<seq<T>>)
    requires PairsOk(pairs, remaining)
    requires forall p :: p in pairs' ==> p in pairs && p.d1 !in chunks && p.d2 !in chunks
    ensures PairsOk(pairs', remaining - chunks)
  {
    forall p | p in pairs'
      ensures PairOk(p, remaining - chunks)
    {
      assert PairOk(p, remaining);
    }
  }

  function FromSingleton<T(==)>(chunk: seq<T>): Layout<T> {
    Layout(chunk, map[chunk := 0])
  }

  function FromPair<T(==)>(p: Pair<T>): Layout<T>
    requires p.overlap <= |p.d1| && p.overlap <= |p.d2|
  {
    Layout(p.d1 + p.d2[p.overlap..], map[p.d1 := 0, p.d2 := |p.d1| - p.overlap])
  }

  lemma FromSingletonPlaces<T>(chunk: seq<T>)
    ensures Sound(FromSingleton(chunk)) && FromSingleton(chunk).offsets.Keys == {chunk}
  {
    var l := FromSingleton(chunk);
    assert chunk[0..|chunk|] == chunk;
    forall i | 0 <= i < |chunk|
      ensures InChunk(l, i)
    {
      assert CoveredBy(l, chunk, i);
    }
  }

  lemma FromPairPlaces<T>(p: Pair<T>, remaining: set<seq<T>>)
    requires PairOk(p, remaining)
    ensures Sound(FromPair(p)) && FromPair(p).offsets.Keys == {p.d1, p.d2}
  {
    var l := FromPair(p);
    PairOccurs(p.d1, p.d2, p.overlap);
    forall i | 0 <= i < |l.data|
      ensures InChunk(l, i)
    {
      assert CoveredBy(l, p.d1, i) || CoveredBy(l, p.d2, i);
    }
  }

  lemma PairOccurs<T>(d1: seq<T>, d2: seq<T>, overlap: nat)
    requires SuffixIsPrefix(d1, d2, overlap)
    ensures OccursAt(d1 + d2[overlap..], d1, 0) && OccursAt(d1 + d2[overlap..], d2, |d1| - overlap)
  {
    var data, k := d1 + d2[overlap..], |d1| - overlap;
    assert data[k..] == d1[k..] + d2[overlap..];
    assert d2 == d2[..overlap] + d2[overlap..];
  }

  // ------------------------------------------------------------------------
  // Moves

  // The state of the greedy loop: pairs of chunks not yet placed, the chunks
  // not yet placed, and the partial sequences.
  datatype Work<T(==)> = Work(pairs: seq<Pair<T>>, remaining: set<seq<T>>, layouts: seq<Layout<T>>)

  datatype Move<T> =
    | Insert(chunk: seq<T>, index: nat, offset: int, overlap: nat)
    | Merge(index1: nat, index2: nat, offset: int, overlap: nat)
    | NewSingleton(chunk: seq<T>)
    | NewSequence(pair: Pair<T>)

  // A move the loop may apply: none of its assertions can fail.
  predicate Allowed<T(==)>(w: Work<T>, m: Move<T>) {
    match m
    case Insert(chunk, index, offset, overlap) =>
      chunk in w.remaining && index < |w.layouts| && OverlapsAt(w.layouts[index].data, offset, overlap, chunk)
    case Merge(index1, index2, offset, overlap) =>
      && index1 < |w.layouts| && index2 < |w.layouts| && index1 != index2
      && OverlapsAt(w.layouts[index1].data, offset, overlap, w.layouts[index2].data)
    case NewSingleton(chunk) =>
      chunk in w.remaining
    case NewSequence(pair) =>
      PairOk(pair, w.remaining)
  }

  function Without<T(==)>(pairs: seq<Pair<T>>, chunk: seq<T>): (r: seq<Pair<T>>)
    ensures forall p :: p in r ==> p in pairs && p.d1 != chunk && p.d2 != chunk
    ensures forall p :: p in pairs && p.d1 != chunk && p.d2 != chunk ==> p in r
  {
    if pairs == [] then []
    else if pairs[0].d1 == chunk || pairs[0].d2 == chunk then Without(pairs[1..], chunk)
    else [pairs[0]] + Without(pairs[1..], chunk)
  }

  function RemoveAt<T>(s: seq<T>, i: nat): (r: seq<T>)
    requires i < |s|
    ensures |r| == |s| - 1
    ensures forall k :: 0 <= k < |r| ==> r[k] == s[if k < i then k else k + 1]
  {
    s[..i] + s[i + 1..]
  }

  function Applied<T(==)>(w: Work<T>, m: Move<T>): Work<T>
    requires Allowed(w, m)
  {
    match m
    case Insert(chunk, index, offset, overlap) =>
      Work(Without(w.pairs, chunk), w.remaining - {chunk},
           w.layouts[index := InsertAt(w.layouts[index], offset, overlap, chunk)])
    case Merge(index1, index2, offset, overlap) =>
      w.(layouts := RemoveAt(w.layouts[index1 := MergeAt(w.layouts[index1], offset, overlap, w.layouts[index2])],
                             index2))
    case NewSingleton(chunk) =>
      Work(Without(w.pairs, chunk), w.remaining - {chunk}, w.layouts + [FromSingleton(chunk)])
    case NewSequence(pair) =>
      Work(Without(Without(w.pairs, pair.d1), pair.d2), w.remaining - {pair.d1} - {pair.d2},
           w.layouts + [FromPair(pair)])
  }

  ghost function Keys<T>(layouts: seq<Layout<T>>): set<seq<T>> {
    set i, c | 0 <= i < |layouts| && c in layouts[i].offsets :: c
  }

  ghost predicate AllPlaced<T>(layouts: seq<Layout<T>>) {
    forall i :: 0 <= i < |layouts| ==> Sound(layouts[i])
  }

  ghost predicate Disjoint<T>(layouts: seq<Layout<T>>) {
    forall i, j :: 0 <= i < j < |layouts| ==> layouts[i].offsets.Keys !! layouts[j].offsets.Keys
  }

  // Each chunk is either remaining or recorded in exactly one sequence, where
  // it occurs at its offset; a sequence holds nothing else; pairs name remaining
  // chunks only.
  ghost predicate Consistent<T>(all: set<seq<T>>, w: Work<T>) {
    && w.remaining <= all
    && Keys(w.layouts) == all - w.remaining
    && AllPlaced(w.layouts)
    && Disjoint(w.layouts)
    && PairsOk(w.pairs, w.remaining)
  }

  ghost function Measure<T>(w: Work<T>): nat {
    2 * |w.remaining| + |w.layouts|
  }

  // Every allowed move keeps the state consistent and makes progress.
  lemma MoveKeeps<T>(all: set<seq<T>>, w: Work<T>, m: Move<T>)
    requires Consistent(all, w) && Allowed(w, m)
    ensures Consistent(all, Applied(w, m))
    ensures Measure(Applied(w, m)) < Measure(w)
  {
    match m
    case Insert(chunk, index, offset, overlap) => InsertKeeps(all, w, chunk, index, offset, overlap);
    case Merge(index1, index2, offset, overlap) => MergeKeeps(all, w, index1, index2, offset, overlap);
    case NewSingleton(chunk) =>
      FromSingletonPlaces(chunk);
      AppendKeeps(all, w, {chunk}, FromSingleton(chunk), Applied(w, m));
    case NewSequence(pair) =>
      FromPairPlaces(pair, w.remaining);
      assert w.remaining - {pair.d1} - {pair.d2} == w.remaining - {pair.d1, pair.d2};
      AppendKeeps(all, w, {pair.d1, pair.d2}, FromPair(pair), Applied(w, m));
  }

  lemma InsertKeeps<T>(all: set<seq<T>>, w: Work<T>, chunk: seq<T>, index: nat, offset: int, overlap: nat)
    requires Consistent(all, w) && Allowed(w, Insert(chunk, index, offset, overlap))
    ensures Consistent(all, Applied(w, Insert(chunk, index, offset, overlap)))
    ensures Measure(Applied(w, Insert(chunk, index, offset, overlap))) < Measure(w)
  {
    assert chunk !in Keys(w.layouts);
    InsertPlaces(w.layouts[index], offset, overlap, chunk);
    InsertFills(w.layouts[index], offset, overlap, chunk);
    GrownKeeps(all, w, chunk, index, InsertAt(w.layouts[index], offset, overlap, chunk));
  }

  // One sequence records one more chunk.
  lemma GrownKeeps<T>(all: set<seq<T>>, w: Work<T>, chunk: seq<T>, index: nat, l: Layout<T>)
    requires Consistent(all, w) && chunk in w.remaining && index < |w.layouts|
    requires Sound(l) && l.offsets.Keys == w.layouts[index].offsets.Keys + {chunk}
    ensures var w' := Work(Without(w.pairs, chunk), w.remaining - {chunk}, w.layouts[index := l]);
            Consistent(all, w') && Measure(w') < Measure(w)
  {
    var w' := Work(Without(w.pairs, chunk), w.remaining - {chunk}, w.layouts[index := l]);
    assert Keys(w'.layouts) == all - w'.remaining by { KeysInserted(w.layouts, index, l, chunk); }
    assert Disjoint(w'.layouts) by { DisjointInserted(w.layouts, index, l, chunk); }
    assert PairsOk(w'.pairs, w'.remaining) by { PairsOkAfter(w.pairs, w.remaining, w'.pairs, {chunk}); }
    RemainingShrinks(w.remaining, {chunk});
  }

  lemma KeysInserted<T>(layouts: seq<Layout<T>>, index: nat, l: Layout<T>, chunk: seq<T>)
    requires index < |layouts| && l.offsets.Keys == layouts[index].offsets.Keys + {chunk}
    ensures Keys(layouts[index := l]) == Keys(layouts) + {chunk}
  {
    forall c
      ensures c in Keys(layouts[index := l]) <==> c in Keys(layouts) + {chunk}
    {
      KeysUpdated(layouts, index, l, c);
      if c in l.offsets && c != chunk {
        assert c in layouts[index].offsets;
      }
    }
  }

  lemma DisjointInserted<T>(layouts: seq<Layout<T>>, index: nat, l: Layout<T>, chunk: seq<T>)
    requires Disjoint(layouts) && chunk !in Keys(layouts)
    requires index < |layouts| && l.offsets.Keys == layouts[index].offsets.Keys + {chunk}
    ensures Disjoint(layouts[index := l])
  {
    forall i | 0 <= i < |layouts|
      ensures chunk !in layouts[i].offsets
    {
    }
  }

  // Membership after one sequence grew.
  lemma KeysUpdated<T>(layouts: seq<Layout<T>>, index: nat, l: Layout<T>, c: seq<T>)
    requires index < |layouts| && layouts[index].offsets.Keys <= l.offsets.Keys
    ensures c in Keys(layouts[index := l]) <==> c in Keys(layouts) || c in l.offsets
  {
    var layouts' := layouts[index := l];
    if c in Keys(layouts) {
      var i :| 0 <= i < |layouts| && c in layouts[i].offsets;
      assert c in layouts'[i].offsets;
    }
    if c in l.offsets {
      assert c in layouts'[index].offsets;
    }
  }

  lemma MergeKeeps<T>(all: set<seq<T>>, w: Work<T>, index1: nat, index2: nat, offset: int, overlap: nat)
    requires Consistent(all, w) && Allowed(w, Merge(index1, index2, offset, overlap))
    ensures Consistent(all, Applied(w, Merge(index1, index2, offset, overlap)))
    ensures Measure(Applied(w, Merge(index1, index2, offset, overlap))) < Measure(w)
  {
    var merged := MergeAt(w.layouts[index1], offset, overlap, w.layouts[index2]);
    MergePlaces(w.layouts[index1], offset, overlap, w.layouts[index2]);
    MergeFills(w.layouts[index1], offset, overlap, w.layouts[index2]);
    var updated := w.layouts[index1 := merged];
    var w' := Applied(w, Merge(index1, index2, offset, overlap));
    assert w'.layouts == RemoveAt(updated, index2);
    assert Keys(w'.layouts) == Keys(w.layouts) by {
      forall c
        ensures c in Keys(w'.layouts) <==> c in Keys(w.layouts)
      {
        KeysUpdated(w.layouts, index1, merged, c);
        KeysRemoved(updated, index1, index2, c);
        if c in merged.offsets {
          assert c in w.layouts[index1].offsets || c in w.layouts[index2].offsets;
        }
      }
    }
    MergeDisjoint(w.layouts, index1, index2, merged);
  }

  // Dropping a sequence whose chunks another one records loses none.
  lemma KeysRemoved<T>(layouts: seq<Layout<T>>, index1: nat, index2: nat, c: seq<T>)
    requires index1 < |layouts| && index2 < |layouts| && index1 != index2
    requires layouts[index2].offsets.Keys <= layouts[index1].offsets.Keys
    ensures c in Keys(RemoveAt(layouts, index2)) <==> c in Keys(layouts)
  {
    var rest := RemoveAt(layouts, index2);
    if c in Keys(layouts) {
      var i :| 0 <= i < |layouts| && c in layouts[i].offsets;
      var k := if i == index2 then index1 else i;
      assert c in layouts[k].offsets;
      assert c in rest[if k < index2 then k else k - 1].offsets;
    }
    if c in Keys(rest) {
      var k :| 0 <= k < |rest| && c in rest[k].offsets;
      assert c in layouts[if k < index2 then k else k + 1].offsets;
    }
  }

  lemma MergeDisjoint<T>(layouts: seq<Layout<T>>, index1: nat, index2: nat, merged: Layout<T>)
    requires index1 < |layouts| && index2 < |layouts| && index1 != index2
    requires Disjoint(layouts)
    requires merged.offsets.Keys == layouts[index1].offsets.Keys + layouts[index2].offsets.Keys
    ensures Disjoint(RemoveAt(layouts[index1 := merged], index2))
  {
    var updated := layouts[index1 := merged];
    var rest := RemoveAt(updated, index2);
    forall i, j | 0 <= i < j < |rest|
      ensures rest[i].offsets.Keys !! rest[j].offsets.Keys
    {
      var i' := if i < index2 then i else i + 1;
      var j' := if j < index2 then j else j + 1;
      assert rest[i] == updated[i'] && rest[j] == updated[j'];
    }
  }

  lemma AppendKeeps<T>(all: set<seq<T>>, w: Work<T>, chunks: set<seq<T>>, l: Layout<T>, w': Work<T>)
    requires Consistent(all, w) && chunks <= w.remaining && chunks != {}
    requires Sound(l) && l.offsets.Keys == chunks
    requires w'.remaining == w.remaining - chunks && w'.layouts == w.layouts + [l]
    requires forall p :: p in w'.pairs ==> p in w.pairs && p.d1 !in chunks && p.d2 !in chunks
    ensures Consistent(all, w')
    ensures Measure(w') < Measure(w)
  {
    assert Keys(w'.layouts) == all - w'.remaining by { KeysAppended(w.layouts, l); }
    assert Disjoint(w'.layouts) by { DisjointAppended(w.layouts, l); }
    assert PairsOk(w'.pairs, w'.remaining) by { PairsOkAfter(w.pairs, w.remaining, w'.pairs, chunks); }
    assert AllPlaced(w'.layouts);
    RemainingShrinks(w.remaining, chunks);
  }

  lemma KeysAppended<T>(layouts: seq<Layout<T>>, l: Layout<T>)
    ensures Keys(layouts + [l]) == Keys(layouts) + l.offsets.Keys
  {
    var more := layouts + [l];
    forall c | c in Keys(layouts) + l.offsets.Keys
      ensures c in Keys(more)
    {
      if c in l.offsets {
        assert c in more[|layouts|].offsets;
      } else {
        var i :| 0 <= i < |layouts| && c in layouts[i].offsets;
        assert c in more[i].offsets;
      }
    }
  }

  lemma DisjointAppended<T>(layouts: seq<Layout<T>>, l: Layout<T>)
    requires Disjoint(layouts) && l.offsets.Keys !! Keys(layouts)
    ensures Disjoint(layouts + [l])
  {
    forall i, c | 0 <= i < |layouts| && c in layouts[i].offsets
      ensures c !in l.offsets
    {
      assert c in Keys(layouts);
    }
  }

  lemma RemainingShrinks<T>(remaining: set<seq<T>>, chunks: set<seq<T>>)
    requires chunks <= remaining && chunks != {}
    ensures |remaining - chunks| < |remaining|
  {
    assert remaining == (remaining - chunks) + chunks;
  }

  // ------------------------------------------------------------------------
  // Partial sequences, updated in place

  class OverlappedSequences<T(==)> {
    var data: seq<T>
    var offsets: map<seq<T>, nat>

    ghost function Value(): Layout<T>
      reads this
    {
      Layout(data, offsets)
    }

    constructor (l: Layout<T>)
      ensures Value() == l
    {
      data, offsets := l.data, l.offsets;
    }

    method InsertChunk(offset: int, overlap: nat, chunk: seq<T>)
      requires FitsAt(data, offset, overlap, chunk)
      modifies this
      ensures Value() == InsertAt(old(Value()), offset, overlap, chunk)
    {
      ghost var placed := PlacedData(data, offset, overlap, chunk);
      if offset < 0 {
        data := chunk[..|chunk| - overlap] + data;
        assert chunk == data[..|chunk|];
        offsets := Shifted(offsets, -offset);
        offsets := offsets[chunk := 0];
      } else if offset <= |data| - |chunk| {
        assert data[offset..offset + |chunk|] == chunk;
        offsets := offsets[chunk := offset];
      } else {
        data := data + chunk[overlap..];
        assert data[offset..] == chunk;
        offsets := offsets[chunk := offset];
      }
    }

    method MergeSequence(offset: int, overlap: nat, s: OverlappedSequences<T>)
      requires s != this && FitsAt(data, offset, overlap, s.data)
      modifies this
      ensures Value() == MergeAt(old(Value()), offset, overlap, old(s.Value()))
    {
      ghost var placed := PlacedData(data, offset, overlap, s.data);
      if offset < 0 {
        data := s.data[..|s.data| - overlap] + data;
        assert s.data == data[..|s.data|];
        offsets := Shifted(offsets, -offset);
        offsets := offsets + s.offsets;
      } else if offset <= |data| - |s.data| {
        assert data[offset..offset + |s.data|] == s.data;
        offsets := offsets + Shifted(s.offsets, offset);
      } else {
        data := data + s.data[overlap..];
        assert data[offset..] == s.data;
        offsets := offsets + Shifted(s.offsets, offset);
      }
    }
  }

  ghost function Snapshot<T>(sequences: seq<OverlappedSequences<T>>): (layouts: seq<Layout<T>>)
    reads sequences
    ensures |layouts| == |sequences|
    ensures forall i :: 0 <= i < |sequences| ==> layouts[i] == sequences[i].Value()
  {
    seq(|sequences|, i requires 0 <= i < |sequences| reads sequences => sequences[i].Value())
  }

  // Carry out a move on the lists of the loop.
  method Apply<T(==)>(m: Move<T>, pairs: seq<Pair<T>>, remaining: set<seq<T>>, sequences: seq<OverlappedSequences<T>>)
    returns (pairs': seq<Pair<T>>, remaining': set<seq<T>>, sequences': seq<OverlappedSequences<T>>)
    requires Distinct(sequences)
    requires Allowed(Work(pairs, remaining, Snapshot(sequences)), m)
    modifies sequences
    ensures Distinct(sequences')
    ensures forall i :: 0 <= i < |sequences'| ==> sequences'[i] in sequences || fresh(sequences'[i])
    ensures Work(pairs', remaining', Snapshot(sequences'))
         == Applied(old(Work(pairs, remaining, Snapshot(sequences))), m)
  {
    pairs', remaining', sequences' := pairs, remaining, sequences;
    match m
    case Insert(chunk, index, offset, overlap) =>
      remaining' := remaining - {chunk};
      pairs' := Without(pairs, chunk);
      ApplyInsert(chunk, index, offset, overlap, sequences);
    case Merge(index1, index2, offset, overlap) =>
      sequences' := ApplyMerge(index1, index2, offset, overlap, sequences);
    case NewSingleton(chunk) =>
      remaining' := remaining - {chunk};
      pairs' := Without(pairs, chunk);
      var s := new OverlappedSequences(FromSingleton(chunk));
      sequences' := sequences + [s];
      assert Snapshot(sequences') == old(Snapshot(sequences)) + [s.Value()];
    case NewSequence(pair) =>
      remaining' := remaining - {pair.d1} - {pair.d2};
      pairs' := Without(Without(pairs, pair.d1), pair.d2);
      assert pair !in pairs';
      var s := new OverlappedSequences(FromPair(pair));
      sequences' := sequences + [s];
      assert Snapshot(sequences') == old(Snapshot(sequences)) + [s.Value()];
  }

  method ApplyInsert<T(==)>(chunk: seq<T>, index: nat, offset: int, overlap: nat,
                            sequences: seq<OverlappedSequences<T>>)
    requires Distinct(sequences) && index < |sequences| && FitsAt(sequences[index].data, offset, overlap, chunk)
    modifies sequences[index]
    ensures Snapshot(sequences)
         == old(Snapshot(sequences)[index := InsertAt(sequences[index].Value(), offset, overlap, chunk)])
  {
    sequences[index].InsertChunk(offset, overlap, chunk);
  }

  method ApplyMerge<T(==)>(index1: nat, index2: nat, offset: int, overlap: nat, sequences: seq<OverlappedSequences<T>>)
    returns (sequences': seq<OverlappedSequences<T>>)
    requires Distinct(sequences) && index1 < |sequences| && index2 < |sequences| && index1 != index2
    requires FitsAt(sequences[index1].data, offset, overlap, sequences[index2].data)
    modifies sequences[index1]
    ensures sequences' == RemoveAt(sequences, index2) && Distinct(sequences')
    ensures var merged := old(MergeAt(sequences[index1].Value(), offset, overlap, sequences[index2].Value()));
            Snapshot(sequences') == RemoveAt(old(Snapshot(sequences))[index1 := merged], index2)
  {
    var s1, s2 := sequences[index1], sequences[index2];
    sequences' := RemoveAt(sequences, index2);
    s1.MergeSequence(offset, overlap, s2);
    assert Snapshot(sequences) == old(Snapshot(sequences))[index1 := s1.Value()];
    assert Snapshot(sequences') == RemoveAt(Snapshot(sequences), index2);
  }

  // ------------------------------------------------------------------------
  // The search for the best move

  predicate ChunkCovered<T(==)>(data: seq<T>, d: seq<T>, best: nat) {
    ComputeSimple(d, data) <= best && Compute(data, d).overlap <= best
  }

  predicate MergeCovered<T(==)>(data1: seq<T>, data2: seq<T>, best: nat) {
    Compute(data1, data2).overlap <= best
  }

  // No insertion into the first `k` sequences overlaps by more than `best`.
  ghost predicate CoversInserts<T>(layouts: seq<Layout<T>>, remaining: set<seq<T>>, k: nat, best: nat)
    requires k <= |layouts|
  {
    forall i, d :: 0 <= i < k && d in remaining ==> ChunkCovered(layouts[i].data, d, best)
  }

  // No merge into one of the first `k` sequences overlaps by more than `best`.
  ghost predicate CoversMerges<T>(layouts: seq<Layout<T>>, k: nat, best: nat)
    requires k <= |layouts|
  {
    forall i, j :: 0 <= i < k && 0 <= j < |layouts| && i != j ==>
      MergeCovered(layouts[i].data, layouts[j].data, best)
  }

  ghost predicate CoversPairs<T>(pairs: seq<Pair<T>>, best: nat) {
    forall p :: p in pairs ==> p.overlap <= best
  }

  // No move of the three kinds overlaps by more than `best`.
  ghost predicate Greedy<T>(w: Work<T>, best: nat) {
    && CoversInserts(w.layouts, w.remaining, |w.layouts|, best)
    && CoversMerges(w.layouts, |w.layouts|, best)
    && CoversPairs(w.pairs, best)
  }

  function MoveOverlap<T>(m: Move<T>): nat {
    match m
    case Insert(_, _, _, overlap) => overlap
    case Merge(_, _, _, overlap) => overlap
    case NewSingleton(_) => 0
    case NewSequence(pair) => pair.overlap
  }

  // A move that is allowed, with its overlap.
  ghost predicate Candidate<T>(w: Work<T>, m: Option<Move<T>>, best: nat) {
    match m
    case None => best == 0
    case Some(move) => best > 0 && Allowed(w, move) && MoveOverlap(move) == best
  }

  method FindMove<T(==)>(pairs: seq<Pair<T>>, remaining: set<seq<T>>, sequences: seq<OverlappedSequences<T>>)
    returns (m: Option<Move<T>>, best: nat)
    requires PairsOk(pairs, remaining)
    ensures Candidate(Work(pairs, remaining, Snapshot(sequences)), m, best)
    ensures Greedy(Work(pairs, remaining, Snapshot(sequences)), best)
  {
    var data := DataOf(sequences);
    m, best := FindMoveIn(Work(pairs, remaining, Snapshot(sequences)), pairs, remaining, data);
  }

  method DataOf<T(==)>(sequences: seq<OverlappedSequences<T>>) returns (data: seq<seq<T>>)
    ensures |data| == |sequences| && forall i :: 0 <= i < |data| ==> data[i] == sequences[i].data
  {
    data := seq(|sequences|, i requires 0 <= i < |sequences| reads sequences => sequences[i].data);
  }

  method FindMoveIn<T(==)>(ghost w: Work<T>, pairs: seq<Pair<T>>, remaining: set<seq<T>>, data: seq<seq<T>>)
    returns (m: Option<Move<T>>, best: nat)
    requires IsData(w, data) && w.pairs == pairs && w.remaining == remaining && PairsOk(pairs, remaining)
    ensures Candidate(w, m, best) && Greedy(w, best)
  {
    m, best := TryAllInserts(w, remaining, data);
    ghost var best1 := best;
    m, best := TryMerges(w, data, m, best);
    ghost var best2 := best;
    m, best := TryPairs(w, pairs, m, best);
    StillCovered(w, best1, best2, best);
  }

  // The data of the partial sequences.
  ghost predicate IsData<T>(w: Work<T>, data: seq<seq<T>>) {
    |data| == |w.layouts| && forall i :: 0 <= i < |data| ==> data[i] == w.layouts[i].data
  }

  // Keep the better of a move and the best new sequence.
  method TryPairs<T(==)>(ghost w: Work<T>, pairs: seq<Pair<T>>, m0: Option<Move<T>>, best0: nat)
    returns (m: Option<Move<T>>, best: nat)
    requires w.pairs == pairs && PairsOk(pairs, w.remaining) && Candidate(w, m0, best0)
    ensures Candidate(w, m, best) && best >= best0 && CoversPairs(pairs, best)
  {
    m, best := m0, best0;
    if pairs != [] {
      var p := BestPair(pairs);
      if p.overlap > best {
        m, best := Some(NewSequence(p)), p.overlap;
      }
    }
  }

  lemma StillCovered<T>(w: Work<T>, best1: nat, best2: nat, best: nat)
    requires best1 <= best2 <= best
    requires CoversInserts(w.layouts, w.remaining, |w.layouts|, best1)
    requires CoversMerges(w.layouts, |w.layouts|, best2)
    ensures CoversInserts(w.layouts, w.remaining, |w.layouts|, best)
    ensures CoversMerges(w.layouts, |w.layouts|, best)
  {
  }

  method TryAllInserts<T(==)>(ghost w: Work<T>, remaining: set<seq<T>>, data: seq<seq<T>>)
    returns (m: Option<Move<T>>, best: nat)
    requires IsData(w, data) && w.remaining == remaining
    ensures Candidate(w, m, best) && CoversInserts(w.layouts, remaining, |data|, best)
  {
    m, best := None, 0;
    for n := 0 to |data|
      invariant Candidate(w, m, best) && CoversInserts(w.layouts, remaining, n, best)
    {
      ghost var before := best;
      m, best := TryChunks(w, remaining, data[n], n, m, best);
      CoversNext(w.layouts, remaining, n, before, best);
    }
  }

  lemma CoversNext<T>(layouts: seq<Layout<T>>, remaining: set<seq<T>>, n: nat, before: nat, best: nat)
    requires n < |layouts| && before <= best && CoversInserts(layouts, remaining, n, before)
    requires forall d :: d in remaining ==> ChunkCovered(layouts[n].data, d, best)
    ensures CoversInserts(layouts, remaining, n + 1, best)
  {
  }

  // Try every remaining chunk on one sequence.
  method TryChunks<T(==)>(ghost w: Work<T>, remaining: set<seq<T>>, data: seq<T>, n: nat, m0: Option<Move<T>>,
                          best0: nat)
    returns (m: Option<Move<T>>, best: nat)
    requires n < |w.layouts| && data == w.layouts[n].data && w.remaining == remaining && Candidate(w, m0, best0)
    ensures Candidate(w, m, best) && best >= best0
    ensures forall d :: d in remaining ==> ChunkCovered(data, d, best)
  {
    m, best := m0, best0;
    var todo := remaining;
    while todo != {}
      invariant todo <= remaining && best >= best0 && Candidate(w, m, best)
      invariant forall d :: d in remaining - todo ==> ChunkCovered(data, d, best)
    {
      var d :| d in todo;
      todo := todo - {d};
      ghost var before := best;
      m, best := TryChunk(w, data, d, n, m, best);
      forall c | c in remaining - todo
        ensures ChunkCovered(data, c, best)
      {
        assert c == d || ChunkCovered(data, c, before);
      }
    }
  }

  // Keep the better of a move and the two ways to insert a chunk.
  method TryChunk<T(==)>(ghost w: Work<T>, data: seq<T>, d: seq<T>, n: nat, m0: Option<Move<T>>, best0: nat)
    returns (m: Option<Move<T>>, best: nat)
    requires n < |w.layouts| && data == w.layouts[n].data && d in w.remaining && Candidate(w, m0, best0)
    ensures Candidate(w, m, best) && best >= best0 && ChunkCovered(data, d, best)
  {
    m, best := TryPrepend(w, data, d, n, m0, best0);
    m, best := TryInsert(w, data, d, n, m, best);
  }

  method TryPrepend<T(==)>(ghost w: Work<T>, data: seq<T>, d: seq<T>, n: nat, m0: Option<Move<T>>, best0: nat)
    returns (m: Option<Move<T>>, best: nat)
    requires n < |w.layouts| && data == w.layouts[n].data && d in w.remaining && Candidate(w, m0, best0)
    ensures Candidate(w, m, best) && best >= best0 && ComputeSimple(d, data) <= best
  {
    m, best := m0, best0;
    var overlap := ComputeSimple(d, data);
    if overlap > best {
      PrependFits(data, d);
      m, best := Some(Insert(d, n, overlap - |d|, overlap)), overlap;
    }
  }

  method TryInsert<T(==)>(ghost w: Work<T>, data: seq<T>, d: seq<T>, n: nat, m0: Option<Move<T>>, best0: nat)
    returns (m: Option<Move<T>>, best: nat)
    requires n < |w.layouts| && data == w.layouts[n].data && d in w.remaining && Candidate(w, m0, best0)
    ensures Candidate(w, m, best) && best >= best0 && MergeCovered(data, d, best)
  {
    m, best := m0, best0;
    var overlapMax := Compute(data, d);
    if overlapMax.overlap > best {
      ComputedFits(data, d);
      m, best := Some(Insert(d, n, overlapMax.offset, overlapMax.overlap)), overlapMax.overlap;
    }
  }

  method TryMerges<T(==)>(ghost w: Work<T>, data: seq<seq<T>>, m0: Option<Move<T>>, best0: nat)
    returns (m: Option<Move<T>>, best: nat)
    requires IsData(w, data) && Candidate(w, m0, best0)
    ensures Candidate(w, m, best) && best >= best0 && CoversMerges(w.layouts, |data|, best)
  {
    m, best := m0, best0;
    for n1 := 0 to |data|
      invariant Candidate(w, m, best) && best >= best0 && CoversMerges(w.layouts, n1, best)
    {
      ghost var before := best;
      m, best := TryMergesInto(w, data, n1, m, best);
      CoversNextMerge(w.layouts, n1, before, best);
    }
  }

  lemma CoversNextMerge<T>(layouts: seq<Layout<T>>, n: nat, before: nat, best: nat)
    requires n < |layouts| && before <= best && CoversMerges(layouts, n, before)
    requires forall j :: 0 <= j < |layouts| && j != n ==> MergeCovered(layouts[n].data, layouts[j].data, best)
    ensures CoversMerges(layouts, n + 1, best)
  {
  }

  // Try every other sequence on one sequence.
  method TryMergesInto<T(==)>(ghost w: Work<T>, data: seq<seq<T>>, n1: nat, m0: Option<Move<T>>, best0: nat)
    returns (m: Option<Move<T>>, best: nat)
    requires IsData(w, data) && n1 < |data| && Candidate(w, m0, best0)
    ensures Candidate(w, m, best) && best >= best0
    ensures forall j :: 0 <= j < |data| && j != n1 ==> MergeCovered(data[n1], data[j], best)
  {
    m, best := m0, best0;
    for n2 := 0 to |data|
      invariant Candidate(w, m, best) && best >= best0
      invariant forall j :: 0 <= j < n2 && j != n1 ==> MergeCovered(data[n1], data[j], best)
    {
      if n1 != n2 {
        m, best := TryMerge(w, data[n1], data[n2], n1, n2, m, best);
      }
    }
  }

  // Keep the better of a move and the merge of two sequences.
  method TryMerge<T(==)>(ghost w: Work<T>, data1: seq<T>, data2: seq<T>, n1: nat, n2: nat,
                         m0: Option<Move<T>>, best0: nat)
    returns (m: Option<Move<T>>, best: nat)
    requires n1 < |w.layouts| && n2 < |w.layouts| && n1 != n2
    requires w.layouts[n1].data == data1 && w.layouts[n2].data == data2
    requires Candidate(w, m0, best0)
    ensures Candidate(w, m, best) && best >= best0 && MergeCovered(data1, data2, best)
  {
    m, best := m0, best0;
    var overlapMax := Compute(data1, data2);
    if overlapMax.overlap > best {
      ComputedFits(data1, data2);
      m, best := Some(Merge(n1, n2, overlapMax.offset, overlapMax.overlap)), overlapMax.overlap;
    }
  }

  // The first pair with the largest overlap.
  method BestPair<T(==)>(pairs: seq<Pair<T>>) returns (p: Pair<T>)
    requires pairs != []
    ensures p in pairs && CoversPairs(pairs, p.overlap)
    ensures exists k :: 0 <= k < |pairs| && pairs[k] == p && forall i :: 0 <= i < k ==> pairs[i].overlap < p.overlap
  {
    p := pairs[0];
    ghost var at := 0;
    for k := 1 to |pairs|
      invariant 0 <= at < k && pairs[at] == p
      invariant forall i :: 0 <= i < k ==> pairs[i].overlap <= p.overlap
      invariant forall i :: 0 <= i < at ==> pairs[i].overlap < p.overlap
    {
      if pairs[k].overlap > p.overlap {
        p, at := pairs[k], k;
      }
    }
  }

  // All ordered pairs of distinct chunks that overlap.
  method ComputePairs<T(==)>(chunks: seq<seq<T>>) returns (pairs: seq<Pair<T>>)
    requires Distinct(chunks)
    ensures PairsOk(pairs, ToSet(chunks))
    ensures forall i, j :: 0 <= i < |chunks| && 0 <= j < |chunks| && i != j ==> PairListed(chunks, pairs, i, j)
  {
    pairs := [];
    for i := 0 to |chunks|
      invariant PairsOk(pairs, ToSet(chunks))
      invariant forall a, b :: 0 <= a < i && 0 <= b < |chunks| && a != b ==>
                  PairListed(chunks, pairs, a, b) && PairListed(chunks, pairs, b, a)
    {
      for j := i + 1 to |chunks|
        invariant PairsOk(pairs, ToSet(chunks))
        invariant forall a, b :: 0 <= a < i && 0 <= b < |chunks| && a != b ==>
                    PairListed(chunks, pairs, a, b) && PairListed(chunks, pairs, b, a)
        invariant forall b :: i < b < j ==> PairListed(chunks, pairs, i, b) && PairListed(chunks, pairs, b, i)
      {
        ghost var before := pairs;
        var overlap := ComputeSimple(chunks[i], chunks[j]);
        if overlap > 0 {
          pairs := pairs + [Pair(chunks[i], chunks[j], overlap)];
        }
        overlap := ComputeSimple(chunks[j], chunks[i]);
        if overlap > 0 {
          pairs := pairs + [Pair(chunks[j], chunks[i], overlap)];
        }
        forall a, b | 0 <= a < |chunks| && 0 <= b < |chunks| && PairListed(chunks, before, a, b)
          ensures PairListed(chunks, pairs, a, b)
        {
        }
      }
    }
  }

  ghost predicate PairListed<T>(chunks: seq<seq<T>>, pairs: seq<Pair<T>>, i: nat, j: nat)
    requires i < |chunks| && j < |chunks|
  {
    ComputeSimple(chunks[i], chunks[j]) > 0 ==>
      Pair(chunks[i], chunks[j], ComputeSimple(chunks[i], chunks[j])) in pairs
  }

  // ------------------------------------------------------------------------
  // What a greedy run saves

  // One step takes an allowed move that no other move exceeds in overlap.
  ghost predicate GreedyStep<T>(w: Work<T>, m: Move<T>, w': Work<T>) {
    Allowed(w, m) && Greedy(w, MoveOverlap(m)) && w' == Applied(w, m)
  }

  ghost predicate GreedyRun<T>(run: seq<Work<T>>, moves: seq<Move<T>>) {
    |run| == |moves| + 1 && forall k :: 0 <= k < |moves| ==> GreedyStep(run[k], moves[k], run[k + 1])
  }

  // At the start nothing is placed, and every overlapping pair is listed.
  ghost predicate IsStart<T>(chunks: seq<seq<T>>, w: Work<T>) {
    && w.remaining == ToSet(chunks) && w.layouts == [] && PairsOk(w.pairs, w.remaining)
    && forall i, j :: 0 <= i < |chunks| && 0 <= j < |chunks| && i != j ==> PairListed(chunks, w.pairs, i, j)
  }

  // At the end everything is placed, and sequences that are left over do not
  // overlap.
  ghost predicate IsEnd<T>(w: Work<T>) {
    w.remaining == {} && (|w.layouts| > 1 ==> CoversMerges(w.layouts, |w.layouts|, 0))
  }

  // A greedy run from the chunks to its end.
  ghost predicate GreedyFrom<T>(chunks: seq<seq<T>>, run: seq<Work<T>>, moves: seq<Move<T>>) {
    GreedyRun(run, moves) && IsStart(chunks, run[0]) && IsEnd(run[|moves|])
  }

  ghost function Saved<T>(moves: seq<Move<T>>): nat {
    if moves == [] then 0 else Saved(moves[..|moves| - 1]) + MoveOverlap(moves[|moves| - 1])
  }

  // The length of all chunks, and of those that remain.
  ghost function Total<T>(chunks: seq<seq<T>>): nat {
    if chunks == [] then 0 else |chunks[0]| + Total(chunks[1..])
  }

  ghost function Left<T>(chunks: seq<seq<T>>, remaining: set<seq<T>>): nat {
    if chunks == [] then 0
    else (if chunks[0] in remaining then |chunks[0]| else 0) + Left(chunks[1..], remaining)
  }

  // The sequences one after the other.
  ghost function Joined<T>(layouts: seq<Layout<T>>): seq<T> {
    if layouts == [] then [] else layouts[0].data + Joined(layouts[1..])
  }

  ghost function Length<T>(chunks: seq<seq<T>>, w: Work<T>): nat {
    Left(chunks, w.remaining) + |Joined(w.layouts)|
  }

  lemma {:induction false} LeftAll<T>(chunks: seq<seq<T>>, remaining: set<seq<T>>)
    requires forall c :: c in chunks ==> c in remaining
    ensures Left(chunks, remaining) == Total(chunks)
  {
    if chunks != [] {
      LeftAll(chunks[1..], remaining);
    }
  }

  lemma {:induction false} LeftNone<T>(chunks: seq<seq<T>>)
    ensures Left(chunks, {}) == 0
  {
    if chunks != [] {
      LeftNone(chunks[1..]);
    }
  }

  lemma {:induction false} LeftWithout<T>(chunks: seq<seq<T>>, remaining: set<seq<T>>, c: seq<T>)
    requires Distinct(chunks) && c in remaining
    ensures Left(chunks, remaining) == Left(chunks, remaining - {c}) + if c in chunks then |c| else 0
  {
    if chunks != [] {
      LeftWithout(chunks[1..], remaining, c);
      assert c in chunks <==> c == chunks[0] || c in chunks[1..];
    }
  }

  lemma {:induction false} JoinedAppended<T>(layouts: seq<Layout<T>>, l: Layout<T>)
    ensures Joined(layouts + [l]) == Joined(layouts) + l.data
  {
    if layouts == [] {
      assert [l][1..] == [];
    } else {
      JoinedAppended(layouts[1..], l);
      assert (layouts + [l])[1..] == layouts[1..] + [l];
    }
  }

  lemma {:induction false} JoinedUpdated<T>(layouts: seq<Layout<T>>, i: nat, l: Layout<T>)
    requires i < |layouts|
    ensures |Joined(layouts[i := l])| + |layouts[i].data| == |Joined(layouts)| + |l.data|
  {
    if i == 0 {
      assert layouts[0 := l][1..] == layouts[1..];
    } else {
      JoinedUpdated(layouts[1..], i - 1, l);
      assert layouts[i := l][1..] == layouts[1..][i - 1 := l];
    }
  }

  lemma {:induction false} JoinedRemoved<T>(layouts: seq<Layout<T>>, i: nat)
    requires i < |layouts|
    ensures |Joined(RemoveAt(layouts, i))| + |layouts[i].data| == |Joined(layouts)|
  {
    if i == 0 {
      assert RemoveAt(layouts, 0) == layouts[1..];
    } else {
      JoinedRemoved(layouts[1..], i - 1);
      assert RemoveAt(layouts, i) == [layouts[0]] + RemoveAt(layouts[1..], i - 1);
    }
  }

  // Concatenating the first two sequences.
  lemma JoinedFirstTwo<T>(layouts: seq<Layout<T>>, l: Layout<T>)
    requires |layouts| > 1 && l.data == layouts[0].data + layouts[1].data
    ensures Joined(RemoveAt(layouts[0 := l], 1)) == Joined(layouts)
  {
    var rest := RemoveAt(layouts[0 := l], 1);
    assert rest[1..] == layouts[1..][1..];
    assert Joined(layouts[1..]) == layouts[1].data + Joined(layouts[1..][1..]);
  }

  lemma ConcatenatedJoined<T>(layouts: seq<Layout<T>>)
    requires |layouts| > 1
    ensures OverlapsAt(layouts[0].data, |layouts[0].data|, 0, layouts[1].data)
    ensures var merged := MergeAt(layouts[0], |layouts[0].data|, 0, layouts[1]);
            Joined(RemoveAt(layouts[0 := merged], 1)) == Joined(layouts)
  {
    AppendFits(layouts[0].data, layouts[1].data);
    JoinedFirstTwo(layouts, MergeAt(layouts[0], |layouts[0].data|, 0, layouts[1]));
  }

  // Every move makes chunks and sequences together shorter by its overlap.
  lemma MoveSaves<T>(chunks: seq<seq<T>>, w: Work<T>, m: Move<T>)
    requires Distinct(chunks) && w.remaining <= ToSet(chunks) && Allowed(w, m)
    ensures Length(chunks, Applied(w, m)) + MoveOverlap(m) == Length(chunks, w)
  {
    match m
    case Insert(chunk, index, offset, overlap) =>
      LeftWithout(chunks, w.remaining, chunk);
      PlacedLength(w.layouts[index].data, offset, overlap, chunk);
      JoinedUpdated(w.layouts, index, InsertAt(w.layouts[index], offset, overlap, chunk));
    case Merge(index1, index2, offset, overlap) => MergeSaves(w.layouts, index1, index2, offset, overlap);
    case NewSingleton(chunk) =>
      LeftWithout(chunks, w.remaining, chunk);
      JoinedAppended(w.layouts, FromSingleton(chunk));
    case NewSequence(pair) =>
      LeftWithout(chunks, w.remaining, pair.d1);
      LeftWithout(chunks, w.remaining - {pair.d1}, pair.d2);
      JoinedAppended(w.layouts, FromPair(pair));
  }

  lemma MergeSaves<T>(layouts: seq<Layout<T>>, index1: nat, index2: nat, offset: int, overlap: nat)
    requires index1 < |layouts| && index2 < |layouts| && index1 != index2
    requires OverlapsAt(layouts[index1].data, offset, overlap, layouts[index2].data)
    ensures var merged := MergeAt(layouts[index1], offset, overlap, layouts[index2]);
            |Joined(RemoveAt(layouts[index1 := merged], index2))| + overlap == |Joined(layouts)|
  {
    var merged := MergeAt(layouts[index1], offset, overlap, layouts[index2]);
    PlacedLength(layouts[index1].data, offset, overlap, layouts[index2].data);
    JoinedUpdated(layouts, index1, merged);
    JoinedRemoved(layouts[index1 := merged], index2);
  }

  lemma {:induction false} RunSaves<T>(chunks: seq<seq<T>>, run: seq<Work<T>>, moves: seq<Move<T>>)
    requires Distinct(chunks) && GreedyRun(run, moves) && run[0].remaining <= ToSet(chunks)
    ensures Length(chunks, run[|moves|]) + Saved(moves) == Length(chunks, run[0])
    ensures run[|moves|].remaining <= run[0].remaining
  {
    if moves != [] {
      var k := |moves| - 1;
      assert GreedyRun(run[..k + 1], moves[..k]);
      RunSaves(chunks, run[..k + 1], moves[..k]);
      assert GreedyStep(run[k], moves[k], run[k + 1]);
      MoveSaves(chunks, run[k], moves[k]);
    }
  }

  lemma {:induction false} SavedFirst<T>(moves: seq<Move<T>>)
    requires moves != []
    ensures MoveOverlap(moves[0]) <= Saved(moves)
  {
    if |moves| > 1 {
      SavedFirst(moves[..|moves| - 1]);
    }
  }

  // The result of a greedy run is shorter than all chunks together by the
  // overlaps of its moves, and so at least by that of any two chunks.
  lemma GreedySaves<T>(chunks: seq<seq<T>>, run: seq<Work<T>>, moves: seq<Move<T>>)
    requires Distinct(chunks) && GreedyFrom(chunks, run, moves)
    ensures |Joined(run[|moves|].layouts)| + Saved(moves) == Total(chunks)
    ensures forall i, j :: 0 <= i < |chunks| && 0 <= j < |chunks| && i != j ==>
              ComputeSimple(chunks[i], chunks[j]) <= Saved(moves)
  {
    RunSaves(chunks, run, moves);
    LeftAll(chunks, run[0].remaining);
    LeftNone(chunks);
    forall i, j | 0 <= i < |chunks| && 0 <= j < |chunks| && i != j
      ensures ComputeSimple(chunks[i], chunks[j]) <= Saved(moves)
    {
      FirstMoveSaves(chunks, run, moves, i, j);
    }
  }

  lemma FirstMoveSaves<T>(chunks: seq<seq<T>>, run: seq<Work<T>>, moves: seq<Move<T>>, i: nat, j: nat)
    requires GreedyFrom(chunks, run, moves) && i < |chunks| && j < |chunks| && i != j
    ensures ComputeSimple(chunks[i], chunks[j]) <= Saved(moves)
  {
    assert chunks[i] in run[0].remaining;
    assert GreedyStep(run[0], moves[0], run[1]);
    assert PairListed(chunks, run[0].pairs, i, j);
    SavedFirst(moves);
  }

  lemma RunExtended<T>(run: seq<Work<T>>, moves: seq<Move<T>>, m: Move<T>, w: Work<T>)
    requires GreedyRun(run, moves) && GreedyStep(run[|moves|], m, w)
    ensures GreedyRun(run + [w], moves + [m])
  {
    var run', moves' := run + [w], moves + [m];
    forall k | 0 <= k < |moves'|
      ensures GreedyStep(run'[k], moves'[k], run'[k + 1])
    {
      assert k < |moves| ==> GreedyStep(run[k], moves[k], run[k + 1]);
    }
  }

  // ------------------------------------------------------------------------
  // The greedy loop

  lemma SomethingPlaced<T>(all: set<seq<T>>, w: Work<T>)
    requires Consistent(all, w) && all != {} && w.remaining == {}
    ensures |w.layouts| >= 1
  {
    var c :| c in all;
    assert c in Keys(w.layouts);
  }

  // When a single sequence is left, it records every chunk.
  lemma SingleRecordsAll<T>(all: set<seq<T>>, w: Work<T>)
    requires Consistent(all, w) && w.remaining == {} && |w.layouts| == 1
    ensures Sound(w.layouts[0]) && w.layouts[0].offsets.Keys == all
  {
    forall c
      ensures c in w.layouts[0].offsets <==> c in all
    {
      if c in w.layouts[0].offsets {
        assert c in Keys(w.layouts);
      }
      if c in all {
        assert c in Keys(w.layouts);
      }
    }
  }

  // A consistent state that a greedy run from the chunks has reached.
  ghost predicate Reached<T>(chunks: seq<seq<T>>, w: Work<T>, run: seq<Work<T>>, moves: seq<Move<T>>) {
    && Consistent(ToSet(chunks), w)
    && GreedyRun(run, moves) && IsStart(chunks, run[0]) && run[|moves|] == w
  }

  lemma StartReached<T>(chunks: seq<seq<T>>, w: Work<T>)
    requires IsStart(chunks, w)
    ensures Reached(chunks, w, [w], [])
  {
  }

  lemma StepReaches<T>(chunks: seq<seq<T>>, w: Work<T>, m: Move<T>, run: seq<Work<T>>, moves: seq<Move<T>>)
    requires Reached(chunks, w, run, moves) && Allowed(w, m) && Greedy(w, MoveOverlap(m))
    ensures Reached(chunks, Applied(w, m), run + [Applied(w, m)], moves + [m])
    ensures Measure(Applied(w, m)) < Measure(w)
  {
    MoveKeeps(ToSet(chunks), w, m);
    RunExtended(run, moves, m, Applied(w, m));
  }

  // The best move; if nothing overlaps, a chunk starts a new sequence.
  method NextMove<T(==)>(pairs: seq<Pair<T>>, remaining: set<seq<T>>, sequences: seq<OverlappedSequences<T>>)
    returns (m: Option<Move<T>>)
    requires PairsOk(pairs, remaining)
    ensures var w := Work(pairs, remaining, Snapshot(sequences));
            match m
            case None => remaining == {} && Greedy(w, 0)
            case Some(move) => Allowed(w, move) && Greedy(w, MoveOverlap(move))
  {
    var best;
    m, best := FindMove(pairs, remaining, sequences);
    if m.None? && remaining != {} {
      var c :| c in remaining;
      m := Some(NewSingleton(c));
    }
  }

  // Place all chunks.  The choice among equals, and of the chunk that starts a
  // new sequence when nothing overlaps, does not matter.
  method PlaceAll<T(==)>(chunks: seq<seq<T>>)
    returns (pairs: seq<Pair<T>>, remaining: set<seq<T>>, sequences: seq<OverlappedSequences<T>>,
             ghost run: seq<Work<T>>, ghost moves: seq<Move<T>>)
    requires Distinct(chunks)
    ensures Distinct(sequences) && forall i :: 0 <= i < |sequences| ==> fresh(sequences[i])
    ensures Consistent(ToSet(chunks), Work(pairs, remaining, Snapshot(sequences)))
    ensures GreedyFrom(chunks, run, moves) && run[|moves|] == Work(pairs, remaining, Snapshot(sequences))
  {
    pairs := ComputePairs(chunks);
    remaining := ToSet(chunks);
    sequences := [];
    var m: Option<Move<T>> := None;
    ghost var w := Work(pairs, remaining, []);
    run, moves := [w], [];
    StartReached(chunks, w);
    while remaining != {} || (|sequences| > 1 && m.Some?)
      invariant Distinct(sequences) && forall i :: 0 <= i < |sequences| ==> fresh(sequences[i])
      invariant w == Work(pairs, remaining, Snapshot(sequences)) && Reached(chunks, w, run, moves)
      invariant m.None? ==> CoversMerges(w.layouts, |w.layouts|, 0)
      decreases Measure(w), m.Some?
    {
      m := NextMove(pairs, remaining, sequences);
      if m.Some? {
        StepReaches(chunks, w, m.value, run, moves);
        w := Applied(w, m.value);
        pairs, remaining, sequences := Apply(m.value, pairs, remaining, sequences);
        run, moves := run + [w], moves + [m.value];
      }
    }
  }

  // The compressor: one sequence in which every chunk occurs at its offset.  A
  // greedy run makes the sequences that are joined, and each of its moves saves
  // its overlap; so the largest overlap of two chunks is saved at least.
  method Compress<T(==)>(chunks: seq<seq<T>>)
    returns (s: OverlappedSequences<T>, ghost run: seq<Work<T>>, ghost moves: seq<Move<T>>)
    requires chunks != [] && Distinct(chunks)
    ensures fresh(s)
    ensures Sound(s.Value())
    ensures s.offsets.Keys == ToSet(chunks)
    ensures GreedyFrom(chunks, run, moves) && s.data == Joined(run[|moves|].layouts)
    ensures |s.data| + Saved(moves) == Total(chunks)
    ensures forall i, j :: 0 <= i < |chunks| && 0 <= j < |chunks| && i != j ==>
              |s.data| + ComputeSimple(chunks[i], chunks[j]) <= Total(chunks)
  {
    ghost var all := ToSet(chunks);
    assert chunks[0] in all;
    var pairs, remaining, sequences;
    pairs, remaining, sequences, run, moves := PlaceAll(chunks);
    GreedySaves(chunks, run, moves);
    SomethingPlaced(all, Work(pairs, remaining, Snapshot(sequences)));
    assert |sequences| >= 1;
    assert remaining == {};
    if |sequences| > 1 {
      for n1 := 0 to |sequences| {
        for n2 := 0 to |sequences| {
          assert n1 != n2 ==> Compute(sequences[n1].data, sequences[n2].data).overlap == 0;
        }
      }
    }
    while |sequences| > 1
      invariant |sequences| >= 1 && remaining == {}
      invariant Distinct(sequences) && forall i :: 0 <= i < |sequences| ==> fresh(sequences[i])
      invariant Consistent(all, Work(pairs, remaining, Snapshot(sequences)))
      invariant Joined(Snapshot(sequences)) == Joined(run[|moves|].layouts)
      decreases |sequences|
    {
      var move := Merge(0, 1, |sequences[0].data|, 0);
      ConcatenatedJoined(Snapshot(sequences));
      MoveKeeps(all, Work(pairs, remaining, Snapshot(sequences)), move);
      pairs, remaining, sequences := Apply(move, pairs, remaining, sequences);
    }
    SingleRecordsAll(all, Work(pairs, remaining, Snapshot(sequences)));
    s := sequences[0];
    assert Snapshot(sequences)[1..] == [];
  }
}
