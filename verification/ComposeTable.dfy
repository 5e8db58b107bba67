// The compose table: adding sequences, with later ones overriding earlier ones
// that are equal to them, prefixes of them or extensions of them.
module ComposeTable {
  import opened Basics
  import opened ComposeOrder
  import opened ComposeTrie
  import opened StringPool

  const NO_SYMBOL: nat := 0
  const MAX_NODES: nat := 0x80_0000
  const DUMMY: Node := Node(0, 0, 0, true, 0, 0)

  datatype Table = Table(nodes: seq<Node>, pool: string)

  // The result of a sequence: a string, a keysym, or both.
  datatype Result = Result(text: Option<string>, keysym: nat)

  datatype Production = Production(lhs: seq<nat>, keysym: Option<nat>, text: Option<string>)

  function ResultOf(p: Production): Result {
    Result(p.text, if p.keysym.Some? then p.keysym.value else NO_SYMBOL)
  }

  ghost predicate ProductionOk(p: Production) {
    p.lhs != [] && (p.text.Some? ==> NoNul(p.text.value))
  }

  // ------------------------------------------------------------------------
  // The table as a map

  function Root(ns: seq<Node>): nat {
    if |ns| <= 1 then 0 else 1
  }

  predicate HasText(ns: seq<Node>, j: nat)
    requires j < |ns|
  {
    ns[j].isLeaf && ns[j].utf8 != 0
  }

  // Every result string has its own place in the pool.
  ghost predicate PoolOk(t: Table) {
    && t.pool != [] && t.pool[0] == NUL && t.pool[|t.pool| - 1] == NUL
    && (forall j :: 0 <= j < |t.nodes| && HasText(t.nodes, j) ==> t.nodes[j].utf8 < |t.pool|)
    && (forall i, j :: 0 <= i < j < |t.nodes| && HasText(t.nodes, i) && HasText(t.nodes, j) ==>
          Separate(t.pool, t.nodes[i].utf8, t.nodes[j].utf8))
  }

  ghost predicate TableOk(t: Table) {
    && Ordered(t.nodes) && t.nodes[0] == DUMMY
    && IsTree(t.nodes, Root(t.nodes)) && Sorted(t.nodes, Root(t.nodes))
    && PoolOk(t)
  }

  function ResultAt(t: Table, j: nat): Result
    requires j < |t.nodes|
  {
    Result(if t.nodes[j].utf8 == 0 then None else Some(StringAt(t.pool, t.nodes[j].utf8)), t.nodes[j].payload)
  }

  // The result of a sequence.
  ghost function Lookup(t: Table, s: seq<nat>): Option<Result>
    requires TableOk(t)
  {
    var r := Reach(t.nodes, Root(t.nodes), s);
    if r != 0 && t.nodes[r].isLeaf then Some(ResultAt(t, r)) else None
  }

  // The map after a sequence is added.
  ghost function Overridden(before: Option<Result>, s: seq<nat>, lhs: seq<nat>, result: Result): Option<Result> {
    if s == lhs then Some(result)
    else if Comparable(s, lhs) then None
    else before
  }

  // ------------------------------------------------------------------------
  // Storing the result of a sequence

  // The pool and the offset of the string in it: an old string that is long
  // enough is overwritten, otherwise the string is appended.
  function StoreText(pool: string, old': Node, text: Option<string>): (r: (string, nat))
    requires pool != []
    requires old'.isLeaf && old'.utf8 != 0 ==> old'.utf8 + |StringAt(pool, old'.utf8)| < |pool|
  {
    match text
    case None => (pool, 0)
    case Some(s) =>
      if old'.isLeaf && old'.utf8 != 0 && |s| <= |StringAt(pool, old'.utf8)|
      then (Overwrite(pool, old'.utf8, s), old'.utf8)
      else (pool + s + [NUL], |pool|)
  }

  // The string of a leaf is terminated within the pool.
  lemma TextInPool(t: Table, j: nat)
    requires PoolOk(t) && j < |t.nodes| && HasText(t.nodes, j)
    ensures t.nodes[j].utf8 + |StringAt(t.pool, t.nodes[j].utf8)| < |t.pool|
  {
    StringIsStored(t.pool, t.nodes[j].utf8);
  }

  // Storing keeps all other strings, and the new one is found at its offset.
  lemma StoreKeepsText(t: Table, m: nat, text: Option<string>, j: nat)
    requires PoolOk(t) && m < |t.nodes| && j < |t.nodes| && j != m && HasText(t.nodes, j)
    requires HasText(t.nodes, m) ==> t.nodes[m].utf8 + |StringAt(t.pool, t.nodes[m].utf8)| < |t.pool|
    ensures var (pool', offset) := StoreText(t.pool, t.nodes[m], text);
            StringAt(pool', t.nodes[j].utf8) == StringAt(t.pool, t.nodes[j].utf8)
  {
    if text.Some? {
      var s, old' := text.value, t.nodes[m];
      if HasText(t.nodes, m) && |s| <= |StringAt(t.pool, old'.utf8)| {
        OverwriteKeepsString(t.pool, old'.utf8, s, t.nodes[j].utf8);
      } else {
        AppendKeepsString(t.pool, s, t.nodes[j].utf8);
      }
    }
  }

  lemma StoreFindsText(t: Table, m: nat, text: Option<string>)
    requires PoolOk(t) && m < |t.nodes| && (text.Some? ==> NoNul(text.value))
    requires HasText(t.nodes, m) ==> t.nodes[m].utf8 + |StringAt(t.pool, t.nodes[m].utf8)| < |t.pool|
    ensures var (pool', offset) := StoreText(t.pool, t.nodes[m], text);
            && pool' != [] && pool'[0] == NUL && pool'[|pool'| - 1] == NUL && |t.pool| <= |pool'| && offset < |pool'|
            && (text.Some? <==> offset != 0)
            && (text.Some? ==> StringAt(pool', offset) == text.value)
  {
    if text.Some? {
      var s, old' := text.value, t.nodes[m];
      if HasText(t.nodes, m) && |s| <= |StringAt(t.pool, old'.utf8)| {
        OverwriteStores(t.pool, old'.utf8, s);
        OverwriteKeepsEnd(t.pool, old'.utf8, s);
      } else {
        AppendStores(t.pool, s);
      }
    }
  }

  lemma StoreKeepsPool(t: Table, m: nat, text: Option<string>, keysym: nat)
    requires PoolOk(t) && m < |t.nodes| && (text.Some? ==> NoNul(text.value))
    requires HasText(t.nodes, m) ==> t.nodes[m].utf8 + |StringAt(t.pool, t.nodes[m].utf8)| < |t.pool|
    ensures var (pool', offset) := StoreText(t.pool, t.nodes[m], text);
            PoolOk(Table(LeafAt(t.nodes, m, offset, keysym), pool'))
  {
    var (pool', offset) := StoreText(t.pool, t.nodes[m], text);
    var t' := Table(LeafAt(t.nodes, m, offset, keysym), pool');
    StoreFindsText(t, m, text);
    forall i, j | 0 <= i < j < |t'.nodes| && HasText(t'.nodes, i) && HasText(t'.nodes, j)
      ensures Separate(pool', t'.nodes[i].utf8, t'.nodes[j].utf8)
    {
      if i == m {
        StoredSeparate(t, m, text, j);
      } else if j == m {
        StoredSeparate(t, m, text, i);
      } else {
        StoreKeepsText(t, m, text, i);
        StoreKeepsText(t, m, text, j);
      }
    }
  }

  lemma StoredSeparate(t: Table, m: nat, text: Option<string>, j: nat)
    requires PoolOk(t) && m < |t.nodes| && j < |t.nodes| && j != m && HasText(t.nodes, j)
    requires text.Some? && NoNul(text.value)
    requires HasText(t.nodes, m) ==> t.nodes[m].utf8 + |StringAt(t.pool, t.nodes[m].utf8)| < |t.pool|
    ensures var (pool', offset) := StoreText(t.pool, t.nodes[m], text);
            Separate(pool', offset, t.nodes[j].utf8) && Separate(pool', t.nodes[j].utf8, offset)
  {
    StoreKeepsText(t, m, text, j);
    StoreFindsText(t, m, text);
    TextInPool(t, j);
  }

  // ------------------------------------------------------------------------
  // Adding a sequence

  lemma PathKeepsPool(t: Table, ns1: seq<Node>)
    requires PoolOk(t) && LeavesKept(t.nodes, ns1)
    ensures PoolOk(Table(ns1, t.pool))
  {
    forall j | 0 <= j < |ns1| && HasText(ns1, j)
      ensures j < |t.nodes| && HasText(t.nodes, j) && ns1[j].utf8 == t.nodes[j].utf8
    {
    }
  }

  // The table after a production was added.
  ghost function Extended(t: Table, p: Production): Table
    requires TableOk(t) && ProductionOk(p)
  {
    AddPathKeepsLeaves(t.nodes, Root(t.nodes), Start, p.lhs);
    var (ns1, m) := AddPath(t.nodes, Root(t.nodes), Start, p.lhs);
    PathKeepsPool(t, ns1);
    StoredInPath(Table(ns1, t.pool), m);
    var (pool', offset) := StoreText(t.pool, ns1[m], p.text);
    Table(LeafAt(ns1, m, offset, ResultOf(p).keysym), pool')
  }

  lemma StoredInPath(t: Table, m: nat)
    requires PoolOk(t) && m < |t.nodes|
    ensures HasText(t.nodes, m) ==> t.nodes[m].utf8 + |StringAt(t.pool, t.nodes[m].utf8)| < |t.pool|
  {
    if HasText(t.nodes, m) {
      TextInPool(t, m);
    }
  }

  lemma ExtendedOk(t: Table, p: Production)
    requires TableOk(t) && ProductionOk(p)
    ensures TableOk(Extended(t, p))
  {
    AddPathKeepsLeaves(t.nodes, Root(t.nodes), Start, p.lhs);
    var (ns1, m) := AddPath(t.nodes, Root(t.nodes), Start, p.lhs);
    PathKeepsPool(t, ns1);
    StoredInPath(Table(ns1, t.pool), m);
    var offset := StoreText(t.pool, ns1[m], p.text).1;
    AddIsLocal(t.nodes, Root(t.nodes), Start, p.lhs, offset, ResultOf(p).keysym);
    AddSorted(t.nodes, Root(t.nodes), Start, p.lhs, offset, ResultOf(p).keysym);
    StoreKeepsPool(Table(ns1, t.pool), m, p.text, ResultOf(p).keysym);
  }

  // Adding a sequence overrides exactly the sequences that are equal to it,
  // prefixes of it or extensions of it.
  lemma ExtendedLookup(t: Table, p: Production, s: seq<nat>)
    requires TableOk(t) && ProductionOk(p)
    ensures TableOk(Extended(t, p))
    ensures Lookup(Extended(t, p), s) == Overridden(Lookup(t, s), s, p.lhs, ResultOf(p))
  {
    ExtendedOk(t, p);
    if s != [] {
      AddPathKeepsLeaves(t.nodes, Root(t.nodes), Start, p.lhs);
      var (ns1, m) := AddPath(t.nodes, Root(t.nodes), Start, p.lhs);
      var t1, t' := Table(ns1, t.pool), Extended(t, p);
      PathKeepsPool(t, ns1);
      StoredInPath(t1, m);
      var offset := StoreText(t.pool, ns1[m], p.text).1;
      StoreFindsText(t1, m, p.text);
      AddReach(t.nodes, Root(t.nodes), Start, p.lhs, offset, ResultOf(p).keysym, s);
      var r := Reach(t.nodes, Root(t.nodes), s);
      if !Comparable(s, p.lhs) && r != 0 && HasText(t.nodes, r) {
        StoreKeepsText(t1, m, p.text, r);
      }
    }
  }

  // The tests for a repeated line.
  predicate SameText(pool: string, node: Node, text: Option<string>) {
    (node.utf8 == 0 && text.None?) || (node.utf8 != 0 && text.Some? && StringAt(pool, node.utf8) == text.value)
  }

  predicate SameKeysym(node: Node, keysym: Option<nat>) {
    (node.payload == NO_SYMBOL && keysym.None?) || (node.payload != NO_SYMBOL && keysym == Some(node.payload))
  }

  // Skipping a repeated line is the same as storing its result again.
  lemma DuplicateIsStored(t: Table, m: nat, p: Production)
    requires PoolOk(t) && m < |t.nodes| && t.nodes[m].isLeaf
    requires SameText(t.pool, t.nodes[m], p.text) && SameKeysym(t.nodes[m], p.keysym)
    requires HasText(t.nodes, m) ==> t.nodes[m].utf8 + |StringAt(t.pool, t.nodes[m].utf8)| < |t.pool|
    ensures var (pool', offset) := StoreText(t.pool, t.nodes[m], p.text);
            t == Table(LeafAt(t.nodes, m, offset, ResultOf(p).keysym), pool')
  {
    if p.text.Some? {
      OverwriteSame(t.pool, t.nodes[m].utf8);
    }
  }

  // ------------------------------------------------------------------------
  // Whole files

  function EmptyTable(): Table {
    Table([DUMMY], [NUL])
  }

  // A production that might not fit is ignored.
  predicate Fits(t: Table, p: Production) {
    |t.nodes| + |p.lhs| < MAX_NODES
  }

  ghost function Step(t: Table, p: Production): Table
    requires TableOk(t) && ProductionOk(p)
  {
    if Fits(t, p) then Extended(t, p) else t
  }

  ghost predicate ProductionsOk(ps: seq<Production>) {
    forall i :: 0 <= i < |ps| ==> ProductionOk(ps[i])
  }

  // The table after all productions of a file.
  ghost function Run(ps: seq<Production>): (t: Table)
    requires ProductionsOk(ps)
    ensures TableOk(t)
  {
    if ps == [] then EmptyTable()
    else
      var before, p := Run(ps[..|ps| - 1]), ps[|ps| - 1];
      ExtendedOk(before, p);
      Step(before, p)
  }

  // The productions that are not ignored.
  ghost function Kept(ps: seq<Production>): (r: seq<Production>)
    requires ProductionsOk(ps)
    ensures ProductionsOk(r)
  {
    if ps == [] then []
    else
      var rest, p := ps[..|ps| - 1], ps[|ps| - 1];
      if Fits(Run(rest), p) then Kept(rest) + [p] else Kept(rest)
  }

  // A production has the last word on a sequence.
  ghost predicate Decides(ps: seq<Production>, i: nat, s: seq<nat>) {
    i < |ps| && ps[i].lhs == s && forall j :: i < j < |ps| ==> !Comparable(s, ps[j].lhs)
  }

  // A lookup that gives this text and keysym.
  predicate Gives(r: Option<Result>, text: Option<string>, keysym: Option<nat>) {
    r.Some? && r.value.text == text && (if keysym.Some? then r.value.keysym == keysym.value else r.value.keysym == 0)
  }

  // A sequence has a result exactly when it was added and no later sequence is
  // equal to it, a prefix of it or an extension of it; the result is its own.
  lemma {:induction false} RunLookup(ps: seq<Production>, s: seq<nat>)
    requires ProductionsOk(ps)
    ensures forall i: nat :: Decides(Kept(ps), i, s) ==>
              Gives(Lookup(Run(ps), s), Kept(ps)[i].text, Kept(ps)[i].keysym)
    ensures (forall i: nat :: !Decides(Kept(ps), i, s)) ==> Lookup(Run(ps), s) == None
  {
    if ps != [] {
      var rest, p := ps[..|ps| - 1], ps[|ps| - 1];
      RunLookup(rest, s);
      if Fits(Run(rest), p) {
        ExtendedLookup(Run(rest), p, s);
        DecidesStep(Kept(rest), p, s);
        assert Kept(ps) == Kept(rest) + [p];
        assert !Comparable(s, p.lhs) ==> forall i: nat :: Decides(Kept(ps), i, s) <==> Decides(Kept(rest), i, s);
      } else {
        assert Kept(ps) == Kept(rest) && Run(ps) == Run(rest);
      }
    }
  }

  lemma DecidesStep(ps: seq<Production>, p: Production, s: seq<nat>)
    ensures s == p.lhs ==> Decides(ps + [p], |ps|, s)
    ensures forall i: nat :: Decides(ps + [p], i, s) <==>
              if i == |ps| then s == p.lhs else Decides(ps, i, s) && !Comparable(s, p.lhs)
  {
    forall i: nat
      ensures Decides(ps + [p], i, s) <==>
              if i == |ps| then s == p.lhs else Decides(ps, i, s) && !Comparable(s, p.lhs)
    {
      var all := ps + [p];
      if i < |ps| {
        assert all[i] == ps[i];
        if Decides(all, i, s) {
          assert !Comparable(s, all[|ps|].lhs);
          forall j | i < j < |ps|
            ensures !Comparable(s, ps[j].lhs)
          {
            assert !Comparable(s, all[j].lhs);
          }
        }
      }
    }
  }

  ghost function Symbols(ps: seq<Production>): nat {
    if ps == [] then 0 else Symbols(ps[..|ps| - 1]) + |ps[|ps| - 1].lhs|
  }

  lemma StepSize(t: Table, p: Production)
    requires TableOk(t) && ProductionOk(p)
    ensures |Step(t, p).nodes| <= |t.nodes| + |p.lhs|
  {
    AddPathKeepsLeaves(t.nodes, Root(t.nodes), Start, p.lhs);
  }

  // Nothing is ignored from a file with few enough symbols, and no file makes
  // the table reach its limit.
  lemma {:induction false} SmallFileKept(ps: seq<Production>)
    requires ProductionsOk(ps)
    ensures |Run(ps).nodes| <= 1 + Symbols(ps) && |Run(ps).nodes| < MAX_NODES
    ensures 1 + Symbols(ps) < MAX_NODES ==> Kept(ps) == ps
  {
    if ps != [] {
      var rest, p := ps[..|ps| - 1], ps[|ps| - 1];
      SmallFileKept(rest);
      var t := Run(rest);
      StepSize(t, p);
      assert ps == rest + [p];
    }
  }

  // ------------------------------------------------------------------------
  // Every run: no sequence with a result is a prefix of another

  lemma PrefixFree(t: Table, s: seq<nat>, u: seq<nat>)
    requires TableOk(t) && u != [] && Lookup(t, s).Some?
    ensures Lookup(t, s + u) == None
  {
    ReachAppend(t.nodes, Root(t.nodes), s, u);
  }

  // A proper extension of the sequence has a result.
  ghost predicate Extends(t: Table, s: seq<nat>, u: seq<nat>)
    requires TableOk(t)
  {
    u != [] && Lookup(t, s + u).Some?
  }

  ghost predicate Open(t: Table, s: seq<nat>)
    requires TableOk(t)
  {
    exists u :: Extends(t, s, u)
  }

  // The inner nodes are the proper prefixes of the sequences with a result.
  lemma InnerIsOpen(t: Table, s: seq<nat>)
    requires TableOk(t) && s != []
    ensures var r := Reach(t.nodes, Root(t.nodes), s);
            Open(t, s) <==> r != 0 && !t.nodes[r].isLeaf
  {
    var r := Reach(t.nodes, Root(t.nodes), s);
    if r != 0 && !t.nodes[r].isLeaf {
      ReachedInTree(t.nodes, Root(t.nodes), s);
      assert NodeOrdered(t.nodes, r) && Continues(t.nodes[r]);
      var u := LeafBelow(t.nodes, t.nodes[r].payload);
      ReachAppend(t.nodes, Root(t.nodes), s, u);
      assert Extends(t, s, u);
    }
    if Open(t, s) {
      var u :| Extends(t, s, u);
      ReachAppend(t.nodes, Root(t.nodes), s, u);
    }
  }

  // ------------------------------------------------------------------------
  // The table, updated in place

  class Compose {
    var nodes: seq<Node>
    var utf8: string

    ghost function Value(): Table
      reads this
    {
      Table(nodes, utf8)
    }

    ghost predicate Valid()
      reads this
    {
      TableOk(Value())
    }

    constructor ()
      ensures Valid() && Value() == EmptyTable()
    {
      nodes := [DUMMY];
      utf8 := [NUL];
    }

    // Walk down to the node of a sequence, creating nodes as needed.
    method Descend(lhs: seq<nat>) returns (m: nat)
      requires Valid() && lhs != []
      modifies `nodes
      ensures (nodes, m) == old(AddPath(nodes, Root(nodes), Start, lhs))
    {
      var pos: nat, curr: nat, slot := 0, Root(nodes), Start;
      assert lhs[0..] == lhs;
      while true
        invariant pos < |lhs| && Ordered(nodes) && curr < |nodes| && SlotOk(nodes, slot)
        invariant AddPath(nodes, curr, slot, lhs[pos..]) == old(AddPath(nodes, Root(nodes), Start, lhs))
        decreases |lhs| - pos, Rank(nodes, curr)
      {
        var keysym, last := lhs[pos], pos + 1 == |lhs|;
        assert lhs[pos..][1..] == lhs[pos + 1..];
        if curr == 0 {
          CreateOrdered(nodes, slot, keysym);
          curr := |nodes|;
          nodes := Write(nodes, slot, curr) + [NewNode(keysym)];
          if last {
            return curr;
          }
          pos, slot, curr := pos + 1, Eq(curr), 0;
        } else {
          assert NodeOrdered(nodes, curr);
          if keysym < nodes[curr].keysym {
            slot, curr := Lo(curr), nodes[curr].lokid;
          } else if keysym > nodes[curr].keysym {
            slot, curr := Hi(curr), nodes[curr].hikid;
          } else if !last {
            OpenOrdered(nodes, curr);
            nodes := nodes[curr := Opened(nodes[curr])];
            pos, slot, curr := pos + 1, Eq(curr), nodes[curr].payload;
          } else {
            return curr;
          }
        }
      }
    }

    method AddProduction(p: Production)
      requires Valid() && ProductionOk(p)
      modifies this
      ensures Valid() && Value() == Step(old(Value()), p)
    {
      if |nodes| + |p.lhs| >= MAX_NODES {
        return;
      }
      ghost var before := Value();
      ExtendedOk(before, p);
      AddPathKeepsLeaves(nodes, Root(nodes), Start, p.lhs);
      var m := Descend(p.lhs);
      PathKeepsPool(before, nodes);
      StoredInPath(Value(), m);
      var node, keysym := nodes[m], if p.keysym.Some? then p.keysym.value else NO_SYMBOL;
      if node.isLeaf && SameText(utf8, node, p.text) && SameKeysym(node, p.keysym) {
        DuplicateIsStored(Value(), m, p);
        return;
      }
      var stored := StoreText(utf8, node, p.text);
      utf8 := stored.0;
      nodes := LeafAt(nodes, m, stored.1, keysym);
    }
  }

  // Add the lines of a file to a new table.
  method AddAll(ps: seq<Production>) returns (table: Compose)
    requires ProductionsOk(ps)
    ensures fresh(table) && table.Valid() && table.Value() == Run(ps) && |table.nodes| < MAX_NODES
  {
    table := new Compose();
    for k := 0 to |ps|
      invariant fresh(table) && table.Valid() && table.Value() == Run(ps[..k])
    {
      assert ps[..k + 1][..k] == ps[..k];
      table.AddProduction(ps[k]);
    }
    assert ps[..|ps|] == ps;
    SmallFileKept(ps);
  }
}
