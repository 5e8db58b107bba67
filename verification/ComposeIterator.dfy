// The iterator over a compose table: it walks the tree in order with a stack
// of pending nodes, one call for each entry.
module ComposeIterator {
  import opened Basics
  import opened ComposeOrder
  import opened ComposeTable
  import opened ComposeTrie
  import opened StringPool

  datatype Pending = Pending(offset: nat, processed: bool)

  datatype TableEntry = TableEntry(sequence: seq<nat>, keysym: nat, utf8: string)

  // ------------------------------------------------------------------------
  // What a stack of pending nodes stands for

  ghost predicate StackOk(ns: seq<Node>, stack: seq<Pending>) {
    forall j :: 0 <= j < |stack| ==> 1 <= stack[j].offset < |ns|
  }

  // The keysyms of the processed nodes: the sequence in progress.
  function Prefix(ns: seq<Node>, stack: seq<Pending>): (r: seq<nat>)
    requires StackOk(ns, stack)
  {
    if stack == [] then []
    else
      var top := stack[|stack| - 1];
      Prefix(ns, stack[..|stack| - 1]) + if top.processed then [ns[top.offset].keysym] else []
  }

  // A pending node stands for itself and what is to the right of it; a
  // processed one only for what is to the right.
  ghost function Own(ns: seq<Node>, p: Pending, prefix: seq<nat>): seq<Listed>
    requires Ordered(ns) && 1 <= p.offset < |ns|
  {
    assert NodeOrdered(ns, p.offset);
    if p.processed then Entries(ns, ns[p.offset].hikid, prefix)
    else Downward(ns, p.offset, prefix) + Entries(ns, ns[p.offset].hikid, prefix)
  }

  ghost function Rest(ns: seq<Node>, stack: seq<Pending>): seq<Listed>
    requires Ordered(ns) && StackOk(ns, stack)
  {
    if stack == [] then []
    else
      var below := stack[..|stack| - 1];
      Own(ns, stack[|stack| - 1], Prefix(ns, below)) + Rest(ns, below)
  }

  lemma Regroup3<T>(a: seq<T>, b: seq<T>, c: seq<T>)
    ensures a + b + c == a + (b + c)
  {
  }

  lemma Regroup4<T>(a: seq<T>, b: seq<T>, c: seq<T>, d: seq<T>)
    ensures a + b + c + d == a + (b + c + d)
  {
  }

  lemma {:induction false} PushRest(ns: seq<Node>, stack: seq<Pending>, p: Pending)
    requires Ordered(ns) && StackOk(ns, stack) && 1 <= p.offset < |ns|
    ensures StackOk(ns, stack + [p])
    ensures Rest(ns, stack + [p]) == Own(ns, p, Prefix(ns, stack)) + Rest(ns, stack)
    ensures Prefix(ns, stack + [p]) == Prefix(ns, stack) + if p.processed then [ns[p.offset].keysym] else []
  {
    assert (stack + [p])[..|stack|] == stack;
  }

  // An unprocessed node without a left arrow stands for its whole subtree.
  lemma {:induction false} LeftMostRest(ns: seq<Node>, stack: seq<Pending>, i: nat)
    requires Ordered(ns) && StackOk(ns, stack) && 1 <= i < |ns| && NodeOrdered(ns, i)
    ensures StackOk(ns, stack + [Pending(i, false)])
    ensures Prefix(ns, stack + [Pending(i, false)]) == Prefix(ns, stack)
    ensures Entries(ns, i, Prefix(ns, stack)) + Rest(ns, stack)
         == Entries(ns, ns[i].lokid, Prefix(ns, stack)) + Rest(ns, stack + [Pending(i, false)])
  {
    PushRest(ns, stack, Pending(i, false));
    var prefix := Prefix(ns, stack);
    var low, down, high := Entries(ns, ns[i].lokid, prefix), Downward(ns, i, prefix), Entries(ns, ns[i].hikid, prefix);
    Regroup4(low, down, high, Rest(ns, stack));
  }

  lemma NothingLeft(ns: seq<Node>, prefix: seq<nat>, rest: seq<Listed>)
    requires Ordered(ns)
    ensures Entries(ns, 0, prefix) + rest == rest
  {
  }

  // A processed node is done when there is nothing to the right of it;
  // otherwise the node to the right takes its place.
  lemma {:induction false} ProcessedRest(ns: seq<Node>, stack: seq<Pending>)
    requires Ordered(ns) && StackOk(ns, stack) && stack != [] && stack[|stack| - 1].processed
    ensures var below := stack[..|stack| - 1];
            var i := stack[|stack| - 1].offset;
            assert NodeOrdered(ns, i);
            && Rest(ns, stack) == Entries(ns, ns[i].hikid, Prefix(ns, below)) + Rest(ns, below)
            && Prefix(ns, stack) != [] && Prefix(ns, stack)[..|Prefix(ns, stack)| - 1] == Prefix(ns, below)
  {
    var below, k := stack[..|stack| - 1], ns[stack[|stack| - 1].offset].keysym;
    assert (Prefix(ns, below) + [k])[..|Prefix(ns, below)|] == Prefix(ns, below);
  }

  // Marking a node as processed takes its own part out.
  lemma {:induction false} MarkRest(ns: seq<Node>, below: seq<Pending>, i: nat)
    requires Ordered(ns) && StackOk(ns, below) && 1 <= i < |ns|
    ensures StackOk(ns, below + [Pending(i, false)]) && StackOk(ns, below + [Pending(i, true)])
    ensures Prefix(ns, below + [Pending(i, true)]) == Prefix(ns, below + [Pending(i, false)]) + [ns[i].keysym]
    ensures Rest(ns, below + [Pending(i, false)])
         == Downward(ns, i, Prefix(ns, below)) + Rest(ns, below + [Pending(i, true)])
  {
    PushRest(ns, below, Pending(i, false));
    PushRest(ns, below, Pending(i, true));
    assert NodeOrdered(ns, i);
    var down, high := Downward(ns, i, Prefix(ns, below)), Entries(ns, ns[i].hikid, Prefix(ns, below));
    Regroup3(down, high, Rest(ns, below));
  }

  // ------------------------------------------------------------------------
  // Room for sequences

  ghost predicate AllWithin(list: seq<Listed>, n: nat) {
    forall k :: 0 <= k < |list| ==> |list[k].sequence| <= n
  }

  ghost predicate ResultsWithin(t: Table, n: nat)
    requires TableOk(t)
  {
    forall s :: Lookup(t, s).Some? ==> |s| <= n
  }

  // Sequences are as long as the lines they come from.
  lemma LinesWithin(ps: seq<Production>, n: nat)
    requires ProductionsOk(ps) && forall i :: 0 <= i < |ps| ==> |ps[i].lhs| <= n
    ensures ResultsWithin(Run(ps), n)
  {
    forall s | Lookup(Run(ps), s).Some?
      ensures |s| <= n
    {
      RunLookup(ps, s);
      var i: nat :| Decides(Kept(ps), i, s);
      KeptFrom(ps, i);
    }
  }

  lemma {:induction false} KeptFrom(ps: seq<Production>, i: nat)
    requires ProductionsOk(ps) && i < |Kept(ps)|
    ensures Kept(ps)[i] in ps
  {
    var rest := ps[..|ps| - 1];
    if i < |Kept(rest)| {
      KeptFrom(rest, i);
    }
  }

  lemma WalkWithin(t: Table, n: nat)
    requires TableOk(t) && ResultsWithin(t, n)
    ensures AllWithin(Entries(t.nodes, Root(t.nodes), []), n)
  {
    var all := Entries(t.nodes, Root(t.nodes), []);
    forall k | 0 <= k < |all|
      ensures |all[k].sequence| <= n
    {
      IterationExact(t, all[k].sequence);
    }
  }

  // A subtree has an entry, longer than the prefix.
  lemma {:induction false} EntryBelow(ns: seq<Node>, i: nat, prefix: seq<nat>)
    requires Ordered(ns) && 1 <= i < |ns| && IsTree(ns, i)
    ensures Downward(ns, i, prefix) != [] && |Downward(ns, i, prefix)[0].sequence| > |prefix|
    ensures Entries(ns, i, prefix) != [] && |Entries(ns, i, prefix)[0].sequence| > |prefix|
    decreases Rank(ns, i)
  {
    assert NodeOrdered(ns, i);
    if !ns[i].isLeaf {
      EntryBelow(ns, ns[i].payload, prefix + [ns[i].keysym]);
    }
    if ns[i].lokid != 0 {
      EntryBelow(ns, ns[i].lokid, prefix);
    }
  }

  // So there is room for one more keysym.
  lemma DownwardRoom(ns: seq<Node>, i: nat, prefix: seq<nat>, all: seq<Listed>, n: nat)
    requires Ordered(ns) && 1 <= i < |ns| && IsTree(ns, i)
    requires Downward(ns, i, prefix) <= all && AllWithin(all, n)
    ensures |prefix| < n
  {
    EntryBelow(ns, i, prefix);
    assert all[0] == Downward(ns, i, prefix)[0];
  }

  // ------------------------------------------------------------------------
  // The iterator

  class Iterator {
    const table: Table
    const capacity: nat  // of the buffer for the sequence
    var pending: seq<Pending>
    var sequence: seq<nat>

    ghost predicate Valid()
      reads this
    {
      && TableOk(table) && StackOk(table.nodes, pending) && InTree()
      && sequence == Prefix(table.nodes, pending)
    }

    // No pending node is a dead end.
    ghost predicate InTree()
      requires TableOk(table) && StackOk(table.nodes, pending)
      reads this
    {
      forall j :: 0 <= j < |pending| ==> IsTree(table.nodes, pending[j].offset)
    }

    // The entries still to come.
    ghost function Remaining(): seq<Listed>
      requires Valid()
      reads this
    {
      Rest(table.nodes, pending)
    }

    // The sequence in progress and those to come fit the buffer.
    ghost predicate Roomy()
      requires Valid()
      reads this
    {
      |sequence| <= capacity && AllWithin(Remaining(), capacity)
    }

    constructor (table: Table, capacity: nat)
      requires TableOk(table) && ResultsWithin(table, capacity)
      ensures Valid() && Roomy() && this.table == table && this.capacity == capacity
      ensures Remaining() == Entries(table.nodes, Root(table.nodes), [])
    {
      this.table := table;
      this.capacity := capacity;
      pending := [];
      sequence := [];
      new;
      if |table.nodes| != 1 {
        assert NodeOrdered(table.nodes, 1);
        FollowLeft(1);
      }
      WalkWithin(table, capacity);
    }

    // Put a node on the stack; what is to the left of it is still to be done.
    method Push(i: nat)
      requires Valid() && 1 <= i < |table.nodes| && NodeOrdered(table.nodes, i) && IsTree(table.nodes, i)
      modifies `pending
      ensures Valid() && pending == old(pending) + [Pending(i, false)]
      ensures Entries(table.nodes, table.nodes[i].lokid, sequence) + Remaining()
           == Entries(table.nodes, i, sequence) + old(Remaining())
    {
      LeftMostRest(table.nodes, pending, i);
      pending := pending + [Pending(i, false)];
    }

    // The top of the stack is the node reached over left arrows.
    ghost predicate Leftward(start: nat, i: nat, all: seq<Listed>)
      reads this
    {
      && Valid() && 1 <= start <= i < |table.nodes| && NodeOrdered(table.nodes, i) && IsTree(table.nodes, i)
      && pending != [] && pending[|pending| - 1] == Pending(i, false)
      && Entries(table.nodes, table.nodes[i].lokid, sequence) + Remaining() == all
    }

    method PushLeft(start: nat, i: nat, ghost all: seq<Listed>) returns (left: nat)
      requires Leftward(start, i, all) && table.nodes[i].lokid != 0
      modifies `pending
      ensures Leftward(start, left, all) && left > i
    {
      left := table.nodes[i].lokid;
      assert NodeOrdered(table.nodes, left);
      Push(left);
    }

    // Put a node and those on its left arrows on the stack.
    method FollowLeft(start: nat)
      requires Valid() && 1 <= start < |table.nodes| && NodeOrdered(table.nodes, start) && IsTree(table.nodes, start)
      modifies `pending
      ensures Valid() && pending != [] && !pending[|pending| - 1].processed
      ensures pending[|pending| - 1].offset >= start
      ensures Remaining() == Entries(table.nodes, start, sequence) + old(Remaining())
    {
      ghost var all := Entries(table.nodes, start, sequence) + Remaining();
      var i := start;
      Push(i);
      while table.nodes[i].lokid != 0
        invariant Leftward(start, i, all)
        decreases |table.nodes| - i
      {
        i := PushLeft(start, i, all);
      }
      NothingLeft(table.nodes, sequence, Remaining());
    }

    // Follow the down arrow of the pending node.
    method Process() returns (i: nat)
      requires Valid() && pending != [] && !pending[|pending| - 1].processed && AllWithin(Remaining(), capacity)
      modifies `pending, `sequence
      ensures |sequence| <= capacity
      ensures Valid() && i == old(pending[|pending| - 1].offset) && 1 <= i < |table.nodes|
      ensures NodeOrdered(table.nodes, i) && IsTree(table.nodes, i)
      ensures sequence == old(sequence) + [table.nodes[i].keysym]
      ensures old(Remaining()) == Downward(table.nodes, i, old(sequence)) + Remaining()
    {
      i := pending[|pending| - 1].offset;
      ghost var below := pending[..|pending| - 1];
      assert pending == below + [Pending(i, false)];
      MarkRest(table.nodes, below, i);
      assert NodeOrdered(table.nodes, i) && IsTree(table.nodes, i);
      PushRest(table.nodes, below, Pending(i, false));
      DownwardRoom(table.nodes, i, sequence, Remaining(), capacity);
      assert |sequence| < capacity;
      pending := pending[|pending| - 1 := Pending(i, true)];
      assert pending == below + [Pending(i, true)];
      sequence := sequence + [table.nodes[i].keysym];
    }

    // Take a processed node off the stack; what is to the right of it is still
    // to be done.
    method Pop() returns (right: nat)
      requires Valid() && pending != [] && pending[|pending| - 1].processed
      modifies `pending, `sequence
      ensures Valid() && pending == old(pending[..|pending| - 1]) && right < |table.nodes|
      ensures |sequence| <= |old(sequence)|
      ensures right != 0 ==> NodeOrdered(table.nodes, right) && IsTree(table.nodes, right)
      ensures Entries(table.nodes, right, sequence) + Remaining() == old(Remaining())
    {
      var top := pending[|pending| - 1];
      ProcessedRest(table.nodes, pending);
      assert NodeOrdered(table.nodes, top.offset) && IsTree(table.nodes, top.offset);
      right := table.nodes[top.offset].hikid;
      sequence := sequence[..|sequence| - 1];
      pending := pending[..|pending| - 1];
    }

    // Take processed nodes off the stack, up to an unprocessed one or a right
    // arrow.
    method Unwind()
      requires Valid()
      modifies `pending, `sequence
      ensures Valid() && Remaining() == old(Remaining()) && |sequence| <= |old(sequence)|
      ensures pending != [] ==> !pending[|pending| - 1].processed
    {
      while pending != [] && pending[|pending| - 1].processed
        invariant Valid() && Remaining() == old(Remaining()) && |sequence| <= |old(sequence)|
        decreases |pending|
      {
        var done := UnwindStep();
        if done {
          return;
        }
      }
    }

    // Take one processed node off the stack, and put what is to the right of
    // it on.
    method UnwindStep() returns (done: bool)
      requires Valid() && pending != [] && pending[|pending| - 1].processed
      modifies `pending, `sequence
      ensures Valid() && Remaining() == old(Remaining()) && |sequence| <= |old(sequence)|
      ensures if done then pending != [] && !pending[|pending| - 1].processed else |pending| < |old(pending)|
    {
      var right := Pop();
      if right != 0 {
        FollowLeft(right);
        return true;
      }
      NothingLeft(table.nodes, sequence, Remaining());
      return false;
    }

    // Follow down and left arrows to a leaf.
    method Descend() returns (entry: TableEntry, ghost e: Listed)
      requires Valid() && Roomy() && pending != [] && !pending[|pending| - 1].processed
      modifies `pending, `sequence
      ensures Valid() && |sequence| <= capacity
      ensures old(Remaining()) == [e] + Remaining() && EntryOf(table, e, Some(entry))
    {
      while true
        invariant Valid() && Remaining() == old(Remaining()) && |sequence| <= capacity
        invariant pending != [] && !pending[|pending| - 1].processed
        decreases |table.nodes| - pending[|pending| - 1].offset
      {
        var i := Process();
        var node := table.nodes[i];
        if node.isLeaf {
          e := Listed(sequence, i);
          return TableEntry(sequence, node.payload, StringAt(table.pool, node.utf8)), e;
        }
        assert NodeOrdered(table.nodes, node.payload);
        FollowLeft(node.payload);
      }
    }

    // Yield the next entry.  The sequence never outgrows its buffer.
    method Next() returns (entry: Option<TableEntry>)
      requires Valid() && Roomy()
      modifies `pending, `sequence
      ensures Valid() && Roomy()
      ensures old(Remaining()) == [] ==> entry == None && Remaining() == []
      ensures old(Remaining()) != [] ==>
                && Remaining() == old(Remaining())[1..]
                && EntryOf(table, old(Remaining())[0], entry)
    {
      Unwind();
      if pending == [] {
        return None;
      }
      ghost var all := Remaining();
      ghost var e;
      var next;
      next, e := Descend();
      SplitFirst(all, e, Remaining(), capacity);
      return Some(next);
    }
  }

  lemma SplitFirst(all: seq<Listed>, e: Listed, rest: seq<Listed>, n: nat)
    requires all == [e] + rest && AllWithin(all, n)
    ensures all[0] == e && all[1..] == rest && AllWithin(rest, n)
  {
  }

  // The entry of a listed sequence: its result.
  ghost predicate EntryOf(t: Table, e: Listed, entry: Option<TableEntry>) {
    && e.leaf < |t.nodes|
    && entry == Some(TableEntry(e.sequence, t.nodes[e.leaf].payload, StringAt(t.pool, t.nodes[e.leaf].utf8)))
  }

  // ------------------------------------------------------------------------
  // What an iteration lists

  // The text of a result; offset 0 is the empty string.
  function TextOf(r: Result): string {
    if r.text.None? then "" else r.text.value
  }

  // An iteration lists exactly the sequences that have results, with their
  // results, in lexicographic order.
  lemma {:induction false} IterationExact(t: Table, s: seq<nat>)
    requires TableOk(t)
    ensures var all := Entries(t.nodes, Root(t.nodes), []);
            && Lexicographic(all)
            && (Lookup(t, s).Some? <==> exists k :: 0 <= k < |all| && all[k].sequence == s)
  {
    var root := Root(t.nodes);
    EntriesLexicographic(t.nodes, root, []);
    var all := Entries(t.nodes, root, []);
    if Lookup(t, s).Some? {
      ReachedListed(t.nodes, root, [], s);
      assert [] + s == s;
    }
    if k :| 0 <= k < |all| && all[k].sequence == s {
      ListedLeads(t.nodes, root, [], all[k]);
      assert s[0..] == s;
    }
  }

  lemma {:induction false} ListedResult(t: Table, e: Listed, entry: Option<TableEntry>)
    requires TableOk(t) && e in Entries(t.nodes, Root(t.nodes), []) && EntryOf(t, e, entry)
    ensures Lookup(t, e.sequence).Some?
    ensures var r := Lookup(t, e.sequence).value;
            entry == Some(TableEntry(e.sequence, r.keysym, TextOf(r)))
  {
    ListedLeads(t.nodes, Root(t.nodes), [], e);
    assert e.sequence[0..] == e.sequence;
  }

  // An entry that shows the result of its sequence.
  ghost predicate Shows(t: Table, entry: TableEntry)
    requires TableOk(t)
  {
    match Lookup(t, entry.sequence)
    case None => false
    case Some(r) => entry.keysym == r.keysym && entry.utf8 == TextOf(r)
  }

  // The entries of the first part of a walk, and the rest of it.
  ghost predicate Yielded(t: Table, all: seq<Listed>, entries: seq<TableEntry>, rest: seq<Listed>) {
    && |all| == |entries| + |rest| && rest == all[|entries|..]
    && forall k :: 0 <= k < |entries| ==> EntryOf(t, all[k], Some(entries[k]))
  }

  lemma YieldedNext(t: Table, all: seq<Listed>, entries: seq<TableEntry>, rest: seq<Listed>, entry: TableEntry)
    requires Yielded(t, all, entries, rest) && rest != [] && EntryOf(t, rest[0], Some(entry))
    ensures Yielded(t, all, entries + [entry], rest[1..])
  {
  }

  // Run an iterator to its end.
  method Collect(it: Iterator) returns (entries: seq<TableEntry>)
    requires it.Valid() && it.Roomy()
    modifies it`pending, it`sequence
    ensures it.Valid() && it.Roomy() && Yielded(it.table, old(it.Remaining()), entries, [])
  {
    ghost var all, rest := it.Remaining(), it.Remaining();
    entries := [];
    var entry := it.Next();
    while entry.Some?
      invariant it.Valid() && it.Roomy() && Yielded(it.table, all, entries, rest)
      invariant if rest == [] then entry == None else EntryOf(it.table, rest[0], entry) && it.Remaining() == rest[1..]
      decreases |rest|
    {
      YieldedNext(it.table, all, entries, rest, entry.value);
      entries := entries + [entry.value];
      rest := it.Remaining();
      entry := it.Next();
    }
  }

  // An iteration over a table yields every sequence that has a result once, in
  // lexicographic order, with its result.
  method IterateAll(t: Table, capacity: nat) returns (entries: seq<TableEntry>)
    requires TableOk(t) && ResultsWithin(t, capacity)
    ensures forall i, j :: 0 <= i < j < |entries| ==> Before(entries[i].sequence, entries[j].sequence)
    ensures forall i :: 0 <= i < |entries| ==> Shows(t, entries[i])
    ensures forall s :: Lookup(t, s).Some? ==> exists i :: 0 <= i < |entries| && entries[i].sequence == s
  {
    var it := new Iterator(t, capacity);
    entries := Collect(it);
    EntriesExact(t, entries);
  }

  lemma EntriesExact(t: Table, entries: seq<TableEntry>)
    requires TableOk(t)
    requires Yielded(t, Entries(t.nodes, Root(t.nodes), []), entries, [])
    ensures forall i, j :: 0 <= i < j < |entries| ==> Before(entries[i].sequence, entries[j].sequence)
    ensures forall i :: 0 <= i < |entries| ==> Shows(t, entries[i])
    ensures forall s :: Lookup(t, s).Some? ==> exists i :: 0 <= i < |entries| && entries[i].sequence == s
  {
    var all := Entries(t.nodes, Root(t.nodes), []);
    IterationExact(t, []);
    forall i | 0 <= i < |entries|
      ensures Shows(t, entries[i])
    {
      ListedResult(t, all[i], Some(entries[i]));
    }
    forall s | Lookup(t, s).Some?
      ensures exists i :: 0 <= i < |entries| && entries[i].sequence == s
    {
      IterationExact(t, s);
      var k :| 0 <= k < |all| && all[k].sequence == s;
      assert entries[k].sequence == s;
    }
  }
}
