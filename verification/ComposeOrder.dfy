// The order of the tree of compose sequences: at every level, the keysyms to
// the left of a node are smaller and those to the right are larger.  So the
// in-order walk lists the sequences in lexicographic order.
module ComposeOrder {
  import opened ComposeTrie

  // The keysyms of a level: those reached without following a down arrow.
  ghost function Keys(ns: seq<Node>, i: nat): set<nat>
    requires Ordered(ns) && i < |ns|
    decreases Rank(ns, i)
  {
    if i == 0 then {}
    else
      assert NodeOrdered(ns, i);
      {ns[i].keysym} + Keys(ns, ns[i].lokid) + Keys(ns, ns[i].hikid)
  }

  ghost predicate AllBelow(keys: set<nat>, k: nat) {
    forall x :: x in keys ==> x < k
  }

  ghost predicate AllAbove(keys: set<nat>, k: nat) {
    forall x :: x in keys ==> x > k
  }

  ghost predicate Sorted(ns: seq<Node>, i: nat)
    requires Ordered(ns) && i < |ns|
    decreases Rank(ns, i)
  {
    i == 0 ||
    (assert NodeOrdered(ns, i);
     && AllBelow(Keys(ns, ns[i].lokid), ns[i].keysym) && AllAbove(Keys(ns, ns[i].hikid), ns[i].keysym)
     && Sorted(ns, ns[i].lokid) && Sorted(ns, ns[i].hikid) && Sorted(ns, Down(ns[i])))
  }

  lemma {:induction false} FrameSorted(ns: seq<Node>, ns': seq<Node>, i: nat)
    requires Ordered(ns) && Ordered(ns') && i < |ns| && i < |ns'|
    requires AgreeOn(ns, ns', Sub(ns, i))
    ensures Keys(ns', i) == Keys(ns, i) && Sorted(ns', i) == Sorted(ns, i)
    decreases Rank(ns, i)
  {
    if i != 0 {
      assert i in Sub(ns, i);
      assert NodeOrdered(ns, i) && NodeOrdered(ns', i);
      FrameSorted(ns, ns', ns[i].lokid);
      FrameSorted(ns, ns', ns[i].hikid);
      FrameSorted(ns, ns', Down(ns[i]));
    }
  }

  // ------------------------------------------------------------------------
  // Adding a sequence keeps the order

  ghost predicate SortedWith(ns: seq<Node>, i: nat, keys: set<nat>) {
    Ordered(ns) && i < |ns| && Sorted(ns, i) && Keys(ns, i) <= keys
  }

  lemma {:induction false} AddSorted(ns: seq<Node>, curr: nat, slot: Slot, lhs: seq<nat>, utf8: nat, keysym: nat)
    requires Ordered(ns) && curr < |ns| && SlotOk(ns, slot) && lhs != []
    requires Apart(ns, curr, slot) && Sorted(ns, curr)
    ensures SortedWith(Added(ns, curr, slot, lhs, utf8, keysym), Entry(ns, curr), Keys(ns, curr) + {lhs[0]})
    decreases |lhs|, Rank(ns, curr)
  {
    if curr == 0 {
      AddSortedNew(ns, slot, lhs, utf8, keysym);
    } else {
      var ns' := Added(ns, curr, slot, lhs, utf8, keysym);
      assert NodeOrdered(ns, curr);
      SubBounds(ns, ns[curr].lokid);
      SubBounds(ns, ns[curr].hikid);
      SubBounds(ns, Down(ns[curr]));
      if lhs[0] < ns[curr].keysym {
        AddIsLocal(ns, ns[curr].lokid, Lo(curr), lhs, utf8, keysym);
        AddSorted(ns, ns[curr].lokid, Lo(curr), lhs, utf8, keysym);
        SortedLow(ns, curr, ns', lhs[0]);
      } else if lhs[0] > ns[curr].keysym {
        AddIsLocal(ns, ns[curr].hikid, Hi(curr), lhs, utf8, keysym);
        AddSorted(ns, ns[curr].hikid, Hi(curr), lhs, utf8, keysym);
        SortedHigh(ns, curr, ns', lhs[0]);
      } else if |lhs| == 1 {
        SortedLeaf(ns, curr, utf8, keysym);
      } else {
        var ns1 := ns[curr := Opened(ns[curr])];
        OpenOrdered(ns, curr);
        OpenApart(ns, curr);
        OpenSorted(ns, curr);
        AddIsLocal(ns1, ns1[curr].payload, Eq(curr), lhs[1..], utf8, keysym);
        AddSorted(ns1, ns1[curr].payload, Eq(curr), lhs[1..], utf8, keysym);
        SortedDown(ns, curr, ns1, ns');
      }
    }
  }

  lemma KidsSorted(ns: seq<Node>, i: nat, low: set<nat>, high: set<nat>)
    requires Ordered(ns) && 1 <= i < |ns| && NodeOrdered(ns, i)
    requires Keys(ns, ns[i].lokid) <= low && Keys(ns, ns[i].hikid) <= high
    requires AllBelow(low, ns[i].keysym) && AllAbove(high, ns[i].keysym)
    requires Sorted(ns, ns[i].lokid) && Sorted(ns, ns[i].hikid) && Sorted(ns, Down(ns[i]))
    ensures Sorted(ns, i) && Keys(ns, i) <= {ns[i].keysym} + low + high
  {
  }

  lemma SortedLow(ns: seq<Node>, curr: nat, ns': seq<Node>, first: nat)
    requires Ordered(ns) && 1 <= curr < |ns| && NodeOrdered(ns, curr) && IsTree(ns, curr) && Sorted(ns, curr)
    requires Local(ns, ns[curr].lokid, Lo(curr), ns') && first < ns[curr].keysym
    requires SortedWith(ns', Entry(ns, ns[curr].lokid), Keys(ns, ns[curr].lokid) + {first})
    ensures SortedWith(ns', curr, Keys(ns, curr) + {first})
  {
    var n := ns[curr];
    LowFrames(ns, curr, ns');
    FrameSorted(ns, ns', n.hikid);
    FrameSorted(ns, ns', Down(n));
    assert ns'[curr].lokid == Entry(ns, n.lokid);
    KidsSorted(ns', curr, Keys(ns, n.lokid) + {first}, Keys(ns, n.hikid));
  }

  lemma SortedHigh(ns: seq<Node>, curr: nat, ns': seq<Node>, first: nat)
    requires Ordered(ns) && 1 <= curr < |ns| && NodeOrdered(ns, curr) && IsTree(ns, curr) && Sorted(ns, curr)
    requires Local(ns, ns[curr].hikid, Hi(curr), ns') && first > ns[curr].keysym
    requires SortedWith(ns', Entry(ns, ns[curr].hikid), Keys(ns, ns[curr].hikid) + {first})
    ensures SortedWith(ns', curr, Keys(ns, curr) + {first})
  {
    var n := ns[curr];
    HighFrames(ns, curr, ns');
    FrameSorted(ns, ns', n.lokid);
    FrameSorted(ns, ns', Down(n));
    KidsSorted(ns', curr, Keys(ns, n.lokid), Keys(ns, n.hikid) + {first});
  }

  lemma SortedLeaf(ns: seq<Node>, curr: nat, utf8: nat, keysym: nat)
    requires Ordered(ns) && 1 <= curr < |ns| && NodeOrdered(ns, curr) && IsTree(ns, curr) && Sorted(ns, curr)
    ensures SortedWith(LeafAt(ns, curr, utf8, keysym), curr, Keys(ns, curr))
  {
    var n, ns' := ns[curr], LeafAt(ns, curr, utf8, keysym);
    LeafOrdered(ns, curr, utf8, keysym);
    assert NodeOrdered(ns', curr);
    SubBounds(ns, n.lokid);
    SubBounds(ns, n.hikid);
    FrameSorted(ns, ns', n.lokid);
    FrameSorted(ns, ns', n.hikid);
  }

  lemma OpenSorted(ns: seq<Node>, curr: nat)
    requires Ordered(ns) && 1 <= curr < |ns| && NodeOrdered(ns, curr) && Sorted(ns, curr)
    requires Ordered(ns[curr := Opened(ns[curr])]) && Opened(ns[curr]).payload < |ns|
    ensures Sorted(ns[curr := Opened(ns[curr])], Opened(ns[curr]).payload)
  {
    if !ns[curr].isLeaf {
      assert ns[curr := Opened(ns[curr])] == ns;
    }
  }

  lemma SortedDown(ns: seq<Node>, curr: nat, ns1: seq<Node>, ns': seq<Node>)
    requires Ordered(ns) && 1 <= curr < |ns| && NodeOrdered(ns, curr) && IsTree(ns, curr) && Sorted(ns, curr)
    requires ns1 == ns[curr := Opened(ns[curr])] && Ordered(ns1) && ns1[curr].payload < |ns1| && SlotOk(ns1, Eq(curr))
    requires Sub(ns1, ns1[curr].payload) == Sub(ns, Down(ns[curr]))
    requires Local(ns1, ns1[curr].payload, Eq(curr), ns') && Sorted(ns', Entry(ns1, ns1[curr].payload))
    ensures SortedWith(ns', curr, Keys(ns, curr))
  {
    var n := ns[curr];
    assert NodeOrdered(ns', curr);
    assert ns'[curr] == Pointed(ns1[curr], Eq(curr), Entry(ns1, ns1[curr].payload));
    SubBounds(ns, n.lokid);
    SubBounds(ns, n.hikid);
    FrameSorted(ns, ns', n.lokid);
    FrameSorted(ns, ns', n.hikid);
  }

  lemma {:induction false} AddSortedNew(ns: seq<Node>, slot: Slot, lhs: seq<nat>, utf8: nat, keysym: nat)
    requires Ordered(ns) && SlotOk(ns, slot) && lhs != [] && Apart(ns, 0, slot)
    ensures SortedWith(Added(ns, 0, slot, lhs, utf8, keysym), |ns|, {lhs[0]})
    decreases |lhs|, 0
  {
    var n := |ns|;
    var ns1 := Write(ns, slot, n) + [NewNode(lhs[0])];
    CreateOrdered(ns, slot, lhs[0]);
    var ns' := Added(ns, 0, slot, lhs, utf8, keysym);
    if |lhs| == 1 {
      LeafOrdered(ns1, n, utf8, keysym);
      NewSorted(ns', n);
    } else {
      AddSortedNew(ns1, Eq(n), lhs[1..], utf8, keysym);
      assert Local(ns1, 0, Eq(n), ns') by { AddIsLocalNew(ns1, Eq(n), lhs[1..], utf8, keysym); }
      NewSorted(ns', n);
    }
  }

  lemma NewSorted(ns: seq<Node>, n: nat)
    requires Ordered(ns) && 1 <= n < |ns| && ns[n].lokid == ns[n].hikid == 0
    requires ns[n].isLeaf || (ns[n].payload < |ns| && Sorted(ns, ns[n].payload))
    ensures SortedWith(ns, n, {ns[n].keysym})
  {
    assert NodeOrdered(ns, n);
    KidsSorted(ns, n, {}, {});
  }

  // ------------------------------------------------------------------------
  // The in-order walk

  // A sequence and its leaf.
  datatype Listed = Listed(sequence: seq<nat>, leaf: nat)

  // What lies below the down arrow of a node, or the node itself.
  ghost function Downward(ns: seq<Node>, i: nat, prefix: seq<nat>): seq<Listed>
    requires Ordered(ns) && 1 <= i < |ns|
    decreases Rank(ns, i), 0
  {
    assert NodeOrdered(ns, i);
    if ns[i].isLeaf then [Listed(prefix + [ns[i].keysym], i)]
    else Entries(ns, ns[i].payload, prefix + [ns[i].keysym])
  }

  ghost function Entries(ns: seq<Node>, i: nat, prefix: seq<nat>): seq<Listed>
    requires Ordered(ns) && i < |ns|
    decreases Rank(ns, i), 1
  {
    if i == 0 then []
    else
      assert NodeOrdered(ns, i);
      Entries(ns, ns[i].lokid, prefix) + Downward(ns, i, prefix) + Entries(ns, ns[i].hikid, prefix)
  }

  // The sequence continues the prefix with a keysym of the level, and leads to
  // the leaf.
  ghost predicate Leads(ns: seq<Node>, i: nat, prefix: seq<nat>, e: Listed)
    requires Ordered(ns) && i < |ns|
  {
    && prefix < e.sequence && e.sequence[|prefix|] in Keys(ns, i)
    && e.leaf != 0 && e.leaf == Reach(ns, i, e.sequence[|prefix|..]) && ns[e.leaf].isLeaf
  }

  lemma {:induction false} ListedLeads(ns: seq<Node>, i: nat, prefix: seq<nat>, e: Listed)
    requires Ordered(ns) && i < |ns| && Sorted(ns, i) && e in Entries(ns, i, prefix)
    ensures Leads(ns, i, prefix, e)
    decreases Rank(ns, i)
  {
    assert NodeOrdered(ns, i);
    if e in Entries(ns, ns[i].lokid, prefix) {
      ListedLeads(ns, ns[i].lokid, prefix, e);
    } else if e in Entries(ns, ns[i].hikid, prefix) {
      ListedLeads(ns, ns[i].hikid, prefix, e);
    } else {
      DownwardLeads(ns, i, prefix, e);
    }
  }

  lemma {:induction false} DownwardLeads(ns: seq<Node>, i: nat, prefix: seq<nat>, e: Listed)
    requires Ordered(ns) && 1 <= i < |ns| && Sorted(ns, i) && e in Downward(ns, i, prefix)
    ensures Leads(ns, i, prefix, e) && e.sequence[|prefix|] == ns[i].keysym
    decreases Rank(ns, i), 0
  {
    assert NodeOrdered(ns, i);
    var longer := prefix + [ns[i].keysym];
    if ns[i].isLeaf {
      assert e.sequence[|prefix|..] == [ns[i].keysym];
    } else {
      ListedLeads(ns, ns[i].payload, longer, e);
      var u := e.sequence[|prefix|..];
      assert longer < e.sequence;
      assert e.sequence[|prefix|] == longer[|prefix|];
      assert u[1..] == e.sequence[|longer|..];
    }
  }

  lemma {:induction false} ReachedListed(ns: seq<Node>, i: nat, prefix: seq<nat>, u: seq<nat>)
    requires Ordered(ns) && i < |ns|
    requires Reach(ns, i, u) != 0 && ns[Reach(ns, i, u)].isLeaf
    ensures Listed(prefix + u, Reach(ns, i, u)) in Entries(ns, i, prefix)
    decreases Rank(ns, i)
  {
    assert NodeOrdered(ns, i);
    if u[0] < ns[i].keysym {
      ReachedListed(ns, ns[i].lokid, prefix, u);
    } else if u[0] > ns[i].keysym {
      ReachedListed(ns, ns[i].hikid, prefix, u);
    } else if |u| == 1 {
      assert u == [ns[i].keysym];
    } else {
      ReachedListed(ns, Down(ns[i]), prefix + [ns[i].keysym], u[1..]);
      assert prefix + [ns[i].keysym] + u[1..] == prefix + u;
    }
  }

  // ------------------------------------------------------------------------
  // Lexicographic order

  predicate DiffersAt(s: seq<nat>, t: seq<nat>, j: nat) {
    j < |s| && j < |t| && s[..j] == t[..j] && s[j] < t[j]
  }

  ghost predicate Before(s: seq<nat>, t: seq<nat>) {
    exists j :: DiffersAt(s, t, j)
  }

  ghost predicate Lexicographic(list: seq<Listed>) {
    forall a, b :: 0 <= a < b < |list| ==> Before(list[a].sequence, list[b].sequence)
  }

  // Every entry of one list comes before every entry of the other.
  ghost predicate AllBefore(first: seq<Listed>, second: seq<Listed>) {
    forall d, e :: d in first && e in second ==> Before(d.sequence, e.sequence)
  }

  lemma Concatenated(first: seq<Listed>, second: seq<Listed>)
    requires Lexicographic(first) && Lexicographic(second) && AllBefore(first, second)
    ensures Lexicographic(first + second)
  {
  }

  // Sequences that continue one prefix with different keysyms.
  lemma BranchBefore(prefix: seq<nat>, s: seq<nat>, t: seq<nat>)
    requires prefix < s && prefix < t && s[|prefix|] < t[|prefix|]
    ensures Before(s, t)
  {
    assert DiffersAt(s, t, |prefix|);
  }

  lemma {:induction false} EntriesLexicographic(ns: seq<Node>, i: nat, prefix: seq<nat>)
    requires Ordered(ns) && i < |ns| && Sorted(ns, i)
    ensures Lexicographic(Entries(ns, i, prefix))
    decreases Rank(ns, i)
  {
    if i != 0 {
      assert NodeOrdered(ns, i);
      var low, high := Entries(ns, ns[i].lokid, prefix), Entries(ns, ns[i].hikid, prefix);
      var down := Downward(ns, i, prefix);
      EntriesLexicographic(ns, ns[i].lokid, prefix);
      EntriesLexicographic(ns, ns[i].hikid, prefix);
      if !ns[i].isLeaf {
        EntriesLexicographic(ns, ns[i].payload, prefix + [ns[i].keysym]);
      }
      LevelsBefore(ns, i, prefix);
      Concatenated(low, down);
      Concatenated(low + down, high);
    }
  }

  lemma LevelsBefore(ns: seq<Node>, i: nat, prefix: seq<nat>)
    requires Ordered(ns) && 1 <= i < |ns| && NodeOrdered(ns, i) && Sorted(ns, i)
    ensures AllBefore(Entries(ns, ns[i].lokid, prefix), Downward(ns, i, prefix))
    ensures AllBefore(Entries(ns, ns[i].lokid, prefix) + Downward(ns, i, prefix), Entries(ns, ns[i].hikid, prefix))
  {
    var low, down, high := Entries(ns, ns[i].lokid, prefix), Downward(ns, i, prefix), Entries(ns, ns[i].hikid, prefix);
    forall d, e | d in low && e in down
      ensures Before(d.sequence, e.sequence)
    {
      ListedLeads(ns, ns[i].lokid, prefix, d);
      DownwardLeads(ns, i, prefix, e);
      BranchBefore(prefix, d.sequence, e.sequence);
    }
    forall d, e | d in low + down && e in high
      ensures Before(d.sequence, e.sequence)
    {
      ListedLeads(ns, ns[i].hikid, prefix, e);
      if d in low {
        ListedLeads(ns, ns[i].lokid, prefix, d);
      } else {
        DownwardLeads(ns, i, prefix, d);
      }
      BranchBefore(prefix, d.sequence, e.sequence);
    }
  }
}
