// The tree of compose sequences: a ternary search tree whose nodes live in one
// array, index 0 meaning "none".  A node holds either the root of the
// sequences that continue it or, as a leaf, the result of a sequence.
module ComposeTrie {

  // `payload` is the child of an inner node and the result keysym of a leaf.
  datatype Node = Node(keysym: nat, lokid: nat, hikid: nat, isLeaf: bool, utf8: nat, payload: nat)

  // The pointer that leads to the current node.
  datatype Slot = Start | Lo(node: nat) | Hi(node: nat) | Eq(node: nat)

  // ------------------------------------------------------------------------
  // Shape

  // A child is created after its parent, so its index is larger.
  predicate IsChild(ns: seq<Node>, i: nat, k: nat) {
    k == 0 || i < k < |ns|
  }

  predicate NodeOrdered(ns: seq<Node>, i: nat)
    requires i < |ns|
  {
    IsChild(ns, i, ns[i].lokid) && IsChild(ns, i, ns[i].hikid) && (!ns[i].isLeaf ==> IsChild(ns, i, ns[i].payload))
  }

  ghost predicate Ordered(ns: seq<Node>) {
    |ns| >= 1 && forall i {:trigger NodeOrdered(ns, i)} :: 1 <= i < |ns| ==> NodeOrdered(ns, i)
  }

  function Rank(ns: seq<Node>, i: nat): nat
    requires i < |ns|
  {
    if i == 0 then 0 else |ns| - i
  }

  function Down(n: Node): nat { if n.isLeaf then 0 else n.payload }

  // The nodes of the subtree at an index.
  ghost function Sub(ns: seq<Node>, i: nat): (r: set<nat>)
    requires Ordered(ns) && i < |ns|
    decreases Rank(ns, i)
  {
    if i == 0 then {}
    else
      assert NodeOrdered(ns, i);
      {i} + Sub(ns, ns[i].lokid) + Sub(ns, ns[i].hikid) + Sub(ns, Down(ns[i]))
  }

  // A node ends a sequence or is followed by another.
  predicate Continues(n: Node) {
    n.isLeaf || n.payload != 0
  }

  // No two pointers of the subtree lead to one node, and there are no dead
  // ends.
  ghost predicate IsTree(ns: seq<Node>, i: nat)
    requires Ordered(ns) && i < |ns|
    decreases Rank(ns, i)
  {
    i == 0 ||
    (assert NodeOrdered(ns, i);
     && Continues(ns[i])
     && Sub(ns, ns[i].lokid) !! Sub(ns, ns[i].hikid)
     && Sub(ns, ns[i].lokid) !! Sub(ns, Down(ns[i]))
     && Sub(ns, ns[i].hikid) !! Sub(ns, Down(ns[i]))
     && IsTree(ns, ns[i].lokid) && IsTree(ns, ns[i].hikid) && IsTree(ns, Down(ns[i])))
  }

  // ------------------------------------------------------------------------
  // Lookup

  // The node that a sequence reaches, or 0.
  function Reach(ns: seq<Node>, i: nat, s: seq<nat>): (r: nat)
    requires Ordered(ns) && i < |ns|
    ensures r < |ns|
    decreases Rank(ns, i)
  {
    if i == 0 || s == [] then 0
    else
      assert NodeOrdered(ns, i);
      if s[0] < ns[i].keysym then Reach(ns, ns[i].lokid, s)
      else if s[0] > ns[i].keysym then Reach(ns, ns[i].hikid, s)
      else if |s| == 1 then i
      else Reach(ns, Down(ns[i]), s[1..])
  }

  lemma {:induction false} SubBounds(ns: seq<Node>, i: nat)
    requires Ordered(ns) && i < |ns|
    ensures forall j :: j in Sub(ns, i) ==> 1 <= i <= j < |ns|
    decreases Rank(ns, i)
  {
    if i != 0 {
      assert NodeOrdered(ns, i);
      SubBounds(ns, ns[i].lokid);
      SubBounds(ns, ns[i].hikid);
      SubBounds(ns, Down(ns[i]));
    }
  }

  // Only the nodes of a subtree matter to it.
  ghost predicate AgreeOn(ns: seq<Node>, ns': seq<Node>, nodes: set<nat>) {
    forall j :: j in nodes ==> j < |ns| && j < |ns'| && ns'[j] == ns[j]
  }

  lemma {:induction false} FrameSub(ns: seq<Node>, ns': seq<Node>, i: nat)
    requires Ordered(ns) && Ordered(ns') && i < |ns| && i < |ns'|
    requires AgreeOn(ns, ns', Sub(ns, i))
    ensures Sub(ns', i) == Sub(ns, i)
    ensures IsTree(ns', i) == IsTree(ns, i)
    decreases Rank(ns, i)
  {
    if i != 0 {
      assert i in Sub(ns, i);
      assert NodeOrdered(ns, i) && NodeOrdered(ns', i);
      FrameSub(ns, ns', ns[i].lokid);
      FrameSub(ns, ns', ns[i].hikid);
      FrameSub(ns, ns', Down(ns[i]));
    }
  }

  lemma {:induction false} FrameReach(ns: seq<Node>, ns': seq<Node>, i: nat, s: seq<nat>)
    requires Ordered(ns) && Ordered(ns') && i < |ns| && i < |ns'|
    requires AgreeOn(ns, ns', Sub(ns, i))
    ensures Reach(ns', i, s) == Reach(ns, i, s)
    ensures Reach(ns, i, s) != 0 ==> Reach(ns, i, s) in Sub(ns, i)
    decreases Rank(ns, i)
  {
    if i != 0 && s != [] {
      assert i in Sub(ns, i);
      assert NodeOrdered(ns, i) && NodeOrdered(ns', i);
      FrameReach(ns, ns', ns[i].lokid, s);
      FrameReach(ns, ns', ns[i].hikid, s);
      FrameReach(ns, ns', Down(ns[i]), s[1..]);
    }
  }

  // ------------------------------------------------------------------------
  // Adding a path

  predicate SlotOk(ns: seq<Node>, slot: Slot) {
    slot.Start? || (1 <= slot.node < |ns| && (slot.Eq? ==> !ns[slot.node].isLeaf))
  }

  function Holds(ns: seq<Node>, slot: Slot): nat
    requires SlotOk(ns, slot) && !slot.Start?
  {
    match slot
    case Lo(i) => ns[i].lokid
    case Hi(i) => ns[i].hikid
    case Eq(i) => ns[i].payload
  }

  function Pointed(n: Node, slot: Slot, v: nat): Node {
    match slot
    case Start => n
    case Lo(_) => n.(lokid := v)
    case Hi(_) => n.(hikid := v)
    case Eq(_) => n.(payload := v)
  }

  function Write(ns: seq<Node>, slot: Slot, v: nat): (r: seq<Node>)
    requires SlotOk(ns, slot)
    ensures |r| == |ns|
  {
    if slot.Start? then ns else ns[slot.node := Pointed(ns[slot.node], slot, v)]
  }

  function NewNode(keysym: nat): Node {
    Node(keysym, 0, 0, false, 0, 0)
  }

  function Opened(n: Node): Node {
    if n.isLeaf then n.(isLeaf := false, payload := 0) else n
  }

  // The nodes with the path of a sequence, and the node at its end.  A leaf
  // on the way is opened.
  function AddPath(ns: seq<Node>, curr: nat, slot: Slot, lhs: seq<nat>): (r: (seq<Node>, nat))
    requires Ordered(ns) && curr < |ns| && SlotOk(ns, slot) && lhs != []
    decreases |lhs|, Rank(ns, curr)
  {
    if curr == 0 then
      var ns1 := Write(ns, slot, |ns|) + [NewNode(lhs[0])];
      CreateOrdered(ns, slot, lhs[0]);
      if |lhs| == 1 then (ns1, |ns|) else AddPath(ns1, 0, Eq(|ns|), lhs[1..])
    else
      assert NodeOrdered(ns, curr);
      if lhs[0] < ns[curr].keysym then AddPath(ns, ns[curr].lokid, Lo(curr), lhs)
      else if lhs[0] > ns[curr].keysym then AddPath(ns, ns[curr].hikid, Hi(curr), lhs)
      else if |lhs| == 1 then (ns, curr)
      else
        OpenOrdered(ns, curr);
        var ns1 := ns[curr := Opened(ns[curr])];
        AddPath(ns1, ns1[curr].payload, Eq(curr), lhs[1..])
  }

  lemma CreateOrdered(ns: seq<Node>, slot: Slot, keysym: nat)
    requires Ordered(ns) && SlotOk(ns, slot)
    ensures Ordered(Write(ns, slot, |ns|) + [NewNode(keysym)])
  {
    var ns1 := Write(ns, slot, |ns|) + [NewNode(keysym)];
    forall i | 1 <= i < |ns1|
      ensures NodeOrdered(ns1, i)
    {
      if i < |ns| {
        assert NodeOrdered(ns, i);
      }
    }
  }

  lemma OpenOrdered(ns: seq<Node>, c: nat)
    requires Ordered(ns) && 1 <= c < |ns|
    ensures Ordered(ns[c := Opened(ns[c])])
    ensures NodeOrdered(ns[c := Opened(ns[c])], c)
  {
    var ns1 := ns[c := Opened(ns[c])];
    forall i | 1 <= i < |ns1|
      ensures NodeOrdered(ns1, i)
    {
      assert NodeOrdered(ns, i);
    }
  }

  // ------------------------------------------------------------------------
  // Adding a leaf

  function LeafAt(ns: seq<Node>, m: nat, utf8: nat, keysym: nat): seq<Node>
    requires m < |ns|
  {
    ns[m := ns[m].(isLeaf := true, utf8 := utf8, payload := keysym)]
  }

  // The nodes after a sequence with its result is added below a slot.
  ghost function Added(ns: seq<Node>, curr: nat, slot: Slot, lhs: seq<nat>, utf8: nat, keysym: nat): seq<Node>
    requires Ordered(ns) && curr < |ns| && SlotOk(ns, slot) && lhs != []
  {
    var (ns1, m) := AddPath(ns, curr, slot, lhs);
    if m < |ns1| then LeafAt(ns1, m, utf8, keysym) else ns1
  }

  predicate AtLeast(j: nat, lo: nat) { j >= lo }

  ghost function NewNodes(lo: nat, hi: nat): set<nat> {
    set j: nat | j < hi && AtLeast(j, lo)
  }

  // The subtree that the slot leads to afterwards.
  function Entry(ns: seq<Node>, curr: nat): nat {
    if curr == 0 then |ns| else curr
  }

  // The current node is the tree that the slot holds, apart from the rest.
  ghost predicate Apart(ns: seq<Node>, curr: nat, slot: Slot)
    requires Ordered(ns) && curr < |ns| && SlotOk(ns, slot)
  {
    && IsTree(ns, curr)
    && (!slot.Start? ==> Holds(ns, slot) == curr && slot.node !in Sub(ns, curr))
  }

  // What adding changes: the subtree, which stays a tree, and the slot.
  ghost predicate Local(ns: seq<Node>, curr: nat, slot: Slot, ns': seq<Node>)
    requires Ordered(ns) && curr < |ns| && SlotOk(ns, slot)
  {
    && |ns| <= |ns'| && Ordered(ns') && Entry(ns, curr) < |ns'|
    && (forall j :: 0 <= j < |ns| && j !in Sub(ns, curr) && (slot.Start? || j != slot.node) ==> ns'[j] == ns[j])
    && (!slot.Start? ==> ns'[slot.node] == Pointed(ns[slot.node], slot, Entry(ns, curr)))
    && IsTree(ns', Entry(ns, curr))
    && Sub(ns', Entry(ns, curr)) <= Sub(ns, curr) + NewNodes(|ns|, |ns'|)
  }

  lemma KidsGiveTree(ns: seq<Node>, c: nat, lo: set<nat>, hi: set<nat>, down: set<nat>)
    requires Ordered(ns) && 1 <= c < |ns| && NodeOrdered(ns, c) && Continues(ns[c])
    requires Sub(ns, ns[c].lokid) <= lo && Sub(ns, ns[c].hikid) <= hi && Sub(ns, Down(ns[c])) <= down
    requires lo !! hi && lo !! down && hi !! down
    requires IsTree(ns, ns[c].lokid) && IsTree(ns, ns[c].hikid) && IsTree(ns, Down(ns[c]))
    ensures IsTree(ns, c) && Sub(ns, c) <= {c} + lo + hi + down
  {
  }

  lemma {:induction false} AddIsLocal(ns: seq<Node>, curr: nat, slot: Slot, lhs: seq<nat>, utf8: nat, keysym: nat)
    requires Ordered(ns) && curr < |ns| && SlotOk(ns, slot) && lhs != []
    requires Apart(ns, curr, slot)
    ensures Local(ns, curr, slot, Added(ns, curr, slot, lhs, utf8, keysym))
    decreases |lhs|, Rank(ns, curr)
  {
    if curr == 0 {
      AddIsLocalNew(ns, slot, lhs, utf8, keysym);
    } else {
      assert NodeOrdered(ns, curr);
      SubBounds(ns, ns[curr].lokid);
      SubBounds(ns, ns[curr].hikid);
      SubBounds(ns, Down(ns[curr]));
      var ns' := Added(ns, curr, slot, lhs, utf8, keysym);
      if lhs[0] < ns[curr].keysym {
        AddIsLocal(ns, ns[curr].lokid, Lo(curr), lhs, utf8, keysym);
        RebuiltLow(ns, curr, slot, ns');
      } else if lhs[0] > ns[curr].keysym {
        AddIsLocal(ns, ns[curr].hikid, Hi(curr), lhs, utf8, keysym);
        RebuiltHigh(ns, curr, slot, ns');
      } else if |lhs| == 1 {
        RebuiltLeaf(ns, curr, slot, utf8, keysym);
      } else {
        var ns1 := ns[curr := Opened(ns[curr])];
        OpenOrdered(ns, curr);
        OpenApart(ns, curr);
        AddIsLocal(ns1, ns1[curr].payload, Eq(curr), lhs[1..], utf8, keysym);
        RebuiltDown(ns, curr, slot, ns1, ns');
      }
    }
  }

  // A change to the left of a node touches nothing to the right of it or below.
  lemma LowFrames(ns: seq<Node>, curr: nat, ns': seq<Node>)
    requires Ordered(ns) && 1 <= curr < |ns| && IsTree(ns, curr) && NodeOrdered(ns, curr)
    requires Local(ns, ns[curr].lokid, Lo(curr), ns')
    ensures AgreeOn(ns, ns', Sub(ns, ns[curr].hikid)) && AgreeOn(ns, ns', Sub(ns, Down(ns[curr])))
    ensures NodeOrdered(ns', curr) && ns'[curr] == ns[curr].(lokid := Entry(ns, ns[curr].lokid))
  {
    SubBounds(ns, ns[curr].hikid);
    SubBounds(ns, Down(ns[curr]));
  }

  lemma HighFrames(ns: seq<Node>, curr: nat, ns': seq<Node>)
    requires Ordered(ns) && 1 <= curr < |ns| && IsTree(ns, curr) && NodeOrdered(ns, curr)
    requires Local(ns, ns[curr].hikid, Hi(curr), ns')
    ensures AgreeOn(ns, ns', Sub(ns, ns[curr].lokid)) && AgreeOn(ns, ns', Sub(ns, Down(ns[curr])))
    ensures NodeOrdered(ns', curr) && ns'[curr] == ns[curr].(hikid := Entry(ns, ns[curr].hikid))
  {
    SubBounds(ns, ns[curr].lokid);
    SubBounds(ns, Down(ns[curr]));
  }

  lemma RebuiltLow(ns: seq<Node>, curr: nat, slot: Slot, ns': seq<Node>)
    requires Ordered(ns) && 1 <= curr < |ns| && SlotOk(ns, slot) && Apart(ns, curr, slot) && NodeOrdered(ns, curr)
    requires Local(ns, ns[curr].lokid, Lo(curr), ns')
    ensures Local(ns, curr, slot, ns')
  {
    LowTree(ns, curr, ns');
    RebuiltNode(ns, curr, slot, ns');
  }

  lemma LowTree(ns: seq<Node>, curr: nat, ns': seq<Node>)
    requires Ordered(ns) && 1 <= curr < |ns| && IsTree(ns, curr) && NodeOrdered(ns, curr)
    requires Local(ns, ns[curr].lokid, Lo(curr), ns')
    ensures IsTree(ns', curr) && Sub(ns', curr) <= Sub(ns, curr) + NewNodes(|ns|, |ns'|)
  {
    var n := ns[curr];
    LowFrames(ns, curr, ns');
    SubBounds(ns, n.hikid);
    SubBounds(ns, Down(n));
    FrameSub(ns, ns', n.hikid);
    FrameSub(ns, ns', Down(n));
    KidsGiveTree(ns', curr, Sub(ns, n.lokid) + NewNodes(|ns|, |ns'|), Sub(ns, n.hikid), Sub(ns, Down(n)));
  }

  lemma RebuiltHigh(ns: seq<Node>, curr: nat, slot: Slot, ns': seq<Node>)
    requires Ordered(ns) && 1 <= curr < |ns| && SlotOk(ns, slot) && Apart(ns, curr, slot) && NodeOrdered(ns, curr)
    requires Local(ns, ns[curr].hikid, Hi(curr), ns')
    ensures Local(ns, curr, slot, ns')
  {
    HighTree(ns, curr, ns');
    RebuiltNode(ns, curr, slot, ns');
  }

  lemma HighTree(ns: seq<Node>, curr: nat, ns': seq<Node>)
    requires Ordered(ns) && 1 <= curr < |ns| && IsTree(ns, curr) && NodeOrdered(ns, curr)
    requires Local(ns, ns[curr].hikid, Hi(curr), ns')
    ensures IsTree(ns', curr) && Sub(ns', curr) <= Sub(ns, curr) + NewNodes(|ns|, |ns'|)
  {
    var n := ns[curr];
    HighFrames(ns, curr, ns');
    SubBounds(ns, n.lokid);
    SubBounds(ns, Down(n));
    FrameSub(ns, ns', n.lokid);
    FrameSub(ns, ns', Down(n));
    KidsGiveTree(ns', curr, Sub(ns, n.lokid), Sub(ns, n.hikid) + NewNodes(|ns|, |ns'|), Sub(ns, Down(n)));
  }

  lemma LeafOrdered(ns: seq<Node>, m: nat, utf8: nat, keysym: nat)
    requires Ordered(ns) && 1 <= m < |ns|
    ensures Ordered(LeafAt(ns, m, utf8, keysym))
  {
    var ns' := LeafAt(ns, m, utf8, keysym);
    forall i | 1 <= i < |ns'|
      ensures NodeOrdered(ns', i)
    {
      assert NodeOrdered(ns, i);
    }
  }

  lemma RebuiltLeaf(ns: seq<Node>, curr: nat, slot: Slot, utf8: nat, keysym: nat)
    requires Ordered(ns) && 1 <= curr < |ns| && SlotOk(ns, slot) && Apart(ns, curr, slot) && NodeOrdered(ns, curr)
    ensures Local(ns, curr, slot, LeafAt(ns, curr, utf8, keysym))
  {
    var n := ns[curr];
    var ns' := LeafAt(ns, curr, utf8, keysym);
    LeafOrdered(ns, curr, utf8, keysym);
    SubBounds(ns, n.lokid);
    SubBounds(ns, n.hikid);
    FrameSub(ns, ns', n.lokid);
    FrameSub(ns, ns', n.hikid);
    assert NodeOrdered(ns', curr);
    KidsGiveTree(ns', curr, Sub(ns, n.lokid), Sub(ns, n.hikid), {});
  }

  // Opening a leaf on the way keeps the rest and its own child apart.
  lemma OpenApart(ns: seq<Node>, curr: nat)
    requires Ordered(ns) && 1 <= curr < |ns| && NodeOrdered(ns, curr) && IsTree(ns, curr)
    requires Ordered(ns[curr := Opened(ns[curr])])
    ensures var ns1 := ns[curr := Opened(ns[curr])];
            && ns1[curr].payload < |ns1| && SlotOk(ns1, Eq(curr))
            && Apart(ns1, ns1[curr].payload, Eq(curr))
            && Sub(ns1, ns1[curr].payload) == Sub(ns, Down(ns[curr]))
  {
    SubBounds(ns, Down(ns[curr]));
    if !ns[curr].isLeaf {
      assert ns[curr := Opened(ns[curr])] == ns;
    }
  }

  lemma RebuiltDown(ns: seq<Node>, curr: nat, slot: Slot, ns1: seq<Node>, ns': seq<Node>)
    requires Ordered(ns) && 1 <= curr < |ns| && SlotOk(ns, slot) && Apart(ns, curr, slot) && NodeOrdered(ns, curr)
    requires ns1 == ns[curr := Opened(ns[curr])] && Ordered(ns1) && ns1[curr].payload < |ns1| && SlotOk(ns1, Eq(curr))
    requires Sub(ns1, ns1[curr].payload) == Sub(ns, Down(ns[curr]))
    requires Local(ns1, ns1[curr].payload, Eq(curr), ns')
    ensures Local(ns, curr, slot, ns')
  {
    DownTree(ns, curr, ns');
    RebuiltNode(ns, curr, slot, ns');
  }

  lemma DownTree(ns: seq<Node>, curr: nat, ns': seq<Node>)
    requires Ordered(ns) && Ordered(ns') && |ns| <= |ns'| && 1 <= curr < |ns| && NodeOrdered(ns, curr)
    requires IsTree(ns, curr)
    requires forall j :: 0 <= j < |ns| && j !in Sub(ns, Down(ns[curr])) && j != curr ==> ns'[j] == ns[j]
    requires var n := ns'[curr];
             && n.lokid == ns[curr].lokid && n.hikid == ns[curr].hikid && !n.isLeaf && 1 <= n.payload < |ns'|
             && IsTree(ns', n.payload) && Sub(ns', n.payload) <= Sub(ns, Down(ns[curr])) + NewNodes(|ns|, |ns'|)
    ensures IsTree(ns', curr) && Sub(ns', curr) <= Sub(ns, curr) + NewNodes(|ns|, |ns'|)
  {
    var n := ns[curr];
    assert NodeOrdered(ns', curr);
    BesideFrames(ns, curr, ns');
    SubBounds(ns, n.lokid);
    SubBounds(ns, n.hikid);
    FrameSub(ns, ns', n.lokid);
    FrameSub(ns, ns', n.hikid);
    KidsGiveTree(ns', curr, Sub(ns, n.lokid), Sub(ns, n.hikid), Sub(ns, Down(n)) + NewNodes(|ns|, |ns'|));
  }

  // A change below a node touches nothing beside it.
  lemma BesideFrames(ns: seq<Node>, curr: nat, ns': seq<Node>)
    requires Ordered(ns) && |ns| <= |ns'| && 1 <= curr < |ns| && NodeOrdered(ns, curr) && IsTree(ns, curr)
    requires forall j :: 0 <= j < |ns| && j !in Sub(ns, Down(ns[curr])) && j != curr ==> ns'[j] == ns[j]
    ensures AgreeOn(ns, ns', Sub(ns, ns[curr].lokid)) && AgreeOn(ns, ns', Sub(ns, ns[curr].hikid))
  {
    SubBounds(ns, ns[curr].lokid);
    SubBounds(ns, ns[curr].hikid);
  }

  // A change within the subtree of a node does not touch the slot above it.
  lemma RebuiltNode(ns: seq<Node>, curr: nat, slot: Slot, ns': seq<Node>)
    requires Ordered(ns) && Ordered(ns') && |ns| <= |ns'| && 1 <= curr < |ns| && SlotOk(ns, slot)
    requires Apart(ns, curr, slot)
    requires forall j :: 0 <= j < |ns| && j !in Sub(ns, curr) ==> ns'[j] == ns[j]
    requires IsTree(ns', curr) && Sub(ns', curr) <= Sub(ns, curr) + NewNodes(|ns|, |ns'|)
    ensures Local(ns, curr, slot, ns')
  {
  }

  lemma {:induction false} AddIsLocalNew(ns: seq<Node>, slot: Slot, lhs: seq<nat>, utf8: nat, keysym: nat)
    requires Ordered(ns) && SlotOk(ns, slot) && lhs != [] && Apart(ns, 0, slot)
    ensures Local(ns, 0, slot, Added(ns, 0, slot, lhs, utf8, keysym))
    decreases |lhs|, 0
  {
    var n := |ns|;
    var ns1 := Write(ns, slot, n) + [NewNode(lhs[0])];
    CreateOrdered(ns, slot, lhs[0]);
    var ns' := Added(ns, 0, slot, lhs, utf8, keysym);
    assert NodeOrdered(ns1, n);
    if |lhs| == 1 {
      LeafOrdered(ns1, n, utf8, keysym);
      NewTree(ns', n, n + 1);
    } else {
      AddIsLocalNew(ns1, Eq(n), lhs[1..], utf8, keysym);
      NewTree(ns', n, n + 1);
    }
  }

  // A new node with at most one child, and only new nodes below it.
  lemma NewTree(ns: seq<Node>, n: nat, next: nat)
    requires Ordered(ns) && 1 <= n < |ns| && ns[n].lokid == ns[n].hikid == 0 && next == n + 1
    requires ns[n].isLeaf || (ns[n].payload == next < |ns| && IsTree(ns, next) && Sub(ns, next) <= NewNodes(next, |ns|))
    ensures IsTree(ns, n) && Sub(ns, n) <= NewNodes(n, |ns|)
  {
    assert NodeOrdered(ns, n);
    KidsGiveTree(ns, n, {}, {}, NewNodes(next, |ns|));
  }

  // ------------------------------------------------------------------------
  // What adding does to lookups

  predicate Comparable(s: seq<nat>, t: seq<nat>) {
    s <= t || t <= s
  }

  predicate SameResult(a: Node, b: Node) {
    a.isLeaf == b.isLeaf && (a.isLeaf ==> a.utf8 == b.utf8 && a.payload == b.payload)
  }

  // The node of the added sequence is a leaf with its result; prefixes and
  // extensions of it have none; all other sequences keep theirs.
  ghost predicate ReachUpdated(ns: seq<Node>, i: nat, ns': seq<Node>, i': nat, lhs: seq<nat>, m: nat, s: seq<nat>)
    requires Ordered(ns) && i < |ns| && Ordered(ns') && i' < |ns'|
  {
    var r, r' := Reach(ns, i, s), Reach(ns', i', s);
    if s == lhs then r' == m
    else if Comparable(s, lhs) then r' != 0 ==> !ns'[r'].isLeaf
    else r' == r && r' != m && (r != 0 ==> r < |ns'| && SameResult(ns[r], ns'[r]))
  }

  ghost predicate IsTarget(ns': seq<Node>, m: nat, utf8: nat, keysym: nat) {
    1 <= m < |ns'| && ns'[m].isLeaf && ns'[m].utf8 == utf8 && ns'[m].payload == keysym
  }

  // What adding a sequence does to the lookup of another below a slot.
  ghost predicate AddUpdates(ns: seq<Node>, curr: nat, slot: Slot, lhs: seq<nat>, utf8: nat, keysym: nat, s: seq<nat>)
    requires Ordered(ns) && curr < |ns| && SlotOk(ns, slot) && lhs != []
  {
    var ns' := Added(ns, curr, slot, lhs, utf8, keysym);
    var m := AddPath(ns, curr, slot, lhs).1;
    && Ordered(ns') && Entry(ns, curr) < |ns'|
    && IsTarget(ns', m, utf8, keysym) && m in Sub(ns', Entry(ns, curr))
    && ReachUpdated(ns, curr, ns', Entry(ns, curr), lhs, m, s)
  }

  lemma {:induction false} AddReach(ns: seq<Node>, curr: nat, slot: Slot, lhs: seq<nat>, utf8: nat, keysym: nat,
                                    s: seq<nat>)
    requires Ordered(ns) && curr < |ns| && SlotOk(ns, slot) && lhs != [] && s != []
    requires Apart(ns, curr, slot)
    ensures AddUpdates(ns, curr, slot, lhs, utf8, keysym, s)
    decreases |lhs|, Rank(ns, curr), 1
  {
    if curr == 0 {
      AddReachNew(ns, slot, lhs, utf8, keysym, s);
    } else {
      assert NodeOrdered(ns, curr);
      if lhs[0] < ns[curr].keysym {
        AddReachLow(ns, curr, slot, lhs, utf8, keysym, s);
      } else if lhs[0] > ns[curr].keysym {
        AddReachHigh(ns, curr, slot, lhs, utf8, keysym, s);
      } else if |lhs| == 1 {
        AddIsLocal(ns, curr, slot, lhs, utf8, keysym);
        ReachLeaf(ns, curr, lhs, utf8, keysym, s);
      } else {
        AddReachDown(ns, curr, slot, lhs, utf8, keysym, s);
      }
    }
  }

  lemma {:induction false} AddReachLow(ns: seq<Node>, curr: nat, slot: Slot, lhs: seq<nat>, utf8: nat, keysym: nat,
                                       s: seq<nat>)
    requires Ordered(ns) && 1 <= curr < |ns| && NodeOrdered(ns, curr) && SlotOk(ns, slot) && lhs != [] && s != []
    requires Apart(ns, curr, slot) && lhs[0] < ns[curr].keysym
    ensures AddUpdates(ns, curr, slot, lhs, utf8, keysym, s)
    decreases |lhs|, Rank(ns, curr), 0
  {
    SubBounds(ns, ns[curr].lokid);
    AddIsLocal(ns, ns[curr].lokid, Lo(curr), lhs, utf8, keysym);
    AddReach(ns, ns[curr].lokid, Lo(curr), lhs, utf8, keysym, s);
    ReachLow(ns, curr, Added(ns, curr, slot, lhs, utf8, keysym), lhs, AddPath(ns, curr, slot, lhs).1, s);
  }

  lemma {:induction false} AddReachHigh(ns: seq<Node>, curr: nat, slot: Slot, lhs: seq<nat>, utf8: nat, keysym: nat,
                                        s: seq<nat>)
    requires Ordered(ns) && 1 <= curr < |ns| && NodeOrdered(ns, curr) && SlotOk(ns, slot) && lhs != [] && s != []
    requires Apart(ns, curr, slot) && lhs[0] > ns[curr].keysym
    ensures AddUpdates(ns, curr, slot, lhs, utf8, keysym, s)
    decreases |lhs|, Rank(ns, curr), 0
  {
    SubBounds(ns, ns[curr].hikid);
    AddIsLocal(ns, ns[curr].hikid, Hi(curr), lhs, utf8, keysym);
    AddReach(ns, ns[curr].hikid, Hi(curr), lhs, utf8, keysym, s);
    ReachHigh(ns, curr, Added(ns, curr, slot, lhs, utf8, keysym), lhs, AddPath(ns, curr, slot, lhs).1, s);
  }

  lemma {:induction false} AddReachDown(ns: seq<Node>, curr: nat, slot: Slot, lhs: seq<nat>, utf8: nat, keysym: nat,
                                        s: seq<nat>)
    requires Ordered(ns) && 1 <= curr < |ns| && NodeOrdered(ns, curr) && SlotOk(ns, slot) && |lhs| > 1 && s != []
    requires Apart(ns, curr, slot) && lhs[0] == ns[curr].keysym
    ensures AddUpdates(ns, curr, slot, lhs, utf8, keysym, s)
    decreases |lhs|, Rank(ns, curr), 0
  {
    var ns1 := ns[curr := Opened(ns[curr])];
    OpenOrdered(ns, curr);
    OpenApart(ns, curr);
    AddIsLocal(ns1, ns1[curr].payload, Eq(curr), lhs[1..], utf8, keysym);
    AddReach(ns1, ns1[curr].payload, Eq(curr), lhs[1..], utf8, keysym, if |s| > 1 then s[1..] else [0]);
    ReachDown(ns, curr, ns1, Added(ns, curr, slot, lhs, utf8, keysym), lhs, AddPath(ns, curr, slot, lhs).1, s);
  }

  lemma ReachLow(ns: seq<Node>, curr: nat, ns': seq<Node>, lhs: seq<nat>, m: nat, s: seq<nat>)
    requires Ordered(ns) && 1 <= curr < |ns| && NodeOrdered(ns, curr) && IsTree(ns, curr) && lhs != [] && s != []
    requires Local(ns, ns[curr].lokid, Lo(curr), ns') && lhs[0] < ns[curr].keysym
    requires m in Sub(ns', Entry(ns, ns[curr].lokid))
    requires ReachUpdated(ns, ns[curr].lokid, ns', Entry(ns, ns[curr].lokid), lhs, m, s)
    ensures ReachUpdated(ns, curr, ns', curr, lhs, m, s)
    ensures m in Sub(ns', curr)
  {
    var n := ns[curr];
    LowFrames(ns, curr, ns');
    SubBounds(ns, n.lokid);
    SubBounds(ns, n.hikid);
    SubBounds(ns, Down(n));
    if s[0] > n.keysym {
      FrameReach(ns, ns', n.hikid, s);
    } else if s[0] == n.keysym && |s| > 1 {
      FrameReach(ns, ns', Down(n), s[1..]);
    }
  }

  lemma ReachHigh(ns: seq<Node>, curr: nat, ns': seq<Node>, lhs: seq<nat>, m: nat, s: seq<nat>)
    requires Ordered(ns) && 1 <= curr < |ns| && NodeOrdered(ns, curr) && IsTree(ns, curr) && lhs != [] && s != []
    requires Local(ns, ns[curr].hikid, Hi(curr), ns') && lhs[0] > ns[curr].keysym
    requires m in Sub(ns', Entry(ns, ns[curr].hikid))
    requires ReachUpdated(ns, ns[curr].hikid, ns', Entry(ns, ns[curr].hikid), lhs, m, s)
    ensures ReachUpdated(ns, curr, ns', curr, lhs, m, s)
    ensures m in Sub(ns', curr)
  {
    var n := ns[curr];
    HighFrames(ns, curr, ns');
    SubBounds(ns, n.lokid);
    SubBounds(ns, n.hikid);
    SubBounds(ns, Down(n));
    if s[0] < n.keysym {
      FrameReach(ns, ns', n.lokid, s);
    } else if s[0] == n.keysym && |s| > 1 {
      FrameReach(ns, ns', Down(n), s[1..]);
    }
  }

  lemma ReachLeaf(ns: seq<Node>, curr: nat, lhs: seq<nat>, utf8: nat, keysym: nat, s: seq<nat>)
    requires Ordered(ns) && 1 <= curr < |ns| && NodeOrdered(ns, curr) && s != []
    requires |lhs| == 1 && lhs[0] == ns[curr].keysym
    requires Ordered(LeafAt(ns, curr, utf8, keysym))
    ensures ReachUpdated(ns, curr, LeafAt(ns, curr, utf8, keysym), curr, lhs, curr, s)
    ensures curr in Sub(LeafAt(ns, curr, utf8, keysym), curr)
  {
    var n, ns' := ns[curr], LeafAt(ns, curr, utf8, keysym);
    assert NodeOrdered(ns', curr);
    SubBounds(ns, n.lokid);
    SubBounds(ns, n.hikid);
    if s[0] < n.keysym {
      FrameReach(ns, ns', n.lokid, s);
    } else if s[0] > n.keysym {
      FrameReach(ns, ns', n.hikid, s);
    } else {
      assert lhs <= s;
    }
  }

  lemma ReachDown(ns: seq<Node>, curr: nat, ns1: seq<Node>, ns': seq<Node>, lhs: seq<nat>, m: nat, s: seq<nat>)
    requires Ordered(ns) && 1 <= curr < |ns| && NodeOrdered(ns, curr) && IsTree(ns, curr)
    requires |lhs| > 1 && lhs[0] == ns[curr].keysym && s != []
    requires ns1 == ns[curr := Opened(ns[curr])] && Ordered(ns1) && ns1[curr].payload < |ns1| && SlotOk(ns1, Eq(curr))
    requires Sub(ns1, ns1[curr].payload) == Sub(ns, Down(ns[curr]))
    requires Local(ns1, ns1[curr].payload, Eq(curr), ns')
    requires m in Sub(ns', Entry(ns1, ns1[curr].payload))
    requires |s| > 1 ==> ReachUpdated(ns1, ns1[curr].payload, ns', Entry(ns1, ns1[curr].payload), lhs[1..], m, s[1..])
    ensures ReachUpdated(ns, curr, ns', curr, lhs, m, s)
    ensures m in Sub(ns', curr)
  {
    assert NodeOrdered(ns', curr);
    assert ns'[curr].lokid == ns[curr].lokid && ns'[curr].hikid == ns[curr].hikid && !ns'[curr].isLeaf;
    if s[0] != ns[curr].keysym {
      ReachBeside(ns, curr, ns', lhs, m, s);
    } else if |s| == 1 {
      assert s <= lhs;
    } else {
      SameHead(s, lhs);
      OpenedReach(ns, curr, ns1, s[1..]);
    }
  }

  lemma SameHead(s: seq<nat>, t: seq<nat>)
    requires s != [] && t != [] && s[0] == t[0]
    ensures Comparable(s, t) == Comparable(s[1..], t[1..])
    ensures (s == t) == (s[1..] == t[1..])
  {
    assert s == [s[0]] + s[1..] && t == [t[0]] + t[1..];
  }

  // Sequences that branch off at a node whose subtree below changed.
  lemma ReachBeside(ns: seq<Node>, curr: nat, ns': seq<Node>, lhs: seq<nat>, m: nat, s: seq<nat>)
    requires Ordered(ns) && Ordered(ns') && |ns| <= |ns'| && 1 <= curr < |ns| && NodeOrdered(ns, curr)
    requires IsTree(ns, curr)
    requires s != [] && lhs != [] && lhs[0] == ns[curr].keysym != s[0]
    requires forall j :: 0 <= j < |ns| && j !in Sub(ns, Down(ns[curr])) && j != curr ==> ns'[j] == ns[j]
    requires var n := ns'[curr];
             && n.keysym == ns[curr].keysym && n.lokid == ns[curr].lokid && n.hikid == ns[curr].hikid && !n.isLeaf
             && n.payload < |ns'| && m in Sub(ns', n.payload)
             && Sub(ns', n.payload) <= Sub(ns, Down(ns[curr])) + NewNodes(|ns|, |ns'|)
    ensures ReachUpdated(ns, curr, ns', curr, lhs, m, s)
  {
    var n := ns[curr];
    assert NodeOrdered(ns', curr);
    var kid := if s[0] < n.keysym then n.lokid else n.hikid;
    assert Sub(ns, kid) !! Sub(ns, Down(n));
    SubBounds(ns, kid);
    SubBounds(ns', ns'[curr].payload);
    FrameReach(ns, ns', kid, s);
    assert Reach(ns, curr, s) == Reach(ns, kid, s) && Reach(ns', curr, s) == Reach(ns', kid, s);
    assert !Comparable(s, lhs);
  }

  // Opening a leaf loses nothing that could be reached below it.
  lemma OpenedReach(ns: seq<Node>, curr: nat, ns1: seq<Node>, s: seq<nat>)
    requires Ordered(ns) && 1 <= curr < |ns| && NodeOrdered(ns, curr)
    requires ns1 == ns[curr := Opened(ns[curr])] && Ordered(ns1) && ns1[curr].payload < |ns1|
    ensures Reach(ns1, ns1[curr].payload, s) == Reach(ns, Down(ns[curr]), s)
    ensures Reach(ns, Down(ns[curr]), s) != curr
  {
    SubBounds(ns, Down(ns[curr]));
    FrameReach(ns, ns1, Down(ns[curr]), s);
  }

  lemma {:induction false} AddReachNew(ns: seq<Node>, slot: Slot, lhs: seq<nat>, utf8: nat, keysym: nat, s: seq<nat>)
    requires Ordered(ns) && SlotOk(ns, slot) && lhs != [] && s != [] && Apart(ns, 0, slot)
    ensures var ns' := Added(ns, 0, slot, lhs, utf8, keysym);
            var m := AddPath(ns, 0, slot, lhs).1;
            && Ordered(ns') && |ns| < |ns'|
            && IsTarget(ns', m, utf8, keysym) && m in Sub(ns', |ns|)
            && ReachUpdated(ns, 0, ns', |ns|, lhs, m, s)
    decreases |lhs|, 0, 1
  {
    var n := |ns|;
    var ns1 := Write(ns, slot, n) + [NewNode(lhs[0])];
    CreateOrdered(ns, slot, lhs[0]);
    var ns' := Added(ns, 0, slot, lhs, utf8, keysym);
    if |lhs| == 1 {
      AddIsLocalNew(ns, slot, lhs, utf8, keysym);
      assert ns'[n] == Node(lhs[0], 0, 0, true, utf8, keysym);
      ReachNewLeaf(ns, ns', n, lhs, s);
    } else {
      assert ns' == Added(ns1, 0, Eq(n), lhs[1..], utf8, keysym);
      AddReachBelowNew(ns, ns1, lhs, utf8, keysym, s);
    }
  }

  lemma {:induction false} AddReachBelowNew(ns: seq<Node>, ns1: seq<Node>, lhs: seq<nat>, utf8: nat, keysym: nat,
                                            s: seq<nat>)
    requires Ordered(ns) && Ordered(ns1) && |ns1| == |ns| + 1 && |lhs| > 1 && s != [] && ns1[|ns|] == NewNode(lhs[0])
    ensures var ns' := Added(ns1, 0, Eq(|ns|), lhs[1..], utf8, keysym);
            var m := AddPath(ns1, 0, Eq(|ns|), lhs[1..]).1;
            && Ordered(ns') && |ns| < |ns'|
            && IsTarget(ns', m, utf8, keysym) && m in Sub(ns', |ns|)
            && ReachUpdated(ns, 0, ns', |ns|, lhs, m, s)
    decreases |lhs|, 0, 0
  {
    var n := |ns|;
    var rest := if |s| > 1 then s[1..] else [0];
    AddReachNew(ns1, Eq(n), lhs[1..], utf8, keysym, rest);
    AddIsLocalNew(ns1, Eq(n), lhs[1..], utf8, keysym);
    var ns' := Added(ns1, 0, Eq(n), lhs[1..], utf8, keysym);
    assert ns'[n] == Pointed(ns1[n], Eq(n), n + 1);
    ReachNewStep(ns, ns', n, lhs, AddPath(ns1, 0, Eq(n), lhs[1..]).1, s);
  }

  lemma ReachNewLeaf(ns: seq<Node>, ns': seq<Node>, n: nat, lhs: seq<nat>, s: seq<nat>)
    requires Ordered(ns) && Ordered(ns') && 1 <= n < |ns'| && |lhs| == 1 && s != []
    requires ns'[n].keysym == lhs[0] && ns'[n].lokid == ns'[n].hikid == 0 && ns'[n].isLeaf
    ensures ReachUpdated(ns, 0, ns', n, lhs, n, s) && n in Sub(ns', n)
  {
    assert NodeOrdered(ns', n);
    if s[0] == lhs[0] {
      assert lhs <= s;
    }
  }

  // Below a new node, only the sequences through its one child are reached.
  lemma ReachNewStep(ns: seq<Node>, ns': seq<Node>, n: nat, lhs: seq<nat>, m: nat, s: seq<nat>)
    requires Ordered(ns) && Ordered(ns') && 1 <= n < n + 1 < |ns'| && |lhs| > 1 && s != []
    requires ns'[n] == Node(lhs[0], 0, 0, false, 0, n + 1) && m in Sub(ns', n + 1)
    requires |s| > 1 ==> ReachUpdated(ns, 0, ns', n + 1, lhs[1..], m, s[1..])
    ensures ReachUpdated(ns, 0, ns', n, lhs, m, s) && m in Sub(ns', n)
  {
    assert NodeOrdered(ns', n);
    SubBounds(ns', n + 1);
    if s[0] == lhs[0] {
      SameHead(s, lhs);
      if |s| == 1 {
        assert s <= lhs;
      }
    }
  }

  // ------------------------------------------------------------------------
  // Adding a path creates no leaf and changes no result.

  ghost predicate LeavesKept(ns: seq<Node>, ns': seq<Node>) {
    && |ns| <= |ns'|
    && (forall j :: 0 <= j < |ns| && ns'[j].isLeaf ==> SameResult(ns[j], ns'[j]))
    && (forall j :: |ns| <= j < |ns'| ==> !ns'[j].isLeaf)
  }

  lemma {:induction false} AddPathKeepsLeaves(ns: seq<Node>, curr: nat, slot: Slot, lhs: seq<nat>)
    requires Ordered(ns) && curr < |ns| && SlotOk(ns, slot) && lhs != []
    ensures var (ns1, m) := AddPath(ns, curr, slot, lhs);
            LeavesKept(ns, ns1) && 1 <= m < |ns1| <= |ns| + |lhs| && Ordered(ns1) && ns1[0] == ns[0]
    decreases |lhs|, Rank(ns, curr)
  {
    if curr == 0 {
      CreateOrdered(ns, slot, lhs[0]);
      if |lhs| > 1 {
        AddPathKeepsLeaves(Write(ns, slot, |ns|) + [NewNode(lhs[0])], 0, Eq(|ns|), lhs[1..]);
      }
    } else {
      assert NodeOrdered(ns, curr);
      if lhs[0] < ns[curr].keysym {
        AddPathKeepsLeaves(ns, ns[curr].lokid, Lo(curr), lhs);
      } else if lhs[0] > ns[curr].keysym {
        AddPathKeepsLeaves(ns, ns[curr].hikid, Hi(curr), lhs);
      } else if |lhs| > 1 {
        OpenOrdered(ns, curr);
        var ns1 := ns[curr := Opened(ns[curr])];
        AddPathKeepsLeaves(ns1, ns1[curr].payload, Eq(curr), lhs[1..]);
      }
    }
  }

  // ------------------------------------------------------------------------
  // Prefixes and extensions

  // The path of a sequence starts with the paths of its prefixes.
  lemma {:induction false} ReachAppend(ns: seq<Node>, i: nat, s: seq<nat>, u: seq<nat>)
    requires Ordered(ns) && i < |ns| && s != [] && u != []
    ensures var r := Reach(ns, i, s);
            Reach(ns, i, s + u) == if r == 0 then 0 else
                                     assert Down(ns[r]) < |ns| by { assert NodeOrdered(ns, r); }
                                     Reach(ns, Down(ns[r]), u)
    decreases Rank(ns, i)
  {
    if i != 0 {
      assert NodeOrdered(ns, i);
      if s[0] < ns[i].keysym {
        ReachAppend(ns, ns[i].lokid, s, u);
      } else if s[0] > ns[i].keysym {
        ReachAppend(ns, ns[i].hikid, s, u);
      } else if |s| == 1 {
        assert (s + u)[1..] == u;
      } else {
        ReachAppend(ns, Down(ns[i]), s[1..], u);
        assert (s + u)[1..] == s[1..] + u;
      }
    }
  }

  lemma {:induction false} ReachedInTree(ns: seq<Node>, i: nat, s: seq<nat>)
    requires Ordered(ns) && i < |ns| && IsTree(ns, i) && Reach(ns, i, s) != 0
    ensures IsTree(ns, Reach(ns, i, s))
    decreases Rank(ns, i)
  {
    assert NodeOrdered(ns, i);
    if s[0] < ns[i].keysym {
      ReachedInTree(ns, ns[i].lokid, s);
    } else if s[0] > ns[i].keysym {
      ReachedInTree(ns, ns[i].hikid, s);
    } else if |s| > 1 {
      ReachedInTree(ns, Down(ns[i]), s[1..]);
    }
  }

  // From every node of a tree some sequence leads to a leaf.
  lemma {:induction false} LeafBelow(ns: seq<Node>, i: nat) returns (u: seq<nat>)
    requires Ordered(ns) && 1 <= i < |ns| && IsTree(ns, i)
    ensures u != [] && Reach(ns, i, u) != 0 && ns[Reach(ns, i, u)].isLeaf
    decreases Rank(ns, i)
  {
    assert NodeOrdered(ns, i);
    if ns[i].isLeaf {
      u := [ns[i].keysym];
    } else {
      var rest := LeafBelow(ns, ns[i].payload);
      u := [ns[i].keysym] + rest;
      assert u[1..] == rest;
    }
  }
}
