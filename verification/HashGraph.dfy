// The graph of the perfect hash generator: vertices are hash values, each key
// is an edge labelled with the value the key must hash to.  A depth-first
// search both looks for cycles and assigns vertex values whose sums are the
// edge labels.
module HashGraph {
  import opened Basics
  import opened Multigraph
  import opened Words

  datatype Neighbor = Neighbor(vertex: nat, value: int)

  // A vertex waiting on the stack, with the vertex it was reached from.
  datatype Visit = Visit(parent: Option<nat>, vertex: nat)

  // ------------------------------------------------------------------------
  // Adjacency lists.  `ids[v][k]` is the index of the edge that put entry `k`
  // on the list of `v`.

  ghost predicate EntryOk(g: seq<Edge>, adjacent: seq<seq<Neighbor>>, ids: seq<seq<nat>>, v: nat, k: nat)
    requires v < |adjacent| == |ids| && k < |adjacent[v]| == |ids[v]|
  {
    && ids[v][k] < |g|
    && Joins(g[ids[v][k]], v, adjacent[v][k].vertex)
    && g[ids[v][k]].value == adjacent[v][k].value
  }

  ghost predicate EdgeListed(n: nat, g: seq<Edge>, ids: seq<seq<nat>>, e: nat)
    requires e < |g| && |ids| == n
  {
    g[e].u < n && g[e].v < n && e in ids[g[e].u] && e in ids[g[e].v]
  }

  ghost predicate Represents(n: nat, g: seq<Edge>, adjacent: seq<seq<Neighbor>>, ids: seq<seq<nat>>) {
    && |adjacent| == |ids| == n
    && (forall v :: 0 <= v < n ==> |adjacent[v]| == |ids[v]|)
    && (forall v, k {:trigger EntryOk(g, adjacent, ids, v, k)} ::
          0 <= v < n && 0 <= k < |ids[v]| ==> EntryOk(g, adjacent, ids, v, k))
    && (forall v, k, l :: 0 <= v < n && 0 <= k < l < |ids[v]| && ids[v][k] == ids[v][l] ==>
          ids[v][k] < |g| && g[ids[v][k]].u == g[ids[v][k]].v)
    && (forall e {:trigger EdgeListed(n, g, ids, e)} :: 0 <= e < |g| ==> EdgeListed(n, g, ids, e))
  }

  // ------------------------------------------------------------------------
  // The invariants of the search

  ghost predicate Sums(n: nat, a: int, b: int, value: int)
    requires n > 0
  {
    (a + b) % n == value % n
  }

  ghost predicate ValueOk(n: nat, g: seq<Edge>, f: Forest, values: seq<int>, x: nat)
    requires |values| == n
  {
    x in f.rank ==>
      && x < n && 0 <= values[x] < n
      && (x in f.via ==>
            && x in f.parent && f.parent[x] < n && f.via[x] < |g|
            && Sums(n, values[x], values[f.parent[x]], g[f.via[x]].value))
  }

  // The visited vertices form a forest, and its tree edges have their sums.
  ghost predicate SearchOk(n: nat, g: seq<Edge>, f: Forest, visited: seq<bool>, values: seq<int>) {
    && |visited| == |values| == n
    && IsForest(g, f) && RanksBelow(f)
    && (forall v :: 0 <= v < n ==> (visited[v] <==> v in f.rank))
    && (forall x {:trigger ValueOk(n, g, f, values, x)} :: ValueOk(n, g, f, values, x))
  }

  // The pending edges lead from the current tree to unvisited vertices, except
  // for further edges to the vertex being scanned.
  ghost predicate StackEntryOk(n: nat, g: seq<Edge>, f: Forest, stack: seq<Visit>, pending: seq<nat>,
                               root: nat, scanned: Option<nat>, i: nat)
    requires i < |stack| == |pending|
  {
    && stack[i].vertex < n
    && (stack[i].vertex in f.rank ==> scanned == Some(stack[i].vertex))
    && match stack[i].parent
       case None => scanned == None && |stack| == 1 && stack[i].vertex == root && pending[i] == |g|
       case Some(p) =>
         && p in f.rank && p in f.root && f.root[p] == root && p < n
         && pending[i] < |g| && pending[i] !in f.owner
         && Joins(g[pending[i]], p, stack[i].vertex)
  }

  // The topmost stack entry of a vertex determines the value it carries.
  ghost predicate StackValueOk(n: nat, g: seq<Edge>, values: seq<int>, stack: seq<Visit>, pending: seq<nat>,
                               scanned: Option<nat>, i: nat)
    requires i < |stack| == |pending| && |values| == n
  {
    && (forall j :: i < j < |stack| ==> stack[j].vertex != stack[i].vertex)
    && stack[i].vertex < n && scanned != Some(stack[i].vertex)
    ==>
      && 0 <= values[stack[i].vertex] < n
      && (stack[i].parent.Some? && stack[i].parent.value < n && pending[i] < |g| ==>
            Sums(n, values[stack[i].vertex], values[stack[i].parent.value], g[pending[i]].value))
  }

  ghost predicate StackOk(n: nat, g: seq<Edge>, f: Forest, values: seq<int>, stack: seq<Visit>, pending: seq<nat>,
                          root: nat, scanned: Option<nat>)
  {
    && |stack| == |pending| && |values| == n
    && Distinct(pending)
    && (forall i {:trigger StackEntryOk(n, g, f, stack, pending, root, scanned, i)} ::
          0 <= i < |stack| ==> StackEntryOk(n, g, f, stack, pending, root, scanned, i))
    && (forall i {:trigger StackValueOk(n, g, values, stack, pending, scanned, i)} ::
          0 <= i < |stack| ==> StackValueOk(n, g, values, stack, pending, scanned, i))
  }

  // Every edge at a visited vertex, other than the one being scanned, is a
  // tree edge or pending.
  ghost predicate EdgeCovered(g: seq<Edge>, f: Forest, pending: seq<nat>, scanned: Option<nat>, e: nat)
    requires e < |g|
  {
    (g[e].u in f.rank && scanned != Some(g[e].u)) || (g[e].v in f.rank && scanned != Some(g[e].v)) ==>
      e in f.owner || e in pending
  }

  ghost predicate Covered(g: seq<Edge>, f: Forest, pending: seq<nat>, scanned: Option<nat>) {
    forall e {:trigger EdgeCovered(g, f, pending, scanned, e)} ::
      0 <= e < |g| ==> EdgeCovered(g, f, pending, scanned, e)
  }

  // ------------------------------------------------------------------------
  // Taking a vertex off the stack

  lemma SumsOfDifference(n: nat, a: int, b: int, value: int)
    requires n > 0 && a == (value - b) % n
    ensures 0 <= a < n && Sums(n, a, b, value)
  {
    var q, k := (value - b) / n, value / n;
    assert a + b == (k - q) * n + value % n;
    ResidueUnique(a + b, n, k - q, value % n);
  }

  // The forest once the popped vertex is visited.
  ghost function Visited(f: Forest, visit: Visit, e: nat): Forest
    requires visit.parent.Some? ==> visit.parent.value in f.root
  {
    match visit.parent
    case None => AddRoot(f, visit.vertex)
    case Some(p) => Attach(f, visit.vertex, p, e)
  }

  lemma VisitKeepsSearch(n: nat, g: seq<Edge>, f: Forest, visited: seq<bool>, values: seq<int>, visit: Visit, e: nat)
    requires SearchOk(n, g, f, visited, values)
    requires visit.vertex < n && visit.vertex !in f.rank
    requires 0 <= values[visit.vertex] < n
    requires visit.parent.Some? ==>
               && visit.parent.value in f.rank && visit.parent.value in f.root && visit.parent.value < n
               && e < |g| && e !in f.owner && Joins(g[e], visit.parent.value, visit.vertex)
               && Sums(n, values[visit.vertex], values[visit.parent.value], g[e].value)
    ensures SearchOk(n, g, Visited(f, visit, e), visited[visit.vertex := true], values)
  {
    VisitKeepsForest(g, f, visit, e);
    forall x: nat
      ensures ValueOk(n, g, Visited(f, visit, e), values, x)
    {
      assert ValueOk(n, g, f, values, x);
      VisitedValue(n, g, f, values, visit, e, x);
    }
  }

  lemma VisitKeepsForest(g: seq<Edge>, f: Forest, visit: Visit, e: nat)
    requires IsForest(g, f) && RanksBelow(f) && visit.vertex !in f.rank
    requires visit.parent.Some? ==>
               && visit.parent.value in f.rank && visit.parent.value in f.root
               && e < |g| && e !in f.owner && Joins(g[e], visit.parent.value, visit.vertex)
    ensures IsForest(g, Visited(f, visit, e)) && RanksBelow(Visited(f, visit, e))
    ensures Visited(f, visit, e).rank.Keys == f.rank.Keys + {visit.vertex}
  {
    match visit.parent {
      case None => AddRootKeepsForest(g, f, visit.vertex);
      case Some(p) => AttachKeepsForest(g, f, visit.vertex, p, e);
    }
  }

  lemma VisitedValue(n: nat, g: seq<Edge>, f: Forest, values: seq<int>, visit: Visit, e: nat, x: nat)
    requires |values| == n && visit.vertex < n && visit.vertex !in f.rank && visit.vertex !in f.via
    requires ValueOk(n, g, f, values, x)
    requires 0 <= values[visit.vertex] < n
    requires visit.parent.Some? ==>
               && visit.parent.value in f.root && visit.parent.value < n
               && e < |g| && Sums(n, values[visit.vertex], values[visit.parent.value], g[e].value)
    ensures ValueOk(n, g, Visited(f, visit, e), values, x)
  {
  }

  lemma PopKeepsStack(n: nat, g: seq<Edge>, f: Forest, values: seq<int>, stack: seq<Visit>, pending: seq<nat>,
                      root: nat)
    requires |stack| > 0 && StackOk(n, g, f, values, stack, pending, root, None)
    requires stack[|stack| - 1].vertex !in f.rank
    requires stack[|stack| - 1].parent.Some? ==> stack[|stack| - 1].parent.value in f.root
    ensures var top := |stack| - 1;
            StackOk(n, g, Visited(f, stack[top], pending[top]), values, stack[..top], pending[..top], root,
                    Some(stack[top].vertex))
  {
    var top := |stack| - 1;
    var v := stack[top].vertex;
    var f' := Visited(f, stack[top], pending[top]);
    var base, basePending := stack[..top], pending[..top];
    forall i | 0 <= i < top
      ensures StackEntryOk(n, g, f', base, basePending, root, Some(v), i)
      ensures StackValueOk(n, g, values, base, basePending, Some(v), i)
    {
      assert StackEntryOk(n, g, f, stack, pending, root, None, i);
      assert StackValueOk(n, g, values, stack, pending, None, i);
      assert base[i] == stack[i] && basePending[i] == pending[i];
      assert pending[i] != pending[top];
      PopKeepsValue(n, g, values, stack, pending, i);
    }
  }

  lemma PopKeepsValue(n: nat, g: seq<Edge>, values: seq<int>, stack: seq<Visit>, pending: seq<nat>, i: nat)
    requires i < |stack| - 1 && |stack| == |pending| && |values| == n
    requires StackValueOk(n, g, values, stack, pending, None, i)
    ensures StackValueOk(n, g, values, stack[..|stack| - 1], pending[..|stack| - 1], Some(stack[|stack| - 1].vertex), i)
  {
    var base := stack[..|stack| - 1];
    if forall j :: i < j < |base| ==> base[j].vertex != base[i].vertex {
      forall j | i < j < |stack| && stack[i].vertex != stack[|stack| - 1].vertex
        ensures stack[j].vertex != stack[i].vertex
      {
        if j < |base| {
          assert base[j].vertex != base[i].vertex;
        }
      }
    }
  }

  lemma PopKeepsCover(g: seq<Edge>, f: Forest, stack: seq<Visit>, pending: seq<nat>)
    requires |stack| == |pending| > 0
    requires stack[|stack| - 1].parent.Some? ==> stack[|stack| - 1].parent.value in f.root
    requires stack[|stack| - 1].parent.None? ==> pending[|stack| - 1] == |g|
    requires Covered(g, f, pending, None)
    ensures var top := |stack| - 1;
            Covered(g, Visited(f, stack[top], pending[top]), pending[..top], Some(stack[top].vertex))
  {
    var top := |stack| - 1;
    var f' := Visited(f, stack[top], pending[top]);
    forall e | 0 <= e < |g|
      ensures EdgeCovered(g, f', pending[..top], Some(stack[top].vertex), e)
    {
      assert EdgeCovered(g, f, pending, None, e);
      assert pending == pending[..top] + [pending[top]];
    }
  }

  // ------------------------------------------------------------------------
  // Pushing a neighbour

  lemma PushKeepsStack(n: nat, g: seq<Edge>, f: Forest, values: seq<int>, stack: seq<Visit>, pending: seq<nat>,
                       root: nat, v: nat, w: nat, e: nat)
    requires StackOk(n, g, f, values, stack, pending, root, Some(v))
    requires v in f.rank && v in f.root && f.root[v] == root && v < n
    requires w < n && w !in f.rank
    requires e < |g| && e !in f.owner && e !in pending && Joins(g[e], v, w)
    ensures StackOk(n, g, f, values[w := (g[e].value - values[v]) % n],
                    stack + [Visit(Some(v), w)], pending + [e], root, Some(v))
  {
    var values' := values[w := (g[e].value - values[v]) % n];
    var stack', pending' := stack + [Visit(Some(v), w)], pending + [e];
    SumsOfDifference(n, values'[w], values[v], g[e].value);
    forall i | 0 <= i < |stack'|
      ensures StackEntryOk(n, g, f, stack', pending', root, Some(v), i)
      ensures StackValueOk(n, g, values', stack', pending', Some(v), i)
    {
      if i < |stack| {
        assert StackEntryOk(n, g, f, stack, pending, root, Some(v), i);
        assert StackValueOk(n, g, values, stack, pending, Some(v), i);
        PushKeepsValue(n, g, f, values, stack, pending, v, w, e, i);
      }
    }
  }

  lemma PushKeepsValue(n: nat, g: seq<Edge>, f: Forest, values: seq<int>, stack: seq<Visit>, pending: seq<nat>,
                       v: nat, w: nat, e: nat, i: nat)
    requires i < |stack| == |pending| && |values| == n && v < n && w < n && e < |g|
    requires w !in f.rank && stack[i].parent.Some? && stack[i].parent.value in f.rank
    requires StackValueOk(n, g, values, stack, pending, Some(v), i)
    ensures StackValueOk(n, g, values[w := (g[e].value - values[v]) % n],
                         stack + [Visit(Some(v), w)], pending + [e], Some(v), i)
  {
    var stack' := stack + [Visit(Some(v), w)];
    if forall j :: i < j < |stack'| ==> stack'[j].vertex != stack'[i].vertex {
      assert stack'[|stack|].vertex != stack[i].vertex;
      forall j | i < j < |stack|
        ensures stack[j].vertex != stack[i].vertex
      {
        assert stack'[j] == stack[j];
      }
    }
  }

  lemma PushKeepsSearch(n: nat, g: seq<Edge>, f: Forest, visited: seq<bool>, values: seq<int>, w: nat, value: int)
    requires SearchOk(n, g, f, visited, values)
    requires w < n && w !in f.rank
    ensures SearchOk(n, g, f, visited, values[w := value])
  {
    var values' := values[w := value];
    forall x: nat
      ensures ValueOk(n, g, f, values', x)
    {
      assert ValueOk(n, g, f, values, x);
      assert VertexPlaced(g, f, x);
    }
  }

  // ------------------------------------------------------------------------
  // Scanning the neighbours of the vertex just visited

  // The vertex being scanned is the latest one, attached to its parent.
  ghost predicate IsLatest(f: Forest, v: nat, parent: Option<nat>, root: nat) {
    && v in f.rank && f.rank[v] == |f.rank| - 1
    && v in f.root && f.root[v] == root
    && match parent
       case None => v !in f.via
       case Some(p) => v in f.via && v in f.parent && f.parent[v] == p
  }

  lemma VisitedIsLatest(g: seq<Edge>, f: Forest, visit: Visit, e: nat, root: nat)
    requires visit.vertex !in f.rank && visit.vertex !in f.via
    requires match visit.parent
             case None => visit.vertex == root
             case Some(p) => p in f.root && f.root[p] == root
    ensures IsLatest(Visited(f, visit, e), visit.vertex, visit.parent, root)
  {
    assert |f.rank[visit.vertex := |f.rank|]| == |f.rank| + 1;
  }

  // The first `k` entries of the list were pushed, but for one edge to the
  // parent that was skipped.
  ghost predicate ScanOk(f: Forest, list: seq<Neighbor>, ids: seq<nat>, stack: seq<Visit>, pending: seq<nat>,
                         base: nat, v: nat, parent: Option<nat>, k: nat, skipped: Option<nat>)
  {
    && |list| == |ids| && k <= |list| && base <= |stack| == |pending|
    && (match skipped
        case None => forall j :: 0 <= j < k ==> parent != Some(list[j].vertex)
        case Some(s) => s < k && parent == Some(list[s].vertex))
    && (forall j :: 0 <= j < k ==> skipped == Some(j) || (list[j].vertex !in f.rank && ids[j] in pending))
    && (forall i :: 0 <= i < base ==> stack[i].parent != Some(v))
    && (forall i :: base <= i < |pending| ==> pending[i] in ids[..k])
  }

  // An edge to an unvisited neighbour is neither in the forest nor pending.
  lemma FreshEdge(n: nat, g: seq<Edge>, adjacent: seq<seq<Neighbor>>, ids: seq<seq<nat>>, f: Forest, values: seq<int>,
                  stack: seq<Visit>, pending: seq<nat>, root: nat,
                  base: nat, v: nat, parent: Option<nat>, k: nat, skipped: Option<nat>)
    requires v < n && Represents(n, g, adjacent, ids) && k < |adjacent[v]|
    requires IsForest(g, f) && IsLatest(f, v, parent, root)
    requires StackOk(n, g, f, values, stack, pending, root, Some(v))
    requires ScanOk(f, adjacent[v], ids[v], stack, pending, base, v, parent, k, skipped)
    requires adjacent[v][k].vertex !in f.rank
    ensures ids[v][k] !in f.owner && ids[v][k] !in pending
  {
    var e := ids[v][k];
    assert EntryOk(g, adjacent, ids, v, k);
    if e in f.owner {
      OwnedEdgeRanked(g, f, e, v, adjacent[v][k].vertex);
    }
    forall j | 0 <= j < k
      ensures ids[v][j] != e
    {
    }
    forall i | 0 <= i < |pending|
      ensures pending[i] != e
    {
      assert StackEntryOk(n, g, f, stack, pending, root, Some(v), i);
    }
  }

  lemma OwnedEdgeRanked(g: seq<Edge>, f: Forest, e: nat, a: nat, b: nat)
    requires IsForest(g, f) && e in f.owner && e < |g| && Joins(g[e], a, b)
    ensures a in f.rank && b in f.rank && a != b
    ensures f.owner[e] == (if f.rank[a] < f.rank[b] then b else a)
    ensures f.owner[e] in f.via && f.via[f.owner[e]] == e
    ensures f.owner[e] in f.parent && f.parent[f.owner[e]] == (if f.rank[a] < f.rank[b] then a else b)
  {
    assert EdgePlaced(f, e);
    assert VertexPlaced(g, f, f.owner[e]);
  }

  // An edge that is not skipped and leads to a visited vertex closes a trail.
  lemma VisitedNeighborCloses(n: nat, g: seq<Edge>, adjacent: seq<seq<Neighbor>>, ids: seq<seq<nat>>, f: Forest,
                              values: seq<int>, stack: seq<Visit>, pending: seq<nat>, root: nat,
                              base: nat, v: nat, parent: Option<nat>, k: nat, skipped: Option<nat>)
    requires v < n && Represents(n, g, adjacent, ids) && k < |adjacent[v]|
    requires IsForest(g, f) && RanksBelow(f) && IsLatest(f, v, parent, root)
    requires StackOk(n, g, f, values, stack, pending, root, Some(v))
    requires Covered(g, f, pending, Some(v))
    requires ScanOk(f, adjacent[v], ids[v], stack, pending, base, v, parent, k, skipped)
    requires adjacent[v][k].vertex in f.rank
    requires skipped.None? ==> parent != Some(adjacent[v][k].vertex)
    ensures Cyclic(g)
  {
    var e, w := ids[v][k], adjacent[v][k].vertex;
    assert EntryOk(g, adjacent, ids, v, k);
    if e in f.owner {
      OwnedEdgeRanked(g, f, e, v, w);
      assert VertexPlaced(g, f, v);
      var s := skipped.value;
      assert EntryOk(g, adjacent, ids, v, s);
      var d := ids[v][s];
      assert d != e;
      if d in f.owner {
        OwnedEdgeRanked(g, f, d, v, w);
      }
      ChordClosesTrail(g, f, d, v, w);
    } else if w == v {
      ChordClosesTrail(g, f, e, v, v);
    } else {
      assert EdgeCovered(g, f, pending, Some(v), e);
      var i :| 0 <= i < |pending| && pending[i] == e;
      assert StackEntryOk(n, g, f, stack, pending, root, Some(v), i);
      ChordClosesTrail(g, f, e, v, w);
    }
  }

  // A completed scan leaves no further edge to the scanned vertex pending, and
  // covers all its edges.
  lemma ScanComplete(n: nat, g: seq<Edge>, adjacent: seq<seq<Neighbor>>, ids: seq<seq<nat>>, f: Forest,
                     values: seq<int>, stack: seq<Visit>, pending: seq<nat>, root: nat,
                     base: nat, v: nat, parent: Option<nat>, skipped: Option<nat>)
    requires v < n && Represents(n, g, adjacent, ids)
    requires IsForest(g, f) && IsLatest(f, v, parent, root)
    requires StackOk(n, g, f, values, stack, pending, root, Some(v))
    requires Covered(g, f, pending, Some(v))
    requires ScanOk(f, adjacent[v], ids[v], stack, pending, base, v, parent, |adjacent[v]|, skipped)
    ensures StackOk(n, g, f, values, stack, pending, root, None)
    ensures Covered(g, f, pending, None)
  {
    forall i | 0 <= i < |stack|
      ensures StackEntryOk(n, g, f, stack, pending, root, None, i)
      ensures StackValueOk(n, g, values, stack, pending, None, i)
    {
      assert StackEntryOk(n, g, f, stack, pending, root, Some(v), i);
      assert StackValueOk(n, g, values, stack, pending, Some(v), i);
      if stack[i].vertex == v {
        ScannedEdge(n, g, adjacent, ids, f, pending, root, stack, base, v, parent, skipped, pending[i],
                    stack[i].parent.value);
      }
    }
    forall e | 0 <= e < |g|
      ensures EdgeCovered(g, f, pending, None, e)
    {
      assert EdgeCovered(g, f, pending, Some(v), e);
      if Joins(g[e], v, g[e].u) || Joins(g[e], v, g[e].v) {
        var w := if g[e].u == v then g[e].v else g[e].u;
        ScannedEdge(n, g, adjacent, ids, f, pending, root, stack, base, v, parent, skipped, e, w);
      }
    }
  }

  lemma ListedEntry(n: nat, g: seq<Edge>, adjacent: seq<seq<Neighbor>>, ids: seq<seq<nat>>, v: nat, e: nat, w: nat)
    returns (j: nat)
    requires v < n && Represents(n, g, adjacent, ids)
    requires e < |g| && Joins(g[e], v, w)
    ensures j < |ids[v]| && |ids[v]| == |adjacent[v]| && ids[v][j] == e && adjacent[v][j].vertex == w
  {
    assert EdgeListed(n, g, ids, e);
    j :| 0 <= j < |ids[v]| && ids[v][j] == e;
    assert EntryOk(g, adjacent, ids, v, j);
  }

  // After a completed scan, an edge from the scanned vertex to a visited one
  // is the edge that attaches it, and an edge to an unvisited one is pending.
  lemma ScannedEdge(n: nat, g: seq<Edge>, adjacent: seq<seq<Neighbor>>, ids: seq<seq<nat>>, f: Forest,
                    pending: seq<nat>, root: nat, stack: seq<Visit>,
                    base: nat, v: nat, parent: Option<nat>, skipped: Option<nat>, e: nat, w: nat)
    requires v < n && Represents(n, g, adjacent, ids)
    requires IsForest(g, f) && IsLatest(f, v, parent, root)
    requires ScanOk(f, adjacent[v], ids[v], stack, pending, base, v, parent, |adjacent[v]|, skipped)
    requires e < |g| && Joins(g[e], v, w)
    ensures e in f.owner || (w !in f.rank && e in pending)
  {
    var j := ListedEntry(n, g, adjacent, ids, v, e, w);
    if skipped == Some(j) {
      assert VertexPlaced(g, f, v);
      var j0 := ListedEntry(n, g, adjacent, ids, v, f.via[v], f.parent[v]);
      assert skipped == Some(j0);
    } else {
      assert adjacent[v][j].vertex !in f.rank && ids[v][j] in pending;
    }
  }

  // ------------------------------------------------------------------------
  // Results of the search

  // The vertex values at the ends of every edge add up to its value.
  ghost predicate Solves(n: nat, g: seq<Edge>, values: seq<int>) {
    && |values| == n
    && (forall v :: 0 <= v < n ==> 0 <= values[v] < n)
    && (forall e :: 0 <= e < |g| ==> g[e].u < n && g[e].v < n && Sums(n, values[g[e].u], values[g[e].v], g[e].value))
  }

  lemma SearchDone(n: nat, g: seq<Edge>, adjacent: seq<seq<Neighbor>>, ids: seq<seq<nat>>, f: Forest,
                   visited: seq<bool>, values: seq<int>)
    requires Represents(n, g, adjacent, ids)
    requires SearchOk(n, g, f, visited, values) && Covered(g, f, [], None)
    requires VisitedBelow(visited, n)
    ensures !Cyclic(g)
    ensures Solves(n, g, values)
  {
    forall e | 0 <= e < |g|
      ensures e in f.owner
      ensures g[e].u < n && g[e].v < n && Sums(n, values[g[e].u], values[g[e].v], g[e].value)
    {
      assert EdgeListed(n, g, ids, e);
      assert EdgeCovered(g, f, [], None, e);
      assert EdgePlaced(f, e);
      assert VertexPlaced(g, f, f.owner[e]);
      assert ValueOk(n, g, f, values, f.owner[e]);
    }
    forall v | 0 <= v < n
      ensures 0 <= values[v] < n
    {
      assert visited[v];
      assert ValueOk(n, g, f, values, v);
    }
    SpannedIsAcyclic(g, f);
  }

  lemma PushesStart(n: nat, g: seq<Edge>, f: Forest, values: seq<int>, root: nat)
    requires |values| == n && root < n && root !in f.rank && 0 <= values[root] < n
    ensures StackOk(n, g, f, values, [Visit(None, root)], [|g|], root, None)
  {
  }

  // Between two trees: every edge at a visited vertex is a tree edge.
  ghost predicate BetweenTrees(n: nat, g: seq<Edge>, f: Forest, visited: seq<bool>, values: seq<int>) {
    SearchOk(n, g, f, visited, values) && Covered(g, f, [], None)
  }

  ghost predicate InTree(n: nat, g: seq<Edge>, f: Forest, visited: seq<bool>, values: seq<int>,
                         stack: seq<Visit>, pending: seq<nat>, root: nat)
  {
    && SearchOk(n, g, f, visited, values)
    && StackOk(n, g, f, values, stack, pending, root, None)
    && Covered(g, f, pending, None)
  }

  ghost predicate VisitedBelow(visited: seq<bool>, k: nat) {
    k <= |visited| && forall v :: 0 <= v < k ==> visited[v]
  }

  ghost predicate StillVisited(visited0: seq<bool>, visited: seq<bool>) {
    |visited0| == |visited| && forall v :: 0 <= v < |visited0| && visited0[v] ==> visited[v]
  }

  lemma MoreVisited(visited0: seq<bool>, visited: seq<bool>, k: nat)
    requires VisitedBelow(visited0, k) && StillVisited(visited0, visited) && k < |visited| && visited[k]
    ensures VisitedBelow(visited, k + 1)
  {
  }

  ghost function Unvisited(visited: seq<bool>): set<nat> {
    set v: nat | v < |visited| && !visited[v]
  }

  lemma StartTree(n: nat, g: seq<Edge>, f: Forest, visited: seq<bool>, values: seq<int>, root: nat)
    requires BetweenTrees(n, g, f, visited, values) && root < n && !visited[root]
    ensures InTree(n, g, f, visited, values[root := 0], [Visit(None, root)], [|g|], root)
  {
    PushKeepsSearch(n, g, f, visited, values, root, 0);
    PushesStart(n, g, f, values[root := 0], root);
    PushKeepsCover(g, f, [], |g|, None);
    assert [] + [|g|] == [|g|];
  }

  // Everything the scan of the popped vertex relies on.
  lemma PopStep(n: nat, g: seq<Edge>, f: Forest, visited: seq<bool>, values: seq<int>,
                stack: seq<Visit>, pending: seq<nat>, root: nat)
    requires InTree(n, g, f, visited, values, stack, pending, root) && |stack| > 0
    ensures var top := |stack| - 1;
            var visit := stack[top];
            && visit.vertex < n && !visited[visit.vertex]
            && (visit.parent.Some? ==> visit.parent.value in f.root)
            && Unvisited(visited[visit.vertex := true]) < Unvisited(visited)
            && (forall i :: 0 <= i < top ==> stack[..top][i].parent != Some(visit.vertex))
    ensures var top := |stack| - 1;
            var visit := stack[top];
            var f' := Visited(f, visit, pending[top]);
            && SearchOk(n, g, f', visited[visit.vertex := true], values)
            && IsLatest(f', visit.vertex, visit.parent, root)
            && StackOk(n, g, f', values, stack[..top], pending[..top], root, Some(visit.vertex))
            && Covered(g, f', pending[..top], Some(visit.vertex))
  {
    var top := |stack| - 1;
    var visit := stack[top];
    TopIsFresh(n, g, f, visited, values, stack, pending, root);
    assert StackEntryOk(n, g, f, stack, pending, root, None, top);
    assert StackValueOk(n, g, values, stack, pending, None, top);
    VisitKeepsSearch(n, g, f, visited, values, visit, pending[top]);
    VisitedIsLatest(g, f, visit, pending[top], root);
    PopKeepsStack(n, g, f, values, stack, pending, root);
    PopKeepsCover(g, f, stack, pending);
  }

  // The vertex on top of the stack is unvisited, so visiting it is progress.
  lemma TopIsFresh(n: nat, g: seq<Edge>, f: Forest, visited: seq<bool>, values: seq<int>,
                   stack: seq<Visit>, pending: seq<nat>, root: nat)
    requires InTree(n, g, f, visited, values, stack, pending, root) && |stack| > 0
    ensures var top := |stack| - 1;
            var visit := stack[top];
            && visit.vertex < n && !visited[visit.vertex]
            && (visit.parent.Some? ==> visit.parent.value in f.root)
            && Unvisited(visited[visit.vertex := true]) < Unvisited(visited)
            && (forall i :: 0 <= i < top ==> stack[..top][i].parent != Some(visit.vertex))
  {
    var top := |stack| - 1;
    var visit := stack[top];
    assert StackEntryOk(n, g, f, stack, pending, root, None, top);
    forall i | 0 <= i < top
      ensures stack[..top][i].parent != Some(visit.vertex)
    {
      assert StackEntryOk(n, g, f, stack, pending, root, None, i);
    }
    UnvisitedShrinks(visited, visit.vertex);
  }

  lemma UnvisitedShrinks(visited: seq<bool>, v: nat)
    requires v < |visited| && !visited[v]
    ensures Unvisited(visited[v := true]) < Unvisited(visited)
  {
    assert v in Unvisited(visited) && v !in Unvisited(visited[v := true]);
  }

  class Graph {
    const n: nat
    var adjacent: seq<seq<Neighbor>>
    var vertexValues: seq<int>
    ghost var edges: seq<Edge>
    ghost var ids: seq<seq<nat>>

    ghost predicate Valid()
      reads this
    {
      Represents(n, edges, adjacent, ids)
    }

    constructor (size: nat)
      ensures Valid() && n == size && edges == []
    {
      n := size;
      adjacent := seq(size, _ => []);
      ids := seq(size, _ => []);
      edges := [];
      vertexValues := [];
    }

    method Connect(vertex1: nat, vertex2: nat, edgeValue: int)
      requires Valid() && vertex1 < n && vertex2 < n
      modifies `adjacent, `edges, `ids
      ensures Valid()
      ensures edges == old(edges) + [Edge(vertex1, vertex2, edgeValue)]
    {
      ghost var e := |edges|;
      adjacent := adjacent[vertex1 := adjacent[vertex1] + [Neighbor(vertex2, edgeValue)]];
      adjacent := adjacent[vertex2 := adjacent[vertex2] + [Neighbor(vertex1, edgeValue)]];
      edges := edges + [Edge(vertex1, vertex2, edgeValue)];
      ids := ids[vertex1 := ids[vertex1] + [e]];
      ids := ids[vertex2 := ids[vertex2] + [e]];
      ConnectRepresents(n, old(edges), old(adjacent), old(ids), vertex1, vertex2, edgeValue);
    }

    // Look at one neighbour of the vertex just visited: pass over the edge it
    // was reached by, once, and put an unvisited neighbour on the stack.
    method ScanNeighbor(v: nat, parent: Option<nat>, k: nat, visited: seq<bool>, skip0: bool, stack0: seq<Visit>,
                        ghost f: Forest, ghost pending0: seq<nat>, ghost root: nat, ghost base: nat,
                        ghost skipped0: Option<nat>)
      returns (ok: bool, skip: bool, stack: seq<Visit>, ghost pending: seq<nat>, ghost skipped: Option<nat>)
      requires skip0 <==> skipped0.None?
      requires ScanInvariant(n, edges, adjacent, ids, f, visited, vertexValues, stack0, pending0, root, base, v,
                             parent, k, skipped0)
      requires k < |adjacent[v]|
      modifies `vertexValues
      ensures |vertexValues| == n
      ensures !ok ==> Cyclic(edges)
      ensures ok ==>
                && (skip <==> skipped.None?)
                && ScanInvariant(n, edges, adjacent, ids, f, visited, vertexValues, stack, pending, root, base, v,
                                 parent, k + 1, skipped)
    {
      ok, skip, stack, pending, skipped := true, skip0, stack0, pending0, skipped0;
      var neighbor, edgeValue := adjacent[v][k].vertex, adjacent[v][k].value;
      NeighborInRange(n, edges, adjacent, ids, v, k);
      if skip0 && parent == Some(neighbor) {
        ScanSkip(n, edges, adjacent, ids, f, visited, vertexValues, stack, pending, root, base, v, parent, k);
        skip, skipped := false, Some(k);
        return;
      }
      if visited[neighbor] {
        VisitedNeighborCloses(n, edges, adjacent, ids, f, vertexValues, stack, pending, root, base, v, parent, k,
                              skipped);
        ok := false;
        return;
      }
      stack, pending := Push(v, neighbor, edgeValue, stack0, f, visited, pending0, root, base, parent, k, skipped);
    }

    // Put an unvisited neighbour on the stack and give it its value.
    method Push(v: nat, neighbor: nat, edgeValue: int, stack0: seq<Visit>, ghost f: Forest, ghost visited: seq<bool>,
                ghost pending0: seq<nat>, ghost root: nat, ghost base: nat, ghost parent: Option<nat>, ghost k: nat,
                ghost skipped: Option<nat>)
      returns (stack: seq<Visit>, ghost pending: seq<nat>)
      requires ScanInvariant(n, edges, adjacent, ids, f, visited, vertexValues, stack0, pending0, root, base, v,
                             parent, k, skipped)
      requires k < |adjacent[v]| && adjacent[v][k] == Neighbor(neighbor, edgeValue) && neighbor < n
      requires !visited[neighbor]
      requires skipped.None? ==> parent != Some(neighbor)
      modifies `vertexValues
      ensures ScanInvariant(n, edges, adjacent, ids, f, visited, vertexValues, stack, pending, root, base, v, parent,
                            k + 1, skipped)
    {
      ScanPush(n, edges, adjacent, ids, f, visited, vertexValues, stack0, pending0, root, base, v, parent, k, skipped);
      stack, pending := stack0 + [Visit(Some(v), neighbor)], pending0 + [ids[v][k]];
      vertexValues := vertexValues[neighbor := (edgeValue - vertexValues[v]) % n];
    }

    // Scan the neighbours of the vertex just visited.
    method Scan(v: nat, parent: Option<nat>, visited: seq<bool>, base: seq<Visit>,
                ghost f: Forest, ghost basePending: seq<nat>, ghost root: nat)
      returns (ok: bool, stack: seq<Visit>, ghost pending: seq<nat>)
      requires Valid() && v < n
      requires SearchOk(n, edges, f, visited, vertexValues) && IsLatest(f, v, parent, root)
      requires StackOk(n, edges, f, vertexValues, base, basePending, root, Some(v))
      requires Covered(edges, f, basePending, Some(v))
      requires forall i :: 0 <= i < |base| ==> base[i].parent != Some(v)
      modifies `vertexValues
      ensures |vertexValues| == n
      ensures !ok ==> Cyclic(edges)
      ensures ok ==>
                && SearchOk(n, edges, f, visited, vertexValues)
                && StackOk(n, edges, f, vertexValues, stack, pending, root, None)
                && Covered(edges, f, pending, None)
    {
      stack, pending := base, basePending;
      var skip := true;
      ghost var skipped: Option<nat> := None;
      for k := 0 to |adjacent[v]|
        invariant skip <==> skipped.None?
        invariant ScanInvariant(n, edges, adjacent, ids, f, visited, vertexValues, stack, pending, root, |base|, v,
                                parent, k, skipped)
      {
        ok, skip, stack, pending, skipped :=
          ScanNeighbor(v, parent, k, visited, skip, stack, f, pending, root, |base|, skipped);
        if !ok {
          return;
        }
      }
      ScanComplete(n, edges, adjacent, ids, f, vertexValues, stack, pending, root, |base|, v, parent, skipped);
      return true, stack, pending;
    }

    // Take a vertex off the stack and visit it.
    method VisitTop(visited0: seq<bool>, stack0: seq<Visit>, ghost f0: Forest, ghost pending0: seq<nat>,
                    ghost root: nat)
      returns (ok: bool, visited: seq<bool>, stack: seq<Visit>, ghost f: Forest, ghost pending: seq<nat>)
      requires Valid() && stack0 != []
      requires InTree(n, edges, f0, visited0, vertexValues, stack0, pending0, root)
      modifies `vertexValues
      ensures |vertexValues| == n
      ensures !ok ==> Cyclic(edges)
      ensures ok ==> InTree(n, edges, f, visited, vertexValues, stack, pending, root)
      ensures |visited| == n && stack0[|stack0| - 1].vertex < n
      ensures visited == visited0[stack0[|stack0| - 1].vertex := true]
      ensures Unvisited(visited) < Unvisited(visited0)
    {
      var top := |stack0| - 1;
      var visit := stack0[top];
      PopStep(n, edges, f0, visited0, vertexValues, stack0, pending0, root);
      f := Visited(f0, visit, pending0[top]);
      visited := visited0[visit.vertex := true];
      ok, stack, pending := Scan(visit.vertex, visit.parent, visited, stack0[..top], f, pending0[..top], root);
    }

    // Explore the tree of an unvisited root.  Every vertex taken off the stack
    // is unvisited, so the search ends.
    method Explore(root: nat, visited0: seq<bool>, ghost f0: Forest)
      returns (ok: bool, visited: seq<bool>, ghost f: Forest)
      requires Valid() && root < n
      requires BetweenTrees(n, edges, f0, visited0, vertexValues) && !visited0[root]
      modifies `vertexValues
      ensures |vertexValues| == n
      ensures !ok ==> Cyclic(edges)
      ensures ok ==>
                && BetweenTrees(n, edges, f, visited, vertexValues)
                && visited[root] && StillVisited(visited0, visited)
    {
      StartTree(n, edges, f0, visited0, vertexValues, root);
      visited, f := visited0, f0;
      vertexValues := vertexValues[root := 0];
      var stack := [Visit(None, root)];
      ghost var pending: seq<nat> := [|edges|];
      while stack != []
        invariant InTree(n, edges, f, visited, vertexValues, stack, pending, root)
        invariant visited[root] || stack == [Visit(None, root)]
        invariant StillVisited(visited0, visited)
        decreases Unvisited(visited)
      {
        ok, visited, stack, f, pending := VisitTop(visited, stack, f, pending, root);
        if !ok {
          return;
        }
      }
      ok := true;
    }

    // Explore every tree.
    method Search() returns (ok: bool, visited: seq<bool>, ghost f: Forest)
      requires Valid()
      modifies `vertexValues
      ensures !ok ==> Cyclic(edges)
      ensures ok ==> BetweenTrees(n, edges, f, visited, vertexValues) && VisitedBelow(visited, n)
    {
      vertexValues := seq(n, _ => -1);
      visited := seq(n, _ => false);
      f := Forest(map[], map[], map[], map[], map[]);
      NothingVisited(n, edges, visited, vertexValues);
      ok := true;
      for root := 0 to n
        invariant ok && BetweenTrees(n, edges, f, visited, vertexValues) && VisitedBelow(visited, root)
      {
        if !visited[root] {
          ghost var before := visited;
          ok, visited, f := Explore(root, visited, f);
          if !ok {
            return;
          }
          MoreVisited(before, visited, root);
        }
      }
    }

    method AssignVertexValues() returns (ok: bool)
      requires Valid()
      modifies `vertexValues
      ensures ok <==> !Cyclic(edges)
      ensures ok ==> Solves(n, edges, vertexValues)
    {
      var visited;
      ghost var f;
      ok, visited, f := Search();
      if ok {
        SearchDone(n, edges, adjacent, ids, f, visited, vertexValues);
        for vertex := 0 to n {
          assert vertexValues[vertex] >= 0;
        }
      }
    }
  }

  lemma NothingVisited(n: nat, g: seq<Edge>, visited: seq<bool>, values: seq<int>)
    requires |visited| == |values| == n && forall v :: 0 <= v < n ==> !visited[v]
    ensures BetweenTrees(n, g, Forest(map[], map[], map[], map[], map[]), visited, values)
  {
  }

  // What holds after the first `k` neighbours were scanned.
  ghost predicate ScanInvariant(n: nat, g: seq<Edge>, adjacent: seq<seq<Neighbor>>, ids: seq<seq<nat>>, f: Forest,
                                visited: seq<bool>, values: seq<int>, stack: seq<Visit>, pending: seq<nat>, root: nat,
                                base: nat, v: nat, parent: Option<nat>, k: nat, skipped: Option<nat>)
  {
    && v < n && Represents(n, g, adjacent, ids)
    && IsLatest(f, v, parent, root)
    && SearchOk(n, g, f, visited, values)
    && StackOk(n, g, f, values, stack, pending, root, Some(v))
    && Covered(g, f, pending, Some(v))
    && ScanOk(f, adjacent[v], ids[v], stack, pending, base, v, parent, k, skipped)
  }

  lemma NeighborInRange(n: nat, g: seq<Edge>, adjacent: seq<seq<Neighbor>>, ids: seq<seq<nat>>, v: nat, k: nat)
    requires v < n && Represents(n, g, adjacent, ids) && k < |adjacent[v]|
    ensures adjacent[v][k].vertex < n
  {
    assert EntryOk(g, adjacent, ids, v, k);
    assert EdgeListed(n, g, ids, ids[v][k]);
  }

  lemma ScanSkip(n: nat, g: seq<Edge>, adjacent: seq<seq<Neighbor>>, ids: seq<seq<nat>>, f: Forest,
                 visited: seq<bool>, values: seq<int>, stack: seq<Visit>, pending: seq<nat>, root: nat,
                 base: nat, v: nat, parent: Option<nat>, k: nat)
    requires ScanInvariant(n, g, adjacent, ids, f, visited, values, stack, pending, root, base, v, parent, k, None)
    requires k < |adjacent[v]| && parent == Some(adjacent[v][k].vertex)
    ensures ScanInvariant(n, g, adjacent, ids, f, visited, values, stack, pending, root, base, v, parent, k + 1,
                          Some(k))
  {
    assert ids[v][..k + 1] == ids[v][..k] + [ids[v][k]];
  }

  lemma ScanPush(n: nat, g: seq<Edge>, adjacent: seq<seq<Neighbor>>, ids: seq<seq<nat>>, f: Forest,
                 visited: seq<bool>, values: seq<int>, stack: seq<Visit>, pending: seq<nat>, root: nat,
                 base: nat, v: nat, parent: Option<nat>, k: nat, skipped: Option<nat>)
    requires ScanInvariant(n, g, adjacent, ids, f, visited, values, stack, pending, root, base, v, parent, k, skipped)
    requires k < |adjacent[v]| && adjacent[v][k].vertex < n && !visited[adjacent[v][k].vertex]
    requires skipped.None? ==> parent != Some(adjacent[v][k].vertex)
    ensures var w := adjacent[v][k].vertex;
            ScanInvariant(n, g, adjacent, ids, f, visited,
                          values[w := (adjacent[v][k].value - values[v]) % n],
                          stack + [Visit(Some(v), w)], pending + [ids[v][k]],
                          root, base, v, parent, k + 1, skipped)
  {
    var w, e := adjacent[v][k].vertex, ids[v][k];
    assert EntryOk(g, adjacent, ids, v, k);
    FreshEdge(n, g, adjacent, ids, f, values, stack, pending, root, base, v, parent, k, skipped);
    PushKeepsStack(n, g, f, values, stack, pending, root, v, w, e);
    PushKeepsSearch(n, g, f, visited, values, w, (adjacent[v][k].value - values[v]) % n);
    PushKeepsCover(g, f, pending, e, Some(v));
    PushKeepsScan(f, adjacent[v], ids[v], stack, pending, base, v, parent, k, skipped);
  }

  lemma PushKeepsScan(f: Forest, list: seq<Neighbor>, ids: seq<nat>, stack: seq<Visit>, pending: seq<nat>,
                      base: nat, v: nat, parent: Option<nat>, k: nat, skipped: Option<nat>)
    requires ScanOk(f, list, ids, stack, pending, base, v, parent, k, skipped)
    requires k < |list| && list[k].vertex !in f.rank
    requires skipped.None? ==> parent != Some(list[k].vertex)
    ensures ScanOk(f, list, ids, stack + [Visit(Some(v), list[k].vertex)], pending + [ids[k]],
                   base, v, parent, k + 1, skipped)
  {
    assert ids[..k + 1] == ids[..k] + [ids[k]];
  }

  lemma PushKeepsCover(g: seq<Edge>, f: Forest, pending: seq<nat>, e: nat, scanned: Option<nat>)
    requires Covered(g, f, pending, scanned)
    ensures Covered(g, f, pending + [e], scanned)
  {
    forall d | 0 <= d < |g|
      ensures EdgeCovered(g, f, pending + [e], scanned, d)
    {
      assert EdgeCovered(g, f, pending, scanned, d);
    }
  }

  lemma ConnectRepresents(n: nat, g: seq<Edge>, adjacent: seq<seq<Neighbor>>, ids: seq<seq<nat>>, a: nat, b: nat,
                          value: int)
    requires Represents(n, g, adjacent, ids) && a < n && b < n
    ensures var adjacent1 := adjacent[a := adjacent[a] + [Neighbor(b, value)]];
            var ids1 := ids[a := ids[a] + [|g|]];
            Represents(n, g + [Edge(a, b, value)],
                       adjacent1[b := adjacent1[b] + [Neighbor(a, value)]], ids1[b := ids1[b] + [|g|]])
  {
    var g' := g + [Edge(a, b, value)];
    var adjacent1 := adjacent[a := adjacent[a] + [Neighbor(b, value)]];
    var ids1 := ids[a := ids[a] + [|g|]];
    var adjacent2 := adjacent1[b := adjacent1[b] + [Neighbor(a, value)]];
    var ids2 := ids1[b := ids1[b] + [|g|]];
    forall v, k | 0 <= v < n && 0 <= k < |ids2[v]|
      ensures EntryOk(g', adjacent2, ids2, v, k)
    {
      if k < |ids[v]| {
        assert EntryOk(g, adjacent, ids, v, k);
      }
    }
    forall v, k, l | 0 <= v < n && 0 <= k < l < |ids2[v]| && ids2[v][k] == ids2[v][l]
      ensures ids2[v][k] < |g'| && g'[ids2[v][k]].u == g'[ids2[v][k]].v
    {
      assert EntryOk(g', adjacent2, ids2, v, k);
      if k < |ids[v]| {
        assert EntryOk(g, adjacent, ids, v, k);
      }
    }
    forall e | 0 <= e < |g'|
      ensures EdgeListed(n, g', ids2, e)
    {
      if e < |g| {
        assert EdgeListed(n, g, ids, e);
      } else {
        assert ids2[b][|ids1[b]|] == |g|;
        assert ids1[a][|ids[a]|] == |g|;
      }
    }
  }
}
