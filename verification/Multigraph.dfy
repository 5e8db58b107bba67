// Undirected multigraphs, closed trails, and the forests that certify their
// absence.
module Multigraph {
  import opened Basics

  datatype Edge = Edge(u: nat, v: nat, value: int)

  predicate Joins(e: Edge, a: nat, b: nat) {
    (e.u == a && e.v == b) || (e.u == b && e.v == a)
  }

  // A walk through the vertices `vs`, along the edges with indices `es`.
  ghost predicate IsWalk(g: seq<Edge>, vs: seq<nat>, es: seq<nat>) {
    && |vs| == |es| + 1
    && forall i :: 0 <= i < |es| ==> es[i] < |g| && Joins(g[es[i]], vs[i], vs[i + 1])
  }

  // A walk back to its start that uses no edge twice.  A self-loop is one, and
  // so are two parallel edges.
  ghost predicate IsClosedTrail(g: seq<Edge>, vs: seq<nat>, es: seq<nat>) {
    IsWalk(g, vs, es) && |es| > 0 && Distinct(es) && vs[0] == vs[|es|]
  }

  ghost predicate Cyclic(g: seq<Edge>) {
    exists vs, es :: IsClosedTrail(g, vs, es)
  }

  // A forest in a graph.  `rank` orders its vertices; `via` and `parent` name
  // the edge that attaches a vertex to its tree and the vertex at the other
  // end; `owner` inverts `via`; `root` names the tree.
  datatype Forest = Forest(rank: map<nat, nat>, parent: map<nat, nat>,
                           via: map<nat, nat>, owner: map<nat, nat>, root: map<nat, nat>)

  ghost predicate VertexPlaced(g: seq<Edge>, f: Forest, x: nat) {
    x in f.rank ==>
      && x in f.root && f.root[x] in f.rank && f.rank[f.root[x]] <= f.rank[x]
      && (x in f.via ==> x in f.parent)
      && (if x in f.via then Attached(g, f, x) else f.root[x] == x)
  }

  ghost predicate Attached(g: seq<Edge>, f: Forest, x: nat)
    requires x in f.via && x in f.parent && x in f.rank && x in f.root
  {
    && f.via[x] < |g|
    && f.parent[x] in f.rank && f.rank[f.parent[x]] < f.rank[x]
    && f.parent[x] in f.root && f.root[f.parent[x]] == f.root[x]
    && Joins(g[f.via[x]], f.parent[x], x)
    && f.via[x] in f.owner && f.owner[f.via[x]] == x
  }

  ghost predicate EdgePlaced(f: Forest, e: nat) {
    e in f.owner ==> f.owner[e] in f.rank && f.owner[e] in f.via && f.via[f.owner[e]] == e
  }

  ghost predicate IsForest(g: seq<Edge>, f: Forest) {
    && Injective(f.rank)
    && (forall x {:trigger VertexPlaced(g, f, x)} :: VertexPlaced(g, f, x))
    && (forall e {:trigger EdgePlaced(f, e)} :: EdgePlaced(f, e))
    && f.via.Keys <= f.rank.Keys
  }

  ghost predicate Spans(g: seq<Edge>, f: Forest) {
    forall e :: 0 <= e < |g| ==> e in f.owner
  }

  // A graph all of whose edges are tree edges has no closed trail: around the
  // vertex of highest rank on the trail, both edges would attach it.
  lemma SpannedIsAcyclic(g: seq<Edge>, f: Forest)
    requires IsForest(g, f) && Spans(g, f)
    ensures !Cyclic(g)
  {
    forall vs, es | IsClosedTrail(g, vs, es)
      ensures false
    {
      TrailVerticesRanked(g, f, vs, es);
      var top := HighestOnTrail(f, vs);
      var m := if top == |es| then 0 else top;
      var before := if m == 0 then |es| - 1 else m - 1;
      assert es[m] in f.owner && es[before] in f.owner;
      HigherEndOwns(g, f, es[m], vs[m + 1], vs[m]);
      HigherEndOwns(g, f, es[before], vs[before], vs[m]);
    }
  }

  lemma TrailVerticesRanked(g: seq<Edge>, f: Forest, vs: seq<nat>, es: seq<nat>)
    requires IsForest(g, f) && Spans(g, f)
    requires IsClosedTrail(g, vs, es)
    ensures forall i :: 0 <= i < |vs| ==> vs[i] in f.rank
  {
    forall i | 0 <= i < |vs|
      ensures vs[i] in f.rank
    {
      var k := if i == |es| then i - 1 else i;
      var e := es[k];
      assert Joins(g[e], vs[k], vs[k + 1]);
      assert e in f.owner;
      assert EdgePlaced(f, e);
      assert VertexPlaced(g, f, f.owner[e]);
    }
  }

  lemma HighestOnTrail(f: Forest, vs: seq<nat>) returns (top: nat)
    requires |vs| > 0
    requires forall i :: 0 <= i < |vs| ==> vs[i] in f.rank
    ensures top < |vs|
    ensures forall i :: 0 <= i < |vs| ==> f.rank[vs[i]] <= f.rank[vs[top]]
  {
    top := 0;
    for k := 1 to |vs|
      invariant top < |vs|
      invariant forall i :: 0 <= i < k ==> f.rank[vs[i]] <= f.rank[vs[top]]
    {
      if f.rank[vs[k]] > f.rank[vs[top]] {
        top := k;
      }
    }
  }

  lemma HigherEndOwns(g: seq<Edge>, f: Forest, e: nat, low: nat, high: nat)
    requires IsForest(g, f)
    requires e < |g| && e in f.owner
    requires Joins(g[e], low, high)
    requires low in f.rank && high in f.rank && f.rank[low] <= f.rank[high]
    ensures high in f.via && f.via[high] == e && low != high
  {
    assert EdgePlaced(f, e);
    assert VertexPlaced(g, f, f.owner[e]);
  }

  // Two vertices of one tree are joined by a path of tree edges, none of
  // which attaches a vertex above both.
  lemma {:induction false} TreePath(g: seq<Edge>, f: Forest, a: nat, b: nat, bound: nat)
    returns (vs: seq<nat>, es: seq<nat>)
    requires IsForest(g, f)
    requires a in f.rank && b in f.rank
    requires a in f.root && b in f.root && f.root[a] == f.root[b]
    requires f.rank[a] <= bound && f.rank[b] <= bound
    ensures IsWalk(g, vs, es) && vs[0] == a && vs[|es|] == b
    ensures Distinct(es)
    ensures forall e :: e in es ==> e in f.owner && f.owner[e] in f.rank && f.rank[f.owner[e]] <= bound
    decreases f.rank[a] + f.rank[b]
  {
    if a == b {
      return [a], [];
    }
    var high := if f.rank[a] > f.rank[b] then a else b;
    assert VertexPlaced(g, f, a) && VertexPlaced(g, f, b);
    var below := f.rank[high] - 1;
    if high == a {
      var vs', es' := TreePath(g, f, f.parent[a], b, below);
      vs, es := [a] + vs', [f.via[a]] + es';
    } else {
      var vs', es' := TreePath(g, f, a, f.parent[b], below);
      vs, es := vs' + [b], es' + [f.via[b]];
    }
  }

  // An edge outside the forest between two vertices of one tree closes a
  // trail.
  lemma ChordClosesTrail(g: seq<Edge>, f: Forest, e: nat, a: nat, b: nat)
    requires IsForest(g, f)
    requires a in f.rank && b in f.rank
    requires a in f.root && b in f.root && f.root[a] == f.root[b]
    requires e < |g| && e !in f.owner
    requires Joins(g[e], a, b)
    ensures Cyclic(g)
  {
    var vs, es := TreePath(g, f, a, b, f.rank[a] + f.rank[b]);
    assert IsClosedTrail(g, vs + [a], es + [e]);
  }

  // A vertex becomes the root of a new tree.
  ghost function AddRoot(f: Forest, x: nat): Forest {
    f.(rank := f.rank[x := |f.rank|], root := f.root[x := x])
  }

  // A vertex is attached to a tree by an edge.
  ghost function Attach(f: Forest, x: nat, p: nat, e: nat): Forest
    requires p in f.root
  {
    Forest(f.rank[x := |f.rank|], f.parent[x := p], f.via[x := e], f.owner[e := x],
           f.root[x := f.root[p]])
  }

  // Ranks are handed out in order.
  ghost predicate RanksBelow(f: Forest) {
    forall x :: x in f.rank ==> f.rank[x] < |f.rank|
  }

  ghost predicate Injective(rank: map<nat, nat>) {
    forall x, y :: x in rank && y in rank && rank[x] == rank[y] ==> x == y
  }

  lemma NextRank(rank: map<nat, nat>, x: nat)
    requires x !in rank && Injective(rank) && forall y :: y in rank ==> rank[y] < |rank|
    ensures var rank' := rank[x := |rank|];
            Injective(rank') && |rank'| == |rank| + 1 && forall y :: y in rank' ==> rank'[y] < |rank'|
  {
    assert rank[x := |rank|].Keys == rank.Keys + {x};
  }

  lemma AddRootKeepsForest(g: seq<Edge>, f: Forest, x: nat)
    requires IsForest(g, f) && RanksBelow(f) && x !in f.rank
    ensures IsForest(g, AddRoot(f, x)) && RanksBelow(AddRoot(f, x))
  {
    var f' := AddRoot(f, x);
    NextRank(f.rank, x);
    forall y: nat
      ensures VertexPlaced(g, f', y)
    {
      assert VertexPlaced(g, f, y);
      AddRootPlacesVertex(g, f, x, y);
    }
    forall e: nat
      ensures EdgePlaced(f', e)
    {
      assert EdgePlaced(f, e);
    }
  }

  lemma AddRootPlacesVertex(g: seq<Edge>, f: Forest, x: nat, y: nat)
    requires VertexPlaced(g, f, y) && x !in f.rank && x !in f.via
    ensures VertexPlaced(g, AddRoot(f, x), y)
  {
  }

  lemma AttachKeepsForest(g: seq<Edge>, f: Forest, x: nat, p: nat, e: nat)
    requires IsForest(g, f) && RanksBelow(f) && x !in f.rank && p in f.rank && p in f.root
    requires e < |g| && e !in f.owner && Joins(g[e], p, x)
    ensures IsForest(g, Attach(f, x, p, e)) && RanksBelow(Attach(f, x, p, e))
  {
    var f' := Attach(f, x, p, e);
    NextRank(f.rank, x);
    forall y: nat
      ensures VertexPlaced(g, f', y)
    {
      assert VertexPlaced(g, f, p) && VertexPlaced(g, f, y);
      AttachPlacesVertex(g, f, x, p, e, y);
    }
    forall d: nat
      ensures EdgePlaced(f', d)
    {
      assert EdgePlaced(f, d);
    }
  }

  lemma AttachPlacesVertex(g: seq<Edge>, f: Forest, x: nat, p: nat, e: nat, y: nat)
    requires VertexPlaced(g, f, p) && VertexPlaced(g, f, y)
    requires RanksBelow(f) && x !in f.rank && p in f.rank && p in f.root
    requires e < |g| && e !in f.owner && Joins(g[e], p, x)
    ensures VertexPlaced(g, Attach(f, x, p, e), y)
  {
    assert Attach(f, x, p, e).rank.Keys == f.rank.Keys + {x};
  }
}
