// The perfect hash generator: two salted hash functions map each key to an
// edge of a graph, and an acyclic graph yields vertex values that make key
// number i hash to i.  The generated lookup then needs one probe and one
// string comparison.
module PerfectHash {
  import opened Basics
  import opened HashGraph
  import opened Multigraph
  import opened Words

  // ASCII letters and digits.
  predicate IsSaltChar(c: char) {
    'a' <= c <= 'z' || 'A' <= c <= 'Z' || '0' <= c <= '9'
  }

  const MIN_SALT: nat := 32
  const TRIALS: nat := 150

  // ------------------------------------------------------------------------
  // Salted hash functions

  function SaltedSum(salt: string, key: string): nat
    requires |key| <= |salt|
  {
    if key == [] then 0
    else
      var last := |key| - 1;
      SaltedSum(salt, key[..last]) + (salt[last] as nat) * (key[last] as nat)
  }

  // More salt does not change the hash of a key that had enough.
  lemma {:induction false} SaltedSumStable(salt: string, more: string, key: string)
    requires |key| <= |salt| && salt <= more
    ensures SaltedSum(more, key) == SaltedSum(salt, key)
  {
    if key != [] {
      SaltedSumStable(salt, more, key[..|key| - 1]);
    }
  }

  predicate IsSalt(salt: string) {
    forall i :: 0 <= i < |salt| ==> IsSaltChar(salt[i])
  }

  class StrSaltHash {
    const n: nat
    var salt: string

    constructor (size: nat)
      ensures n == size && salt == ""
    {
      n := size;
      salt := "";
    }

    // Hash a key, adding random salt when the key is longer than the salt.
    method Call(key: string) returns (h: nat)
      requires n > 0 && IsSalt(salt)
      modifies this
      ensures old(salt) <= salt && IsSalt(salt)
      ensures |salt| == Max(|old(salt)|, Max(|key|, MIN_SALT))
      ensures h == SaltedSum(salt, key) % n
    {
      while |salt| < Max(|key|, MIN_SALT)
        invariant old(salt) <= salt && IsSalt(salt)
        invariant |salt| <= Max(|old(salt)|, Max(|key|, MIN_SALT))
      {
        assert IsSaltChar('a');
        var c: char :| IsSaltChar(c);
        salt := salt + [c];
      }
      var sum := 0;
      for i := 0 to |key|
        invariant sum == SaltedSum(salt, key[..i])
      {
        assert key[..i + 1][..i] == key[..i];
        sum := sum + (salt[i] as nat) * (key[i] as nat);
      }
      assert key[..|key|] == key;
      h := sum % n;
    }
  }

  // ------------------------------------------------------------------------
  // The generator

  // The sum of the vertex values at two hashes.
  function HashOf(values: seq<int>, h1: nat, h2: nat): int
    requires |values| > 0
  {
    (values[h1 % |values|] + values[h2 % |values|]) % |values|
  }

  // The two hash functions and the vertex values send key number i to i.
  ghost predicate IsPerfect(keys: seq<string>, salt1: string, salt2: string, values: seq<int>) {
    && IsSalt(salt1) && IsSalt(salt2) && |salt1| == |salt2|
    && |values| > 0 && (forall v :: 0 <= v < |values| ==> 0 <= values[v] < |values|)
    && (forall i :: 0 <= i < |keys| ==>
          && |keys[i]| <= |salt1|
          && HashOf(values, SaltedSum(salt1, keys[i]), SaltedSum(salt2, keys[i])) == i)
  }

  datatype Generated =
    | Hash(salt1: string, salt2: string, values: seq<int>)
    | DuplicateKeys
    | TooManyIterations

  ghost function KeyEdge(salt1: string, salt2: string, n: nat, key: string, i: nat): Edge
    requires n > 0 && |key| <= |salt1| && |key| <= |salt2|
  {
    Edge(SaltedSum(salt1, key) % n, SaltedSum(salt2, key) % n, i)
  }

  ghost predicate EdgesOfKeys(keys: seq<string>, salt1: string, salt2: string, n: nat, g: seq<Edge>)
    requires n > 0
  {
    && |g| <= |keys|
    && forall i :: 0 <= i < |g| ==>
         |keys[i]| <= |salt1| && |keys[i]| <= |salt2| && g[i] == KeyEdge(salt1, salt2, n, keys[i], i)
  }

  lemma EdgesKeptBySalt(keys: seq<string>, salt1: string, salt2: string, more1: string, more2: string, n: nat,
                        g: seq<Edge>)
    requires n > 0 && EdgesOfKeys(keys, salt1, salt2, n, g)
    requires salt1 <= more1 && salt2 <= more2
    ensures EdgesOfKeys(keys, more1, more2, n, g)
  {
    forall i | 0 <= i < |g|
      ensures g[i] == KeyEdge(more1, more2, n, keys[i], i)
    {
      SaltedSumStable(salt1, more1, keys[i]);
      SaltedSumStable(salt2, more2, keys[i]);
    }
  }

  lemma SolvedIsPerfect(keys: seq<string>, salt1: string, salt2: string, n: nat, g: seq<Edge>, values: seq<int>)
    requires n > |keys| == |g| && EdgesOfKeys(keys, salt1, salt2, n, g)
    requires IsSalt(salt1) && IsSalt(salt2) && |salt1| == |salt2|
    requires Solves(n, g, values)
    ensures IsPerfect(keys, salt1, salt2, values)
  {
    forall i | 0 <= i < |keys|
      ensures |keys[i]| <= |salt1|
      ensures (values[SaltedSum(salt1, keys[i]) % n] + values[SaltedSum(salt2, keys[i]) % n]) % n == i
    {
      assert g[i] == KeyEdge(salt1, salt2, n, keys[i], i);
      assert Sums(n, values[g[i].u], values[g[i].v], g[i].value);
      ResidueUnique(i, n, 0, i);
    }
  }

  // A trial, with the graph of the keys.
  datatype Trial = Trial(n: nat, salt1: string, salt2: string, edges: seq<Edge>)

  ghost predicate IsTrial(keys: seq<string>, t: Trial) {
    t.n > |keys| == |t.edges| && EdgesOfKeys(keys, t.salt1, t.salt2, t.n, t.edges)
  }

  // One trial: hash the keys, connect the graph, look for vertex values.  It
  // succeeds exactly when the graph has no cycle.
  method Try(keys: seq<string>, n: nat)
    returns (ok: bool, f1: StrSaltHash, f2: StrSaltHash, values: seq<int>, ghost t: Trial)
    requires n > |keys|
    ensures fresh(f1) && fresh(f2) && f1 != f2
    ensures IsTrial(keys, t) && t.n == n && t.salt1 == f1.salt && t.salt2 == f2.salt
    ensures ok <==> !Cyclic(t.edges)
    ensures ok ==> f1.n == f2.n == n && IsPerfect(keys, f1.salt, f2.salt, values) && |values| == n
  {
    var graph := new Graph(n);
    f1 := new StrSaltHash(n);
    f2 := new StrSaltHash(n);
    for i := 0 to |keys|
      invariant graph.Valid() && fresh(graph) && graph.n == n && |graph.edges| == i
      invariant fresh(f1) && fresh(f2) && f1.n == n && f2.n == n && f1 != f2
      invariant IsSalt(f1.salt) && IsSalt(f2.salt) && |f1.salt| == |f2.salt|
      invariant EdgesOfKeys(keys, f1.salt, f2.salt, n, graph.edges)
    {
      ghost var before1, before2 := f1.salt, f2.salt;
      var h1 := f1.Call(keys[i]);
      var h2 := f2.Call(keys[i]);
      EdgesKeptBySalt(keys, before1, before2, f1.salt, f2.salt, n, graph.edges);
      graph.Connect(h1, h2, i);
    }
    ok := graph.AssignVertexValues();
    values := graph.vertexValues;
    t := Trial(n, f1.salt, f2.salt, graph.edges);
    if ok {
      SolvedIsPerfect(keys, f1.salt, f2.salt, n, graph.edges, values);
    }
  }

  predicate HasDuplicates(keys: seq<string>) {
    exists i, j :: 0 <= i < j < |keys| && keys[i] == keys[j]
  }

  // How many more trials fit before the graph grows.
  function TrialsLeft(trial: nat): (left: nat)
  {
    if trial > 0 && trial % TRIALS == 0 then 0 else TRIALS - trial % TRIALS
  }

  // The graph grows by a twentieth, and by at least one vertex.
  function Grown(n: nat): nat {
    Max(n + 1, 105 * n / 100)
  }

  // The number of vertices after so many rounds of trials.
  function SizeAfter(n: nat, rounds: nat): nat {
    if rounds == 0 then n else Grown(SizeAfter(n, rounds - 1))
  }

  // The trials all failed, each on the graph of the keys with as many vertices
  // as its round has.
  ghost predicate AllFailed(keys: seq<string>, trials: seq<Trial>) {
    forall k :: 0 <= k < |trials| ==>
      IsTrial(keys, trials[k]) && Cyclic(trials[k].edges) && trials[k].n == SizeAfter(|keys| + 1, k / TRIALS)
  }

  // The ghost list holds the trials that failed.
  method GenerateHash(keys: seq<string>) returns (r: Generated, ghost trials: seq<Trial>)
    ensures r.DuplicateKeys? <==> HasDuplicates(keys)
    ensures r.Hash? ==> IsPerfect(keys, r.salt1, r.salt2, r.values)
                        && |keys| < |r.values| <= 100 * (|keys| + 1)
                        && |r.values| == SizeAfter(|keys| + 1, |trials| / TRIALS)
    ensures AllFailed(keys, trials)
    ensures r.TooManyIterations? ==>
              |trials| >= TRIALS && |trials| % TRIALS == 0
              && SizeAfter(|keys| + 1, |trials| / TRIALS) > 100 * (|keys| + 1)
    ensures keys == [] ==> r.Hash? && trials == []
  {
    trials := [];
    if HasDuplicates(keys) {
      return DuplicateKeys, [];
    }
    var limit := 100 * (|keys| + 1);
    var n := |keys| + 1;
    var trial := 0;
    while true
      invariant |keys| < n <= limit && |trials| == trial && AllFailed(keys, trials)
      invariant n == SizeAfter(|keys| + 1, Rounds(trial)) && (keys == [] ==> trial == 0)
      decreases limit - n, TrialsLeft(trial)
    {
      if trial % TRIALS == 0 && trial > 0 {
        n := Grown(n);
      } else {
        TrialsRunOut(trial);
      }
      RoundsNext(trial);
      trial := trial + 1;
      if n > limit {
        return TooManyIterations, trials;
      }
      var ok, f1, f2, values;
      ghost var t;
      ok, f1, f2, values, t := Try(keys, n);
      if ok {
        SelfTest(keys, f1, f2, n, values);
        return Hash(f1.salt, f2.salt, values), trials;
      }
      NoEdgesAcyclic(t.edges);
      trials := trials + [t];
    }
  }

  // The rounds begun before a trial: a round begins with its first trial.
  function Rounds(trial: nat): nat {
    if trial == 0 then 0 else (trial - 1) / TRIALS
  }

  lemma RoundsNext(trial: nat)
    ensures trial / TRIALS == if trial % TRIALS == 0 && trial > 0 then Rounds(trial) + 1 else Rounds(trial)
    ensures Rounds(trial + 1) == trial / TRIALS
  {
  }

  lemma NoEdgesAcyclic(g: seq<Edge>)
    requires Cyclic(g)
    ensures g != []
  {
    var vs, es :| IsClosedTrail(g, vs, es);
    assert es[0] < |g|;
  }

  lemma TrialsRunOut(trial: nat)
    requires trial == 0 || trial % TRIALS != 0
    ensures TrialsLeft(trial + 1) < TrialsLeft(trial)
  {
  }

  // Every key hashes to its number.
  method SelfTest(keys: seq<string>, f1: StrSaltHash, f2: StrSaltHash, n: nat, values: seq<int>)
    requires IsPerfect(keys, f1.salt, f2.salt, values) && f1 != f2 && f1.n == f2.n == n == |values|
    modifies f1, f2
    ensures IsPerfect(keys, f1.salt, f2.salt, values)
  {
    for i := 0 to |keys|
      invariant IsPerfect(keys, f1.salt, f2.salt, values)
    {
      ghost var before1, before2 := f1.salt, f2.salt;
      var h1 := f1.Call(keys[i]);
      var h2 := f2.Call(keys[i]);
      PerfectKeptBySalt(keys, before1, before2, f1.salt, f2.salt, values);
      assert i == (values[h1] + values[h2]) % n;
    }
  }

  lemma PerfectKeptBySalt(keys: seq<string>, salt1: string, salt2: string, more1: string, more2: string,
                          values: seq<int>)
    requires IsPerfect(keys, salt1, salt2, values)
    requires salt1 <= more1 && salt2 <= more2 && |more1| == |more2| && IsSalt(more1) && IsSalt(more2)
    ensures IsPerfect(keys, more1, more2, values)
  {
    forall i | 0 <= i < |keys|
      ensures |keys[i]| <= |more1|
      ensures HashOf(values, SaltedSum(more1, keys[i]), SaltedSum(more2, keys[i])) == i
    {
      SaltedSumStable(salt1, more1, keys[i]);
      SaltedSumStable(salt2, more2, keys[i]);
    }
  }
}
