// Looking up a keysym by name: the generated hash function in C, and the
// case-sensitive search that probes one table entry.
module NameLookup {
  import opened Basics
  import opened PerfectHash
  import opened Words

  datatype NameEntry = NameEntry(name: string, keysym: nat)

  // The tables written to the generated header.  The length of both salts is
  // a power of two in practice; only its being positive matters.
  datatype HashTables = HashTables(t1: string, t2: string, values: seq<nat>)

  predicate ValidTables(h: HashTables) {
    && |h.t1| == |h.t2| > 0
    && |h.values| > 0
  }

  const SIZE_BITS: nat := 64

  // One salted sum, accumulated in a `size_t`.
  function WrappedSum(signedChar: bool, salt: string, key: string): (h: nat)
    requires |salt| > 0
    ensures h < Pow2(SIZE_BITS)
  {
    if key == [] then 0
    else
      var i := |key| - 1;
      (WrappedSum(signedChar, salt, key[..i])
       + (CharValue(signedChar, salt[i % |salt|]) * CharValue(signedChar, key[i])) % Pow2(SIZE_BITS))
      % Pow2(SIZE_BITS)
  }

  function ProbeOf(signedChar: bool, h: HashTables, key: string): nat
    requires ValidTables(h)
  {
    var n := |h.values|;
    (h.values[WrappedSum(signedChar, h.t1, key) % n] + h.values[WrappedSum(signedChar, h.t2, key) % n]) % n
  }

  method PerfectHashOf(signedChar: bool, h: HashTables, key: string) returns (pos: nat)
    requires ValidTables(h)
    ensures pos == ProbeOf(signedChar, h, key)
  {
    var h1, h2 := 0, 0;
    for i := 0 to |key|
      invariant h1 == WrappedSum(signedChar, h.t1, key[..i])
      invariant h2 == WrappedSum(signedChar, h.t2, key[..i])
    {
      assert key[..i + 1][..i] == key[..i];
      var c := CharValue(signedChar, key[i]);
      h1 := (h1 + (CharValue(signedChar, h.t1[i % |h.t1|]) * c) % Pow2(SIZE_BITS)) % Pow2(SIZE_BITS);
      h2 := (h2 + (CharValue(signedChar, h.t2[i % |h.t2|]) * c) % Pow2(SIZE_BITS)) % Pow2(SIZE_BITS);
    }
    assert key[..|key|] == key;
    pos := (h.values[h1 % |h.values|] + h.values[h2 % |h.values|]) % |h.values|;
  }

  // ------------------------------------------------------------------------
  // The C function agrees with the generator on the keys of the table.

  predicate IsAscii(s: string) {
    forall i :: 0 <= i < |s| ==> (s[i] as int) < 128
  }

  lemma SaltIsAscii(salt: string)
    requires IsSalt(salt)
    ensures IsAscii(salt)
  {
    forall i | 0 <= i < |salt|
      ensures (salt[i] as int) < 128
    {
      assert IsSaltChar(salt[i]);
    }
  }

  // Nothing wraps for ASCII keys that fit in memory.
  lemma {:induction false} WrappedSumExact(signedChar: bool, salt: string, key: string)
    requires IsAscii(salt) && IsAscii(key) && |key| <= |salt| && |salt| > 0
    requires |key| < 0x1_0000_0000
    ensures WrappedSum(signedChar, salt, key) == SaltedSum(salt, key) <= 16129 * |key|
  {
    Pow2Of64();
    if key != [] {
      var i := |key| - 1;
      WrappedSumExact(signedChar, salt, key[..i]);
      var a, b := salt[i] as nat, key[i] as nat;
      assert CharValue(signedChar, salt[i]) == a && CharValue(signedChar, key[i]) == b;
      ProductBound(a, b);
      ResidueUnique(i, |salt|, 0, i);
      ResidueUnique(a * b, Pow2(SIZE_BITS), 0, a * b);
      ResidueUnique(SaltedSum(salt, key[..i]) + a * b, Pow2(SIZE_BITS), 0, SaltedSum(salt, key[..i]) + a * b);
    }
  }

  lemma ProductBound(a: nat, b: nat)
    requires a < 128 && b < 128
    ensures 0 <= a * b <= 16129
  {
    assert a * b <= 127 * b;
  }

  lemma Pow2Of64()
    ensures Pow2(SIZE_BITS) == 0x1_0000_0000_0000_0000
  {
    assert Pow2(8) == 256;
    Pow2Split(8, 16);
    Pow2Split(16, 32);
    Pow2Split(32, 64);
  }

  // The header holds what the generator produced for the names of the table.
  // Vertex values are stored in 16 bits.
  ghost predicate GeneratedFor(table: seq<NameEntry>, h: HashTables) {
    && ValidTables(h) && |h.values| <= 0x1_0000
    && (forall i :: 0 <= i < |table| ==> IsAscii(table[i].name) && |table[i].name| < 0x1_0000_0000)
    && IsPerfect(seq(|table|, i requires 0 <= i < |table| => table[i].name), h.t1, h.t2, h.values)
  }

  lemma TableNameFound(signedChar: bool, table: seq<NameEntry>, h: HashTables, i: nat)
    requires GeneratedFor(table, h) && i < |table|
    ensures ProbeOf(signedChar, h, table[i].name) == i
  {
    var keys := seq(|table|, i requires 0 <= i < |table| => table[i].name);
    assert keys[i] == table[i].name;
    SaltIsAscii(h.t1);
    SaltIsAscii(h.t2);
    WrappedSumExact(signedChar, h.t1, keys[i]);
    WrappedSumExact(signedChar, h.t2, keys[i]);
  }

  // ------------------------------------------------------------------------
  // The lookup

  // The reference: search the whole table for the name.
  function LinearSearch(table: seq<NameEntry>, name: string): (r: Option<nat>)
    ensures r.Some? <==> exists i :: 0 <= i < |table| && table[i].name == name
    ensures r.Some? ==> exists i :: 0 <= i < |table| && table[i] == NameEntry(name, r.value)
  {
    if table == [] then None
    else if table[0].name == name then Some(table[0].keysym)
    else
      var rest := LinearSearch(table[1..], name);
      assert forall i :: 0 <= i < |table[1..]| ==> table[1..][i] == table[i + 1];
      rest
  }

  // One probe and one comparison find what a search of the table finds, for
  // names in the table and for all other strings.
  method ExactLookup(signedChar: bool, table: seq<NameEntry>, h: HashTables, name: string) returns (r: Option<nat>)
    requires GeneratedFor(table, h)
    ensures r == LinearSearch(table, name)
  {
    var pos := PerfectHashOf(signedChar, h, name);
    r := None;
    if pos < |table| {
      var s := table[pos].name;
      if name == s {
        r := Some(table[pos].keysym);
      }
    }
    ProbeDecides(signedChar, table, h, name);
  }

  lemma ProbeDecides(signedChar: bool, table: seq<NameEntry>, h: HashTables, name: string)
    requires GeneratedFor(table, h)
    ensures var pos := ProbeOf(signedChar, h, name);
            LinearSearch(table, name) ==
            if pos < |table| && table[pos].name == name then Some(table[pos].keysym) else None
  {
    var found := LinearSearch(table, name);
    if found.Some? {
      var i :| 0 <= i < |table| && table[i] == NameEntry(name, found.value);
      TableNameFound(signedChar, table, h, i);
    }
  }
}
