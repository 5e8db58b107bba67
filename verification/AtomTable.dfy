// The atom table: an insert-only, linear-probing hash table from strings to
// atoms.  Atom j is entry j of an array of strings; slot 0 of the hash index
// is never used and atom 0 means "none".
module AtomTable {
  import opened Basics
  import opened Words

  const SIZE_BITS: nat := 64

  // Hashes, atoms and the number of strings are 32-bit.
  const ATOM_LIMIT: nat := 0x1_0000_0000

  // ------------------------------------------------------------------------
  // The map that the table implements: strings[0] stands for no string, and
  // the other strings are distinct.

  ghost predicate IsAtomList(strings: seq<string>) {
    && |strings| >= 1
    && forall i, j :: 1 <= i < j < |strings| ==> strings[i] != strings[j]
  }

  // The atom of a string, or 0.
  function AtomOf(strings: seq<string>, s: string): (atom: nat)
    requires |strings| >= 1
    ensures atom < |strings|
    ensures atom != 0 ==> strings[atom] == s
    ensures atom == 0 ==> forall j :: 1 <= j < |strings| ==> strings[j] != s
  {
    if |strings| == 1 then 0
    else if strings[|strings| - 1] == s then |strings| - 1
    else AtomOf(strings[..|strings| - 1], s)
  }

  // What an interning call does to the strings, and its result.
  function Interned(strings: seq<string>, s: string, add: bool): (r: (seq<string>, nat))
    requires |strings| >= 1
  {
    var atom := AtomOf(strings, s);
    if atom != 0 || !add then (strings, atom) else (strings + [s], |strings|)
  }

  datatype Call = Call(s: string, add: bool)

  // The strings after a run of calls.
  function After(strings: seq<string>, calls: seq<Call>): (r: seq<string>)
    requires |strings| >= 1
    ensures |r| >= 1
  {
    if calls == [] then strings
    else
      var last := |calls| - 1;
      Interned(After(strings, calls[..last]), calls[last].s, calls[last].add).0
  }

  // The result of call number k of a run.
  function Result(strings: seq<string>, calls: seq<Call>, k: nat): nat
    requires |strings| >= 1 && k < |calls|
  {
    Interned(After(strings, calls[..k]), calls[k].s, calls[k].add).1
  }

  lemma {:induction false} RunExtends(strings: seq<string>, calls: seq<Call>, k: nat)
    requires IsAtomList(strings) && k <= |calls|
    ensures IsAtomList(After(strings, calls))
    ensures After(strings, calls[..k]) <= After(strings, calls)
    decreases |calls|
  {
    if k == |calls| {
      assert calls[..k] == calls;
    }
    if |calls| > 0 {
      var last := |calls| - 1;
      RunExtends(strings, calls[..last], Min(k, last));
      InternExtends(After(strings, calls[..last]), calls[last]);
      if k <= last {
        assert calls[..last][..k] == calls[..k];
      }
    }
  }

  lemma InternExtends(strings: seq<string>, call: Call)
    requires IsAtomList(strings)
    ensures var r := Interned(strings, call.s, call.add).0;
            IsAtomList(r) && strings <= r
  {
  }

  // Over any run, the text of every atom handed out stays the string it was
  // handed out for; so equal strings share an atom and distinct strings do
  // not.  A call that may add never returns 0.
  lemma RunIsInjective(strings: seq<string>, calls: seq<Call>, i: nat, j: nat)
    requires IsAtomList(strings) && i < |calls| && j < |calls|
    ensures var a, b := Result(strings, calls, i), Result(strings, calls, j);
            var final := After(strings, calls);
            && (calls[i].add ==> a != 0)
            && (a != 0 ==> a < |final| && final[a] == calls[i].s)
            && (a != 0 && b != 0 ==> (a == b <==> calls[i].s == calls[j].s))
  {
    ResultIsText(strings, calls, i);
    ResultIsText(strings, calls, j);
    RunExtends(strings, calls, |calls|);
  }

  lemma ResultIsText(strings: seq<string>, calls: seq<Call>, i: nat)
    requires IsAtomList(strings) && i < |calls|
    ensures var a := Result(strings, calls, i);
            var final := After(strings, calls);
            && (calls[i].add ==> a != 0)
            && (a != 0 ==> a < |final| && final[a] == calls[i].s)
  {
    RunExtends(strings, calls, i + 1);
    RunExtends(strings, calls[..i], i);
    assert After(strings, calls[..i + 1]) == Interned(After(strings, calls[..i]), calls[i].s, calls[i].add).0 by {
      assert calls[..i + 1][..i] == calls[..i];
    }
  }

  // Looking a string up never adds it, and finds it exactly when an earlier
  // call added it.
  lemma {:induction false} LookupFindsAdded(calls: seq<Call>, s: string)
    ensures var strings := After([""], calls);
            Interned(strings, s, false).0 == strings &&
            (Interned(strings, s, false).1 != 0 <==> exists i :: 0 <= i < |calls| && calls[i] == Call(s, true))
  {
    if calls != [] {
      var last := |calls| - 1;
      var before := After([""], calls[..last]);
      LookupFindsAdded(calls[..last], s);
      AtomAfterCall(before, calls[last], s);
      if i :| 0 <= i < |calls| && calls[i] == Call(s, true) {
        if i < last {
          assert calls[..last][i] == Call(s, true);
        }
      }
      if i :| 0 <= i < last && calls[..last][i] == Call(s, true) {
        assert calls[i] == Call(s, true);
      }
    }
  }

  lemma AtomAfterCall(strings: seq<string>, call: Call, s: string)
    requires |strings| >= 1
    ensures AtomOf(Interned(strings, call.s, call.add).0, s) != 0
        <==> AtomOf(strings, s) != 0 || call == Call(s, true)
  {
    assert (strings + [call.s])[..|strings|] == strings;
  }

  // ------------------------------------------------------------------------
  // The hash index

  // Probe number i of a string with hash h, in a table of the given size.
  function Probe(h: nat, i: nat, size: nat): nat
    requires size > 0
  {
    (h + i) % size
  }

  // A slot that a probe may not claim: reserved or occupied.
  predicate Taken(index: seq<nat>, p: nat)
    requires p < |index|
  {
    p == 0 || index[p] != 0
  }

  // Probing for hash h passes over taken slots and reaches the atom.
  ghost predicate Reaches(index: seq<nat>, h: nat, i: nat, atom: nat)
    requires |index| > 0
  {
    && i < |index| && Probe(h, i, |index|) != 0 && index[Probe(h, i, |index|)] == atom
    && forall k :: 0 <= k < i ==> Taken(index, Probe(h, k, |index|))
  }

  ghost predicate AtomReachable(index: seq<nat>, h: nat, atom: nat)
    requires |index| > 0
  {
    exists i :: Reaches(index, h, i, atom)
  }

  // The index holds atoms 1 to count - 1, each in one slot, where probing for
  // its string finds it.
  ghost predicate IndexOk(index: seq<nat>, strings: seq<string>, hash: string -> nat, count: nat) {
    && |index| > 0 && count <= |strings|
    && (forall p :: 0 <= p < |index| && index[p] != 0 ==> p != 0 && index[p] < count)
    && (forall p, q :: 0 <= p < q < |index| && index[p] != 0 ==> index[p] != index[q])
    && (forall j :: 1 <= j < count ==> AtomReachable(index, hash(strings[j]), j))
  }

  lemma PlaceKeepsReachable(index: seq<nat>, h: nat, atom: nat, p: nat, new': nat)
    requires |index| > 0 && p < |index| && index[p] == 0 && new' != 0 && atom != 0
    requires AtomReachable(index, h, atom)
    ensures AtomReachable(index[p := new'], h, atom)
  {
    var i :| Reaches(index, h, i, atom);
    assert Reaches(index[p := new'], h, i, atom);
  }

  // Putting the next atom into the free slot its probe found.
  lemma PlaceKeepsIndex(index: seq<nat>, strings: seq<string>, hash: string -> nat, count: nat, i: nat)
    requires IndexOk(index, strings, hash, count) && 1 <= count < |strings|
    requires Reaches(index, hash(strings[count]), i, 0)
    ensures IndexOk(index[Probe(hash(strings[count]), i, |index|) := count], strings, hash, count + 1)
  {
    var h := hash(strings[count]);
    var p := Probe(h, i, |index|);
    var index' := index[p := count];
    forall j | 1 <= j < count + 1
      ensures AtomReachable(index', hash(strings[j]), j)
    {
      if j < count {
        PlaceKeepsReachable(index, hash(strings[j]), j, p, count);
      } else {
        assert Reaches(index', h, i, count);
      }
    }
  }

  lemma IndexIgnoresLaterStrings(index: seq<nat>, strings: seq<string>, hash: string -> nat, count: nat, s: string)
    requires IndexOk(index, strings, hash, count)
    ensures IndexOk(index, strings + [s], hash, count)
  {
    forall j | 1 <= j < count
      ensures AtomReachable(index, hash((strings + [s])[j]), j)
    {
      assert (strings + [s])[j] == strings[j];
    }
  }

  // ------------------------------------------------------------------------
  // A free slot always exists

  // Distinct positive numbers below n are fewer than n.
  lemma {:induction false} DistinctBelow(values: seq<nat>, n: nat)
    requires forall i :: 0 <= i < |values| ==> 1 <= values[i] < n
    requires forall i, j :: 0 <= i < j < |values| ==> values[i] != values[j]
    ensures values == [] || |values| < n
    decreases n
  {
    if values != [] {
      assert 1 <= values[0] < n;
      var top := n - 1;
      if k :| 0 <= k < |values| && values[k] == top {
        var rest := values[..k] + values[k + 1..];
        forall i | 0 <= i < |rest|
          ensures 1 <= rest[i] < top
        {
          assert rest[i] == values[if i < k then i else i + 1];
        }
        DistinctBelow(rest, top);
      } else {
        DistinctBelow(values, top);
      }
    }
  }

  lemma FreeSlot(index: seq<nat>, strings: seq<string>, hash: string -> nat, count: nat) returns (p: nat)
    requires IndexOk(index, strings, hash, count) && 1 <= count < |index|
    ensures 1 <= p < |index| && index[p] == 0
  {
    if forall q :: 1 <= q < |index| ==> index[q] != 0 {
      assert forall i :: 0 <= i < |index| - 1 ==> index[1..][i] == index[i + 1];
      DistinctBelow(index[1..], count);
      assert false;
    }
    p :| 1 <= p < |index| && index[p] == 0;
  }

  // Probing visits every slot.
  lemma ProbeVisits(h: nat, size: nat, p: nat) returns (i: nat)
    requires size > 0 && p < size
    ensures i < size && Probe(h, i, size) == p
  {
    var r, q := h % size, h / size;
    assert h == size * q + r;
    if r <= p {
      i := p - r;
      ResidueUnique(h + i, size, q, p);
    } else {
      i := p + size - r;
      assert h + i == size * q + size + p;
      ResidueUnique(h + i, size, q + 1, p);
    }
  }

  // So a probe loop that passed over every slot is impossible.
  lemma SomeProbeFree(index: seq<nat>, strings: seq<string>, hash: string -> nat, count: nat, h: nat) returns (i: nat)
    requires IndexOk(index, strings, hash, count) && 1 <= count < |index|
    ensures i < |index| && Probe(h, i, |index|) < |index| && !Taken(index, Probe(h, i, |index|))
  {
    var p := FreeSlot(index, strings, hash, count);
    i := ProbeVisits(h, |index|, p);
  }

  // ------------------------------------------------------------------------
  // The table

  class Table {
    const hash: string -> nat
    var index: array<nat>
    var strings: seq<string>
    ghost var bits: nat

    ghost predicate Sized()
      reads this
    {
      && (forall s :: hash(s) < ATOM_LIMIT)
      && 2 <= bits <= 33 && index.Length == Pow2(bits)
    }

    ghost predicate Valid()
      reads this, index
    {
      && Sized()
      && IsAtomList(strings) && |strings| <= index.Length
      && IndexOk(index[..], strings, hash, |strings|)
    }

    constructor (hash: string -> nat)
      requires forall s :: hash(s) < ATOM_LIMIT
      ensures Valid() && fresh(index)
      ensures strings == [""] && this.hash == hash
    {
      this.hash := hash;
      strings := [""];
      index := new nat[4](_ => 0);
      bits := 2;
      new;
      assert Pow2(0) == 1 && Pow2(1) == 2 && Pow2(2) == 4;
    }

    // The text of an atom is the string whose atom it is.
    method AtomText(atom: nat) returns (text: Option<string>)
      requires Valid() && atom < |strings|
      ensures IsTextOf(strings, atom, text)
    {
      if atom == 0 {
        return None;
      }
      UniqueAtom(strings, atom);
      return Some(strings[atom]);
    }

    // Where probe number i of a hash lands: masking with the size less one.
    method Position(h: nat, i: nat) returns (p: nat)
      requires Sized() && h < ATOM_LIMIT && i < index.Length
      ensures p == Probe(h, i, index.Length)
    {
      p := BitAnd(SIZE_BITS, h + i, index.Length - 1);
      SumFits(h, i, bits);
      MaskIsResidue(SIZE_BITS, h + i, bits);
    }

    // Put the next atom into the first free slot that probing for it finds.
    method Place(j: nat)
      requires Sized() && |strings| <= index.Length
      requires 1 <= j < |strings| && IndexOk(index[..], strings, hash, j)
      modifies index
      ensures IndexOk(index[..], strings, hash, j + 1)
    {
      var h := hash(strings[j]);
      ghost var free := SomeProbeFree(index[..], strings, hash, j, h);
      for i := 0 to index.Length
        invariant index[..] == old(index[..])
        invariant forall k :: 0 <= k < i ==> Taken(index[..], Probe(h, k, index.Length))
      {
        var p := Position(h, i);
        if p != 0 {
          if index[p] == 0 {
            assert Reaches(index[..], h, i, 0);
            Fill(j, i, p);
            return;
          }
        }
      }
    }

    // Put an atom into the free slot that probing reached.
    method Fill(j: nat, ghost i: nat, p: nat)
      requires index.Length > 0 && 1 <= j < |strings| && IndexOk(index[..], strings, hash, j)
      requires p == Probe(hash(strings[j]), i, index.Length) && Reaches(index[..], hash(strings[j]), i, 0)
      modifies index
      ensures IndexOk(index[..], strings, hash, j + 1)
    {
      PlaceKeepsIndex(index[..], strings, hash, j, i);
      index[p] := j;
      assert index[..] == old(index[..])[p := j];
    }

    // Double the index and place every atom again.
    method Grow()
      requires Valid() && |strings| < ATOM_LIMIT
      requires |strings| > (index.Length / 5) * 4
      modifies `index, `bits
      ensures Valid() && fresh(index) && index.Length == 2 * old(index.Length)
    {
      DoubledSize(bits, |strings|);
      var size := index.Length * 2;
      index := new nat[size](_ => 0);
      bits := bits + 1;
      for j := 1 to |strings|
        invariant fresh(index) && index.Length == size && Sized()
        invariant IndexOk(index[..], strings, hash, j)
      {
        Place(j);
      }
    }

    method Intern(s: string, add: bool) returns (atom: nat)
      requires Valid() && IsCString(s) && |strings| < ATOM_LIMIT
      modifies this, index
      ensures Valid() && (index == old(index) || fresh(index))
      ensures (strings, atom) == Interned(old(strings), s, add)
    {
      if |strings| > (index.Length / 5) * 4 {
        Grow();
      }
      atom := Search(s, add);
    }

    // Add a string, with its atom in the free slot that probing reached.
    method Append(s: string, ghost i: nat, p: nat)
      requires Valid() && |strings| < index.Length && AtomOf(strings, s) == 0
      requires i < index.Length && p == Probe(hash(s), i, index.Length) && p != 0 && Reaches(index[..], hash(s), i, 0)
      modifies `strings, index
      ensures Valid() && strings == old(strings) + [s]
    {
      var atom := |strings|;
      IndexIgnoresLaterStrings(index[..], strings, hash, atom, s);
      PlaceKeepsIndex(index[..], strings + [s], hash, atom, i);
      strings := strings + [s];
      index[p] := atom;
      assert index[..] == old(index[..])[p := atom];
    }

    // Probe for a string; the load bound leaves a free slot to stop at.
    method Search(s: string, add: bool) returns (atom: nat)
      requires Valid() && |strings| < index.Length
      modifies `strings, index
      ensures Valid()
      ensures (strings, atom) == Interned(old(strings), s, add)
    {
      var h := hash(s);
      ghost var free := SomeProbeFree(index[..], strings, hash, |strings|, h);
      for i := 0 to index.Length
        invariant index[..] == old(index[..]) && strings == old(strings)
        invariant forall k :: 0 <= k < i ==> Taken(index[..], Probe(h, k, index.Length))
        invariant forall k :: 0 <= k < i ==> Passed(index[..], strings, Probe(h, k, index.Length), s)
      {
        var p := Position(h, i);
        if p != 0 {
          var existing := index[p];
          if existing == 0 {
            NotInterned(index[..], strings, hash, s, i);
            if !add {
              return 0;
            }
            atom := |strings|;
            assert Reaches(index[..], h, i, 0);
            Append(s, i, p);
            return;
          }
          if strings[existing] == s {
            UniqueAtom(strings, existing);
            return existing;
          }
        }
      }
      assert false;
    }
  }

  // Where a run stands after k calls.
  ghost predicate RanTo(before: seq<string>, calls: seq<Call>, k: nat, strings: seq<string>, atoms: seq<nat>) {
    && |before| >= 1 && k <= |calls| && strings == After(before, calls[..k]) && |strings| <= |before| + k
    && |atoms| == k && forall i :: 0 <= i < k ==> atoms[i] == Result(before, calls, i)
  }

  lemma RanNext(before: seq<string>, calls: seq<Call>, k: nat, strings: seq<string>, atoms: seq<nat>)
    requires RanTo(before, calls, k, strings, atoms) && k < |calls|
    ensures var (strings', atom) := Interned(strings, calls[k].s, calls[k].add);
            RanTo(before, calls, k + 1, strings', atoms + [atom])
  {
    assert calls[..k + 1][..k] == calls[..k];
  }

  ghost predicate AreCStrings(calls: seq<Call>) {
    forall i :: 0 <= i < |calls| ==> IsCString(calls[i].s)
  }

  // Make a run of calls.
  method InternAll(table: Table, calls: seq<Call>) returns (atoms: seq<nat>)
    requires table.Valid() && |table.strings| + |calls| <= ATOM_LIMIT && AreCStrings(calls)
    modifies table, table.index
    ensures table.Valid() && RanTo(old(table.strings), calls, |calls|, table.strings, atoms)
  {
    atoms := [];
    for k := 0 to |calls|
      invariant table.Valid() && (table.index == old(table.index) || fresh(table.index))
      invariant RanTo(old(table.strings), calls, k, table.strings, atoms)
    {
      RanNext(old(table.strings), calls, k, table.strings, atoms);
      var atom := table.Intern(calls[k].s, calls[k].add);
      atoms := atoms + [atom];
    }
  }

  method ReadAll(table: Table, atoms: seq<nat>) returns (texts: seq<Option<string>>)
    requires table.Valid() && forall i :: 0 <= i < |atoms| ==> atoms[i] < |table.strings|
    ensures |texts| == |atoms|
    ensures forall i :: 0 <= i < |atoms| ==> IsTextOf(table.strings, atoms[i], texts[i])
  {
    texts := [];
    for k := 0 to |atoms|
      invariant |texts| == k && forall i :: 0 <= i < k ==> IsTextOf(table.strings, atoms[i], texts[i])
    {
      var text := table.AtomText(atoms[k]);
      texts := texts + [text];
    }
  }

  ghost predicate IsTextOf(strings: seq<string>, atom: nat, text: Option<string>)
    requires |strings| >= 1
  {
    (text.None? <==> atom == 0) && (text.Some? ==> AtomOf(strings, text.value) == atom)
  }

  // After a run, the text of every atom that it returned is the string of the
  // call.
  method InternThenRead(table: Table, calls: seq<Call>) returns (atoms: seq<nat>, texts: seq<Option<string>>)
    requires table.Valid() && |table.strings| + |calls| <= ATOM_LIMIT && AreCStrings(calls)
    modifies table, table.index
    ensures |atoms| == |texts| == |calls|
    ensures forall i :: 0 <= i < |calls| ==> texts[i] == if atoms[i] == 0 then None else Some(calls[i].s)
    ensures forall i :: 0 <= i < |calls| && calls[i].add ==> atoms[i] != 0
  {
    ghost var before := table.strings;
    assert IsAtomList(before);
    atoms := InternAll(table, calls);
    assert calls[..|calls|] == calls;
    forall i | 0 <= i < |calls|
      ensures atoms[i] < |table.strings| && (calls[i].add ==> atoms[i] != 0)
      ensures atoms[i] != 0 ==> table.strings[atoms[i]] == calls[i].s
    {
      ResultIsText(before, calls, i);
    }
    texts := ReadAll(table, atoms);
    assert forall i :: 0 <= i < |calls| ==> IsTextOf(table.strings, atoms[i], texts[i]);
  }

  // A probed slot that holds no atom of the string.
  ghost predicate Passed(index: seq<nat>, strings: seq<string>, p: nat, s: string) {
    p < |index| && (p != 0 ==> index[p] < |strings| && strings[index[p]] != s)
  }

  // Reaching a free slot before the string proves that it is not in the table.
  lemma NotInterned(index: seq<nat>, strings: seq<string>, hash: string -> nat, s: string, i: nat)
    requires IndexOk(index, strings, hash, |strings|) && i < |index| && |strings| >= 1
    requires Probe(hash(s), i, |index|) != 0 && index[Probe(hash(s), i, |index|)] == 0
    requires forall k :: 0 <= k < i ==> Passed(index, strings, Probe(hash(s), k, |index|), s)
    ensures AtomOf(strings, s) == 0
  {
    forall j | 1 <= j < |strings|
      ensures strings[j] != s
    {
      assert AtomReachable(index, hash(strings[j]), j);
      var k :| Reaches(index, hash(strings[j]), k, j);
    }
  }

  lemma UniqueAtom(strings: seq<string>, atom: nat)
    requires IsAtomList(strings) && 1 <= atom < |strings|
    ensures AtomOf(strings, strings[atom]) == atom
  {
  }

  lemma SumFits(h: nat, i: nat, bits: nat)
    requires h < ATOM_LIMIT && bits <= 33 && i < Pow2(bits)
    ensures h + i < Pow2(SIZE_BITS)
  {
    Pow2Of32();
    Pow2Increasing(bits, 33);
    Pow2Increasing(34, SIZE_BITS);
  }

  // The index only grows while the number of strings calls for it.
  lemma DoubledSize(bits: nat, count: nat)
    requires count < ATOM_LIMIT && count > (Pow2(bits) / 5) * 4
    ensures bits <= 32
  {
    Pow2Of32();
    if bits >= 33 {
      Pow2Increasing(33, bits);
    }
  }

  lemma Pow2Of32()
    ensures Pow2(32) == ATOM_LIMIT && Pow2(33) == 2 * ATOM_LIMIT && Pow2(34) == 4 * ATOM_LIMIT
  {
    assert Pow2(8) == 256;
    Pow2Split(8, 16);
    Pow2Split(16, 32);
  }
}
