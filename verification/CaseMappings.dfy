// Case mappings of keysyms.  A script computes, for every keysym, the distance
// to its lower and to its upper case, merges the two into one entry, and
// compresses the entries into the tables that the library reads.
module CaseMappings {
  import opened Basics
  import opened TwoLevelTable
  import opened Words

  const WORD: int := 0x1_0000_0000
  const UNICODE_OFFSET: nat := 0x0100_0000
  const UNICODE_MIN: nat := 0x0100_0100
  const LEGACY_MAX: nat := 0x13be
  const UNICODE_MAX: nat := 0x0101_f189

  // Distances to the cases, and the case of the character itself.
  datatype Entry = Entry(lower: int, upper: int, isLower: bool, isUpper: bool)

  // What the library stores for a keysym.
  datatype Mapping = Mapping(lower: bool, upper: bool, offset: int)

  // ------------------------------------------------------------------------
  // Merging

  // What the list of keysyms says about one: its cases, where they are listed,
  // and the case of its character.
  datatype Listing = Listing(lower: Option<nat>, upper: Option<nat>, isLower: bool, isUpper: bool)

  function Load(ks: nat, d: Listing): Entry {
    var lower := if d.lower.Some? then d.lower.value else ks;
    var upper := if d.upper.Some? then d.upper.value else ks;
    Entry(lower - ks, ks - upper, d.isLower, d.isUpper)
  }

  // Different distances to both cases are an error.
  function Merge(e: Entry): Option<Mapping> {
    if e.lower != 0 && e.upper != 0 && e.lower != e.upper then None
    else Some(Mapping(e.isUpper || e.lower != 0, e.isLower || e.upper != 0, if e.lower != 0 then e.lower else e.upper))
  }

  function Lowered(m: Mapping, ks: nat): nat {
    if m.lower then (ks + m.offset) % WORD else ks
  }

  function Uppered(m: Mapping, ks: nat): nat {
    if m.upper then (ks - m.offset) % WORD else ks
  }

  // What the data must meet: an upper-case character that has an upper-case
  // mapping has a lower-case one too, and likewise the other way around.
  predicate MergesLower(e: Entry) {
    e.isUpper && e.upper != 0 ==> e.lower != 0
  }

  predicate MergesUpper(e: Entry) {
    e.isLower && e.lower != 0 ==> e.upper != 0
  }

  // ------------------------------------------------------------------------
  // The tables of the library, and the literal shifts and masks it uses

  datatype Arrays = Arrays(data: seq<Mapping>, offsets1: seq<nat>, offsets2: seq<nat>)

  predicate LegacyInBounds(w: nat, a: Arrays, ks: nat) {
    && ShiftRight(ks, 7) < |a.offsets2|
    && a.offsets2[ShiftRight(ks, 7)] + BitAnd(w, ShiftRight(ks, 1), 0x3f) < |a.offsets1|
    && a.offsets1[a.offsets2[ShiftRight(ks, 7)] + BitAnd(w, ShiftRight(ks, 1), 0x3f)] + BitAnd(w, ks, 0x01) < |a.data|
  }

  function LegacyEntry(w: nat, a: Arrays, ks: nat): Mapping
    requires LegacyInBounds(w, a, ks)
  {
    a.data[a.offsets1[a.offsets2[ShiftRight(ks, 7)] + BitAnd(w, ShiftRight(ks, 1), 0x3f)] + BitAnd(w, ks, 0x01)]
  }

  predicate UnicodeInBounds(w: nat, a: Arrays, ks: nat) {
    && ShiftRight(ks, 8) < |a.offsets2|
    && a.offsets2[ShiftRight(ks, 8)] + BitAnd(w, ShiftRight(ks, 3), 0x1f) < |a.offsets1|
    && a.offsets1[a.offsets2[ShiftRight(ks, 8)] + BitAnd(w, ShiftRight(ks, 3), 0x1f)] + BitAnd(w, ks, 0x07) < |a.data|
  }

  function UnicodeEntry(w: nat, a: Arrays, ks: nat): Mapping
    requires UnicodeInBounds(w, a, ks)
  {
    a.data[a.offsets1[a.offsets2[ShiftRight(ks, 8)] + BitAnd(w, ShiftRight(ks, 3), 0x1f)] + BitAnd(w, ks, 0x07)]
  }

  // The arrays are printed from a compressed table of the entries.
  ghost predicate Printed(a: Arrays, t: Table<Entry>) {
    && a.offsets1 == t.offsets1 && a.offsets2 == t.offsets2
    && |a.data| == |t.data|
    && forall i :: 0 <= i < |a.data| ==> Merge(t.data[i]) == Some(a.data[i])
  }

  ghost predicate ArraysOf(a: Arrays, entries: seq<Entry>, k1: nat, k2: nat) {
    exists t, offsets :: Represents(t, entries, offsets) && t.k1 == k1 && t.k2 == k2 && Printed(a, t)
  }

  ghost predicate LegacyArrays(a: Arrays, entries: seq<Entry>) {
    |entries| == LEGACY_MAX + 1 && ArraysOf(a, entries, 1, 6)
  }

  ghost predicate UnicodeArrays(a: Arrays, entries: seq<Entry>) {
    |entries| == UNICODE_MAX - UNICODE_OFFSET + 1 && ArraysOf(a, entries, 3, 5)
  }

  lemma FitsWord(w: nat, x: nat)
    requires w >= 32 && x < WORD
    ensures x < Pow2(w)
  {
    Pow2Increasing(32, w);
    SmallPowers();
  }

  lemma LegacyFound(w: nat, a: Arrays, entries: seq<Entry>, ks: nat)
    requires w >= 32 && LegacyArrays(a, entries) && ks <= LEGACY_MAX
    ensures LegacyInBounds(w, a, ks) && Merge(entries[ks]) == Some(LegacyEntry(w, a, ks))
  {
    var t, offsets :| Represents(t, entries, offsets) && t.k1 == 1 && t.k2 == 6 && Printed(a, t);
    FitsWord(w, ks);
    LookupFinds(w, t, entries, offsets, ks);
    assert Pow2(1) - 1 == 0x01 && Pow2(6) - 1 == 0x3f by { SmallPowers(); }
  }

  lemma UnicodeFound(w: nat, a: Arrays, entries: seq<Entry>, cp: nat)
    requires w >= 32 && UnicodeArrays(a, entries) && cp <= UNICODE_MAX - UNICODE_OFFSET
    ensures UnicodeInBounds(w, a, cp) && Merge(entries[cp]) == Some(UnicodeEntry(w, a, cp))
  {
    var t, offsets :| Represents(t, entries, offsets) && t.k1 == 3 && t.k2 == 5 && Printed(a, t);
    FitsWord(w, cp);
    LookupFinds(w, t, entries, offsets, cp);
    assert Pow2(3) - 1 == 0x07 && Pow2(5) - 1 == 0x1f by { SmallPowers(); }
  }

  // ------------------------------------------------------------------------
  // The conversions

  // A Unicode keysym below the smallest one stands for a Latin-1 character,
  // whose keysym is its code point.
  function Folded(ks: nat): nat {
    if ks < UNICODE_MIN then (ks - UNICODE_OFFSET) % WORD else ks
  }

  function ToLower(w: nat, legacy: Arrays, unicode: Arrays, ks: nat): nat
    requires ks <= LEGACY_MAX ==> LegacyInBounds(w, legacy, ks)
    requires UNICODE_MIN <= ks <= UNICODE_MAX ==> UnicodeInBounds(w, unicode, ks - UNICODE_OFFSET)
  {
    if ks <= LEGACY_MAX then Lowered(LegacyEntry(w, legacy, ks), ks)
    else if UNICODE_MIN <= ks <= UNICODE_MAX then
      var m := UnicodeEntry(w, unicode, ks - UNICODE_OFFSET);
      if m.lower then Folded(Lowered(m, ks)) else ks
    else ks
  }

  function ToUpper(w: nat, legacy: Arrays, unicode: Arrays, ks: nat): nat
    requires ks <= LEGACY_MAX ==> LegacyInBounds(w, legacy, ks)
    requires UNICODE_MIN <= ks <= UNICODE_MAX ==> UnicodeInBounds(w, unicode, ks - UNICODE_OFFSET)
  {
    if ks <= LEGACY_MAX then Uppered(LegacyEntry(w, legacy, ks), ks)
    else if UNICODE_MIN <= ks <= UNICODE_MAX then
      var m := UnicodeEntry(w, unicode, ks - UNICODE_OFFSET);
      if m.upper then Folded(Uppered(m, ks)) else ks
    else ks
  }

  // The keysym of a character, by its code point.
  function CharKeysym(cp: int): int {
    if cp < 0x100 then cp else UNICODE_OFFSET + cp
  }

  // Entries that lead from keysyms to keysyms and from code points to code
  // points.
  predicate LegacyEntryOk(e: Entry, ks: nat) {
    0 <= ks + e.lower < 0x8000_0000 && 0 <= ks - e.upper < 0x8000_0000
  }

  predicate UnicodeEntryOk(e: Entry, cp: nat) {
    0 <= cp + e.lower < 0x11_0000 && 0 <= cp - e.upper < 0x11_0000
  }

  ghost predicate EntriesOk(ls: seq<Entry>, us: seq<Entry>) {
    && (forall ks :: 0 <= ks < |ls| ==> LegacyEntryOk(ls[ks], ks))
    && (forall cp :: 0 <= cp < |us| ==> UnicodeEntryOk(us[cp], cp))
  }

  // A merged entry maps to the case that its distance says, exactly when it
  // merges without loss.
  lemma MergeLegacy(e: Entry, ks: nat)
    requires Merge(e).Some? && ks <= LEGACY_MAX && LegacyEntryOk(e, ks)
    ensures Lowered(Merge(e).value, ks) == ks + e.lower <==> MergesLower(e)
    ensures Uppered(Merge(e).value, ks) == ks - e.upper <==> MergesUpper(e)
  {
  }

  lemma MergeUnicode(e: Entry, cp: nat)
    requires Merge(e).Some? && 0x100 <= cp < 0x11_0000 && UnicodeEntryOk(e, cp)
    ensures var m, ks := Merge(e).value, UNICODE_OFFSET + cp;
            && ((if m.lower then Folded(Lowered(m, ks)) else ks) == CharKeysym(cp + e.lower) <==> MergesLower(e))
            && ((if m.upper then Folded(Uppered(m, ks)) else ks) == CharKeysym(cp - e.upper) <==> MergesUpper(e))
  {
    if e.lower != 0 {
      FoldedChar(cp + e.lower);
    }
    if e.upper != 0 {
      FoldedChar(cp - e.upper);
    }
    assert Merge(e).value.offset == 0 ==> e.lower == 0 && e.upper == 0;
  }

  // A shifted keysym of a character, folded, is the keysym of the character.
  lemma FoldedChar(cp: int)
    requires 0 <= cp < 0x11_0000
    ensures (UNICODE_OFFSET + cp) % WORD == UNICODE_OFFSET + cp && Folded(UNICODE_OFFSET + cp) == CharKeysym(cp)
  {
  }

  // The condition is needed, since loading and merging do not check it: if the
  // list gave Aogonek, an upper-case letter, an upper case and no lower case,
  // it would be lowered to breve.
  lemma LossyMerge()
    ensures var e := Load(0x01a1, Listing(None, Some(0x01a0), false, true));
            && Merge(e) == Some(Mapping(true, true, 1)) && !MergesLower(e)
            && Lowered(Merge(e).value, 0x01a1) == 0x01a2 && 0x01a1 + e.lower == 0x01a1
  {
  }

  // A keysym is looked up in bounds, and mapped to the keysym of its lower and
  // upper case exactly when its entry merges without loss.
  ghost predicate LegacyMapped(w: nat, legacy: Arrays, unicode: Arrays, ls: seq<Entry>, ks: nat) {
    && ks < |ls| && ks <= LEGACY_MAX && LegacyInBounds(w, legacy, ks)
    && (ToLower(w, legacy, unicode, ks) == ks + ls[ks].lower <==> MergesLower(ls[ks]))
    && (ToUpper(w, legacy, unicode, ks) == ks - ls[ks].upper <==> MergesUpper(ls[ks]))
  }

  ghost predicate UnicodeMapped(w: nat, legacy: Arrays, unicode: Arrays, us: seq<Entry>, cp: nat) {
    var ks := UNICODE_OFFSET + cp;
    && cp < |us| && UNICODE_MIN <= ks <= UNICODE_MAX && UnicodeInBounds(w, unicode, cp)
    && (ToLower(w, legacy, unicode, ks) == CharKeysym(cp + us[cp].lower) <==> MergesLower(us[cp]))
    && (ToUpper(w, legacy, unicode, ks) == CharKeysym(cp - us[cp].upper) <==> MergesUpper(us[cp]))
  }

  // So it is through both levels of compression.
  lemma LegacyThroughTables(w: nat, legacy: Arrays, unicode: Arrays, ls: seq<Entry>, us: seq<Entry>, ks: nat)
    requires w >= 32 && LegacyArrays(legacy, ls) && EntriesOk(ls, us) && ks <= LEGACY_MAX
    ensures LegacyMapped(w, legacy, unicode, ls, ks)
  {
    LegacyFound(w, legacy, ls, ks);
    assert LegacyEntryOk(ls[ks], ks);
    MergeLegacy(ls[ks], ks);
  }

  lemma UnicodeThroughTables(w: nat, legacy: Arrays, unicode: Arrays, ls: seq<Entry>, us: seq<Entry>, cp: nat)
    requires w >= 32 && UnicodeArrays(unicode, us) && EntriesOk(ls, us)
    requires UNICODE_MIN <= UNICODE_OFFSET + cp <= UNICODE_MAX
    ensures UnicodeMapped(w, legacy, unicode, us, cp)
  {
    UnicodeFound(w, unicode, us, cp);
    assert UnicodeEntryOk(us[cp], cp);
    MergeUnicode(us[cp], cp);
  }

  // Keysyms outside both tables have no other case.
  predicate OutsideTables(ks: nat) {
    LEGACY_MAX < ks < UNICODE_MIN || ks > UNICODE_MAX
  }

  ghost predicate Unchanged(w: nat, legacy: Arrays, unicode: Arrays, ks: nat) {
    && OutsideTables(ks)
    && ToLower(w, legacy, unicode, ks) == ks && ToUpper(w, legacy, unicode, ks) == ks
  }

  // ------------------------------------------------------------------------
  // Generating the tables

  ghost predicate AllMerge(entries: seq<Entry>) {
    forall i :: 0 <= i < |entries| ==> Merge(entries[i]).Some?
  }

  // Print the data, entry by entry; an entry that does not merge is an error.
  method PrintArrays(t: Table<Entry>) returns (a: Option<Arrays>)
    ensures a.Some? ==> Printed(a.value, t)
    ensures a.Some? <==> AllMerge(t.data)
  {
    var data: seq<Mapping> := [];
    for i := 0 to |t.data|
      invariant |data| == i
      invariant forall k :: 0 <= k < i ==> Merge(t.data[k]) == Some(data[k])
    {
      var m := Merge(t.data[i]);
      if m.None? {
        return None;
      }
      data := data + [m.value];
    }
    return Some(Arrays(data, t.offsets1, t.offsets2));
  }

  // Compress the entries and print the tables, which succeeds exactly when all
  // entries merge.
  method GenerateArrays(w: nat, k1: nat, k2: nat, entries: seq<Entry>) returns (a: Option<Arrays>)
    requires entries != [] && |entries| <= Pow2(w) && k1 <= w && k2 <= w
    ensures a.Some? <==> AllMerge(entries)
    ensures a.Some? ==> ArraysOf(a.value, entries, k1, k2)
  {
    ghost var offsets;
    var t;
    t, offsets := BuildTable(w, k1, k2, entries);
    a := PrintArrays(t);
    DataMerges(w, t, entries);
  }

  lemma DataMerges(w: nat, t: Table<Entry>, entries: seq<Entry>)
    requires Within(t.data, entries) && forall x :: 0 <= x < |entries| ==> Finds(w, t, x, entries[x])
    ensures AllMerge(t.data) <==> AllMerge(entries)
  {
    forall x | 0 <= x < |entries|
      ensures entries[x] in t.data
    {
      assert Finds(w, t, x, entries[x]);
    }
  }

  // The tables of the library map every keysym to its cases, exactly when its
  // entry merges without loss, and every keysym without an entry to itself.
  method GenerateMappings(w: nat, ls: seq<Entry>, us: seq<Entry>) returns (r: Option<(Arrays, Arrays)>)
    requires w >= 32 && |ls| == LEGACY_MAX + 1 && |us| == UNICODE_MAX - UNICODE_OFFSET + 1 && EntriesOk(ls, us)
    ensures r.Some? <==> AllMerge(ls) && AllMerge(us)
    ensures r.Some? ==> forall ks :: 0 <= ks <= LEGACY_MAX ==> LegacyMapped(w, r.value.0, r.value.1, ls, ks)
    ensures r.Some? ==> forall cp :: 0x100 <= cp < |us| ==> UnicodeMapped(w, r.value.0, r.value.1, us, cp)
    ensures r.Some? ==> forall ks :: OutsideTables(ks) ==> Unchanged(w, r.value.0, r.value.1, ks)
  {
    FitsWord(w, |ls|);
    FitsWord(w, |us|);
    var legacy := GenerateArrays(w, 1, 6, ls);
    var unicode := GenerateArrays(w, 3, 5, us);
    if legacy.None? || unicode.None? {
      return None;
    }
    r := Some((legacy.value, unicode.value));
    forall ks | 0 <= ks <= LEGACY_MAX
      ensures LegacyMapped(w, legacy.value, unicode.value, ls, ks)
    {
      LegacyThroughTables(w, legacy.value, unicode.value, ls, us, ks);
    }
    forall cp | 0x100 <= cp < |us|
      ensures UnicodeMapped(w, legacy.value, unicode.value, us, cp)
    {
      UnicodeThroughTables(w, legacy.value, unicode.value, ls, us, cp);
    }
  }
}
