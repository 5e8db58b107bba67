// Names of keysyms: printing a keysym, and parsing a name with or without
// regard to letter case.
module KeysymNames {
  import opened Basics
  import opened Words
  import opened Numbers
  import opened NameLookup
  import opened KeysymUnicode

  const KEYSYM_MAX: nat := 0x1fffffff

  // The generated tables: keysyms in ascending order with their names, names
  // in case-insensitive order with their keysyms, and the hash of the names.
  datatype Tables = Tables(byKeysym: seq<NameEntry>, byName: seq<NameEntry>, hash: HashTables, ucs: seq<CodePair>)

  ghost predicate SortedByKeysym(table: seq<NameEntry>) {
    forall i, j :: 0 <= i < j < |table| ==> table[i].keysym < table[j].keysym
  }

  // ------------------------------------------------------------------------
  // Finding the entry of a keysym

  function EntryOf(table: seq<NameEntry>, ks: nat): (r: Option<nat>)
    ensures r.Some? ==> r.value < |table| && table[r.value].keysym == ks
    ensures r.None? ==> forall i :: 0 <= i < |table| ==> table[i].keysym != ks
  {
    if table == [] then None
    else if table[|table| - 1].keysym == ks then Some(|table| - 1)
    else EntryOf(table[..|table| - 1], ks)
  }

  method FindKeysymIndex(table: seq<NameEntry>, ks: nat) returns (index: int)
    requires table != [] && SortedByKeysym(table)
    ensures index == match EntryOf(table, ks) case Some(i) => i case None => -1
  {
    if ks > table[|table| - 1].keysym {
      return -1;
    }
    var lo, hi := 0, |table| - 1;
    while hi >= lo
      invariant 0 <= lo <= hi + 1 <= |table|
      invariant forall i :: 0 <= i < lo ==> table[i].keysym < ks
      invariant forall i :: hi < i < |table| ==> table[i].keysym > ks
    {
      var mid := (lo + hi) / 2;
      if ks > table[mid].keysym {
        lo := mid + 1;
      } else if ks < table[mid].keysym {
        hi := mid - 1;
      } else {
        return mid;
      }
    }
    return -1;
  }

  // ------------------------------------------------------------------------
  // Printing

  function UnicodeName(ks: nat): string {
    "U" + PrintHex(ks % 0x1000000, 4, true)
  }

  function NumericName(ks: nat): string {
    "0x" + PrintHex(ks, 8, false)
  }

  // What is printed for a keysym without a name.
  function NotationOf(ks: nat): string {
    if UNICODE_MIN <= ks <= UNICODE_MAX then UnicodeName(ks) else NumericName(ks)
  }

  // The name of a keysym, or nothing if the keysym is invalid.
  function NameOf(t: Tables, ks: nat): Option<string> {
    if ks > KEYSYM_MAX then None
    else
      match EntryOf(t.byKeysym, ks)
      case Some(i) => Some(t.byKeysym[i].name)
      case None =>
        Some(NotationOf(ks))
  }

  method GetName(t: Tables, ks: nat) returns (name: Option<string>)
    requires t.byKeysym != [] && SortedByKeysym(t.byKeysym)
    ensures name == NameOf(t, ks)
  {
    if ks > KEYSYM_MAX {
      return None;
    }
    var index := FindKeysymIndex(t.byKeysym, ks);
    if index != -1 {
      return Some(t.byKeysym[index].name);
    }
    if ks >= UNICODE_MIN && ks <= UNICODE_MAX {
      return Some(UnicodeName(ks));
    }
    return Some(NumericName(ks));
  }

  // ------------------------------------------------------------------------
  // Comparison without regard to case

  function ToLower(c: char): char {
    if 'A' <= c <= 'Z' then (c as int - 'A' as int + 'a' as int) as char else c
  }

  function Fold(s: string): string {
    seq(|s|, i requires 0 <= i < |s| => ToLower(s[i]))
  }

  // The value of the first folded character, or of the terminator.
  function FirstFolded(signedChar: bool, s: string): int {
    if s == [] then 0 else CharValue(signedChar, ToLower(s[0]))
  }

  function CompareFolded(signedChar: bool, a: string, b: string): int {
    if FirstFolded(signedChar, a) != FirstFolded(signedChar, b) then
      FirstFolded(signedChar, a) - FirstFolded(signedChar, b)
    else if a == [] || b == [] then 0
    else CompareFolded(signedChar, a[1..], b[1..])
  }

  method Istrcmp(signedChar: bool, a: string, b: string) returns (r: int)
    requires IsCString(a) && IsCString(b)
    ensures r == CompareFolded(signedChar, a, b)
  {
    var i := 0;
    while true
      invariant 0 <= i <= |a| && i <= |b|
      invariant CompareFolded(signedChar, a, b) == CompareFolded(signedChar, a[i..], b[i..])
      decreases |a| - i
    {
      var x, y := CharValue(signedChar, ToLower(At(a, i))), CharValue(signedChar, ToLower(At(b, i)));
      assert x == FirstFolded(signedChar, a[i..]) && y == FirstFolded(signedChar, b[i..]);
      if x != y {
        return x - y;
      }
      if At(a, i) == '\0' {
        return 0;
      }
      assert a[i..][1..] == a[i + 1..] && b[i..][1..] == b[i + 1..];
      i := i + 1;
    }
  }

  lemma {:induction false} CompareZero(signedChar: bool, a: string, b: string)
    requires IsCString(a) && IsCString(b)
    ensures CompareFolded(signedChar, a, b) == 0 <==> Fold(a) == Fold(b)
    decreases |a|
  {
    if a != [] && b != [] {
      CompareZero(signedChar, a[1..], b[1..]);
      assert Fold(a) == [ToLower(a[0])] + Fold(a[1..]);
      assert Fold(b) == [ToLower(b[0])] + Fold(b[1..]);
      assert Fold(a) == Fold(b) ==> Fold(a)[0] == Fold(b)[0] && Fold(a)[1..] == Fold(b)[1..];
    } else {
      assert |Fold(a)| == |a| && |Fold(b)| == |b|;
    }
  }

  lemma {:induction false} CompareOpposite(signedChar: bool, a: string, b: string)
    ensures CompareFolded(signedChar, a, b) == -CompareFolded(signedChar, b, a)
    decreases |a|
  {
    if a != [] && b != [] {
      CompareOpposite(signedChar, a[1..], b[1..]);
    }
  }

  lemma {:induction false} CompareTransitive(signedChar: bool, a: string, b: string, c: string)
    requires IsCString(a) && IsCString(b) && IsCString(c)
    requires CompareFolded(signedChar, a, b) <= 0 && CompareFolded(signedChar, b, c) <= 0
    ensures CompareFolded(signedChar, a, c) <= 0
    ensures CompareFolded(signedChar, a, c) == 0 ==>
              CompareFolded(signedChar, a, b) == 0 && CompareFolded(signedChar, b, c) == 0
    decreases |a|
  {
    if a != [] && b != [] && c != []
       && FirstFolded(signedChar, a) == FirstFolded(signedChar, b) == FirstFolded(signedChar, c) {
      CompareTransitive(signedChar, a[1..], b[1..], c[1..]);
    }
  }

  ghost predicate SortedByName(signedChar: bool, table: seq<NameEntry>) {
    && (forall i :: 0 <= i < |table| ==> IsCString(table[i].name))
    && (forall i, j :: 0 <= i < j < |table| ==> CompareFolded(signedChar, table[i].name, table[j].name) <= 0)
  }

  // ------------------------------------------------------------------------
  // Lookup without regard to case

  predicate Matches(entry: NameEntry, name: string) {
    Fold(entry.name) == Fold(name)
  }

  // The last entry that matches.
  function LastMatch(table: seq<NameEntry>, name: string): (r: Option<nat>)
    ensures r.Some? ==> r.value < |table| && Matches(table[r.value], name)
    ensures r.Some? ==> forall i :: r.value < i < |table| ==> !Matches(table[i], name)
    ensures r.None? ==> forall i :: 0 <= i < |table| ==> !Matches(table[i], name)
  {
    if table == [] then None
    else if Matches(table[|table| - 1], name) then Some(|table| - 1)
    else LastMatch(table[..|table| - 1], name)
  }

  // A comparison with one entry decides all entries on one side of it.
  lemma OneSide(signedChar: bool, table: seq<NameEntry>, name: string, mid: nat)
    requires SortedByName(signedChar, table) && IsCString(name) && mid < |table|
    ensures CompareFolded(signedChar, name, table[mid].name) > 0 ==>
              forall i :: 0 <= i <= mid ==> !Matches(table[i], name)
    ensures CompareFolded(signedChar, name, table[mid].name) < 0 ==>
              forall i :: mid <= i < |table| ==> !Matches(table[i], name)
  {
    forall i | 0 <= i < |table| && Matches(table[i], name)
      ensures i <= mid ==> CompareFolded(signedChar, name, table[mid].name) <= 0
      ensures mid <= i ==> CompareFolded(signedChar, name, table[mid].name) >= 0
    {
      CompareZero(signedChar, name, table[i].name);
      CompareZero(signedChar, table[i].name, name);
      if i <= mid {
        CompareZero(signedChar, table[i].name, table[i].name);
        CompareTransitive(signedChar, name, table[i].name, table[mid].name);
      }
      if mid <= i {
        CompareZero(signedChar, table[i].name, table[i].name);
        CompareTransitive(signedChar, table[mid].name, table[i].name, name);
        CompareOpposite(signedChar, table[mid].name, name);
      }
    }
  }

  // A binary search finds some match; walking on finds the last one.
  method InsensitiveLookup(signedChar: bool, table: seq<NameEntry>, name: string) returns (r: Option<nat>)
    requires SortedByName(signedChar, table) && IsCString(name)
    ensures r == LastMatch(table, name)
  {
    var entry := FindAnyMatch(signedChar, table, name);
    if entry == -1 {
      return None;
    }
    var e: nat := entry;
    var same := true;
    while same && e < |table| - 1
      invariant e < |table| && Matches(table[e], name)
      invariant !same ==> e < |table| - 1 && !Matches(table[e + 1], name)
      decreases |table| - e, same
    {
      var cmp := Istrcmp(signedChar, table[e + 1].name, table[e].name);
      CompareZero(signedChar, table[e + 1].name, table[e].name);
      same := cmp == 0;
      if same {
        e := e + 1;
      }
    }
    NoMatchAfter(signedChar, table, name, e);
    return Some(e);
  }

  // Matches are consecutive.
  lemma NoMatchAfter(signedChar: bool, table: seq<NameEntry>, name: string, e: nat)
    requires SortedByName(signedChar, table) && IsCString(name)
    requires e < |table| && Matches(table[e], name)
    requires e + 1 < |table| ==> !Matches(table[e + 1], name)
    ensures LastMatch(table, name) == Some(e)
  {
    forall i | e < i < |table|
      ensures !Matches(table[i], name)
    {
      if e + 1 < i && Matches(table[i], name) {
        MatchBetween(signedChar, table, name, e, i);
      }
    }
    var last := LastMatch(table, name);
    assert last.Some? && last.value >= e;
  }

  lemma MatchBetween(signedChar: bool, table: seq<NameEntry>, name: string, e: nat, i: nat)
    requires SortedByName(signedChar, table) && e + 1 < i < |table| && Matches(table[e], name)
    requires Matches(table[i], name)
    ensures Matches(table[e + 1], name)
  {
    CompareZero(signedChar, table[e].name, table[i].name);
    CompareTransitive(signedChar, table[e].name, table[e + 1].name, table[i].name);
    CompareZero(signedChar, table[e].name, table[e + 1].name);
  }

  method FindAnyMatch(signedChar: bool, table: seq<NameEntry>, name: string) returns (entry: int)
    requires SortedByName(signedChar, table) && IsCString(name)
    ensures entry == -1 ==> LastMatch(table, name).None?
    ensures entry != -1 ==> 0 <= entry < |table| && Matches(table[entry], name)
  {
    var lo, hi := 0, |table| - 1;
    while hi >= lo
      invariant 0 <= lo <= hi + 1 <= |table|
      invariant forall i :: 0 <= i < lo ==> !Matches(table[i], name)
      invariant forall i :: hi < i < |table| ==> !Matches(table[i], name)
    {
      var mid := (lo + hi) / 2;
      var cmp := Istrcmp(signedChar, name, table[mid].name);
      OneSide(signedChar, table, name, mid);
      if cmp > 0 {
        lo := mid + 1;
      } else if cmp < 0 {
        hi := mid - 1;
      } else {
        CompareZero(signedChar, name, table[mid].name);
        return mid;
      }
    }
    return -1;
  }

  // ------------------------------------------------------------------------
  // Parsing

  // The numeric part of a name: up to eight hexadecimal digits and nothing
  // else.
  function HexField(s: string): Option<nat> {
    var n := RunLength(16, s, 8);
    if n > 0 && n == |s| then Some(ValueOf(16, s, n)) else None
  }

  lemma OneMoreDigit(v: int, d: int, p: int)
    requires v < p && d < 16
    ensures 16 * v + d < p * 16
  {
  }

  lemma {:induction false} EightDigitsFit(s: string, n: nat)
    requires n <= 8 && forall k :: 0 <= k < n ==> DigitOf(At(s, k)) < 16
    ensures ValueOf(16, s, n) < Pow2(4 * n)
  {
    if n > 0 {
      EightDigitsFit(s, n - 1);
      Pow2Split(4 * (n - 1), 4 * n);
      assert Pow2(4) == 16;
      OneMoreDigit(ValueOf(16, s, n - 1), DigitOf(At(s, n - 1)), Pow2(4 * (n - 1)));
    }
  }

  lemma FieldFits(s: string)
    ensures ValueOf(16, s, RunLength(16, s, 8)) < KEYSYM_LIMIT
  {
    var n := RunLength(16, s, 8);
    EightDigitsFit(s, n);
    Pow2Increasing(4 * n, 32);
    SmallPowers();
  }

  lemma FieldParsed(s: string, count: int, val: nat)
    requires Parses(16, 0xffff_ffff, s, 8, count, val)
    ensures count == RunLength(16, s, 8) && val == ValueOf(16, s, count)
  {
    FieldFits(s);
  }

  method ParseKeysymHex(s: string) returns (r: Option<nat>)
    requires IsCString(s)
    ensures r == HexField(s)
  {
    var count, val := ParseHex(0xffff_ffff, s, 8);
    FieldParsed(s, count, val);
    FieldEnd(s);
    if count > 0 && At(s, count) == '\0' {
      return Some(val);
    }
    return None;
  }

  // The digits end at the terminator exactly when there is nothing else.
  lemma FieldEnd(s: string)
    requires IsCString(s)
    ensures var n := RunLength(16, s, 8);
            n <= |s| && (At(s, n) == '\0' <==> n == |s|)
  {
    var n := RunLength(16, s, 8);
    assert n > 0 ==> DigitOf(At(s, n - 1)) < 16;
  }

  function FromHexUnicode(t: Tables, field: string): nat {
    match HexField(field)
    case None => NO_SYMBOL
    case Some(val) => if 0xff < val <= 0x10ffff then UNICODE_OFFSET + val else FromUcs(t.ucs, val)
  }

  function FromHexNumber(field: string): nat {
    match HexField(field)
    case None => NO_SYMBOL
    case Some(val) => if val > KEYSYM_MAX then NO_SYMBOL else val
  }

  predicate HasXf86Prefix(name: string, icase: bool) {
    |name| >= 5 && (name[..5] == "XF86_" || (icase && Fold(name[..5]) == Fold("XF86_")))
  }

  // The keysym of a name.
  function FromName(t: Tables, name: string, icase: bool): nat
    decreases |name|
  {
    var found :=
      if icase then
        match LastMatch(t.byName, name)
        case None => None
        case Some(i) => Some(t.byName[i].keysym)
      else LinearSearch(t.byName, name);
    if found.Some? then found.value
    else if At(name, 0) == 'U' || (icase && At(name, 0) == 'u') then FromHexUnicode(t, name[1..])
    else if At(name, 0) == '0' && (At(name, 1) == 'x' || (icase && At(name, 1) == 'X')) then FromHexNumber(name[2..])
    else if HasXf86Prefix(name, icase) then FromName(t, name[..4] + name[5..], icase)
    else NO_SYMBOL
  }

  ghost predicate TablesOk(signedChar: bool, t: Tables) {
    && GeneratedFor(t.byName, t.hash) && SortedByName(signedChar, t.byName)
    && t.byKeysym != [] && SortedByKeysym(t.byKeysym)
    && (forall i :: 0 <= i < |t.byKeysym| ==> t.byKeysym[i] in t.byName)
  }

  const CASE_INSENSITIVE: nat := 1

  // A listed name is answered with the keysym of its entry, or of the last entry
  // that matches it without regard to case.
  method KeysymFromName(w: nat, signedChar: bool, t: Tables, name: string, flags: nat) returns (ks: nat)
    requires w >= 32 && TablesOk(signedChar, t) && IsCString(name)
    ensures ks == if flags > CASE_INSENSITIVE then NO_SYMBOL else FromName(t, name, flags == CASE_INSENSITIVE)
    ensures flags == 0 && (exists i :: 0 <= i < |t.byName| && t.byName[i].name == name) ==>
              NameEntry(name, ks) in t.byName
    ensures flags == CASE_INSENSITIVE && (exists i :: 0 <= i < |t.byName| && Matches(t.byName[i], name)) ==>
              exists i :: 0 <= i < |t.byName| && Matches(t.byName[i], name) && ks == t.byName[i].keysym
                          && forall j :: i < j < |t.byName| ==> !Matches(t.byName[j], name)
    decreases |name|
  {
    if flags > CASE_INSENSITIVE {
      return NO_SYMBOL;
    }
    var icase := flags == CASE_INSENSITIVE;
    if !icase {
      var found := ExactLookup(signedChar, t.byName, t.hash, name);
      if found.Some? {
        return found.value;
      }
    } else {
      var entry := InsensitiveLookup(signedChar, t.byName, name);
      if entry.Some? {
        return t.byName[entry.value].keysym;
      }
    }
    if At(name, 0) == 'U' || (icase && At(name, 0) == 'u') {
      var val := ParseKeysymHex(name[1..]);
      if val.None? {
        return NO_SYMBOL;
      }
      if val.value > 0xff && val.value <= 0x10ffff {
        return UNICODE_OFFSET + val.value;
      }
      FieldFits(name[1..]);
      ks := Utf32ToKeysym(w, t.ucs, val.value);
      return;
    } else if At(name, 0) == '0' && (At(name, 1) == 'x' || (icase && At(name, 1) == 'X')) {
      var val := ParseKeysymHex(name[2..]);
      if val.None? || val.value > KEYSYM_MAX {
        return NO_SYMBOL;
      }
      return val.value;
    }
    if HasXf86Prefix(name, icase) {
      ks := KeysymFromName(w, signedChar, t, name[..4] + name[5..], flags);
      return;
    }
    return NO_SYMBOL;
  }

  // ------------------------------------------------------------------------
  // What names that are not listed mean

  predicate Unlisted(t: Tables, name: string, icase: bool) {
    forall i :: 0 <= i < |t.byName| ==> if icase then !Matches(t.byName[i], name) else t.byName[i].name != name
  }

  lemma FieldMeaning(s: string)
    ensures HexField(s).Some? <==> AreHexDigits(s) && 1 <= |s| <= 8
    ensures HexField(s).Some? ==> HexField(s).value == ValueOf(16, s, |s|)
  {
    if AreHexDigits(s) && 1 <= |s| <= 8 {
      DigitsAreField(s);
    }
    var n := RunLength(16, s, 8);
    if n > 0 && n == |s| {
      assert forall k :: 0 <= k < |s| ==> At(s, k) == s[k];
    }
  }

  // The notation of code points: up to eight hexadecimal digits after U, or
  // after u without regard to case.  Code points above Latin-1 are taken as they
  // are, the others are normalized.
  lemma UnicodeNotation(t: Tables, prefix: char, digits: string, icase: bool)
    requires prefix == 'U' || (icase && prefix == 'u')
    requires Unlisted(t, [prefix] + digits, icase)
    ensures var ks, v := FromName(t, [prefix] + digits, icase), ValueOf(16, digits, |digits|);
            ks == if !AreHexDigits(digits) || digits == "" || |digits| > 8 then NO_SYMBOL
                  else if 0xff < v <= 0x10ffff then 0x0100_0000 + v
                  else FromUcs(t.ucs, v)
  {
    FieldMeaning(digits);
    assert ([prefix] + digits)[1..] == digits;
  }

  // The notation of numbers, after 0x or, without regard to case, 0X.
  lemma NumericNotation(t: Tables, x: char, digits: string, icase: bool)
    requires x == 'x' || (icase && x == 'X')
    requires Unlisted(t, ['0', x] + digits, icase)
    ensures var ks, v := FromName(t, ['0', x] + digits, icase), ValueOf(16, digits, |digits|);
            ks == if AreHexDigits(digits) && 1 <= |digits| <= 8 && v <= KEYSYM_MAX then v else NO_SYMBOL
  {
    FieldMeaning(digits);
    var name := ['0', x] + digits;
    assert name[2..] == digits && name[0] == '0' && name[1] == x;
  }

  // The underscore after XF86 is dropped from a name that is not listed.
  lemma Xf86Notation(t: Tables, xf86: string, rest: string, icase: bool)
    requires xf86 == "XF86" || (icase && Fold(xf86) == Fold("XF86"))
    requires Unlisted(t, xf86 + "_" + rest, icase)
    ensures FromName(t, xf86 + "_" + rest, icase) == FromName(t, xf86 + rest, icase)
  {
    var name := xf86 + "_" + rest;
    FoldXf86(xf86, rest);
    assert name[..4] + name[5..] == xf86 + rest;
  }

  lemma FoldXf86(xf86: string, rest: string)
    requires xf86 == "XF86" || Fold(xf86) == Fold("XF86")
    ensures var name := xf86 + "_" + rest;
            && |xf86| == 4 && (name[0] == 'X' || name[0] == 'x')
            && name[..5] == xf86 + "_" && Fold(name[..5]) == Fold("XF86_")
  {
    var name := xf86 + "_" + rest;
    assert Fold(xf86) == Fold("XF86");
    assert Fold(xf86)[0] == ToLower('X');
    assert name[..5] == xf86 + "_";
    assert Fold(xf86 + "_") == Fold(xf86) + Fold("_");
    assert Fold("XF86" + "_") == Fold("XF86") + Fold("_");
    assert "XF86" + "_" == "XF86_";
  }

  // Any other name has no keysym.
  lemma OtherNames(t: Tables, name: string, icase: bool)
    requires Unlisted(t, name, icase)
    requires At(name, 0) != 'U' && !(icase && At(name, 0) == 'u')
    requires At(name, 0) != '0' || (At(name, 1) != 'x' && !(icase && At(name, 1) == 'X'))
    requires |name| < 5 || !(name[..5] == "XF86_" || (icase && Fold(name[..5]) == Fold("XF86_")))
    ensures FromName(t, name, icase) == NO_SYMBOL
  {
  }

  // Without regard to case, names that differ only in case have one keysym.
  lemma {:induction false} CaseDoesNotMatter(t: Tables, a: string, b: string)
    requires Fold(a) == Fold(b)
    ensures FromName(t, a, true) == FromName(t, b, true)
    decreases |a|
  {
    SameMatches(t.byName, a, b);
    SamePrefixes(a, b);
    SameFields(t, a, b);
    if HasXf86Prefix(a, true) {
      FoldParts(a, b);
      CaseDoesNotMatter(t, a[..4] + a[5..], b[..4] + b[5..]);
    }
  }

  lemma SamePrefixes(a: string, b: string)
    requires Fold(a) == Fold(b)
    ensures At(a, 0) in {'U', 'u'} <==> At(b, 0) in {'U', 'u'}
    ensures At(a, 0) == '0' <==> At(b, 0) == '0'
    ensures At(a, 1) in {'X', 'x'} <==> At(b, 1) in {'X', 'x'}
    ensures HasXf86Prefix(a, true) <==> HasXf86Prefix(b, true)
  {
    FoldParts(a, b);
    if |a| >= 5 {
      assert Fold(a[..5]) == Fold(b[..5]);
    }
  }

  lemma SameFields(t: Tables, a: string, b: string)
    requires Fold(a) == Fold(b)
    ensures |a| == |b|
    ensures |a| >= 1 ==> FromHexUnicode(t, a[1..]) == FromHexUnicode(t, b[1..])
    ensures |a| >= 2 ==> FromHexNumber(a[2..]) == FromHexNumber(b[2..])
  {
    FoldParts(a, b);
    if |a| >= 1 {
      FieldCase(a[1..], b[1..]);
    }
    if |a| >= 2 {
      FieldCase(a[2..], b[2..]);
    }
  }

  lemma {:induction false} SameMatches(table: seq<NameEntry>, a: string, b: string)
    requires Fold(a) == Fold(b)
    ensures LastMatch(table, a) == LastMatch(table, b)
  {
    if table != [] {
      SameMatches(table[..|table| - 1], a, b);
    }
  }

  // The parts of names that differ only in case do so too.
  lemma FoldParts(a: string, b: string)
    requires Fold(a) == Fold(b)
    ensures |a| == |b| && forall i :: 0 <= i < |a| ==> ToLower(a[i]) == ToLower(b[i])
    ensures forall k :: 0 <= k <= |a| ==> Fold(a[k..]) == Fold(b[k..]) && Fold(a[..k]) == Fold(b[..k])
    ensures |a| >= 5 ==> Fold(a[..4] + a[5..]) == Fold(b[..4] + b[5..])
  {
    assert |Fold(a)| == |Fold(b)|;
    forall i | 0 <= i < |a|
      ensures ToLower(a[i]) == ToLower(b[i])
    {
      assert Fold(a)[i] == Fold(b)[i];
    }
  }

  lemma FieldCase(a: string, b: string)
    requires Fold(a) == Fold(b)
    ensures HexField(a) == HexField(b)
  {
    FoldParts(a, b);
    forall i | 0 <= i < |a|
      ensures DigitOf(a[i]) == DigitOf(b[i])
    {
      assert DigitOf(ToLower(a[i])) == DigitOf(a[i]);
      assert DigitOf(ToLower(b[i])) == DigitOf(b[i]);
    }
    FieldMeaning(a);
    FieldMeaning(b);
    SameValue(a, b, |a|);
  }

  lemma {:induction false} SameValue(a: string, b: string, n: nat)
    requires |a| == |b| && n <= |a| && forall i :: 0 <= i < |a| ==> DigitOf(a[i]) == DigitOf(b[i])
    ensures ValueOf(16, a, n) == ValueOf(16, b, n)
  {
    if n > 0 {
      SameValue(a, b, n - 1);
    }
  }

  // ------------------------------------------------------------------------
  // Round trip

  // What is printed: the name of a listed keysym; else U and the code point in
  // four to six upper-case digits, as few as possible; else 0x and the keysym in
  // eight lower-case digits.
  lemma PrintedForm(t: Tables, ks: nat)
    requires SortedByKeysym(t.byKeysym)
    ensures NameOf(t, ks).Some? <==> ks <= KEYSYM_MAX
    ensures ks <= KEYSYM_MAX ==> forall i :: 0 <= i < |t.byKeysym| && t.byKeysym[i].keysym == ks ==>
              NameOf(t, ks) == Some(t.byKeysym[i].name)
    ensures ks <= KEYSYM_MAX && (forall i :: 0 <= i < |t.byKeysym| ==> t.byKeysym[i].keysym != ks) ==>
              NotationForm(ks, NameOf(t, ks).value)
  {
    if UNICODE_MIN <= ks <= UNICODE_MAX {
      UnicodeForm(ks);
    } else if ks <= KEYSYM_MAX {
      NumericForm(ks);
    }
  }

  ghost predicate NotationForm(ks: nat, name: string) {
    if UNICODE_MIN <= ks <= UNICODE_MAX then
      var cp, n := ks - UNICODE_OFFSET, |name| - 1;
      && n == (if cp < 0x1_0000 then 4 else if cp < 0x10_0000 then 5 else 6)
      && name[0] == 'U' && (forall i :: 1 <= i <= n ==> '0' <= name[i] <= '9' || 'A' <= name[i] <= 'F')
      && ValueOf(16, name[1..], n) == cp
    else
      && |name| == 10 && name[..2] == "0x"
      && (forall i :: 2 <= i < 10 ==> '0' <= name[i] <= '9' || 'a' <= name[i] <= 'f')
      && ValueOf(16, name[2..], 8) == ks
  }

  lemma UnicodeForm(ks: nat)
    requires UNICODE_MIN <= ks <= UNICODE_MAX
    ensures NotationForm(ks, UnicodeName(ks))
  {
    var cp := ks - UNICODE_OFFSET;
    assert ks % 0x1000000 == cp;
    var digits := PrintHex(cp, 4, true);
    PrintedCase(cp, 4, true);
    PrintedValue(cp, 4, true);
    HexPowers();
    HexLength(cp, 4, true, if cp < 0x1_0000 then 4 else if cp < 0x10_0000 then 5 else 6);
    assert UnicodeName(ks)[1..] == digits;
  }

  lemma NumericForm(ks: nat)
    requires ks <= KEYSYM_MAX
    ensures |NumericName(ks)| == 10 && NumericName(ks)[..2] == "0x"
    ensures forall i :: 2 <= i < 10 ==> '0' <= NumericName(ks)[i] <= '9' || 'a' <= NumericName(ks)[i] <= 'f'
    ensures ValueOf(16, NumericName(ks)[2..], 8) == ks
  {
    PrintedCase(ks, 8, false);
    PrintedValue(ks, 8, false);
    HexPowers();
    HexLength(ks, 8, false, 8);
    assert NumericName(ks)[2..] == PrintHex(ks, 8, false);
  }

  lemma HexPowers()
    ensures Pow2(4 * 4) == 0x1_0000 && Pow2(4 * 5) == 0x10_0000
    ensures Pow2(4 * 6) == 0x100_0000 && Pow2(4 * 8) == KEYSYM_LIMIT
  {
    SmallPowers();
    Pow2Split(4, 4 * 5);
    Pow2Split(8, 4 * 6);
  }

  // The number of digits, for up to eight.
  lemma HexLength(v: nat, width: nat, upper: bool, k: nat)
    requires width <= k <= 8 && v < Pow2(4 * k) && (width < k ==> v >= Pow2(4 * (k - 1)))
    ensures |PrintHex(v, width, upper)| == k
  {
    var s := PrintHex(v, width, upper);
    PrintedLength(v, width, upper, k);
    PrintedValue(v, width, upper);
    if |s| < k {
      assert forall i :: 0 <= i < |s| ==> At(s, i) == s[i];
      EightDigitsFit(s, |s|);
      Pow2Increasing(4 * |s|, 4 * (k - 1));
    }
  }

  lemma PrintedHexField(v: nat, width: nat, upper: bool)
    requires v < KEYSYM_LIMIT && 1 <= width <= 8
    ensures HexField(PrintHex(v, width, upper)) == Some(v)
  {
    PrintedValue(v, width, upper);
    assert Pow2(4 * 8) == KEYSYM_LIMIT by { SmallPowers(); }
    PrintedLength(v, width, upper, 8);
    DigitsAreField(PrintHex(v, width, upper));
  }

  lemma DigitsAreField(s: string)
    requires AreHexDigits(s) && 1 <= |s| <= 8
    ensures HexField(s) == Some(ValueOf(16, s, |s|))
  {
    assert forall k :: 0 <= k < |s| ==> At(s, k) == s[k];
  }

  // No other keysym is listed under the name.
  ghost predicate NotTaken(t: Tables, name: string, ks: nat) {
    forall i :: 0 <= i < |t.byName| && t.byName[i].name == name ==> t.byName[i].keysym == ks
  }

  // Parsing the name printed for a keysym returns that keysym exactly when the
  // keysym has a name, or the table gives its notation to no other keysym.
  lemma NameRoundTripExact(signedChar: bool, t: Tables, ks: nat)
    requires TablesOk(signedChar, t) && ks <= KEYSYM_MAX
    ensures NameOf(t, ks).Some?
    ensures FromName(t, NameOf(t, ks).value, false) == ks <==>
            EntryOf(t.byKeysym, ks).Some? || NotTaken(t, NotationOf(ks), ks)
  {
    match EntryOf(t.byKeysym, ks)
    case Some(i) => ListedNameFound(signedChar, t, i);
    case None => NotationParses(signedChar, t, ks);
  }

  lemma NotationParses(signedChar: bool, t: Tables, ks: nat)
    requires TablesOk(signedChar, t) && ks <= KEYSYM_MAX
    ensures FromName(t, NotationOf(ks), false) == ks <==> NotTaken(t, NotationOf(ks), ks)
  {
    var name := NotationOf(ks);
    match LinearSearch(t.byName, name)
    case Some(found) =>
      var k :| 0 <= k < |t.byName| && t.byName[k].name == name && t.byName[k].keysym == found;
      forall i | 0 <= i < |t.byName| && t.byName[i].name == name
        ensures i == k
      {
        NamesDistinct(signedChar, t, i, k);
      }
    case None =>
      if UNICODE_MIN <= ks <= UNICODE_MAX {
        UnicodeNameParses(t, ks, false);
      } else {
        NumericNameParses(t, ks, false);
      }
  }

  lemma UnicodeNameParses(t: Tables, ks: nat, icase: bool)
    requires UNICODE_MIN <= ks <= UNICODE_MAX && Unlisted(t, UnicodeName(ks), icase)
    ensures FromName(t, UnicodeName(ks), icase) == ks
  {
    var cp := ks - UNICODE_OFFSET;
    assert ks % 0x1000000 == cp;
    PrintedHexField(cp, 4, true);
    FieldMeaning(PrintHex(cp, 4, true));
    UnicodeNotation(t, 'U', PrintHex(cp, 4, true), icase);
  }

  lemma NumericNameParses(t: Tables, ks: nat, icase: bool)
    requires ks <= KEYSYM_MAX && Unlisted(t, NumericName(ks), icase)
    ensures FromName(t, NumericName(ks), icase) == ks
  {
    PrintedHexField(ks, 8, false);
    FieldMeaning(PrintHex(ks, 8, false));
    NumericNotation(t, 'x', PrintHex(ks, 8, false), icase);
  }

  // Without regard to case, the notation of a keysym is read in any case.
  lemma NotationInAnyCase(t: Tables, ks: nat, name: string)
    requires ks <= KEYSYM_MAX && Fold(name) == Fold(NotationOf(ks)) && Unlisted(t, name, true)
    ensures FromName(t, name, true) == ks
  {
    CaseDoesNotMatter(t, name, NotationOf(ks));
    assert Unlisted(t, NotationOf(ks), true);
    if UNICODE_MIN <= ks <= UNICODE_MAX {
      UnicodeNameParses(t, ks, true);
    } else {
      NumericNameParses(t, ks, true);
    }
  }

  // Names are distinct, since each hashes to its own position.
  lemma NamesDistinct(signedChar: bool, t: Tables, i: nat, j: nat)
    requires TablesOk(signedChar, t) && i < |t.byName| && j < |t.byName| && t.byName[i].name == t.byName[j].name
    ensures i == j
  {
    TableNameFound(signedChar, t.byName, t.hash, i);
    TableNameFound(signedChar, t.byName, t.hash, j);
  }

  // No table name looks like a printed number.
  ghost predicate NoNumericNames(t: Tables) {
    forall i, ks :: 0 <= i < |t.byName| ==> t.byName[i].name != UnicodeName(ks) && t.byName[i].name != NumericName(ks)
  }

  // Then every valid keysym survives printing and parsing.
  lemma NameRoundTrip(signedChar: bool, t: Tables, ks: nat)
    requires TablesOk(signedChar, t) && NoNumericNames(t) && ks <= KEYSYM_MAX
    ensures NameOf(t, ks).Some?
    ensures FromName(t, NameOf(t, ks).value, false) == ks
  {
    NameRoundTripExact(signedChar, t, ks);
    NotationFree(t, ks);
  }

  lemma NotationFree(t: Tables, ks: nat)
    requires NoNumericNames(t)
    ensures NotTaken(t, NotationOf(ks), ks)
  {
  }

  lemma ListedNameFound(signedChar: bool, t: Tables, k: nat)
    requires TablesOk(signedChar, t) && k < |t.byKeysym|
    ensures LinearSearch(t.byName, t.byKeysym[k].name) == Some(t.byKeysym[k].keysym)
  {
    var j :| 0 <= j < |t.byName| && t.byName[j] == t.byKeysym[k];
    var found := LinearSearch(t.byName, t.byName[j].name);
    assert found.Some?;
    var i :| 0 <= i < |t.byName| && t.byName[i] == NameEntry(t.byName[j].name, found.value);
    NamesDistinct(signedChar, t, i, j);
  }
}
