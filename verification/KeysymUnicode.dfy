// Conversion between keysyms and Unicode code points, over any table of
// keysyms that is sorted by keysym.
module KeysymUnicode {
  import opened Basics
  import opened Words
  import opened Utf8

  datatype CodePair = CodePair(keysym: nat, deprecated: bool, ucs: nat)

  const NO_SYMBOL: nat := 0
  const NO_CONVERSION: nat := 0
  const BACKSPACE: nat := 0xff08
  const TAB: nat := 0xff09
  const LINEFEED: nat := 0xff0a
  const CLEAR: nat := 0xff0b
  const RETURN: nat := 0xff0d
  const ESCAPE: nat := 0xff1b
  const DELETE: nat := 0xffff
  const KP_SPACE: nat := 0xff80
  const KP_TAB: nat := 0xff89
  const KP_ENTER: nat := 0xff8d
  const KP_MULTIPLY: nat := 0xffaa
  const KP_ADD: nat := 0xffab
  const KP_SEPARATOR: nat := 0xffac
  const KP_SUBTRACT: nat := 0xffad
  const KP_DECIMAL: nat := 0xffae
  const KP_DIVIDE: nat := 0xffaf
  const KP_0: nat := 0xffb0
  const KP_9: nat := 0xffb9
  const KP_EQUAL: nat := 0xffbd
  const UNICODE_OFFSET: nat := 0x01000000
  const UNICODE_MIN: nat := 0x01000100
  const UNICODE_MAX: nat := 0x0110ffff
  const SURROGATE_MIN: nat := 0x0100d800
  const SURROGATE_MAX: nat := 0x0100dfff
  const NUMERIC_0: nat := 0x10081200
  const NUMERIC_9: nat := 0x10081209
  const NUMERIC_STAR: nat := 0x1008120a
  const NUMERIC_POUND: nat := 0x1008120b
  const KEYSYM_LIMIT: nat := 0x1_0000_0000

  // The table is strictly sorted; its keysyms have 15 bits and its code points
  // 16.
  ghost predicate IsTable(table: seq<CodePair>) {
    && table != []
    && (forall i :: 0 <= i < |table| ==> table[i].keysym < 0x8000 && table[i].ucs < 0x1_0000)
    && (forall i, j :: 0 <= i < j < |table| ==> table[i].keysym < table[j].keysym)
  }

  // ------------------------------------------------------------------------
  // Binary search

  // The code point of a keysym in the table, found by looking at every entry.
  function TableUcs(table: seq<CodePair>, keysym: nat): (ucs: nat)
    ensures (forall i :: 0 <= i < |table| ==> table[i].keysym != keysym) ==> ucs == NO_CONVERSION
    ensures (exists i :: 0 <= i < |table| && table[i].keysym == keysym) ==>
              exists i :: 0 <= i < |table| && table[i].keysym == keysym && table[i].ucs == ucs
  {
    if table == [] then NO_CONVERSION
    else if table[|table| - 1].keysym == keysym then table[|table| - 1].ucs
    else TableUcs(table[..|table| - 1], keysym)
  }

  // The search takes the index of the last entry.  The range check keeps
  // `mid - 1` from going below zero.
  method BinSearch(table: seq<CodePair>, length: nat, keysym: nat) returns (ucs: nat)
    requires IsTable(table) && length == |table| - 1
    ensures ucs == TableUcs(table, keysym)
  {
    var first, last := 0, length;
    if keysym < table[0].keysym || keysym > table[length].keysym {
      return 0;
    }
    while last >= first
      invariant 0 <= first <= |table| && last <= length && first <= last + 1
      invariant forall i :: 0 <= i < first ==> table[i].keysym < keysym
      invariant forall i :: last < i < |table| ==> table[i].keysym > keysym
      decreases last + 1 - first
    {
      var mid := (first + last) / 2;
      if table[mid].keysym < keysym {
        first := mid + 1;
      } else if table[mid].keysym > keysym {
        assert mid > 0;
        last := mid - 1;
      } else {
        return table[mid].ucs;
      }
    }
    return NO_CONVERSION;
  }

  // ------------------------------------------------------------------------
  // Keysym to code point

  predicate IsLatin1(x: int) {
    0x20 <= x <= 0x7e || 0xa0 <= x <= 0xff
  }

  // Keysyms of control and keypad characters, which carry ASCII in their low
  // bits.
  predicate IsSpecial(keysym: nat) {
    || BACKSPACE <= keysym <= CLEAR
    || KP_MULTIPLY <= keysym <= KP_9
    || keysym == RETURN || keysym == ESCAPE || keysym == DELETE
    || keysym == KP_TAB || keysym == KP_ENTER || keysym == KP_EQUAL
  }

  function ToUcs(table: seq<CodePair>, keysym: nat): nat {
    if IsLatin1(keysym) then keysym
    else if keysym == KP_SPACE then 0x20
    else if IsSpecial(keysym) then keysym % 128
    else if SURROGATE_MIN <= keysym <= SURROGATE_MAX then NO_CONVERSION
    else if UNICODE_OFFSET <= keysym <= UNICODE_MAX then keysym - UNICODE_OFFSET
    else if NUMERIC_0 <= keysym <= NUMERIC_9 then keysym - NUMERIC_0 + 0x30
    else if keysym == NUMERIC_STAR then 0x2a
    else if keysym == NUMERIC_POUND then 0x23
    else TableUcs(table, keysym)
  }

  method KeysymToUtf32(w: nat, table: seq<CodePair>, keysym: nat) returns (ucs: nat)
    requires w >= 32 && IsTable(table) && keysym < KEYSYM_LIMIT
    ensures ucs == ToUcs(table, keysym)
  {
    Low7(w, keysym);
    Low7(w, 0x20);
    if IsLatin1(keysym) {
      return keysym;
    }
    if keysym == KP_SPACE {
      return BitAnd(w, 0x20, 0x7f);
    }
    if IsSpecial(keysym) {
      return BitAnd(w, keysym, 0x7f);
    }
    if keysym >= SURROGATE_MIN && keysym <= SURROGATE_MAX {
      return NO_CONVERSION;
    }
    if UNICODE_OFFSET <= keysym && keysym <= UNICODE_MAX {
      return keysym - UNICODE_OFFSET;
    }
    if keysym >= NUMERIC_0 && keysym <= NUMERIC_9 {
      return keysym - NUMERIC_0 + 0x30;
    }
    match keysym
    case NUMERIC_STAR => return 0x2a;
    case NUMERIC_POUND => return 0x23;
    case _ => ucs := BinSearch(table, |table| - 1, keysym);
  }

  lemma Low7(w: nat, x: nat)
    requires w >= 32 && x < KEYSYM_LIMIT
    ensures BitAnd(w, x, 0x7f) == x % 128
  {
    SmallPowers();
    Pow2Increasing(32, w);
    assert Pow2(7) == 128;
    MaskIsResidue(w, x, 7);
  }

  // The character that the list of keysyms gives for the function, keypad and
  // remote-control keysyms that have one.
  function ListedAscii(keysym: nat): Option<char> {
    if KP_0 <= keysym <= KP_9 then Some((keysym - KP_0 + '0' as nat) as char)
    else if NUMERIC_0 <= keysym <= NUMERIC_9 then Some((keysym - NUMERIC_0 + '0' as nat) as char)
    else
      match keysym
      case BACKSPACE => Some('\U{08}')
      case TAB => Some('\t')
      case LINEFEED => Some('\n')
      case CLEAR => Some('\U{0b}')
      case RETURN => Some('\r')
      case ESCAPE => Some('\U{1b}')
      case DELETE => Some('\U{7f}')
      case KP_SPACE => Some(' ')
      case KP_TAB => Some('\t')
      case KP_ENTER => Some('\r')
      case KP_MULTIPLY => Some('*')
      case KP_ADD => Some('+')
      case KP_SEPARATOR => Some(',')
      case KP_SUBTRACT => Some('-')
      case KP_DECIMAL => Some('.')
      case KP_DIVIDE => Some('/')
      case KP_EQUAL => Some('=')
      case NUMERIC_STAR => Some('*')
      case NUMERIC_POUND => Some('#')
      case _ => None
  }

  ghost predicate IsListed(table: seq<CodePair>, keysym: nat) {
    exists i :: 0 <= i < |table| && table[i].keysym == keysym
  }

  // What every keysym types, by kind.
  lemma CharacterOf(table: seq<CodePair>, keysym: nat)
    requires IsTable(table)
    ensures IsLatin1(keysym) ==> ToUcs(table, keysym) == keysym
    ensures ListedAscii(keysym).Some? ==> ToUcs(table, keysym) == ListedAscii(keysym).value as nat
    ensures UNICODE_OFFSET <= keysym <= UNICODE_MAX ==>
              var cp := keysym - UNICODE_OFFSET;
              ToUcs(table, keysym) == if IsSurrogate(cp) then NO_CONVERSION else cp
    ensures forall i :: 0 <= i < |table| && table[i].keysym == keysym && !IsLatin1(keysym) ==>
              ToUcs(table, keysym) == table[i].ucs
    ensures IsLatin1(keysym) || ListedAscii(keysym).Some? || UNICODE_OFFSET <= keysym <= UNICODE_MAX
            || IsListed(table, keysym) || ToUcs(table, keysym) == NO_CONVERSION
  {
    if IsSpecial(keysym) {
      SpecialAscii(keysym);
    }
    forall i | 0 <= i < |table| && table[i].keysym == keysym && !IsLatin1(keysym)
      ensures ToUcs(table, keysym) == table[i].ucs
    {
      TableEntry(table, i);
    }
  }

  // The low bits of the special keysyms are those characters.
  lemma SpecialAscii(keysym: nat)
    requires IsSpecial(keysym)
    ensures ListedAscii(keysym) == Some((keysym % 128) as char)
  {
  }

  lemma TableEntry(table: seq<CodePair>, i: nat)
    requires IsTable(table) && i < |table|
    ensures TableUcs(table, table[i].keysym) == table[i].ucs
  {
  }

  // ------------------------------------------------------------------------
  // Code point to keysym

  predicate IsControl(ucs: nat) {
    BACKSPACE % 128 <= ucs <= CLEAR % 128 || ucs == RETURN % 128 || ucs == ESCAPE % 128
  }

  // The first entry, from `i` on, that is current and has the code point.
  function FirstEntry(table: seq<CodePair>, ucs: nat, i: nat): (r: nat)
    requires i <= |table|
    ensures i <= r <= |table|
    ensures r < |table| ==> table[r].ucs == ucs && !table[r].deprecated
    ensures forall k :: i <= k < r ==> table[k].ucs != ucs || table[k].deprecated
    decreases |table| - i
  {
    if i == |table| then i
    else if table[i].ucs == ucs && !table[i].deprecated then i
    else FirstEntry(table, ucs, i + 1)
  }

  function FromUcs(table: seq<CodePair>, ucs: nat): nat {
    if IsLatin1(ucs) then ucs
    else if IsControl(ucs) then 0xff00 + ucs
    else if ucs == DELETE % 128 then DELETE
    else if ucs == 0 || !IsScalar(ucs) then NO_SYMBOL
    else
      var i := FirstEntry(table, ucs, 0);
      if i < |table| then table[i].keysym else UNICODE_OFFSET + ucs
  }

  method Utf32ToKeysym(w: nat, table: seq<CodePair>, ucs: nat) returns (keysym: nat)
    requires w >= 32 && ucs < KEYSYM_LIMIT
    ensures keysym == FromUcs(table, ucs)
  {
    if IsLatin1(ucs) {
      return ucs;
    }
    if IsControl(ucs) {
      AddHighBits(w, 0xff00, ucs, 8);
      return BitOr(w, 0xff00, ucs);
    }
    if ucs == DELETE % 128 {
      return DELETE;
    }
    if ucs == 0 || IsSurrogate(ucs) || ucs > 0x10ffff {
      return NO_SYMBOL;
    }
    for i := 0 to |table|
      invariant FirstEntry(table, ucs, 0) == FirstEntry(table, ucs, i)
    {
      if table[i].ucs == ucs && !table[i].deprecated {
        return table[i].keysym;
      }
    }
    AddHighBits(w, UNICODE_OFFSET, ucs, 24);
    return BitOr(w, UNICODE_OFFSET, ucs);
  }

  // A current entry for a code point.
  predicate Current(p: CodePair, ucs: nat) {
    p.ucs == ucs && !p.deprecated
  }

  // The function keys that type an ASCII control character.
  predicate IsFunctionKey(keysym: nat) {
    BACKSPACE <= keysym <= CLEAR || keysym == RETURN || keysym == ESCAPE || keysym == DELETE
  }

  predicate IsOrdinary(ucs: nat) {
    IsScalar(ucs) && ucs != 0 && !IsLatin1(ucs) && !IsControl(ucs) && ucs != 0x7f
  }

  // Which keysym stands for every number: never a deprecated one, and the
  // direct one only when no current keysym is listed.
  lemma KeysymOf(table: seq<CodePair>, ucs: nat)
    ensures IsLatin1(ucs) ==> FromUcs(table, ucs) == ucs
    ensures IsControl(ucs) || ucs == 0x7f ==>
              IsFunctionKey(FromUcs(table, ucs)) && ListedAscii(FromUcs(table, ucs)) == Some(ucs as char)
    ensures ucs == 0 || !IsScalar(ucs) ==> FromUcs(table, ucs) == NO_SYMBOL
    ensures IsOrdinary(ucs) && (exists i :: 0 <= i < |table| && Current(table[i], ucs)) ==>
              exists i :: 0 <= i < |table| && Current(table[i], ucs) && FromUcs(table, ucs) == table[i].keysym
                          && forall k :: 0 <= k < i ==> !Current(table[k], ucs)
    ensures IsOrdinary(ucs) && !(exists i :: 0 <= i < |table| && Current(table[i], ucs)) ==>
              FromUcs(table, ucs) == UNICODE_OFFSET + ucs
  {
    var i := FirstEntry(table, ucs, 0);
    assert i < |table| ==> Current(table[i], ucs);
  }

  lemma AddHighBits(w: nat, high: nat, low: nat, k: nat)
    requires w >= 32 && (k == 8 || k == 24)
    requires low < (if k == 8 then 0x100 else 0x1000000)
    requires high == if k == 8 then 0xff00 else UNICODE_OFFSET
    ensures BitOr(w, high, low) == high + low
  {
    SmallPowers();
    Pow2Increasing(32, w);
    assert Pow2(8) == 0x100;
    Pow2Split(12, 24);
    OrIsSum(w, k, high, low);
  }

  // ------------------------------------------------------------------------
  // Round trip

  // The table has the code point of an ordinary character, which is neither a
  // Latin-1 nor a control character, and gives it a Latin-1 keysym.
  predicate Shadowed(table: seq<CodePair>, ucs: nat) {
    var i := FirstEntry(table, ucs, 0);
    && !IsLatin1(ucs) && !IsControl(ucs) && ucs != 0x7f
    && i < |table| && IsLatin1(table[i].keysym)
  }

  // A code point survives the conversion to a keysym and back exactly when
  // the table does not give it the keysym of another, Latin-1 character.
  lemma RoundTripExact(table: seq<CodePair>, ucs: nat)
    requires IsTable(table) && IsScalar(ucs) && ucs != 0
    ensures ToUcs(table, FromUcs(table, ucs)) == ucs <==> !Shadowed(table, ucs)
  {
    var i := FirstEntry(table, ucs, 0);
    if i < |table| {
      TableEntry(table, i);
    }
  }

  // In a table of keysyms above Latin-1, every code point other than 0 does.
  lemma RoundTrip(table: seq<CodePair>, ucs: nat)
    requires IsTable(table) && table[0].keysym > 0xff
    requires IsScalar(ucs) && ucs != 0
    ensures ToUcs(table, FromUcs(table, ucs)) == ucs
  {
    RoundTripExact(table, ucs);
    var i := FirstEntry(table, ucs, 0);
    if 0 < i < |table| {
      assert table[0].keysym < table[i].keysym;
    }
  }

  // Whatever code point a keysym has, it is a scalar value.
  lemma UcsIsScalar(table: seq<CodePair>, keysym: nat)
    requires IsTable(table) && forall i :: 0 <= i < |table| ==> !IsSurrogate(table[i].ucs)
    ensures IsScalar(ToUcs(table, keysym))
  {
  }

  // The keysym of the first character of a UTF-8 string.
  function FromUtf8(table: seq<CodePair>, s: seq<byte>): nat {
    if s == [] then NO_SYMBOL
    else
      match Next(s, |s|)
      case None => NO_SYMBOL
      case Some(r) => FromUcs(table, r.0)
  }

  // The keysym that a code point converts to also survives a trip through
  // UTF-8.
  lemma KeysymThroughUtf8(table: seq<CodePair>, ucs: nat, rest: seq<byte>)
    requires IsTable(table) && table[0].keysym > 0xff
    requires IsScalar(ucs) && ucs != 0
    ensures var keysym := FromUcs(table, ucs);
            IsScalar(ToUcs(table, keysym)) &&
            FromUtf8(table, Encode(ToUcs(table, keysym)) + rest) == keysym
  {
    RoundTrip(table, ucs);
    NextOfEncoded(ucs, rest, |Encode(ucs) + rest|);
  }
}
