// The keys of a keymap: direct access for low keycodes, binary search for
// high ones, and the iterator over named keys in either direction.
module KeymapKeys {

  import opened Basics

  datatype Key = Key(keycode: nat, name: nat, numGroups: nat)

  datatype Keymap = Keymap(minKeyCode: nat, maxKeyCode: nat, numKeysLow: nat, keys: seq<Key>)

  const ATOM_NONE: nat := 0
  const KEYCODE_INVALID: nat := 0xffff_ffff

  // The first entry that belongs to a keycode of the keymap.
  function Start(m: Keymap): nat {
    if m.numKeysLow > 0 then m.minKeyCode else 0
  }

  // Low keycodes are their own index; the high keycodes follow in order.
  ghost predicate IsKeymap(m: Keymap) {
    && m.numKeysLow <= |m.keys|
    && (m.numKeysLow > 0 ==> m.minKeyCode < m.numKeysLow)
    && (forall i :: m.minKeyCode <= i < m.numKeysLow ==> m.keys[i].keycode == i)
    && (forall i :: m.numKeysLow <= i < |m.keys| ==> m.numKeysLow <= m.keys[i].keycode)
    && (forall i, j :: m.numKeysLow <= i < j < |m.keys| ==> m.keys[i].keycode < m.keys[j].keycode)
    && (forall i :: Start(m) <= i < |m.keys| ==> m.minKeyCode <= m.keys[i].keycode <= m.maxKeyCode)
    && m.maxKeyCode < KEYCODE_INVALID
  }

  lemma KeycodesAscend(m: Keymap, i: nat, j: nat)
    requires IsKeymap(m) && Start(m) <= i < j < |m.keys|
    ensures m.keys[i].keycode < m.keys[j].keycode
  {
  }

  // ------------------------------------------------------------------------
  // Finding a key

  // The reference: look at every entry.
  function LinearFind(m: Keymap, kc: nat, i: nat): (r: Option<nat>)
    requires i <= |m.keys|
    ensures r.Some? ==> i <= r.value < |m.keys| && m.keys[r.value].keycode == kc
    ensures r.None? ==> forall k :: i <= k < |m.keys| ==> m.keys[k].keycode != kc
    decreases |m.keys| - i
  {
    if i == |m.keys| then None
    else if m.keys[i].keycode == kc then Some(i)
    else LinearFind(m, kc, i + 1)
  }

  method XkbKey(m: Keymap, kc: nat) returns (r: Option<nat>)
    requires IsKeymap(m)
    ensures r == LinearFind(m, kc, Start(m))
  {
    if kc < m.minKeyCode || kc > m.maxKeyCode {
      return None;
    } else if kc < m.numKeysLow {
      FoundIsUnique(m, kc, kc);
      return Some(kc);
    }
    var lower, upper := m.numKeysLow, |m.keys|;
    while lower < upper
      invariant m.numKeysLow <= lower <= upper <= |m.keys|
      invariant forall i :: m.numKeysLow <= i < lower ==> m.keys[i].keycode < kc
      invariant forall i :: upper <= i < |m.keys| ==> m.keys[i].keycode > kc
    {
      var mid := lower + (upper - 1 - lower) / 2;
      if m.keys[mid].keycode < kc {
        lower := mid + 1;
      } else if m.keys[mid].keycode > kc {
        upper := mid;
      } else {
        FoundIsUnique(m, kc, mid);
        return Some(mid);
      }
    }
    return None;
  }

  lemma FoundIsUnique(m: Keymap, kc: nat, i: nat)
    requires IsKeymap(m) && Start(m) <= i < |m.keys| && m.keys[i].keycode == kc
    ensures LinearFind(m, kc, Start(m)) == Some(i)
  {
    var found := LinearFind(m, kc, Start(m));
    if found.Some? && found.value < i {
      KeycodesAscend(m, found.value, i);
    } else if found.Some? && i < found.value {
      KeycodesAscend(m, i, found.value);
    }
  }

  // ------------------------------------------------------------------------
  // The keys an iteration yields

  predicate Wanted(key: Key, skipUnbound: bool) {
    key.name != ATOM_NONE && !(skipUnbound && key.numGroups == 0)
  }

  // The keycodes of the wanted keys among entries lo to hi - 1, in order.
  function Ascending(keys: seq<Key>, skip: bool, lo: nat, hi: nat): seq<nat>
    requires lo <= hi <= |keys|
    decreases hi - lo
  {
    if lo == hi then []
    else (if Wanted(keys[lo], skip) then [keys[lo].keycode] else []) + Ascending(keys, skip, lo + 1, hi)
  }

  function Reverse(s: seq<nat>): (r: seq<nat>)
    ensures |r| == |s|
    ensures forall i :: 0 <= i < |s| ==> r[i] == s[|s| - 1 - i]
  {
    seq(|s|, i requires 0 <= i < |s| => s[|s| - 1 - i])
  }

  // Splitting off the last entry.
  lemma {:induction false} AscendingLast(keys: seq<Key>, skip: bool, lo: nat, hi: nat)
    requires lo < hi <= |keys|
    ensures Ascending(keys, skip, lo, hi)
         == Ascending(keys, skip, lo, hi - 1) + (if Wanted(keys[hi - 1], skip) then [keys[hi - 1].keycode] else [])
    decreases hi - lo
  {
    var first := if Wanted(keys[lo], skip) then [keys[lo].keycode] else [];
    var last := if Wanted(keys[hi - 1], skip) then [keys[hi - 1].keycode] else [];
    if lo + 1 < hi {
      AscendingLast(keys, skip, lo + 1, hi);
      var middle := Ascending(keys, skip, lo + 1, hi - 1);
      assert first + (middle + last) == (first + middle) + last;
    } else {
      assert first + [] == first && [] + first == first;
    }
  }

  lemma {:induction false} AscendingMembers(m: Keymap, skip: bool, lo: nat, kc: nat)
    requires lo <= |m.keys|
    ensures kc in Ascending(m.keys, skip, lo, |m.keys|) <==>
            exists i :: lo <= i < |m.keys| && m.keys[i].keycode == kc && Wanted(m.keys[i], skip)
    decreases |m.keys| - lo
  {
    if lo < |m.keys| {
      AscendingMembers(m, skip, lo + 1, kc);
    }
  }

  // Every wanted key appears once, in ascending order of keycodes.
  lemma {:induction false} AscendingStrict(m: Keymap, skip: bool, lo: nat)
    requires IsKeymap(m) && Start(m) <= lo <= |m.keys|
    ensures Increasing(Ascending(m.keys, skip, lo, |m.keys|))
    decreases |m.keys| - lo
  {
    if lo < |m.keys| {
      AscendingStrict(m, skip, lo + 1);
      var rest := Ascending(m.keys, skip, lo + 1, |m.keys|);
      if Wanted(m.keys[lo], skip) {
        forall k | 0 <= k < |rest|
          ensures m.keys[lo].keycode < rest[k]
        {
          FollowsKey(m, skip, lo, rest[k]);
        }
        IncreasingFront(m.keys[lo].keycode, rest);
        assert Ascending(m.keys, skip, lo, |m.keys|) == [m.keys[lo].keycode] + rest;
      } else {
        assert Ascending(m.keys, skip, lo, |m.keys|) == rest;
      }
    }
  }

  lemma FollowsKey(m: Keymap, skip: bool, lo: nat, kc: nat)
    requires IsKeymap(m) && Start(m) <= lo < |m.keys| && kc in Ascending(m.keys, skip, lo + 1, |m.keys|)
    ensures m.keys[lo].keycode < kc
  {
    AscendingMembers(m, skip, lo + 1, kc);
    var i :| lo + 1 <= i < |m.keys| && m.keys[i].keycode == kc && Wanted(m.keys[i], skip);
    KeycodesAscend(m, lo, i);
  }

  predicate Increasing(s: seq<nat>) {
    forall i, j :: 0 <= i < j < |s| ==> s[i] < s[j]
  }

  lemma IncreasingFront(x: nat, s: seq<nat>)
    requires Increasing(s) && forall k :: 0 <= k < |s| ==> x < s[k]
    ensures Increasing([x] + s)
  {
  }

  // The keycodes still to come when the cursor stands on entry i.
  ghost function Upcoming(keys: seq<Key>, skip: bool, increment: int, min: nat, i: int): seq<nat>
    requires min <= |keys|
  {
    if increment == 1 then (if min <= i <= |keys| then Ascending(keys, skip, i, |keys|) else [])
    else (if min - 1 <= i < |keys| then Reverse(Ascending(keys, skip, min, i + 1)) else [])
  }

  // One step of the cursor, in either direction.
  lemma StepUpcoming(keys: seq<Key>, skip: bool, increment: int, min: nat, i: nat)
    requires min <= i < |keys| && (increment == 1 || increment == -1)
    ensures Upcoming(keys, skip, increment, min, i)
         == (if Wanted(keys[i], skip) then [keys[i].keycode] else [])
            + Upcoming(keys, skip, increment, min, i + increment)
    ensures i + increment < min || i + increment >= |keys| ==> Upcoming(keys, skip, increment, min, i + increment) == []
  {
    if increment == -1 {
      AscendingLast(keys, skip, min, i + 1);
      ReverseAppend(Ascending(keys, skip, min, i), if Wanted(keys[i], skip) then [keys[i].keycode] else []);
    }
  }

  lemma SkipStep(keys: seq<Key>, skip: bool, increment: int, min: nat, i: nat)
    requires min <= i < |keys| && (increment == 1 || increment == -1) && !Wanted(keys[i], skip)
    ensures Upcoming(keys, skip, increment, min, i + increment) == Upcoming(keys, skip, increment, min, i)
    ensures i + increment < min || i + increment >= |keys| ==> Upcoming(keys, skip, increment, min, i) == []
  {
    StepUpcoming(keys, skip, increment, min, i);
  }

  lemma TakeStep(keys: seq<Key>, skip: bool, increment: int, min: nat, i: nat, all: seq<nat>)
    requires min <= i < |keys| && (increment == 1 || increment == -1) && Wanted(keys[i], skip)
    requires all == Upcoming(keys, skip, increment, min, i)
    ensures all != [] && all[0] == keys[i].keycode && all[1..] == Upcoming(keys, skip, increment, min, i + increment)
    ensures i + increment < min || i + increment >= |keys| ==> all[1..] == []
  {
    StepUpcoming(keys, skip, increment, min, i);
    var rest := Upcoming(keys, skip, increment, min, i + increment);
    assert ([keys[i].keycode] + rest)[1..] == rest;
  }

  lemma ReverseAppend(s: seq<nat>, t: seq<nat>)
    requires |t| <= 1
    ensures Reverse(s + t) == t + Reverse(s)
  {
  }

  // ------------------------------------------------------------------------
  // The iterator

  class KeyCursor {
    const keymap: Keymap
    const increment: int
    const skipUnbound: bool
    const min: nat
    const max: int
    var next: Option<nat>
    ghost var remaining: seq<nat>  // the keycodes still to come

    ghost predicate Valid()
      reads this
    {
      && (increment == 1 || increment == -1)
      && min == Start(keymap) <= |keymap.keys| && max == |keymap.keys| - 1
      && match next
         case None => remaining == []
         case Some(i) => min <= i <= max && remaining == Upcoming(keymap.keys, skipUnbound, increment, min, i)
    }

    constructor (keymap: Keymap, descending: bool, skipUnbound: bool)
      requires IsKeymap(keymap)
      ensures Valid() && this.keymap == keymap
      ensures remaining == Yield(keymap, descending, skipUnbound)
    {
      this.keymap := keymap;
      this.skipUnbound := skipUnbound;
      increment := if descending then -1 else 1;
      min, max := Start(keymap), |keymap.keys| - 1;
      remaining := Yield(keymap, descending, skipUnbound);
      if |keymap.keys| == 0 {
        next := None;
      } else {
        next := Some(if descending then |keymap.keys| - 1 else Start(keymap));
      }
    }

    // Advance to the next wanted key.
    method Next() returns (kc: nat)
      requires Valid()
      modifies `next, `remaining
      ensures Valid()
      ensures old(remaining) == [] ==> kc == KEYCODE_INVALID && remaining == []
      ensures old(remaining) != [] ==> kc == old(remaining)[0] && remaining == old(remaining)[1..]
    {
      if next.None? {
        return KEYCODE_INVALID;
      }
      var i: int := SkipUnwanted(next.value);
      if i < min || i > max {
        next := None;
        return KEYCODE_INVALID;
      }
      kc := Take(i);
    }

    // Yield a key and step over it.
    method Take(i: nat) returns (kc: nat)
      requires (increment == 1 || increment == -1) && min == Start(keymap) <= |keymap.keys| && max == |keymap.keys| - 1
      requires min <= i <= max && Wanted(keymap.keys[i], skipUnbound)
      requires remaining == Upcoming(keymap.keys, skipUnbound, increment, min, i)
      modifies `next, `remaining
      ensures Valid()
      ensures old(remaining) != [] && kc == old(remaining)[0] && remaining == old(remaining)[1..]
    {
      TakeStep(keymap.keys, skipUnbound, increment, min, i, remaining);
      kc := keymap.keys[i].keycode;
      var j := i + increment;
      next := if j < min || j > max then None else Some(j);
      remaining := remaining[1..];
    }

    // Skip undefined keys and, if asked to, unbound ones.
    method SkipUnwanted(from: nat) returns (i: int)
      requires Valid() && min <= from <= max
      ensures min <= i <= max ==> Wanted(keymap.keys[i], skipUnbound)
      ensures Upcoming(keymap.keys, skipUnbound, increment, min, from)
           == if min <= i <= max then Upcoming(keymap.keys, skipUnbound, increment, min, i) else []
    {
      i := from;
      while keymap.keys[i].name == ATOM_NONE || (skipUnbound && keymap.keys[i].numGroups == 0)
        invariant min <= i <= max
        invariant Upcoming(keymap.keys, skipUnbound, increment, min, i)
               == Upcoming(keymap.keys, skipUnbound, increment, min, from)
        decreases if increment == 1 then max - i else i - min
      {
        SkipStep(keymap.keys, skipUnbound, increment, min, i);
        i := i + increment;
        if i < min || i > max {
          return;
        }
      }
    }
  }

  // Running an iterator to exhaustion yields all its keycodes, and it stays
  // exhausted.
  method Collect(it: KeyCursor) returns (all: seq<nat>)
    requires it.Valid() && KeycodesValid(it.remaining)
    modifies it`next, it`remaining
    ensures it.Valid() && it.remaining == []
    ensures all == old(it.remaining)
  {
    all := [];
    ghost var todo := it.remaining;
    var kc := it.Next();
    while kc != KEYCODE_INVALID
      invariant it.Valid() && KeycodesValid(it.remaining) && Halfway(todo, all, kc, it.remaining)
      decreases |it.remaining|, kc != KEYCODE_INVALID
    {
      ghost var rest := it.remaining;
      all := all + [kc];
      kc := it.Next();
      HalfwayStep(todo, all, rest);
    }
  }

  // What was yielded, the last keycode and what is to come make up the whole.
  ghost predicate Halfway(todo: seq<nat>, all: seq<nat>, kc: nat, rest: seq<nat>) {
    if kc == KEYCODE_INVALID then rest == [] && todo == all else todo == all + [kc] + rest
  }

  lemma HalfwayStep(todo: seq<nat>, all: seq<nat>, rest: seq<nat>)
    requires todo == all + rest && KeycodesValid(rest)
    ensures rest == [] ==> Halfway(todo, all, KEYCODE_INVALID, rest)
    ensures rest != [] ==> KeycodesValid(rest[1..]) && Halfway(todo, all, rest[0], rest[1..])
  {
  }

  ghost predicate KeycodesValid(s: seq<nat>) {
    forall i :: 0 <= i < |s| ==> s[i] != KEYCODE_INVALID
  }

  // The keycodes of a keymap are valid.
  lemma {:induction false} AscendingValid(m: Keymap, skip: bool, lo: nat, hi: nat)
    requires IsKeymap(m) && Start(m) <= lo <= hi <= |m.keys|
    ensures KeycodesValid(Ascending(m.keys, skip, lo, hi))
    decreases hi - lo
  {
    if lo < hi {
      AscendingValid(m, skip, lo + 1, hi);
    }
  }

  ghost predicate HasWanted(m: Keymap, skip: bool, kc: nat) {
    exists i :: Start(m) <= i < |m.keys| && m.keys[i].keycode == kc && Wanted(m.keys[i], skip)
  }

  lemma ReverseMembers(s: seq<nat>, x: nat)
    ensures x in Reverse(s) <==> x in s
  {
    if x in s {
      var i :| 0 <= i < |s| && s[i] == x;
      assert Reverse(s)[|s| - 1 - i] == x;
    }
  }

  // What an iteration over a keymap is to yield.
  ghost function Yield(m: Keymap, descending: bool, skip: bool): seq<nat>
    requires IsKeymap(m)
  {
    var up := Ascending(m.keys, skip, Start(m), |m.keys|);
    if descending then Reverse(up) else up
  }

  lemma YieldIsOrdered(m: Keymap, descending: bool, skip: bool)
    requires IsKeymap(m)
    ensures var all := Yield(m, descending, skip);
            KeycodesValid(all) && Increasing(if descending then Reverse(all) else all)
  {
    var up := Ascending(m.keys, skip, Start(m), |m.keys|);
    AscendingStrict(m, skip, Start(m));
    AscendingValid(m, skip, Start(m), |m.keys|);
    assert Reverse(Reverse(up)) == up;
  }

  lemma YieldIsComplete(m: Keymap, descending: bool, skip: bool, kc: nat)
    requires IsKeymap(m)
    ensures kc in Yield(m, descending, skip) <==> HasWanted(m, skip, kc)
  {
    AscendingMembers(m, skip, Start(m), kc);
    ReverseMembers(Ascending(m.keys, skip, Start(m), |m.keys|), kc);
  }

  // Iterating over a keymap yields the keycode of every key once that has a name
  // and, if asked to, groups, in ascending order or, if asked to, in descending
  // order.
  method IterateKeys(m: Keymap, descending: bool, skipUnbound: bool) returns (all: seq<nat>)
    requires IsKeymap(m)
    ensures Increasing(if descending then Reverse(all) else all)
    ensures forall kc :: kc in all <==>
              exists i :: Start(m) <= i < |m.keys| && m.keys[i].keycode == kc
                          && m.keys[i].name != ATOM_NONE && (skipUnbound ==> m.keys[i].numGroups > 0)
  {
    YieldIsOrdered(m, descending, skipUnbound);
    var it := new KeyCursor(m, descending, skipUnbound);
    all := Collect(it);
    forall kc
      ensures kc in all <==>
              exists i :: Start(m) <= i < |m.keys| && m.keys[i].keycode == kc
                          && m.keys[i].name != ATOM_NONE && (skipUnbound ==> m.keys[i].numGroups > 0)
    {
      YieldIsComplete(m, descending, skipUnbound, kc);
    }
  }
}
