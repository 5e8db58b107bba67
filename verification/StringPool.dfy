// The pool of result strings of a compose table: NUL-terminated strings in one
// array, offset 0 being the empty string.
module StringPool {

  const NUL: char := '\0'

  // The string that starts at an offset and ends before the next NUL.
  function StringAt(pool: string, offset: nat): string
    decreases |pool| - offset
  {
    if offset >= |pool| || pool[offset] == NUL then ""
    else [pool[offset]] + StringAt(pool, offset + 1)
  }

  predicate NoNul(s: string) {
    forall i :: 0 <= i < |s| ==> s[i] != NUL
  }

  // A terminated string is stored at an offset.
  predicate StoredAt(pool: string, offset: nat, s: string) {
    && offset + |s| < |pool| && pool[offset + |s|] == NUL
    && forall i :: 0 <= i < |s| ==> pool[offset + i] == s[i]
  }

  lemma {:induction false} StoredIsString(pool: string, offset: nat, s: string)
    requires StoredAt(pool, offset, s) && NoNul(s)
    ensures StringAt(pool, offset) == s
    decreases |s|
  {
    if s != [] {
      assert pool[offset + 0] == s[0];
      forall i | 0 <= i < |s| - 1
        ensures pool[offset + 1 + i] == s[1..][i]
      {
        assert pool[offset + (i + 1)] == s[i + 1];
      }
      StoredIsString(pool, offset + 1, s[1..]);
    }
  }

  // In a pool that ends with a NUL, every string is terminated.
  lemma {:induction false} StringIsStored(pool: string, offset: nat)
    requires offset < |pool| && pool[|pool| - 1] == NUL
    ensures StoredAt(pool, offset, StringAt(pool, offset)) && NoNul(StringAt(pool, offset))
    decreases |pool| - offset
  {
    if pool[offset] != NUL {
      StringIsStored(pool, offset + 1);
      var s, rest := StringAt(pool, offset), StringAt(pool, offset + 1);
      forall i | 0 <= i < |s|
        ensures pool[offset + i] == s[i] && s[i] != NUL
      {
        if i > 0 {
          assert pool[offset + 1 + (i - 1)] == rest[i - 1];
        }
      }
    }
  }

  // The positions a string occupies, with its terminator.
  predicate Separate(pool: string, a: nat, b: nat) {
    a + |StringAt(pool, a)| < b || b + |StringAt(pool, b)| < a
  }

  // Appending leaves earlier strings alone.
  lemma AppendKeepsString(pool: string, s: string, offset: nat)
    requires pool != [] && pool[|pool| - 1] == NUL && offset < |pool|
    ensures StringAt(pool + s + [NUL], offset) == StringAt(pool, offset)
  {
    StringIsStored(pool, offset);
    var old' := StringAt(pool, offset);
    var pool' := pool + s + [NUL];
    StoredIsString(pool', offset, old');
  }

  lemma AppendStores(pool: string, s: string)
    requires NoNul(s)
    ensures StringAt(pool + s + [NUL], |pool|) == s
  {
    var pool' := pool + s + [NUL];
    StoredIsString(pool', |pool|, s);
  }

  // Copy a string, with its terminator, over the start of another.
  function Overwrite(pool: string, offset: nat, s: string): (r: string)
    requires offset + |s| < |pool|
    ensures |r| == |pool|
  {
    pool[..offset] + s + [NUL] + pool[offset + |s| + 1..]
  }

  lemma OverwriteStores(pool: string, offset: nat, s: string)
    requires offset + |s| < |pool| && NoNul(s)
    ensures StringAt(Overwrite(pool, offset, s), offset) == s
  {
    var pool' := Overwrite(pool, offset, s);
    StoredIsString(pool', offset, s);
  }

  // Overwriting with a string that is not longer leaves strings elsewhere
  // alone.
  lemma OverwriteKeepsString(pool: string, offset: nat, s: string, other: nat)
    requires pool != [] && pool[|pool| - 1] == NUL && offset < |pool| && other < |pool|
    requires |s| <= |StringAt(pool, offset)| && offset + |s| < |pool| && Separate(pool, offset, other)
    ensures StringAt(Overwrite(pool, offset, s), other) == StringAt(pool, other)
  {
    StringIsStored(pool, offset);
    StringIsStored(pool, other);
    var kept := StringAt(pool, other);
    var pool' := Overwrite(pool, offset, s);
    StoredIsString(pool', other, kept);
  }

  lemma OverwriteKeepsEnd(pool: string, offset: nat, s: string)
    requires pool != [] && pool[|pool| - 1] == NUL && offset + |s| < |pool|
    ensures Overwrite(pool, offset, s)[|pool| - 1] == NUL
    ensures offset > 0 ==> Overwrite(pool, offset, s)[0] == pool[0]
  {
  }

  // Storing a string over itself changes nothing.
  lemma OverwriteSame(pool: string, offset: nat)
    requires offset < |pool| && pool[|pool| - 1] == NUL
    ensures offset + |StringAt(pool, offset)| < |pool|
    ensures Overwrite(pool, offset, StringAt(pool, offset)) == pool
  {
    StringIsStored(pool, offset);
    var s := StringAt(pool, offset);
    var pool' := Overwrite(pool, offset, s);
    forall i | 0 <= i < |pool|
      ensures pool'[i] == pool[i]
    {
      if offset <= i < offset + |s| {
        assert pool[offset + (i - offset)] == s[i - offset];
      }
    }
  }
}
