// Small definitions that several modules share.
module Basics {

  datatype Option<+T> = None | Some(value: T)

  function Min(a: int, b: int): int { if a < b then a else b }

  function Max(a: int, b: int): int { if a < b then b else a }

  ghost predicate Distinct<T>(s: seq<T>) {
    forall i, j :: 0 <= i < j < |s| ==> s[i] != s[j]
  }

  // C strings: bytes without NUL, with a NUL behind the end.
  predicate IsCString(s: string) {
    forall i :: 0 <= i < |s| ==> 0 < s[i] as int < 256
  }

  function At(s: string, i: nat): char {
    if i < |s| then s[i] else '\0'
  }

  // The value of a `char`, whose signedness is up to the compiler.
  function CharValue(signedChar: bool, c: char): int {
    if signedChar && c as int >= 128 then c as int - 256 else c as int
  }
}
