// Line and column of the current token, computed from a cached earlier
// location.
module ScannerLocation {

  datatype Location = Location(line: nat, column: nat)

  function Newlines(s: string, pos: nat): nat
    requires pos <= |s|
  {
    if pos == 0 then 0 else Newlines(s, pos - 1) + (if s[pos - 1] == '\n' then 1 else 0)
  }

  // Where the line of a position starts.
  function LineStart(s: string, pos: nat): (start: nat)
    requires pos <= |s|
    ensures start <= pos
  {
    if pos == 0 || s[pos - 1] == '\n' then pos else LineStart(s, pos - 1)
  }

  // The reference: count from the start of the input.
  function LocationOf(s: string, pos: nat): Location
    requires pos <= |s|
  {
    Location(1 + Newlines(s, pos), pos - LineStart(s, pos) + 1)
  }

  // The first character is at line 1 and column 1; a newline starts the next
  // line, any other character the next column.
  lemma LocationSteps(s: string, pos: nat)
    requires pos < |s|
    ensures LocationOf(s, 0) == Location(1, 1)
    ensures var before, after := LocationOf(s, pos), LocationOf(s, pos + 1);
            after == if s[pos] == '\n' then Location(before.line + 1, 1) else Location(before.line, before.column + 1)
  {
  }

  predicate Earlier(a: Location, b: Location) {
    a.line < b.line || (a.line == b.line && a.column < b.column)
  }

  // Later positions have later locations, so no two share one.
  lemma {:induction false} LocationsAscend(s: string, from: nat, to: nat)
    requires from < to <= |s|
    ensures Earlier(LocationOf(s, from), LocationOf(s, to))
  {
    LocationSteps(s, to - 1);
    if from < to - 1 {
      LocationsAscend(s, from, to - 1);
    }
  }

  ghost predicate NoNewline(s: string, from: nat, to: nat)
    requires from <= to <= |s|
  {
    forall i :: from <= i < to ==> s[i] != '\n'
  }

  lemma {:induction false} SameLine(s: string, from: nat, to: nat)
    requires from <= to <= |s| && NoNewline(s, from, to)
    ensures Newlines(s, to) == Newlines(s, from) && LineStart(s, to) == LineStart(s, from)
  {
    if from < to {
      SameLine(s, from, to - 1);
    }
  }

  // Search for a newline, as memchr does.
  method FindNewline(s: string, from: nat, to: nat) returns (p: nat)
    requires from <= to <= |s|
    ensures from <= p <= to && NoNewline(s, from, p)
    ensures p < to ==> s[p] == '\n'
  {
    p := from;
    while p < to && s[p] != '\n'
      invariant from <= p <= to && NoNewline(s, from, p)
    {
      p := p + 1;
    }
  }

  class Scanner {
    const s: string
    var tokenPos: nat
    var cachedPos: nat
    var cachedLoc: Location

    ghost predicate Valid()
      reads this
    {
      && tokenPos <= |s| && cachedPos <= |s|
      && cachedLoc == LocationOf(s, cachedPos)
    }

    constructor (s: string)
      ensures Valid() && this.s == s && tokenPos == 0
    {
      this.s := s;
      tokenPos, cachedPos := 0, 0;
      cachedLoc := Location(1, 1);
    }

    // The token may be anywhere, before or after the cached position.
    method TokenLocation() returns (loc: Location)
      requires Valid()
      modifies `cachedPos, `cachedLoc
      ensures Valid() && cachedPos == tokenPos
      ensures loc == LocationOf(s, tokenPos)
    {
      if cachedPos > tokenPos {
        cachedPos := 0;
        cachedLoc := Location(1, 1);
      }
      var line, linePos := cachedLoc.line, 0;
      var ptr := cachedPos;
      var p := FindNewline(s, ptr, tokenPos);
      while p < tokenPos
        invariant cachedPos <= ptr <= p <= tokenPos
        invariant cachedLoc == LocationOf(s, cachedPos)
        invariant NoNewline(s, ptr, p) && (p < tokenPos ==> s[p] == '\n')
        invariant line == 1 + Newlines(s, ptr) >= cachedLoc.line
        invariant line == cachedLoc.line <==> ptr == cachedPos
        invariant ptr != cachedPos ==> linePos == ptr == LineStart(s, ptr)
        decreases tokenPos - ptr
      {
        SameLine(s, ptr, p);
        line := line + 1;
        ptr := p + 1;
        linePos := ptr;
        p := FindNewline(s, ptr, tokenPos);
      }
      SameLine(s, ptr, p);
      var column;
      if line == cachedLoc.line {
        column := cachedLoc.column + (tokenPos - cachedPos);
      } else {
        column := tokenPos - linePos + 1;
      }
      loc := Location(line, column);
      cachedPos := tokenPos;
      cachedLoc := loc;
    }
  }

  // Any sequence of token positions, forwards and backwards, is located as if
  // nothing were cached.
  method LocateAll(scanner: Scanner, positions: seq<nat>) returns (locs: seq<Location>)
    requires scanner.Valid() && forall i :: 0 <= i < |positions| ==> positions[i] <= |scanner.s|
    modifies scanner
    ensures scanner.Valid() && |locs| == |positions|
    ensures forall i :: 0 <= i < |positions| ==> locs[i] == LocationOf(scanner.s, positions[i])
  {
    locs := [];
    for i := 0 to |positions|
      invariant scanner.Valid() && |locs| == i
      invariant forall k :: 0 <= k < i ==> locs[k] == LocationOf(scanner.s, positions[k])
    {
      scanner.tokenPos := positions[i];
      var loc := scanner.TokenLocation();
      locs := locs + [loc];
    }
  }
}
