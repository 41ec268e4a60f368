/** Cursors and the zero-width assertions (rustmatch/src/engine.rs:948-978). */
module Assertions {
  import opened Base

  datatype Assertion = LineStart | LineEnd | WordBoundary | NonWordBoundary

  /** A text position, and whether the scan has consumed a unit to get there. */
  datatype Cursor = Cursor(pos: nat, after: bool)

  const NEWLINE: U16 := 0x0a

  predicate IsAsciiWord(u: U16) {
    0x30 <= u <= 0x39 || 0x41 <= u <= 0x5a || u == 0x5f || 0x61 <= u <= 0x7a
  }

  predicate WordAt(w: Text, pos: int) {
    0 <= pos < |w| && IsAsciiWord(w[pos])
  }

  predicate IsWordBoundary(w: Text, pos: nat) {
    WordAt(w, pos - 1) != WordAt(w, pos)
  }

  predicate UnitIs(w: Text, pos: int, u: U16) {
    0 <= pos < |w| && w[pos] == u
  }

  predicate AssertionMatches(a: Assertion, w: Text, c: Cursor) {
    match a
    case LineStart => c.pos == 0 || UnitIs(w, c.pos - 1, NEWLINE)
    case LineEnd => c.after && (c.pos == |w| || UnitIs(w, c.pos, NEWLINE))
    case WordBoundary => IsWordBoundary(w, c.pos)
    case NonWordBoundary => !IsWordBoundary(w, c.pos)
  }
}
