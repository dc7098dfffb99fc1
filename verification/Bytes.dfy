/** The machine's unsigned bytes and words, and the characters the programs treat specially. */
module Bytes {
  type Byte = b: int | 0 <= b < 256

  const WORD: int := 0x1_0000_0000  // one more than the largest 32-bit unsigned value
  type Word = w: int | 0 <= w < 0x1_0000_0000

  const NUL: Byte := 0
  const NEWLINE: Byte := 10
  const SPACE: Byte := 32
  const COLON: Byte := 58

  function Min(a: int, b: int): int {
    if a <= b then a else b
  }

  /** Byte `i` of the C string whose characters before the terminator are `s`. */
  function At(s: seq<Byte>, i: nat): Byte {
    if i < |s| then s[i] else NUL
  }

  /** Length of the first line of `text`, newline excluded. */
  function LineLength(text: seq<Byte>): (n: nat)
    ensures n <= |text|
    ensures forall i | 0 <= i < n :: text[i] != NEWLINE
    ensures n < |text| ==> text[n] == NEWLINE
  {
    if text == [] || text[0] == NEWLINE then 0 else 1 + LineLength(text[1..])
  }

  /** A line in front of other text. */
  lemma LineInFront(line: seq<Byte>, rest: seq<Byte>)
    requires NEWLINE !in line
    ensures var text := line + [NEWLINE] + rest;
            LineLength(text) == |line| && text[..|line|] == line && text[|line| + 1..] == rest
  {
    var text := line + [NEWLINE] + rest;
    assert forall i | 0 <= i < |line| :: text[i] == line[i] != NEWLINE;
    assert text[|line|] == NEWLINE;
  }
}
