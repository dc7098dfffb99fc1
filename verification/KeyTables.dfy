/** The four scancode tables of student-distrib/keyboard.c, and which character a key types. */
module KeyTables {
  import opened Bytes
  import opened LineEditor
  import Screen

  /** The characters of the four rows of keys, from the scancodes 0x02, 0x10, 0x1E and 0x2B on. */
  datatype Rows = Rows(digits: string, top: string, home: string, bottom: string)

  const PLAIN := Rows("1234567890-=", "qwertyuiop[]", "asdfghjkl;'`", "\\zxcvbnm,./")
  const CAPS := Rows("1234567890-=", "QWERTYUIOP[]", "ASDFGHJKL;'`", "\\ZXCVBNM,./")
  const SHIFT := Rows("!@#$%^&*()_+", "QWERTYUIOP{}", "ASDFGHJKL:\"~", "?ZXCVBNM<>?")
  const BOTH := Rows("!@#$%^&*()_+", "qwertyuiop{}", "asdfghjkl:\"~", "\\zxcvbnm<>?")

  predicate IsRows(r: Rows) {
    |r.digits| == |r.top| == |r.home| == 12 && |r.bottom| == 11
  }

  /** Entry `i` of a table; the rest is the same in all four. */
  function KeyAt(r: Rows, i: nat): Byte
    requires IsRows(r)
  {
    if 0x02 <= i < 0x0E then Code(r.digits[i - 0x02])
    else if 0x10 <= i < 0x1C then Code(r.top[i - 0x10])
    else if 0x1E <= i < 0x2A then Code(r.home[i - 0x1E])
    else if 0x2B <= i < 0x36 then Code(r.bottom[i - 0x2B])
    else if i == 0x01 then 27
    else if i == 0x0E then 8
    else if i == 0x0F then 9
    else if i == 0x1C then NEWLINE
    else if i == 0x37 then '*' as int
    else if i == 0x39 then SPACE
    else if i == 0x4A then '-' as int
    else if i == 0x4E then '+' as int
    else NUL
  }

  /** The ASCII code. */
  function Code(c: char): Byte {
    if c < 128 as char then c as int else NUL
  }

  function Table(r: Rows): (t: seq<Byte>)
    requires IsRows(r)
    ensures |t| == 128
  {
    seq(128, i requires 0 <= i => KeyAt(r, i))
  }

  /** kbdus, capitalCharacters, shiftCharacters and shiftAndCaps. */
  function Us(): (k: Keymap)
    ensures IsKeymap(k)
  {
    Keymap(Table(PLAIN), Table(CAPS), Table(SHIFT), Table(BOTH))
  }

  /** The keys with a letter. */
  predicate IsLetter(scancode: Byte) {
    0x10 <= scancode < 0x1A || 0x1E <= scancode < 0x27 || 0x2C <= scancode < 0x33
  }

  const BACKSLASH_KEY: Byte := 0x2B

  predicate IsLower(b: int) {
    'a' as int <= b <= 'z' as int
  }

  /** Entry `i` of the table that the modifiers select. */
  function Typed(m: Mods, i: nat): Byte {
    KeyAt(if m.shift then (if m.caps then BOTH else SHIFT) else if m.caps then CAPS else PLAIN, i)
  }

  lemma TranslateIs(m: Mods, scancode: Byte)
    requires scancode < 128
    ensures Translate(m, Us(), scancode) == Typed(m, scancode) && Us().plain[scancode] == KeyAt(PLAIN, scancode)
  {
  }

  lemma TopLetters(m: Mods, i: nat)
    requires 0x10 <= i < 0x1A
    ensures IsLower(KeyAt(PLAIN, i))
    ensures Typed(m, i) == KeyAt(PLAIN, i) - if m.caps != m.shift then 0x20 else 0
  {
  }

  lemma HomeLetters(m: Mods, i: nat)
    requires 0x1E <= i < 0x27
    ensures IsLower(KeyAt(PLAIN, i))
    ensures Typed(m, i) == KeyAt(PLAIN, i) - if m.caps != m.shift then 0x20 else 0
  {
  }

  lemma BottomLetters(m: Mods, i: nat)
    requires 0x2C <= i < 0x33
    ensures IsLower(KeyAt(PLAIN, i))
    ensures Typed(m, i) == KeyAt(PLAIN, i) - if m.caps != m.shift then 0x20 else 0
  {
  }

  lemma Letters(m: Mods, i: nat)
    requires i < 128 && IsLetter(i)
    ensures IsLower(KeyAt(PLAIN, i))
    ensures Typed(m, i) == KeyAt(PLAIN, i) - if m.caps != m.shift then 0x20 else 0
  {
    if i < 0x1A {
      TopLetters(m, i);
    } else if i < 0x27 {
      HomeLetters(m, i);
    } else {
      BottomLetters(m, i);
    }
  }

  lemma Signs(m: Mods, i: nat)
    requires i < 128 && !IsLetter(i)
    ensures Typed(m.(caps := true), i) != Typed(m.(caps := false), i) <==> i == BACKSLASH_KEY && m.shift
  {
  }

  /** A key with a letter types it, a capital exactly when one of caps lock and shift is on but not both. The L
      key, which takes a branch of its own, agrees. */
  lemma LetterKeys(m: Mods, scancode: Byte)
    requires IsLetter(scancode) && !(scancode == L_KEY && m.ctrl)
    ensures var letter := Us().plain[scancode];
            && IsLower(letter)
            && ActionOf(m, Us(), scancode) ==
               Insert(if m.caps != m.shift then letter - 0x20 else letter, scancode == L_KEY)
  {
    TranslateIs(m, scancode);
    Letters(m, scancode);
  }

  /** The digit keys type digits and, with shift, the signs above them, whatever caps lock says. */
  lemma DigitKeys(m: Mods, i: nat)
    requires i < 12
    ensures ActionOf(m, Us(), 0x02 + i) ==
            Insert((if m.shift then "!@#$%^&*()_+" else "1234567890-=")[i] as int, false)
  {
    TranslateIs(m, 0x02 + i);
  }

  /** The keys that type a character of the tables. */
  predicate IsOrdinary(scancode: Byte) {
    ActionOf(Mods(false, false, false, false), Us(), scancode).Insert?
  }

  /** The keys without a character that getchar does not sort out. */
  predicate TypesNul(scancode: Byte) {
    scancode == 0x4C || 0x54 <= scancode < 0x57 || 0x59 <= scancode < 0x80
  }

  predicate InRows(i: nat) {
    0x02 <= i < 0x0E || 0x10 <= i < 0x1C || 0x1E <= i < 0x2A || 0x2B <= i < 0x36
  }

  lemma DigitsHaveNoNul(m: Mods, i: nat)
    requires 0x02 <= i < 0x0E
    ensures Typed(m, i) != NUL
  {
  }

  lemma TopHasNoNul(m: Mods, i: nat)
    requires 0x10 <= i < 0x1C
    ensures Typed(m, i) != NUL
  {
  }

  lemma HomeHasNoNul(m: Mods, i: nat)
    requires 0x1E <= i < 0x2A
    ensures Typed(m, i) != NUL
  {
  }

  lemma BottomHasNoNul(m: Mods, i: nat)
    requires 0x2B <= i < 0x36
    ensures Typed(m, i) != NUL
  {
  }

  lemma RowsHaveNoNul(m: Mods, i: nat)
    requires InRows(i)
    ensures Typed(m, i) != NUL
  {
    if i < 0x0E {
      DigitsHaveNoNul(m, i);
    } else if i < 0x1C {
      TopHasNoNul(m, i);
    } else if i < 0x2A {
      HomeHasNoNul(m, i);
    } else {
      BottomHasNoNul(m, i);
    }
  }

  lemma OffRows(m: Mods, i: nat)
    requires !InRows(i)
    ensures Typed(m, i) != NUL <==> i in {0x01, 0x0E, 0x0F, 0x1C, 0x37, 0x39, 0x4A, 0x4E}
  {
  }

  lemma OrdinaryIs(scancode: Byte)
    ensures IsOrdinary(scancode) <==> InRows(scancode) || scancode in {0x01, 0x39, 0x4A, 0x4E} || TypesNul(scancode)
  {
  }

  /** The keys that type are escape, the four rows, space and the two signs of the number pad, and besides them
      some that have no character and put a zero byte into the line. */
  lemma OrdinaryKeysAre(m: Mods, scancode: Byte)
    ensures IsOrdinary(scancode) <==> InRows(scancode) || scancode in {0x01, 0x39, 0x4A, 0x4E} || TypesNul(scancode)
    ensures IsOrdinary(scancode) ==> (Typed(m, scancode) == NUL <==> TypesNul(scancode))
  {
    OrdinaryIs(scancode);
    if InRows(scancode) {
      RowsHaveNoNul(m, scancode);
    } else {
      OffRows(m, scancode);
    }
  }

  /** No release types or erases anything. */
  lemma ReleasesAreSilent(v: View, m: Mods, scancode: Byte, attr: Byte)
    requires Screen.IsTty(v.tty) && scancode >= 0x80
    ensures Act(v, ActionOf(m, Us(), scancode), attr) == v
  {
  }

  /** Caps lock matters to a key that types exactly when it has a letter, or is the backslash with shift held:
      there the table for shift alone has a question mark and the one for both a backslash. */
  lemma CapsMattersExactlyFor(m: Mods, scancode: Byte)
    requires IsOrdinary(scancode) && !(scancode == L_KEY && m.ctrl)
    ensures ActionOf(m.(caps := true), Us(), scancode) != ActionOf(m.(caps := false), Us(), scancode) <==>
            IsLetter(scancode) || (scancode == BACKSLASH_KEY && m.shift)
  {
    TranslateIs(m.(caps := true), scancode);
    TranslateIs(m.(caps := false), scancode);
    if IsLetter(scancode) {
      Letters(m.(caps := true), scancode);
      Letters(m.(caps := false), scancode);
    } else {
      Signs(m, scancode);
    }
  }
}
