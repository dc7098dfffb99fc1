/** Number printing: `itoa`, `strrev` and the number conversions of `printf` (student-distrib/lib.c). */
module Numbers {
  import opened Bytes

  const LOOKUP := "0123456789ABCDEFGHIJKLMNOPQRSTUVWXYZ"
  const END := '\0'

  type Radix = r: int | 2 <= r <= 36 witness 10

  // ----- What a numeral is -----

  predicate IsDigit(c: char, radix: Radix) {
    || ('0' <= c <= '9' && c as int - '0' as int < radix)
    || ('A' <= c <= 'Z' && c as int - 'A' as int + 10 < radix)
  }

  function DigitValue(c: char, radix: Radix): (d: nat)
    requires IsDigit(c, radix)
    ensures d < radix
  {
    if c <= '9' then c as int - '0' as int else c as int - 'A' as int + 10
  }

  ghost predicate AllDigits(s: string, radix: Radix) {
    forall i | 0 <= i < |s| :: IsDigit(s[i], radix)
  }

  /** Horner's rule, most significant digit first, starting from `acc`. */
  function Evaluate(acc: nat, s: string, radix: Radix): nat
    requires AllDigits(s, radix)
    decreases |s|
  {
    if s == [] then acc else Evaluate(acc * radix + DigitValue(s[0], radix), s[1..], radix)
  }

  /** `s` writes `value`, with no leading zero unless it is the zero. */
  ghost predicate IsNumeral(s: string, radix: Radix, value: nat) {
    && s != [] && AllDigits(s, radix)
    && (|s| > 1 ==> s[0] != '0')
    && Evaluate(0, s, radix) == value
  }

  function NumeralLength(value: nat, radix: Radix): (n: nat)
    ensures n > 0
  {
    if value < radix then 1 else 1 + NumeralLength(value / radix, radix)
  }

  lemma {:induction false} EvaluateSplit(acc: nat, s: string, c: char, radix: Radix)
    requires AllDigits(s, radix) && IsDigit(c, radix)
    ensures AllDigits(s + [c], radix)
    ensures Evaluate(acc, s + [c], radix) == Evaluate(acc, s, radix) * radix + DigitValue(c, radix)
    decreases |s|
  {
    if s != [] {
      var next := acc * radix + DigitValue(s[0], radix);
      assert (s + [c])[0] == s[0] && (s + [c])[1..] == s[1..] + [c];
      EvaluateSplit(next, s[1..], c, radix);
      assert Evaluate(acc, s + [c], radix) == Evaluate(next, s[1..] + [c], radix);
    } else {
      assert s + [c] == [c] && [c][1..] == [];
    }
  }

  lemma DivisionIsUnique(a: nat, b: nat, c: nat, d: nat, radix: Radix)
    requires b < radix && d < radix && a * radix + b == c * radix + d
    ensures a == c && b == d
  {
    assert a < c ==> (a + 1) * radix <= c * radix;
    assert c < a ==> (c + 1) * radix <= a * radix;
  }

  lemma DigitIsUnique(c: char, d: char, radix: Radix)
    requires IsDigit(c, radix) && IsDigit(d, radix) && DigitValue(c, radix) == DigitValue(d, radix)
    ensures c == d
  {
  }

  /** A string of digits that does not start with a zero does not evaluate to zero. */
  lemma {:induction false} EvaluatePositive(acc: nat, s: string, radix: Radix)
    requires AllDigits(s, radix) && (acc > 0 || (s != [] && s[0] != '0'))
    ensures Evaluate(acc, s, radix) > 0
    decreases |s|
  {
    if s != [] {
      assert acc * radix >= acc;
      EvaluatePositive(acc * radix + DigitValue(s[0], radix), s[1..], radix);
    }
  }

  /** Without its last digit a numeral writes the quotient, and the last digit the remainder. */
  lemma NumeralSplit(s: string, radix: Radix, value: nat) returns (front: string, last: char)
    requires IsNumeral(s, radix, value)
    ensures s == front + [last] && AllDigits(front, radix) && IsDigit(last, radix)
    ensures value == Evaluate(0, front, radix) * radix + DigitValue(last, radix)
    ensures front != [] ==> IsNumeral(front, radix, Evaluate(0, front, radix)) && Evaluate(0, front, radix) > 0
    ensures front == [] ==> Evaluate(0, front, radix) == 0
  {
    front, last := s[..|s| - 1], s[|s| - 1];
    assert s == front + [last];
    EvaluateSplit(0, front, last, radix);
    if front != [] {
      EvaluatePositive(0, front, radix);
    }
  }

  /** A value has only one numeral in a radix. */
  lemma {:induction false} NumeralIsUnique(s: string, t: string, radix: Radix, value: nat)
    requires IsNumeral(s, radix, value) && IsNumeral(t, radix, value)
    ensures s == t
    decreases |s|
  {
    var sFront, sLast := NumeralSplit(s, radix, value);
    var tFront, tLast := NumeralSplit(t, radix, value);
    var sHigh, tHigh := Evaluate(0, sFront, radix), Evaluate(0, tFront, radix);
    DivisionIsUnique(sHigh, DigitValue(sLast, radix), tHigh, DigitValue(tLast, radix), radix);
    DigitIsUnique(sLast, tLast, radix);
    if sFront != [] {
      NumeralIsUnique(sFront, tFront, radix, sHigh);
    }
  }

  /** Numeral lengths follow the powers of the radix. */
  function Power(radix: Radix, k: nat): (p: nat)
    ensures p > 0
  {
    if k == 0 then 1 else radix * Power(radix, k - 1)
  }

  lemma QuotientBound(value: nat, radix: Radix, p: nat)
    requires value < radix * p
    ensures value / radix < p && (p == 1 ==> value < radix)
  {
    var q, r := value / radix, value % radix;
    assert value == q * radix + r;
    assert q >= p ==> q * radix >= p * radix;
  }

  lemma {:induction false} LengthBound(value: nat, radix: Radix, k: nat)
    requires k > 0 && value < Power(radix, k)
    ensures NumeralLength(value, radix) <= k
    decreases k
  {
    if value >= radix {
      var p := Power(radix, k - 1);
      QuotientBound(value, radix, p);
      assert k == 1 ==> p == 1;
      LengthBound(value / radix, radix, k - 1);
    }
  }

  // ----- Building the numeral least digit first -----

  function Reversed(s: string): (r: string)
    ensures |r| == |s|
    ensures forall i | 0 <= i < |s| :: r[i] == s[|s| - 1 - i]
  {
    if s == [] then [] else Reversed(s[1..]) + [s[0]]
  }

  /** What the digits still to come (`high`) and those already written, least first, will read as. */
  function Pending(high: nat, low: string, radix: Radix): nat
    requires AllDigits(low, radix)
  {
    Evaluate(high, Reversed(low), radix)
  }

  lemma PushDigit(quotient: nat, low: string, c: char, radix: Radix)
    requires AllDigits(low, radix) && IsDigit(c, radix)
    ensures AllDigits(low + [c], radix)
    ensures Pending(quotient, low + [c], radix) == Pending(quotient * radix + DigitValue(c, radix), low, radix)
  {
    var r, tail := Reversed(low + [c]), Reversed(low);
    assert r == [c] + tail;
    assert r[1..] == tail && r[0] == c;
  }

  lemma LookupIsDigit(i: nat, radix: Radix)
    requires i < radix
    ensures IsDigit(LOOKUP[i], radix) && DigitValue(LOOKUP[i], radix) == i
    ensures LOOKUP[i] == '0' <==> i == 0
    ensures LOOKUP[i] != END
  {
  }

  /** `strlen(buf + at)`. */
  method StrLen(buf: array<char>, at: nat, ghost end: nat) returns (len: nat)
    requires at <= end < buf.Length && buf[end] == END && END !in buf[at..end]
    ensures len == end - at
  {
    len := 0;
    while buf[at + len] != END
      invariant at + len <= end
      decreases end - at - len
    {
      len := len + 1;
    }
  }

  /** `strrev`: swap from both ends of the string until the indices meet. */
  method StrRev(buf: array<char>, at: nat, ghost finish: nat)
    requires at <= finish < buf.Length && buf[finish] == END && END !in buf[at..finish]
    modifies buf
    ensures buf[at..finish] == Reversed(old(buf[at..finish]))
    ensures forall j | 0 <= j < buf.Length && !(at <= j < finish) :: buf[j] == old(buf[j])
  {
    ghost var was := buf[at..finish];
    var len: int := StrLen(buf, at, finish);
    SwapEnds(buf, at, len);
    forall j | 0 <= j < len ensures buf[at..finish][j] == Reversed(was)[j] {
      assert buf[at + j] == old(buf[at + at + len - 1 - (at + j)]);
    }
  }

  method SwapEnds(buf: array<char>, at: nat, len: nat)
    requires at + len <= buf.Length
    modifies buf
    ensures forall j | at <= j < at + len :: buf[j] == old(buf[at + at + len - 1 - j])
    ensures forall j | 0 <= j < buf.Length && !(at <= j < at + len) :: buf[j] == old(buf[j])
  {
    ghost var last := at + at + len - 1;
    var beg: int, end: int := at, at + len;
    end := end - 1;
    while beg < end
      invariant at <= beg <= end + 1 && beg + end == last
      invariant forall j | at <= j < at + len && (j < beg || j > end) :: buf[j] == old(buf[last - j])
      invariant forall j | 0 <= j < buf.Length && (beg <= j <= end || !(at <= j < at + len)) :: buf[j] == old(buf[j])
    {
      var tmp := buf[end];
      buf[end] := buf[beg];
      buf[beg] := tmp;
      beg, end := beg + 1, end - 1;
    }
  }

  /** The digits of `low`, least significant first, are written and `high` is still to come. */
  ghost predicate Written(value: nat, high: nat, low: string, radix: Radix) {
    && AllDigits(low, radix) && END !in low
    && Pending(high, low, radix) == value
    && |low| + (if high > 0 then NumeralLength(high, radix) else 0) == NumeralLength(value, radix)
    && (high == 0 ==> low != [] && low[|low| - 1] != '0')
  }

  lemma DivisionIs(high: nat, quotient: nat, digit: nat, radix: Radix)
    requires digit < radix && high == quotient * radix + digit
    ensures high / radix == quotient && (high < radix <==> quotient == 0)
  {
    assert quotient > 0 ==> quotient * radix >= radix;
    DivisionIsUnique(quotient, digit, high / radix, high % radix, radix);
  }

  lemma LengthStep(high: nat, quotient: nat, digit: nat, radix: Radix)
    requires high > 0 && digit < radix && high == quotient * radix + digit
    ensures NumeralLength(high, radix) == 1 + (if quotient > 0 then NumeralLength(quotient, radix) else 0)
  {
    DivisionIs(high, quotient, digit, radix);
  }

  lemma WriteOne(value: nat, high: nat, low: string, quotient: nat, digit: nat, radix: Radix)
    requires high > 0 && Written(value, high, low, radix)
    requires digit < radix && high == quotient * radix + digit
    ensures Written(value, quotient, low + [LOOKUP[digit]], radix)
    ensures |low| < NumeralLength(value, radix)
  {
    LookupIsDigit(digit, radix);
    PushDigit(quotient, low, LOOKUP[digit], radix);
    LengthStep(high, quotient, digit, radix);
  }

  /** One step of the division by the radix. */
  method DivMod(high: nat, radix: Radix) returns (quotient: nat, digit: nat)
    requires high > 0
    ensures digit < radix && high == quotient * radix + digit && quotient < high
  {
    quotient, digit := high / radix, high % radix;
    assert quotient * radix >= quotient * 2;
  }

  /** The digit loop of `itoa`. */
  method WriteDigits(value: Word, buf: array<char>, at: nat, radix: Radix) returns (len: nat)
    requires value > 0 && at + NumeralLength(value, radix) < buf.Length
    modifies buf
    ensures at + len < buf.Length && Written(value, 0, buf[at..at + len], radix)
    ensures forall j | 0 <= j < buf.Length && !(at <= j < at + len) :: buf[j] == old(buf[j])
  {
    var high: nat := value;
    len := 0;
    assert buf[at..at + len] == [];
    while high > 0
      invariant at + len < buf.Length && Written(value, high, buf[at..at + len], radix)
      invariant forall j | 0 <= j < buf.Length && !(at <= j < at + len) :: buf[j] == old(buf[j])
      decreases high
    {
      ghost var low := buf[at..at + len];
      var quotient, i := DivMod(high, radix);
      WriteOne(value, high, low, quotient, i, radix);
      buf[at + len] := LOOKUP[i];
      len := len + 1;
      assert buf[at..at + len] == low + [LOOKUP[i]];
      high := quotient;
    }
  }

  /** `itoa`: the numeral of `value` at `buf + at`, terminated; nothing else is touched. */
  method Itoa(value: Word, buf: array<char>, at: nat, radix: Radix) returns (len: nat)
    requires at + NumeralLength(value, radix) < buf.Length
    modifies buf
    ensures len == NumeralLength(value, radix)
    ensures IsNumeral(buf[at..at + len], radix, value) && END !in buf[at..at + len] && buf[at + len] == END
    ensures forall j | 0 <= j < buf.Length && !(at <= j <= at + len) :: buf[j] == old(buf[j])
  {
    if value == 0 {
      buf[at], buf[at + 1] := '0', END;
      assert buf[at..at + 1] == ['0'] && ['0'][1..] == [];
      return 1;
    }
    len := WriteDigits(value, buf, at, radix);
    ghost var low := buf[at..at + len];
    buf[at + len] := END;
    assert buf[at..at + len] == low;
    StrRev(buf, at, at + len);
    assert buf[at..at + len][0] == low[len - 1];
  }

  // ----- The conversions of printf: the characters that are put on the screen -----

  method FormatUnsigned(value: Word) returns (s: string)  // %u
    ensures IsNumeral(s, 10, value)
  {
    assert Power(10, 10) > value by { PowersOfTen(); }
    LengthBound(value, 10, 10);
    var buf := new char[36];
    var len := Itoa(value, buf, 0, 10);
    return buf[..len];
  }

  /** `%d`: the value is negated as a 32-bit integer, which leaves the minimum as it is, and then read unsigned. */
  method FormatSigned(value: int) returns (s: string)
    requires -0x8000_0000 <= value < 0x8000_0000
    ensures value >= 0 ==> IsNumeral(s, 10, value)
    ensures value < 0 ==> s != [] && s[0] == '-' && IsNumeral(s[1..], 10, -value)
  {
    PowersOfTen();
    var buf := new char[36];
    if value < 0 {
      buf[0] := '-';
      var negated: Word := Negate(value % WORD);
      LengthBound(negated, 10, 10);
      var len := Itoa(negated, buf, 1, 10);
      assert buf[..len + 1][1..] == buf[1..len + 1];
      return buf[..len + 1];
    } else {
      LengthBound(value, 10, 10);
      var len := Itoa(value, buf, 0, 10);
      return buf[..len];
    }
  }

  /** Two's complement negation of a 32-bit pattern. */
  function Negate(bits: Word): Word {
    (WORD - bits) % WORD
  }

  /** `%x`. */
  method FormatHex(value: Word) returns (s: string)
    ensures IsNumeral(s, 16, value)
  {
    PowersOfSixteen();
    LengthBound(value, 16, 8);
    var buf := new char[64];
    var len := Itoa(value, buf, 0, 16);
    return buf[..len];
  }

  /** `%#x`: the numeral is put at index 8 and the string started as many places in as it has digits,
      with zeros up to index 8. */
  method FormatHexPadded(value: Word) returns (s: string)
    ensures |s| == 8 && AllDigits(s, 16) && Evaluate(0, s, 16) == value
  {
    PowersOfSixteen();
    LengthBound(value, 16, 8);
    var buf := new char[64];
    var len := Itoa(value, buf, 8, 16);
    ghost var numeral := buf[8..8 + len];
    PadZeros(buf, len);
    assert buf[8..8 + len] == numeral;
    s := buf[len..8 + len];
    LeadingZeros(seq(8 - len, _ => '0'), numeral, 16);
    assert s == seq(8 - len, _ => '0') + numeral;
  }

  /** The padding loop: zeros from `start` up to index 8. */
  method PadZeros(buf: array<char>, start: nat)
    requires start <= 8 <= buf.Length
    modifies buf
    ensures buf[start..8] == seq(8 - start, _ => '0')
    ensures forall j | 0 <= j < buf.Length && !(start <= j < 8) :: buf[j] == old(buf[j])
  {
    var i := start;
    while i < 8
      invariant start <= i <= 8
      invariant forall j | start <= j < i :: buf[j] == '0'
      invariant forall j | 0 <= j < buf.Length && !(start <= j < i) :: buf[j] == old(buf[j])
    {
      buf[i] := '0';
      i := i + 1;
    }
  }

  lemma {:induction false} LeadingZeros(zeros: string, s: string, radix: Radix)
    requires AllDigits(s, radix) && forall i | 0 <= i < |zeros| :: zeros[i] == '0'
    ensures AllDigits(zeros + s, radix) && Evaluate(0, zeros + s, radix) == Evaluate(0, s, radix)
  {
    if zeros == [] {
      assert zeros + s == s;
    } else {
      assert (zeros + s)[1..] == zeros[1..] + s;
      LeadingZeros(zeros[1..], s, radix);
    }
  }

  lemma PowersOfTen()
    ensures Power(10, 10) == 10_000_000_000
  {
    assert Power(10, 2) == 100;
    assert Power(10, 4) == 10_000;
    assert Power(10, 6) == 1_000_000;
    assert Power(10, 8) == 100_000_000;
  }

  lemma PowersOfSixteen()
    ensures Power(16, 8) == WORD
  {
    assert Power(16, 2) == 0x100;
    assert Power(16, 4) == 0x1_0000;
    assert Power(16, 6) == 0x100_0000;
  }
}
