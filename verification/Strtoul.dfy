/** strtoul with base 0: what the parsers make of a number's characters. */
module Strtoul {
  import opened Bytes
  import opened Texts

  const ULONG_MAX := 0xffff_ffff

  /** The character at `i`, the terminator from the end of the text on. */
  function At(s: string, i: nat): char {
    if i < |s| then s[i] else 0 as char
  }

  predicate IsSpace(c: char) {
    c == ' ' || c == '\t' || c == '\n'
  }

  /** The digit's value, or 36 for a character that is no digit in any base. */
  function DigitValue(c: char): (d: nat)
    ensures d <= 36
  {
    if '0' <= c <= '9' then c as int - '0' as int
    else if 'A' <= c <= 'Z' then c as int - 'A' as int + 10
    else if 'a' <= c <= 'z' then c as int - 'a' as int + 10
    else 36
  }

  function SkipSpaces(s: string, i: nat): (j: nat)
    decreases |s| - i
  {
    if i < |s| && IsSpace(s[i]) then SkipSpaces(s, i + 1) else i
  }

  /** The digits from `i` on, added to `acc` until the value no longer fits. */
  function Digits(s: string, i: nat, base: nat, acc: nat): (v: nat)
    requires 2 <= base <= 16 && acc <= ULONG_MAX
    ensures v <= ULONG_MAX
    decreases |s| - i
  {
    if i >= |s| || DigitValue(s[i]) >= base then acc
    else if acc * base + DigitValue(s[i]) > ULONG_MAX then ULONG_MAX
    else Digits(s, i + 1, base, acc * base + DigitValue(s[i]))
  }

  /** The base that the characters at `k` announce, and where its digits begin. */
  function Base(s: string, k: nat): (b: nat)
    ensures 2 <= b <= 16
  {
    var marker := At(s, k + 1);
    if At(s, k) != '0' then 10
    else if marker == 'x' || marker == 'X' then 16
    else if marker == 'b' || marker == 'B' then 2
    else 8
  }

  function Start(s: string, k: nat): nat {
    if Base(s, k) == 16 || Base(s, k) == 2 then k + 2 else k
  }

  /** strtoul(&s[i], NULL, 0). Too large a number saturates, whatever its sign; otherwise
      a minus sign negates modulo 2^32. */
  function ToUnsigned(s: string, i: nat): (v: uint32) {
    var j := SkipSpaces(s, i);
    var k := if At(s, j) == '-' || At(s, j) == '+' then j + 1 else j;
    var v := Digits(s, Start(s, k), Base(s, k), 0);
    if At(s, j) == '-' && !Overflows(s, Start(s, k), Base(s, k), 0) then (ULONG_MAX + 1 - v) % (ULONG_MAX + 1) else v
  }

  predicate Overflows(s: string, i: nat, base: nat, acc: nat)
    requires 2 <= base <= 16
    decreases |s| - i
  {
    i < |s| && DigitValue(s[i]) < base &&
    (acc * base + DigitValue(s[i]) > ULONG_MAX || Overflows(s, i + 1, base, acc * base + DigitValue(s[i])))
  }

  /** The plain value of the run of digits at `i`. */
  function Value(s: string, i: nat, base: nat, acc: nat): nat
    requires 2 <= base <= 16
    decreases |s| - i
  {
    if i >= |s| || DigitValue(s[i]) >= base then acc else Value(s, i + 1, base, acc * base + DigitValue(s[i]))
  }

  lemma {:induction false} ValueGrows(s: string, i: nat, base: nat, acc: nat)
    requires 2 <= base <= 16
    ensures Value(s, i, base, acc) >= acc
    decreases |s| - i
  {
    if i < |s| && DigitValue(s[i]) < base {
      ValueGrows(s, i + 1, base, acc * base + DigitValue(s[i]));
      AtLeastOnce(base, acc);
    }
  }

  /** The digits are read as their plain value, cut off at ULONG_MAX. */
  lemma {:induction false} DigitsSaturate(s: string, i: nat, base: nat, acc: nat)
    requires 2 <= base <= 16 && acc <= ULONG_MAX
    ensures Digits(s, i, base, acc) == if Value(s, i, base, acc) > ULONG_MAX then ULONG_MAX else Value(s, i, base, acc)
    ensures Overflows(s, i, base, acc) <==> Value(s, i, base, acc) > ULONG_MAX
    decreases |s| - i
  {
    if i < |s| && DigitValue(s[i]) < base {
      var next := acc * base + DigitValue(s[i]);
      if next > ULONG_MAX {
        ValueGrows(s, i + 1, base, next);
      } else {
        DigitsSaturate(s, i + 1, base, next);
      }
    }
  }

  // ----- Printed numbers

  /** A way to write numbers: the base, the letter that marks base 16 or 2, and the case of
      the digits above nine. */
  datatype Numeral = Numeral(base: nat, marker: char, capitals: bool)
  {
    predicate Valid() {
      match base
      case 2 => marker == 'b' || marker == 'B'
      case 8 => true
      case 10 => true
      case 16 => marker == 'x' || marker == 'X'
      case _ => false
    }
  }

  function DigitOf(d: nat, capitals: bool): char
    requires d < 16
  {
    if capitals then "0123456789ABCDEF"[d] else "0123456789abcdef"[d]
  }

  /** The digits of a number, most significant first. */
  function Numerals(n: nat, f: Numeral): (t: string)
    requires f.Valid()
    ensures t != []
  {
    (if n < f.base then [] else Numerals(n / f.base, f)) + [DigitOf(n % f.base, f.capitals)]
  }

  function Prefix(f: Numeral): string {
    if f.base == 16 || f.base == 2 then ['0', f.marker] else if f.base == 8 then "0" else ""
  }

  function Printed(n: nat, f: Numeral): string
    requires f.Valid()
  {
    Prefix(f) + Numerals(n, f)
  }

  lemma DigitRead(d: nat, capitals: bool)
    requires d < 16
    ensures DigitValue(DigitOf(d, capitals)) == d
    ensures DigitOf(d, capitals) == '0' <==> d == 0
  {
  }

  /** Reading the digits of a number from nothing gives the number. */
  lemma {:induction false} NumeralsRead(s: string, i: nat, n: nat, f: Numeral)
    requires f.Valid() && Occurs(s, i, Numerals(n, f))
    ensures Value(s, i, f.base, 0) == Value(s, i + |Numerals(n, f)|, f.base, n)
    ensures i < |s| && DigitValue(s[i]) < f.base && (s[i] == '0' ==> n == 0)
    decreases n
  {
    hide DigitValue, DigitOf, Occurs, Value, Numerals;
    var front := if n < f.base then [] else Numerals(n / f.base, f);
    var c := DigitOf(n % f.base, f.capitals);
    NumeralsStep(n, f);
    OccursSplit(s, i, front, [c]);
    if n >= f.base {
      NumeralsRead(s, i, n / f.base, f);
    }
    DigitRead(n % f.base, f.capitals);
    OccursAt(s, i + |front|, [c], 0);
    Reassembled(n, f.base);
    ValueStep(s, i + |front|, f.base, n / f.base);
  }

  lemma NumeralsStep(n: nat, f: Numeral)
    requires f.Valid()
    ensures Numerals(n, f) ==
            (if n < f.base then [] else Numerals(n / f.base, f)) + [DigitOf(n % f.base, f.capitals)]
  {
  }

  lemma {:induction false} NumeralsLetters(n: nat, f: Numeral)
    requires f.Valid()
    ensures forall k :: 0 <= k < |Numerals(n, f)| ==>
              var c := Numerals(n, f)[k]; '0' <= c <= '9' || 'A' <= c <= 'F' || 'a' <= c <= 'f'
    decreases n
  {
    if n >= f.base {
      Reassembled(n, f.base);
      NumeralsLetters(n / f.base, f);
    }
  }

  lemma ValueStep(s: string, i: nat, base: nat, acc: nat)
    requires 2 <= base <= 16 && i < |s| && DigitValue(s[i]) < base
    ensures Value(s, i, base, acc) == Value(s, i + 1, base, acc * base + DigitValue(s[i]))
  {
  }

  lemma Reassembled(n: nat, base: nat)
    requires base == 2 || base == 8 || base == 10 || base == 16
    ensures n / base * base + n % base == n && (n < base ==> n % base == n && n / base == 0)
    ensures n >= base ==> 0 < n / base < n
  {
    if base == 2 {
    } else if base == 8 {
    } else if base == 10 {
    } else {
    }
  }

  /** No digit or letter follows. */
  predicate EndsAt(s: string, i: nat) {
    i >= |s| || DigitValue(s[i]) == 36
  }

  /** The base is told from the prefix and the digits after it read back, saturated. */
  lemma PrefixedRead(s: string, k: nat, n: nat, f: Numeral)
    requires f.Valid() && Occurs(s, k, Printed(n, f)) && EndsAt(s, k + |Printed(n, f)|)
    ensures var v := Digits(s, Start(s, k), Base(s, k), 0);
            v == if n > ULONG_MAX then ULONG_MAX else n
    ensures Overflows(s, Start(s, k), Base(s, k), 0) <==> n > ULONG_MAX
    ensures k < |s| && '0' <= s[k] <= '9'
  {
    hide Occurs, Numerals;
    var digits := k + |Prefix(f)|;
    var end := digits + |Numerals(n, f)|;
    OccursSplit(s, k, Prefix(f), Numerals(n, f));
    NumeralsRead(s, digits, n, f);
    PrefixKnown(s, k, n, f);
    assert Value(s, end, f.base, n) == n;
    DigitsSaturate(s, Start(s, k), Base(s, k), 0);
  }

  lemma PrefixKnown(s: string, k: nat, n: nat, f: Numeral)
    requires f.Valid() && Occurs(s, k, Prefix(f)) && Occurs(s, k + |Prefix(f)|, Numerals(n, f))
    requires EndsAt(s, k + |Printed(n, f)|)
    ensures Value(s, Start(s, k), Base(s, k), 0) == Value(s, k + |Prefix(f)|, f.base, 0)
    ensures k < |s| && '0' <= s[k] <= '9'
  {
    hide Occurs, Numerals, Base, Start, Value, DigitValue, EndsAt;
    NumeralsRead(s, k + |Prefix(f)|, n, f);
    if f.base == 16 || f.base == 2 {
      MarkedKnown(s, k, f);
    } else if f.base == 8 {
      OccursAt(s, k, "0", 0);
      OctalKnown(s, k);
    } else {
      LowDigit(s[k], 10);
      if s[k] == '0' {
        Zero(f);
        ZeroRead(s, k);
      } else {
        assert Base(s, k) == 10 && Start(s, k) == k by {
          DecimalKnown(s, k);
        }
      }
    }
  }

  lemma MarkedKnown(s: string, k: nat, f: Numeral)
    requires f.Valid() && (f.base == 16 || f.base == 2) && Occurs(s, k, ['0', f.marker])
    ensures Base(s, k) == f.base && Start(s, k) == k + 2 && k < |s| && s[k] == '0'
  {
    assert s[k] == s[k..k + 2][0] && s[k + 1] == s[k..k + 2][1];
  }

  lemma OctalKnown(s: string, k: nat)
    requires k + 1 < |s| && s[k] == '0' && DigitValue(s[k + 1]) < 8
    ensures Base(s, k) == 8 && Start(s, k) == k && Value(s, k, 8, 0) == Value(s, k + 1, 8, 0)
  {
  }

  lemma DecimalKnown(s: string, k: nat)
    requires k < |s| && s[k] != '0'
    ensures Base(s, k) == 10 && Start(s, k) == k
  {
  }

  lemma LowDigit(c: char, base: nat)
    requires DigitValue(c) < base <= 10
    ensures '0' <= c <= '9'
  {
  }

  lemma Zero(f: Numeral)
    requires f.base == 10
    ensures |Numerals(0, f)| == 1
  {
  }

  lemma ZeroRead(s: string, k: nat)
    requires k < |s| && s[k] == '0' && EndsAt(s, k + 1)
    ensures Base(s, k) == 8 && Start(s, k) == k && Value(s, k, 8, 0) == Value(s, k, 10, 0)
  {
    assert Value(s, k, 8, 0) == Value(s, k + 1, 8, 0) == 0;
    assert Value(s, k, 10, 0) == Value(s, k + 1, 10, 0) == 0;
  }

  /** A number that was printed in any base, after blanks and a sign, reads back: negated
      modulo 2^32 under a minus sign, and as 2^32 - 1 when it does not fit. */
  lemma NumberRead(s: string, i: nat, blanks: string, sign: string, n: nat, f: Numeral)
    requires (forall j :: 0 <= j < |blanks| ==> blanks[j] in " \t\n") && sign in {"", "+", "-"} && f.Valid()
    requires Occurs(s, i, blanks + (sign + Printed(n, f))) && EndsAt(s, i + |blanks + (sign + Printed(n, f))|)
    ensures ToUnsigned(s, i) == if n > 0xffff_ffff then 0xffff_ffff
                                else if sign == "-" then (0x1_0000_0000 - n) % 0x1_0000_0000 else n
  {
    hide Occurs, Printed, Digits, Overflows, Base, Start;
    var number := Printed(n, f);
    OccursSplit(s, i, blanks, sign + number);
    OccursSplit(s, i + |blanks|, sign, number);
    PrefixedRead(s, i + |blanks| + |sign|, n, f);
    SpacesSkipped(s, i, blanks);
    if sign != "" {
      OccursAt(s, i + |blanks|, sign, 0);
    }
  }

  lemma {:induction false} SpacesSkipped(s: string, i: nat, blanks: string)
    requires Occurs(s, i, blanks) && forall j :: 0 <= j < |blanks| ==> blanks[j] in " \t\n"
    ensures SkipSpaces(s, i) == SkipSpaces(s, i + |blanks|)
    decreases blanks
  {
    if blanks != [] {
      assert blanks == [blanks[0]] + blanks[1..];
      OccursSplit(s, i, [blanks[0]], blanks[1..]);
      assert s[i] == s[i..i + |blanks|][0];
      SpacesSkipped(s, i + 1, blanks[1..]);
    }
  }
}
