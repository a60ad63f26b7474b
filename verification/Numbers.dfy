/** Number printing of src/memory/Memory.c: itoa and itoa_hex in their static buffers. */
module Numbers {
  import opened Machine

  // ------------------------------------------------------------ numerals

  function DigitChar(d: nat): char
    requires d < 16
  {
    if d > 9 then (d - 10) as char + 'A' else d as char + '0'
  }

  function DigitValue(c: char): int {
    if c >= 'A' then c as int - 'A' as int + 10 else c as int - '0' as int
  }

  lemma DigitInverse(d: nat)
    requires d < 16
    ensures DigitValue(DigitChar(d)) == d
    ensures DigitChar(d) != '-' && (d > 0 ==> DigitChar(d) != '0')
  {
  }

  /** The digits of n in base b, none for 0. */
  function Digits(n: nat, b: nat): string
    requires b == 10 || b == 16
  {
    if n == 0 then [] else Digits(n / b, b) + [DigitChar(n % b)]
  }

  /** The number a string of digits denotes. */
  function Value(s: string, b: nat): int {
    if s == [] then 0 else Value(s[..|s| - 1], b) * b + DigitValue(s[|s| - 1])
  }

  /** The numeral of n: its digits, "0" for 0. */
  function Numeral(n: nat, b: nat): string
    requires b == 10 || b == 16
  {
    if n == 0 then "0" else Digits(n, b)
  }

  function Decimal(i: int): string {
    if i < 0 then "-" + Numeral(-i, 10) else Numeral(i, 10)
  }

  /** Reading a decimal numeral back, with an optional sign. */
  function ReadDecimal(s: string): int {
    if s != [] && s[0] == '-' then -Value(s[1..], 10) else Value(s, 10)
  }

  lemma ValueOfAppend(s: string, c: char, b: nat)
    ensures Value(s + [c], b) == Value(s, b) * b + DigitValue(c)
  {
  }

  lemma NoDigits(b: nat)
    requires b == 10 || b == 16
    ensures Digits(0, b) == [] && Value([], b) == 0
  {
  }

  lemma DigitsStep(n: nat, b: nat)
    requires (b == 10 || b == 16) && n > 0
    ensures n / b < n && n / b * b + n % b == n && (n / b == 0 ==> n % b > 0)
    ensures Digits(n, b) == Digits(n / b, b) + [DigitChar(n % b)]
  {
    if b == 10 {
      assert n / 10 * 10 + n % 10 == n;
    } else {
      assert n / 16 * 16 + n % 16 == n;
    }
  }

  lemma {:induction false} DigitsReadBack(n: nat, b: nat)
    requires b == 10 || b == 16
    ensures Value(Digits(n, b), b) == n
    ensures n > 0 ==> Digits(n, b) != [] && Digits(n, b)[0] != '0' && Digits(n, b)[0] != '-'
    decreases n
  {
    hide Digits, Value, DigitChar, DigitValue;
    NoDigits(b);
    if n > 0 {
      DigitsStep(n, b);
      DigitsReadBack(n / b, b);
      DigitInverse(n % b);
      ValueOfAppend(Digits(n / b, b), DigitChar(n % b), b);
    }
  }

  // ------------------------------------------------------------ canonical form

  predicate DecimalDigit(c: char) {
    '0' <= c <= '9'
  }

  predicate HexDigit(c: char) {
    '0' <= c <= '9' || 'A' <= c <= 'F'
  }

  /** At least one digit, all of the base, and no leading zero but in "0" itself. */
  predicate Canonical(s: string, b: nat) {
    && s != []
    && (forall k :: 0 <= k < |s| ==> if b == 10 then DecimalDigit(s[k]) else HexDigit(s[k]))
    && (s[0] == '0' ==> |s| == 1)
  }

  lemma DigitOfBase(d: nat, b: nat)
    requires (b == 10 || b == 16) && d < b
    ensures if b == 10 then DecimalDigit(DigitChar(d)) else HexDigit(DigitChar(d))
  {
  }

  lemma {:induction false} DigitsCanonical(n: nat, b: nat)
    requires b == 10 || b == 16
    ensures n > 0 ==> Canonical(Digits(n, b), b) && Digits(n, b)[0] != '0'
    decreases n
  {
    hide Digits, DigitChar, DecimalDigit, HexDigit;
    NoDigits(b);
    if n > 0 {
      DigitsStep(n, b);
      DigitOfBase(n % b, b);
      DigitInverse(n % b);
      DigitsCanonical(n / b, b);
    }
  }

  /** Two digits of a base with the same value are the same character. */
  lemma DigitValueIs(c: char, b: nat)
    requires (b == 10 || b == 16) && if b == 10 then DecimalDigit(c) else HexDigit(c)
    ensures 0 <= DigitValue(c) < b && DigitChar(DigitValue(c)) == c && (DigitValue(c) == 0 <==> c == '0')
  {
  }

  /** A string of digits without leading zero is the one Digits makes of its value. */
  lemma {:induction false} DigitsOfValue(s: string, b: nat)
    requires (b == 10 || b == 16) && Canonical(s, b) && s[0] != '0'
    ensures Value(s, b) > 0 && Digits(Value(s, b), b) == s
    decreases |s|
  {
    hide DigitChar, DigitValue, DecimalDigit, HexDigit, Digits;
    var front, last := s[..|s| - 1], s[|s| - 1];
    DigitValueIs(last, b);
    NoDigits(b);
    if front != [] {
      DigitsOfValue(front, b);
    }
    Append(Value(front, b), DigitValue(last), b);
    DigitsStep(Value(s, b), b);
    assert s == front + [last];
  }

  lemma Append(n: nat, d: nat, b: nat)
    requires (b == 10 || b == 16) && d < b
    ensures (n * b + d) / b == n && (n * b + d) % b == d
  {
  }

  /** The numeral is canonical, it denotes n, and no other canonical string does. */
  lemma NumeralExact(n: nat, b: nat, s: string)
    requires b == 10 || b == 16
    ensures Canonical(Numeral(n, b), b) && Value(Numeral(n, b), b) == n
    ensures Canonical(s, b) && Value(s, b) == n ==> s == Numeral(n, b)
  {
    hide Digits, DigitValue;
    DigitsReadBack(n, b);
    DigitsCanonical(n, b);
    DigitInverse(0);
    assert "0"[..0] == [] && Value("0", b) == 0 * b + DigitValue('0');
    if Canonical(s, b) && s[0] != '0' {
      DigitsOfValue(s, b);
    } else if Canonical(s, b) {
      assert s == "0";
    }
  }

  /** itoa's text is the decimal numeral of the number: a minus sign for a negative one, then
      canonical digits that denote its size. */
  lemma DecimalReadsBack(i: int)
    ensures var t := Decimal(i);
            && ReadDecimal(t) == i && t != [] && (t[0] == '-' <==> i < 0)
            && Canonical(if i < 0 then t[1..] else t, 10)
  {
    hide Numeral, Value;
    var n := if i < 0 then -i else i;
    NumeralExact(n, 10, []);
    assert i < 0 ==> Decimal(i)[1..] == Numeral(n, 10);
  }

  /** It is the only text of that form that reads back to the number. */
  lemma DecimalUnique(i: int, s: string)
    requires s != [] && s != "-0" && Canonical(if s[0] == '-' then s[1..] else s, 10) && ReadDecimal(s) == i
    ensures s == Decimal(i)
  {
    hide Numeral, Value;
    var digits := if s[0] == '-' then s[1..] else s;
    CanonicalValue(digits, 10);
    NumeralExact(Value(digits, 10), 10, digits);
    assert s[0] == '-' ==> s == "-" + digits && digits != "0";
  }

  lemma CanonicalValue(s: string, b: nat)
    requires (b == 10 || b == 16) && Canonical(s, b)
    ensures Value(s, b) >= 0 && (Value(s, b) == 0 <==> s == "0")
  {
    hide Digits, DigitValue;
    if s[0] == '0' {
      DigitInverse(0);
      assert s == "0" && "0"[..0] == [];
      assert Value("0", b) == 0 * b + DigitValue('0');
    } else {
      DigitsOfValue(s, b);
    }
  }

  /** itoa_hex's text is the canonical hexadecimal numeral of the 32-bit pattern. */
  lemma HexReadsBack(w: Word, s: string)
    ensures Canonical(Numeral(w, 16), 16) && Value(Numeral(w, 16), 16) == w
    ensures Canonical(s, 16) && Value(s, 16) == w ==> s == Numeral(w, 16)
  {
    hide Numeral, Value, Canonical;
    NumeralExact(w, 16, s);
  }

  function Pow(b: nat, k: nat): nat {
    if k == 0 then 1 else b * Pow(b, k - 1)
  }

  lemma DivideLess(n: nat, b: nat, p: nat)
    requires b > 0 && n < b * p
    ensures n / b < p
  {
  }

  /** A number below b^k has at most k digits. */
  lemma {:induction false} LengthBound(n: nat, b: nat, k: nat)
    requires (b == 10 || b == 16) && n < Pow(b, k)
    ensures |Digits(n, b)| <= k
    decreases k
  {
    if n > 0 {
      DivideLess(n, b, Pow(b, k - 1));
      LengthBound(n / b, b, k - 1);
    }
  }

  lemma PowersOfTen()
    ensures Pow(10, 10) == 10_000_000_000
  {
  }

  lemma PowersOfSixteen()
    ensures Pow(16, 8) == TWO32 && Pow(16, 7) == 0x1000_0000
  {
  }

  // ------------------------------------------------------------ two's complement nibbles

  /** The k low nibbles of i; for a negative i those of its two's complement. */
  function Nibbles(i: int, k: nat): (s: string)
    ensures |s| == k
    decreases k
  {
    if k == 0 then [] else Nibbles(i / 16, k - 1) + [DigitChar(i % 16)]
  }

  lemma {:induction false} NibblesWrap(i: int, k: nat, t: int)
    ensures Nibbles(i + Pow(16, k) * t, k) == Nibbles(i, k)
    decreases k
  {
    hide Pow;
    if k > 0 {
      var p := Pow(16, k - 1) * t;
      PowTimes(k, t);
      NibblesWrap(i / 16, k - 1, t);
      SixteensMore(i, p);
    }
  }

  lemma PowTimes(k: nat, t: int)
    requires k > 0
    ensures Pow(16, k) * t == 16 * (Pow(16, k - 1) * t)
  {
  }

  lemma SixteensMore(i: int, p: int)
    ensures (i + 16 * p) / 16 == i / 16 + p && (i + 16 * p) % 16 == i % 16
  {
  }

  lemma {:induction false} DigitsAreNibbles(n: nat, k: nat)
    requires k > 0 && Pow(16, k - 1) <= n < Pow(16, k)
    ensures Digits(n, 16) == Nibbles(n, k)
    decreases k
  {
    if k > 1 {
      DigitsAreNibbles(n / 16, k - 1);
    } else {
      assert Pow(16, 1) == 16 * Pow(16, 0);
      assert Digits(n / 16, 16) == [];
    }
  }

  /** A negative number has eight hexadecimal digits. */
  lemma NegativeNibbles(i: int)
    requires -0x8000_0000 <= i < 0
    ensures Nibbles(i, 8) == Numeral(Wrap(i), 16)
  {
    hide Nibbles, Digits, Pow;
    PowersOfSixteen();
    NibblesWrap(i, 8, 1);
    DigitsAreNibbles(i + TWO32, 8);
  }

  /** One round of itoa_hex, in front of the digits already written. */
  lemma HexRound(i: int, k: nat, written: string)
    requires k > 0
    ensures Nibbles(i, k) + written == Nibbles(i / 16, k - 1) + ([DigitChar(i % 16)] + written)
    ensures i > 0 ==> Digits(i, 16) + written == Digits(i / 16, 16) + ([DigitChar(i % 16)] + written)
    ensures 0 <= i < Pow(16, k) ==> i / 16 < Pow(16, k - 1)
  {
  }

  lemma HexEnds()
    ensures forall i :: Nibbles(i, 0) == []
    ensures Pow(16, 0) == 1 && Digits(0, 16) == []
  {
  }

  // ------------------------------------------------------------ code

  class Printer {
    const text: array<char>    // static in itoa
    const hexText: array<char> // static in itoa_hex

    constructor ()
      ensures text.Length == 12 && hexText.Length == 9 && text != hexText
    {
      text, hexText := new char[12], new char[9];
    }

    /** itoa, for every int: the text starts at text[loc] and ends before the NUL. */
    method Itoa(number: int) returns (loc: nat)
      requires text.Length == 12 && -0x8000_0000 <= number < 0x8000_0000
      modifies text
      ensures loc <= 11 && text[11] == '\0'
      ensures text[loc..11] == Decimal(number)
    {
      loc := 11;
      text[11] := '\0';
      var i, neg := number, 1;
      if i >= 0 {
        neg := 0;
        i := -i;
      }
      ghost var n: nat := -i;
      PowersOfTen();
      LengthBound(n, 10, 10);
      while i != 0
        invariant i <= 0 && 1 <= loc <= 11 && text[11] == '\0'
        invariant Digits(n, 10) == Digits(-i, 10) + text[loc..11]
        decreases -i
      {
        loc := loc - 1;
        text[loc] := ('0' as int - CMod(i, 10)) as char;
        i := CDiv(i, 10);
      }
      if loc == 11 {
        loc := loc - 1;
        text[loc] := '0';
      }
      if neg != 0 {
        loc := loc - 1;
        text[loc] := '-';
      }
    }

    /** itoa_hex; a negative number never shifts to zero, so the buffer ends its loop. */
    method ItoaHex(number: int) returns (loc: nat)
      requires hexText.Length == 9 && -0x8000_0000 <= number < 0x8000_0000
      modifies hexText
      ensures loc <= 8 && hexText[8] == '\0'
      ensures hexText[loc..8] == Numeral(Wrap(number), 16)
      ensures number < 0 ==> loc == 0
    {
      hide Nibbles, Digits, Pow;
      loc := 8;
      hexText[8] := '\0';
      if number == 0 {
        hexText[7] := '0';
        return 7;
      }
      PowersOfSixteen();
      var i := number;
      while i != 0 && loc > 0
        invariant loc <= 8 && hexText[8] == '\0' && (number < 0 <==> i < 0)
        invariant Nibbles(number, 8) == Nibbles(i, loc) + hexText[loc..8]
        invariant i >= 0 ==> Digits(number, 16) == Digits(i, 16) + hexText[loc..8] && i < Pow(16, loc)
        decreases loc
      {
        HexRound(i, loc, hexText[loc..8]);
        loc := loc - 1;
        hexText[loc] := DigitChar(i % 16);
        i := i / 16;
      }
      hide DigitChar;
      HexEnds();
      if number < 0 {
        NegativeNibbles(number);
      }
    }
  }
}
