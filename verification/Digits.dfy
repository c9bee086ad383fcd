/** Numbers as printi, printx and terminal_writehex spell them: backwards, into a local buffer. */
module Digits {
  import opened LittleEndian

  type Text = seq<byte>

  function DigitChar(d: nat): (c: byte)
    requires d < 16
  {
    if d >= 10 then 0x61 + d - 10 else 0x30 + d
  }

  predicate IsBase(base: nat) {
    base == 10 || base == 16
  }

  predicate IsDigit(c: byte, base: nat) {
    (0x30 <= c < 0x3A && c - 0x30 < base) || (0x61 <= c && c - 0x61 + 10 < base)
  }

  function DigitValue(c: byte): nat
    requires IsDigit(c, 16)
  {
    if c < 0x3A then c - 0x30 else c - 0x61 + 10
  }

  /** A numeral: digits of the base, without a leading zero unless it is "0". */
  predicate IsNumeral(s: Text, base: nat) {
    s != [] && (forall i :: 0 <= i < |s| ==> IsDigit(s[i], base)) && (|s| > 1 ==> s[0] != 0x30)
  }

  function Numeral(n: nat, base: nat): (s: Text)
    requires IsBase(base)
    ensures s != []
  {
    if n < base then [DigitChar(n)] else Numeral(n / base, base) + [DigitChar(n % base)]
  }

  function Value(s: Text, base: nat): nat
    requires IsBase(base) && forall i :: 0 <= i < |s| ==> IsDigit(s[i], base)
  {
    if s == [] then 0
    else
      assert IsDigit(s[|s| - 1], base);
      Append(Value(s[..|s| - 1], base), DigitValue(s[|s| - 1]), base)
  }

  /** `v` with one more digit behind it. */
  function Append(v: nat, d: nat, base: nat): nat {
    v * base + d
  }

  lemma DigitCharValue(d: nat, base: nat)
    requires d < base <= 16
    ensures IsDigit(DigitChar(d), base) && DigitValue(DigitChar(d)) == d
    ensures DigitChar(d) == 0x30 <==> d == 0
  {
  }

  /** What is printed is a numeral and parses back to the number. */
  lemma {:induction false} NumeralValue(n: nat, base: nat)
    requires IsBase(base)
    ensures IsNumeral(Numeral(n, base), base) && Value(Numeral(n, base), base) == n
    ensures n > 0 ==> Numeral(n, base)[0] != 0x30
  {
    hide Append, IsDigit, DigitValue, DigitChar;
    if n < base {
      DigitCharValue(n, base);
      ValueOne(DigitChar(n), base);
    } else {
      var q, d := n / base, n % base;
      Quotient(n, base);
      NumeralValue(q, base);
      DigitCharValue(d, base);
      assert Numeral(n, base) == Numeral(q, base) + [DigitChar(d)];
      AppendDigit(Numeral(q, base), DigitChar(d), base);
    }
  }

  lemma ValueOne(c: byte, base: nat)
    requires IsBase(base) && IsDigit(c, base)
    ensures IsDigit(c, 16) && Value([c], base) == DigitValue(c)
  {
    assert Value([c][..0], base) == 0;
  }

  lemma AppendDigit(s: Text, c: byte, base: nat)
    requires IsBase(base) && IsNumeral(s, base) && s[0] != 0x30 && IsDigit(c, base)
    ensures IsNumeral(s + [c], base) && (s + [c])[0] != 0x30 && IsDigit(c, 16)
    ensures Value(s + [c], base) == Append(Value(s, base), DigitValue(c), base)
  {
    var t := s + [c];
    assert t[..|t| - 1] == s;
  }

  lemma Quotient(n: nat, base: nat)
    requires IsBase(base)
    ensures Append(n / base, n % base, base) == n && (n >= base ==> 0 < n / base)
    ensures n > 0 ==> n / base < n
  {
  }

  lemma DigitValueChar(c: byte, base: nat)
    requires IsBase(base) && IsDigit(c, base)
    ensures IsDigit(c, 16) && DigitValue(c) < base && DigitChar(DigitValue(c)) == c
    ensures c != 0x30 ==> DigitValue(c) > 0
  {
  }

  /** The digits are those of ASCII, the larger ones in lower case. */
  lemma DigitsAreAscii(n: nat, base: nat)
    requires IsBase(base) && n < base
    ensures Numeral(n, base) == [if n < 10 then 0x30 + n else 0x57 + n]
  {
  }

  /** Each number has one numeral: whatever parses to `n` is what is printed for `n`. */
  lemma {:induction false} NumeralUnique(s: Text, base: nat)
    requires IsBase(base) && IsNumeral(s, base)
    ensures Numeral(Value(s, base), base) == s
    ensures s[0] != 0x30 ==> Value(s, base) > 0
  {
    hide Append, DigitValue, DigitChar, IsDigit;
    var init, last := s[..|s| - 1], s[|s| - 1];
    DigitValueChar(last, base);
    if |s| == 1 {
      assert s == [last];
      ValueOne(last, base);
    } else {
      NumeralUnique(init, base);
      Recompose(Value(init, base), DigitValue(last), base);
      assert s == init + [last];
    }
  }

  lemma Recompose(v: nat, d: nat, base: nat)
    requires 0 < v && d < base && IsBase(base)
    ensures Append(v, d, base) >= base && Append(v, d, base) / base == v && Append(v, d, base) % base == d
  {
    if base == 10 {
      assert (v * 10 + d) / 10 == v;
    } else {
      assert (v * 16 + d) / 16 == v;
    }
  }

  function Power(base: nat, k: nat): nat {
    if k == 0 then 1 else base * Power(base, k - 1)
  }

  lemma {:induction false} NumeralLength(n: nat, base: nat, k: nat)
    requires IsBase(base) && 1 <= k && n < Power(base, k)
    ensures |Numeral(n, base)| <= k
  {
    if n >= base {
      SmallerQuotient(n, base, Power(base, k - 1));
      NumeralLength(n / base, base, k - 1);
    }
  }

  lemma SmallerQuotient(n: nat, base: nat, p: nat)
    requires IsBase(base) && n < base * p
    ensures n / base < p
  {
    Quotient(n, base);
    if base == 10 {
      assert n < 10 * p;
    } else {
      assert n < 16 * p;
    }
  }

  lemma Widths()
    ensures Power(16, 8) == 0x1_0000_0000 && Power(10, 10) == 10_000_000_000
  {
    assert Power(16, 4) == 0x1_0000;
    assert Power(10, 5) == 100_000;
  }

  // ---------------------------------------------------------------- hexadecimal

  /** The digits still to come before those already written. */
  function Ahead(n: nat, base: nat): Text
    requires IsBase(base)
  {
    if n == 0 then [] else Numeral(n, base)
  }

  lemma NumeralStep(n: nat, base: nat)
    requires IsBase(base)
    ensures Numeral(n, base) == Ahead(n / base, base) + [DigitChar(n % base)]
  {
    if n < base {
      assert n / base == 0 && n % base == n;
    }
  }

  /** `*--p = c` */
  method Push(str: array<byte>, p: nat, c: byte) returns (q: nat)
    requires 0 < p <= str.Length
    modifies str
    ensures q == p - 1 && str[q..] == [c] + old(str[p..])
  {
    q := p - 1;
    str[q] := c;
    assert str[q..] == [c] + str[p..];
  }

  /** printx and terminal_writehex: the digits of a uint32, from the back of a 17-byte buffer. The
      text starts at `p`, which stays in the buffer, and ends with a zero byte. */
  method HexDigits(data: nat) returns (str: array<byte>, p: nat)
    requires data < 0x1_0000_0000
    ensures fresh(str) && str.Length == 17 && 8 <= p < 16
    ensures str[p..] == Numeral(data, 16) + [0]
  {
    Widths();
    NumeralLength(data, 16, 8);
    hide Power, Numeral, DigitChar;
    str := new byte[17](_ => 0);
    p := 16;
    assert str[p..] == [0];
    var tmp := data;
    var val := tmp / 16;
    NumeralStep(tmp, 16);
    p := Push(str, p, DigitChar(tmp - val * 16));
    tmp := val;
    while tmp != 0
      invariant 0 < p < 16
      invariant Numeral(data, 16) + [0] == Ahead(tmp, 16) + str[p..]
    {
      val := tmp / 16;
      NumeralStep(tmp, 16);
      ghost var done := str[p..];
      p := Push(str, p, DigitChar(tmp - val * 16));
      assert Ahead(tmp, 16) + done == Ahead(val, 16) + str[p..];
      tmp := val;
    }
  }

  // ---------------------------------------------------------------- decimal

  /** Division of C: it truncates toward zero. */
  function Quot(a: int, b: nat): int
    requires b > 0
  {
    if a >= 0 then a / b else -(-a / b)
  }

  /** `'0' - d` for every digit `d`. */
  function Mirror(s: Text): (t: Text)
    requires Decimal(s)
    ensures |t| == |s| && forall i :: 0 <= i < |s| ==> t[i] == 0x60 - s[i]
  {
    seq(|s|, i requires 0 <= i < |s| => 0x60 - s[i])
  }

  /** What printi prints. It adds the remainder to '0', and the remainder of a negative number is
      not positive: there is no sign, and each digit is reflected below '0'. */
  function Printed(n: int): Text {
    NumeralIsDecimal(if n < 0 then -n else n);
    if n >= 0 then Numeral(n, 10) else Mirror(Numeral(-n, 10))
  }

  /** The text parses back to the number exactly when the number is not negative. */
  lemma PrintedParsesIff(n: int)
    ensures IsNumeral(Printed(n), 10) && Value(Printed(n), 10) == n <==> n >= 0
  {
    NumeralValue(if n < 0 then -n else n, 10);
    if n < 0 {
      assert Printed(n)[0] == 0x60 - Numeral(-n, 10)[0];
      assert !IsDigit(Printed(n)[0], 10);
    }
  }

  /** A negative number comes out as long as its absolute value, each digit as far below '0' as that of the
      absolute value is above it. */
  lemma NegativeReflects(n: int)
    requires n < 0
    ensures |Printed(n)| == |Numeral(-n, 10)|
    ensures forall i :: 0 <= i < |Printed(n)| ==> Printed(n)[i] as int + Numeral(-n, 10)[i] as int == 0x60
  {
    hide Numeral;
    NumeralIsDecimal(-n);
  }

  function AheadDecimal(n: int): Text {
    if n == 0 then [] else Printed(n)
  }

  predicate Decimal(s: Text) {
    forall i :: 0 <= i < |s| ==> 0x30 <= s[i] < 0x3A
  }

  lemma NumeralIsDecimal(n: nat)
    ensures Decimal(Numeral(n, 10))
  {
    NumeralValue(n, 10);
  }

  lemma MirrorOfNegative(m: int)
    requires m > 0
    ensures Decimal(Ahead(m / 10, 10))
    ensures Printed(-m) == Mirror(Ahead(m / 10, 10)) + [0x30 - m % 10]
  {
    hide Numeral;
    NumeralStep(m, 10);
    NumeralIsDecimal(m);
    NumeralIsDecimal(m / 10);
    assert Mirror(Ahead(m / 10, 10)) + [0x30 - m % 10] == Mirror(Numeral(m, 10));
  }

  /** The last character of what is printed for `n`, and what comes before it. */
  lemma PrintedStep(n: int)
    ensures var q := Quot(n, 10);
            -10 < n - q * 10 < 10 && Printed(n) == AheadDecimal(q) + [0x30 + (n - q * 10)]
  {
    hide Numeral, Mirror;
    if n >= 0 {
      NumeralStep(n, 10);
    } else {
      MirrorOfNegative(-n);
      assert Quot(n, 10) == -(-n / 10);
      if -n / 10 == 0 {
        assert Mirror([]) == [];
      }
    }
  }

  lemma PrintedLength(n: int)
    requires -0x8000_0000 <= n < 0x8000_0000
    ensures |Printed(n)| <= 10
  {
    Widths();
    NumeralLength(if n < 0 then -n else n, 10, 10);
  }

  method DecimalDigits(data: int) returns (str: array<byte>, p: nat)
    requires -0x8000_0000 <= data < 0x8000_0000
    ensures fresh(str) && str.Length == 33 && 22 <= p < 32
    ensures str[p..] == Printed(data) + [0]
  {
    hide Power, Numeral, Printed, Quot;
    PrintedLength(data);
    str := new byte[33](_ => 0);
    p := 32;
    assert str[p..] == [0];
    var tmp := data;
    var val := Quot(tmp, 10);
    PrintedStep(tmp);
    p := Push(str, p, 0x30 + (tmp - val * 10));
    tmp := val;
    while tmp != 0
      invariant 0 < p < 32
      invariant Printed(data) + [0] == AheadDecimal(tmp) + str[p..]
      decreases |AheadDecimal(tmp)|
    {
      val := Quot(tmp, 10);
      PrintedStep(tmp);
      ghost var done := str[p..];
      p := Push(str, p, 0x30 + (tmp - val * 10));
      assert AheadDecimal(tmp) + done == AheadDecimal(val) + str[p..];
      tmp := val;
    }
  }
}
