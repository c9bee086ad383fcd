/** printf.c: the scanning loop against a rendering of the format character by character. */
module Printf {
  import opened LittleEndian
  import opened Digits

  const PERCENT: byte := 0x25

  /** A variadic argument: a string, by the bytes before its zero byte, or an int. */
  datatype Arg = Str(s: Text) | Int(n: int)

  /** Reading an argument that is missing or of the other kind has no defined result. */
  datatype Rendering = Undefined | Rendered(out: Text, written: nat)

  function Before(s: Text, w: nat, r: Rendering): Rendering {
    match r
    case Undefined => Undefined
    case Rendered(out, written) => Rendered(s + out, w + written)
  }

  predicate IsSpecifier(c: byte) {
    c == 0x63 || c == 0x73 || c == 0x64 || c == 0x78
  }

  /** The argument as the specifier `c`, `s`, `d` or `x` prints it. `tail` is what print emits
      after a string whose length strlen measured: nothing, or a zero byte with strlen as written,
      which counts the terminator. */
  function Conversion(c: byte, a: Arg, tail: Text): Rendering {
    if c == 0x73 then (if a.Str? then Rendered(a.s + tail, 0) else Undefined)
    else if a.Str? || !(-0x8000_0000 <= a.n < 0x8000_0000) then Undefined
    else if c == 0x63 then Rendered([a.n % 256], 0)
    else if c == 0x64 then Rendered(Printed(a.n) + tail, 0)
    else Rendered(Numeral(a.n % 0x1_0000_0000, 16) + tail, 0)
  }


  /** The text and the return value of printf, which counts literal characters only. Once
      `rejected`, a lone percent sign is literal. */
  function Render(f: Text, rejected: bool, args: seq<Arg>, tail: Text): Rendering
    decreases |f|
  {
    if f == [] then Rendered([], 0)
    else if f[0] != PERCENT then Before([f[0]], 1, Render(f[1..], rejected, args, tail))
    else if |f| > 1 && f[1] == PERCENT then Before([PERCENT], 1, Render(f[2..], rejected, args, tail))
    else if rejected || |f| == 1 || !IsSpecifier(f[1]) then
      Before([PERCENT], 1, Render(f[1..], true, args, tail))
    else if args == [] then Undefined
    else
      match Conversion(f[1], args[0], tail)
      case Undefined => Undefined
      case Rendered(out, _) => Before(out, 0, Render(f[2..], rejected, args[1..], tail))
  }

  // ---------------------------------------------------------------- what formats do

  /** Each conversion prints something its argument can be read back from: a string itself, a
      character itself, a uint32 and a non-negative int32 as a numeral with that value. */
  lemma ConversionsReadBack(s: Text, n: int)
    requires -0x8000_0000 <= n < 0x8000_0000
    ensures Render([PERCENT, 0x73], false, [Str(s)], []) == Rendered(s, 0)
    ensures 0 <= n < 256 ==> Render([PERCENT, 0x63], false, [Int(n)], []) == Rendered([n], 0)
    ensures var r := Render([PERCENT, 0x78], false, [Int(n)], []);
            r.Rendered? && IsNumeral(r.out, 16) && (Value(r.out, 16) - n) % 0x1_0000_0000 == 0
    ensures var r := Render([PERCENT, 0x64], false, [Int(n)], []);
            r.Rendered? && (IsNumeral(r.out, 10) && Value(r.out, 10) == n <==> n >= 0)
  {
    hide Numeral, Printed, Value, IsNumeral;
    OneConversion(0x73, Str(s));
    OneConversion(0x63, Int(n));
    OneConversion(0x78, Int(n));
    OneConversion(0x64, Int(n));
    NumeralValue(n % 0x1_0000_0000, 16);
    PrintedParsesIff(n);
    assert s + [] == s && Printed(n) + [] == Printed(n);
    assert Numeral(n % 0x1_0000_0000, 16) + [] == Numeral(n % 0x1_0000_0000, 16);
  }

  lemma OneConversion(c: byte, a: Arg)
    requires IsSpecifier(c) && Conversion(c, a, []).Rendered?
    ensures Render([PERCENT, c], false, [a], []) == Rendered(Conversion(c, a, []).out, 0)
  {
    hide Conversion;
    var f := [PERCENT, c];
    assert f[2..] == [];
    assert Conversion(c, a, []).out + [] == Conversion(c, a, []).out;
  }

  /** What each conversion prints, with what print adds behind the measured strings. */
  lemma ConversionTexts(s: Text, n: int, tail: Text)
    requires -0x8000_0000 <= n < 0x8000_0000
    ensures Conversion(0x73, Str(s), tail) == Rendered(s + tail, 0)
    ensures Conversion(0x63, Int(n), tail) == Rendered([n % 0x100], 0)
    ensures Conversion(0x64, Int(n), tail) == Rendered(Printed(n) + tail, 0)
    ensures Conversion(0x78, Int(n), tail) == Rendered(Numeral(n % 0x1_0000_0000, 0x10) + tail, 0)
    ensures forall c: byte :: IsSpecifier(c) <==> c == 0x63 || c == 0x73 || c == 0x64 || c == 0x78
  {
  }

  /** What a format is made of: characters to print, and conversions with their arguments. */
  datatype Piece = Literal(c: byte) | Insert(c: byte, a: Arg)

  predicate Defined(p: Piece, tail: Text) {
    p.Insert? ==> IsSpecifier(p.c) && Conversion(p.c, p.a, tail).Rendered?
  }

  /** How a format spells a piece: a percent sign to print is doubled. */
  function Spelling(p: Piece): Text {
    if p.Insert? || p.c == 0x25 then [0x25, p.c] else [p.c]
  }

  function ShownPiece(p: Piece, tail: Text): Text
    requires Defined(p, tail)
  {
    if p.Insert? then Conversion(p.c, p.a, tail).out else [p.c]
  }

  function Arguments(p: Piece): seq<Arg> {
    if p.Insert? then [p.a] else []
  }

  function Spelled(ps: seq<Piece>): Text {
    if ps == [] then [] else Spelling(ps[0]) + Spelled(ps[1..])
  }

  /** The pieces one after another. */
  function Shown(ps: seq<Piece>, tail: Text): Text
    requires forall i :: 0 <= i < |ps| ==> Defined(ps[i], tail)
  {
    if ps == [] then [] else ShownPiece(ps[0], tail) + Shown(ps[1..], tail)
  }

  function AllArguments(ps: seq<Piece>): seq<Arg> {
    if ps == [] then [] else Arguments(ps[0]) + AllArguments(ps[1..])
  }

  function Literals(ps: seq<Piece>): nat {
    if ps == [] then 0 else (if ps[0].Literal? then 1 else 0) + Literals(ps[1..])
  }

  /** A format prints its literal characters and its arguments in order, each argument with its own
      conversion; arguments beyond are ignored, and the literal characters are counted. */
  lemma {:induction false} PiecesInOrder(ps: seq<Piece>, more: seq<Arg>, tail: Text)
    requires forall i :: 0 <= i < |ps| ==> Defined(ps[i], tail)
    ensures Render(Spelled(ps), false, AllArguments(ps) + more, tail) == Rendered(Shown(ps, tail), Literals(ps))
    decreases |ps|
  {
    hide Render, Defined, Spelling, ShownPiece, Arguments;
    if ps == [] {
      RenderNothing(Spelled(ps), false, AllArguments(ps) + more, tail);
    } else {
      var rest := ps[1..];
      PiecesInOrder(rest, more, tail);
      assert AllArguments(ps) + more == Arguments(ps[0]) + (AllArguments(rest) + more);
      PieceFirst(ps[0], Spelled(rest), AllArguments(rest) + more, tail);
    }
  }

  lemma PieceFirst(p: Piece, g: Text, args: seq<Arg>, tail: Text)
    requires Defined(p, tail)
    ensures Render(Spelling(p) + g, false, Arguments(p) + args, tail) ==
            Before(ShownPiece(p, tail), if p.Literal? then 1 else 0, Render(g, false, args, tail))
  {
    hide Conversion, Before;
    match p
    case Literal(c) =>
      assert Arguments(p) + args == args;
      LiteralFirst(c, g, false, args, tail);
    case Insert(c, a) => InsertFirst(c, a, g, args, tail);
  }

  lemma LiteralFirst(c: byte, g: Text, rejected: bool, args: seq<Arg>, tail: Text)
    ensures Render((if c == 0x25 then [0x25, 0x25] else [c]) + g, rejected, args, tail) ==
            Before([c], 1, Render(g, rejected, args, tail))
  {
    hide Conversion;
    var f := (if c == 0x25 then [0x25, 0x25] else [c]) + g;
    assert f[if c == 0x25 then 2 else 1..] == g;
  }

  lemma InsertFirst(c: byte, a: Arg, g: Text, args: seq<Arg>, tail: Text)
    requires IsSpecifier(c) && Conversion(c, a, tail).Rendered?
    ensures Render([0x25, c] + g, false, [a] + args, tail) ==
            Before(Conversion(c, a, tail).out, 0, Render(g, false, args, tail))
  {
    hide Conversion;
    var f := [0x25, c] + g;
    assert f[2..] == g && ([a] + args)[1..] == args;
  }

  function Doubled(s: Text): Text {
    if s == [] then [] else (if s[0] == PERCENT then [PERCENT, PERCENT] else [s[0]]) + Doubled(s[1..])
  }

  /** Any text can be printed literally: double its percent signs. */
  lemma {:induction false} DoubledPrintsLiterally(s: Text, rejected: bool, args: seq<Arg>, tail: Text)
    ensures Render(Doubled(s), rejected, args, tail) == Rendered(s, |s|)
  {
    if s != [] {
      var f := Doubled(s);
      DoubledPrintsLiterally(s[1..], rejected, args, tail);
      if s[0] == PERCENT {
        assert f[2..] == Doubled(s[1..]);
      } else {
        assert f[1..] == Doubled(s[1..]);
      }
      assert [s[0]] + s[1..] == s;
    }
  }

  function Undoubled(f: Text): Text {
    if f == [] then []
    else if f[0] == PERCENT && |f| > 1 && f[1] == PERCENT then [PERCENT] + Undoubled(f[2..])
    else [f[0]] + Undoubled(f[1..])
  }

  /** After one bad specifier nothing is converted any more: no argument is looked at, every lone
      percent sign is literal, and only pairs of them still shrink. */
  lemma {:induction false} RejectedIsLiteral(f: Text, args: seq<Arg>, tail: Text)
    ensures Render(f, true, args, tail) == Rendered(Undoubled(f), |Undoubled(f)|)
    decreases |f|
  {
    if f != [] {
      if f[0] == PERCENT && |f| > 1 && f[1] == PERCENT {
        RejectedIsLiteral(f[2..], args, tail);
      } else {
        RejectedIsLiteral(f[1..], args, tail);
      }
    }
  }

  /** The return value is a function of the format alone. */
  lemma {:induction false} WrittenIgnoresArgs(f: Text, rejected: bool, a: seq<Arg>, b: seq<Arg>, tail: Text, other: Text)
    requires Render(f, rejected, a, tail).Rendered? && Render(f, rejected, b, other).Rendered?
    ensures Render(f, rejected, a, tail).written == Render(f, rejected, b, other).written <= |f|
    decreases |f|
  {
    if f == [] {
    } else if f[0] != PERCENT {
      WrittenIgnoresArgs(f[1..], rejected, a, b, tail, other);
    } else if |f| > 1 && f[1] == PERCENT {
      WrittenIgnoresArgs(f[2..], rejected, a, b, tail, other);
    } else if rejected || |f| == 1 || !IsSpecifier(f[1]) {
      WrittenIgnoresArgs(f[1..], true, a, b, tail, other);
    } else {
      WrittenIgnoresArgs(f[2..], rejected, a[1..], b[1..], tail, other);
    }
  }

  /** What makes a specifier bad: it is none of the four, or the format ends. From the percent sign on
      everything is literal. */
  lemma BadSpecifier(f: Text, args: seq<Arg>, tail: Text)
    requires f == [] || (f[0] != 0x25 && f[0] != 0x63 && f[0] != 0x73 && f[0] != 0x64 && f[0] != 0x78)
    ensures Render([0x25] + f, false, args, tail) == Rendered([0x25] + Undoubled(f), 1 + |Undoubled(f)|)
  {
    assert ([0x25] + f)[1..] == f;
    RejectedIsLiteral(f, args, tail);
  }

  lemma BeforeTwice(s: Text, v: nat, t: Text, w: nat, r: Rendering)
    ensures Before(s, v, Before(t, w, r)) == Before(s + t, v + w, r)
  {
    if r.Rendered? {
      assert s + (t + r.out) == (s + t) + r.out;
    }
  }

  /** A literal run up to the next percent sign is rendered character by character. */
  lemma {:induction false} RunIsLiteral(f: Text, n: nat, rejected: bool, args: seq<Arg>, tail: Text)
    requires n <= |f| && forall i :: 0 <= i < n ==> f[i] != PERCENT
    ensures Render(f, rejected, args, tail) == Before(f[..n], n, Render(f[n..], rejected, args, tail))
    decreases n
  {
    hide Conversion, Before;
    if n == 0 {
      BeforeNothing(f[..0], Render(f[0..], rejected, args, tail));
      assert f[0..] == f;
    } else {
      RunIsLiteral(f[1..], n - 1, rejected, args, tail);
      assert f[1..][n - 1..] == f[n..];
      assert [f[0]] + f[1..][..n - 1] == f[..n];
      BeforeTwice([f[0]], 1, f[1..][..n - 1], n - 1, Render(f[n..], rejected, args, tail));
    }
  }

  lemma BeforeNothing(s: Text, r: Rendering)
    requires s == []
    ensures Before(s, 0, r) == r
  {
    if r.Rendered? {
      assert s + r.out == r.out;
    }
  }

  /** A run whose first character is literal whatever it is. */
  lemma LiteralFrom(f: Text, at: nat, amount: nat, rejected: bool, args: seq<Arg>, tail: Text)
    requires 1 <= amount && at + amount <= |f|
    requires forall i :: at < i < at + amount ==> f[i] != PERCENT
    ensures Before([f[at]], 1, Render(f[at + 1..], rejected, args, tail)) ==
            Before(f[at..at + amount], amount, Render(f[at + amount..], rejected, args, tail))
  {
    hide Conversion, Before, Render;
    var g := f[at + 1..];
    RunIsLiteral(g, amount - 1, rejected, args, tail);
    assert g[amount - 1..] == f[at + amount..];
    assert [f[at]] + g[..amount - 1] == f[at..at + amount];
    BeforeTwice([f[at]], 1, g[..amount - 1], amount - 1, Render(f[at + amount..], rejected, args, tail));
  }

  // ---------------------------------------------------------------- the code

  /** At the label print_c: `amount` characters from `at` are literal, the first whatever it is, the
      others up to the next percent sign. */
  method LiteralRun(format: Text, at: nat) returns (amount: nat)
    requires at < |format|
    ensures 1 <= amount <= |format| - at
    ensures forall i :: at < i < at + amount ==> format[i] != PERCENT
    ensures at + amount < |format| ==> format[at + amount] == PERCENT
  {
    amount := 1;
    while at + amount < |format| && format[at + amount] != PERCENT
      invariant 1 <= amount <= |format| - at
      invariant forall i :: at < i < at + amount ==> format[i] != PERCENT
    {
      amount := amount + 1;
    }
  }

  /** The conversion of one argument: what is printed for it. */
  method Convert(c: byte, a: Arg, tail: Text) returns (out: Text)
    requires IsSpecifier(c) && Conversion(c, a, tail).Rendered?
    ensures Conversion(c, a, tail) == Rendered(out, 0)
  {
    if c == 0x63 {
      out := [a.n % 256];
    } else if c == 0x73 {
      out := a.s + tail;
    } else if c == 0x64 {
      var str, p := DecimalDigits(a.n);
      assert str[p..32] == Printed(a.n);
      out := str[p..32] + tail;
    } else {
      var str, p := HexDigits(a.n % 0x1_0000_0000);
      assert str[p..16] == Numeral(a.n % 0x1_0000_0000, 16);
      out := str[p..16] + tail;
    }
  }

  /** A literal step of the loop: the run starts at the percent sign, behind it when there are two,
      or at an ordinary character. */
  lemma LiteralStep(f: Text, at: nat, start: nat, amount: nat, was: bool, rejected: bool, args: seq<Arg>, tail: Text)
    requires at <= start && 1 <= amount && start + amount <= |f|
    requires forall i :: start < i < start + amount ==> f[i] != PERCENT
    requires
      || (f[at] != PERCENT && start == at && rejected == was)
      || (f[at] == PERCENT && start == at + 1 && f[at + 1] == PERCENT && rejected == was)
      || (f[at] == PERCENT && start == at && rejected && (at + 1 < |f| ==> f[at + 1] != PERCENT) &&
          (was || at + 1 == |f| || !IsSpecifier(f[at + 1])))
    ensures Render(f[at..], was, args, tail) ==
            Before(f[start..start + amount], amount, Render(f[start + amount..], rejected, args, tail))
  {
    hide Conversion, Before;
    var g := f[at..];
    LiteralFrom(f, start, amount, rejected, args, tail);
    assert g[1..] == f[at + 1..];
    if start == at + 1 {
      assert g[2..] == f[at + 2..];
    }
  }

  /** A converting step. */
  lemma ConversionStep(f: Text, at: nat, args: seq<Arg>, tail: Text)
    requires at + 1 < |f| && f[at] == PERCENT && IsSpecifier(f[at + 1])
    requires Render(f[at..], false, args, tail).Rendered?
    ensures args != [] && Conversion(f[at + 1], args[0], tail).Rendered?
    ensures Render(f[at..], false, args, tail) ==
            Before(Conversion(f[at + 1], args[0], tail).out, 0, Render(f[at + 2..], false, args[1..], tail))
  {
    hide Conversion, Before;
    var g := f[at..];
    assert g[2..] == f[at + 2..];
  }

  /** printf, as the text it prints and the value it returns. */
  method Printf(format: Text, parameters: seq<Arg>, tail: Text) returns (out: Text, written: nat)
    requires Render(format, false, parameters, tail).Rendered?
    ensures Render(format, false, parameters, tail) == Rendered(out, written)
  {
    hide Conversion, Before, Render, Numeral, Printed, IsSpecifier;
    out, written := [], 0;
    var at, next, rejected := 0, 0, false;
    ghost var whole := Render(format, false, parameters, tail);
    RenderFrom(format, parameters, tail);
    while at < |format|
      invariant 0 <= at <= |format| && 0 <= next <= |parameters|
      invariant whole == Before(out, written, Render(format[at..], rejected, parameters[next..], tail))
      decreases |format| - at
    {
      ghost var args, was := parameters[next..], rejected;
      BeforeDefined(out, written, Render(format[at..], rejected, args, tail));
      var start := at;
      if format[at] == PERCENT {
        if at + 1 < |format| && format[at + 1] == PERCENT {
          start := at + 1;
        } else if rejected || at + 1 == |format| || !IsSpecifier(format[at + 1]) {
          rejected := true;
        } else {
          ConversionStep(format, at, args, tail);
          var text := Convert(format[at + 1], parameters[next], tail);
          assert args[1..] == parameters[next + 1..];
          BeforeTwice(out, written, text, 0, Render(format[at + 2..], false, parameters[next + 1..], tail));
          out := out + text;
          at, next := at + 2, next + 1;
          continue;
        }
      }
      var amount := LiteralRun(format, start);
      LiteralStep(format, at, start, amount, was, rejected, args, tail);
      BeforeTwice(out, written, format[start..start + amount], amount, Render(format[start + amount..], rejected, args, tail));
      out := out + format[start..start + amount];
      written := written + amount;
      at := start + amount;
    }
    RenderNothing(format[at..], rejected, parameters[next..], tail);
    BeforeEnd(out, written);
  }

  lemma RenderFrom(f: Text, args: seq<Arg>, tail: Text)
    ensures Render(f, false, args, tail) == Before([], 0, Render(f[0..], false, args[0..], tail))
  {
    BeforeNothing([], Render(f, false, args, tail));
    assert f[0..] == f && args[0..] == args;
  }

  lemma RenderNothing(f: Text, rejected: bool, args: seq<Arg>, tail: Text)
    requires f == []
    ensures Render(f, rejected, args, tail) == Rendered([], 0)
  {
  }

  lemma BeforeDefined(s: Text, w: nat, r: Rendering)
    requires Before(s, w, r).Rendered?
    ensures r.Rendered?
  {
  }

  lemma BeforeEnd(s: Text, w: nat)
    ensures Before(s, w, Rendered([], 0)) == Rendered(s, w)
  {
    assert s + [] == s;
  }
}
