/** What a text means to the terminal, on a screen that never scrolls: an unbounded transcript of
    80-column rows. `Terminal.dfy` shows the 80x25 buffer to be a window on it. */
module Transcript {
  import opened LittleEndian

  type color = bv8
  type cell = bv16
  type Text = seq<byte>

  const WIDTH: nat := 80
  const HEIGHT: nat := 25
  const ESC: byte := 0x1B
  const SPACE: byte := 0x20
  const NEWLINE: byte := 0x0A
  const TAB: byte := 0x09
  const RETURN: byte := 0x0D
  const CARET: byte := 0x5E
  const BRACKET: byte := 0x5B
  const LETTER_M: byte := 0x6D
  const GREY_ON_BLACK: color := 0x07

  /** make_vgaentry. A char is signed: bytes from 0x80 on are sign-extended over the color. */
  function Cell(c: byte, k: color): cell {
    Extended(c) | (k as cell << 8)
  }

  /** A char as a 16-bit word. */
  function Extended(c: byte): cell {
    if c >= 0x80 then 0xFF00 | (c as bv8 as cell) else c as bv8 as cell
  }

  /** The low byte of an entry is the character, and the high byte the color if that is ASCII. */
  lemma CellHalves(c: byte, k: color)
    ensures Cell(c, k) & 0xFF == c as bv8 as cell
    ensures Cell(c, k) >> 8 == if c < 0x80 then k as cell else 0xFF
  {
  }

  lemma BlankIs()
    ensures BLANK == 0x0720 && Cell(0, GREY_ON_BLACK) == 0x0700 && GREY_ON_BLACK == 0x07
  {
  }

  const BLANK: cell := Cell(SPACE, GREY_ON_BLACK)

  function Blanks(n: nat): (s: seq<cell>)
    ensures |s| == n && forall i :: 0 <= i < n ==> s[i] == BLANK
  {
    seq(n, _ => BLANK)
  }

  /** `cells` holds whole rows, at least a screenful, and ends with the row of the cursor once
      there are more. */
  datatype Page = Page(cells: seq<cell>, row: nat, column: nat, color: color) {
    ghost predicate Valid() {
      && |cells| % WIDTH == 0 && |cells| >= WIDTH * HEIGHT
      && row < |cells| / WIDTH && column < WIDTH
      && (|cells| > WIDTH * HEIGHT ==> row == |cells| / WIDTH - 1)
    }

    function Position(): nat { WIDTH * row + column }

    /** How often a screen of 25 rows has scrolled by now. */
    function Scrolls(): int { |cells| / WIDTH - HEIGHT }
  }

  function Initial(): (p: Page)
    ensures p.Valid()
  {
    Page(seq(WIDTH * HEIGHT, _ => Cell(0, GREY_ON_BLACK)), 0, 0, GREY_ON_BLACK)
  }

  function NextRow(p: Page): (q: Page)
    requires p.Valid()
    ensures q.Valid() && q.row == p.row + 1 && q.column == 0 && q.color == p.color
    ensures p.cells <= q.cells
  {
    var cells := if WIDTH * (p.row + 1) == |p.cells| then p.cells + Blanks(WIDTH) else p.cells;
    Page(cells, p.row + 1, 0, p.color)
  }

  function PutChar(p: Page, c: byte): (q: Page)
    requires p.Valid()
    ensures q.Valid() && q.Position() == p.Position() + 1 && q.color == p.color
    ensures p.cells[p.Position() := Cell(c, p.color)] <= q.cells
  {
    var q := p.(cells := p.cells[p.Position() := Cell(c, p.color)]);
    if p.column + 1 == WIDTH then NextRow(q) else q.(column := p.column + 1)
  }

  function PutAll(p: Page, s: Text): (q: Page)
    requires p.Valid()
    ensures q.Valid()
    decreases |s|
  {
    if s == [] then p else PutAll(PutChar(p, s[0]), s[1..])
  }

  /** The tab loop: its bound `4 - column % 4` is read again after every space. */
  function Tab(p: Page, i: nat): (q: Page)
    requires p.Valid() && i <= 4
    ensures q.Valid() && q.Position() >= p.Position()
    decreases 4 - i
  {
    if i < 4 - p.column % 4 then Tab(PutChar(p, SPACE), i + 1) else p
  }

  // ---------------------------------------------------------------- escape sequences

  /** `c - '0' < 8` on a signed char. */
  predicate BelowEight(c: byte) {
    c < 0x38 || c >= 0x80
  }

  /** `c - '0' + n`, cut to the 8 bits that are or-ed into the color. */
  function Digit(c: byte, n: nat): color {
    ((c - 0x30 + n) % 256) as color
  }

  function Foreground(k: color, fg: color): color { (k & 0xF0) | fg }

  function Background(k: color, bg: color): color { (k & 0x0F) | (bg << 4) }

  /** The offset of the first character after ESC or ESC [. */
  function Parameters(es: Text): nat
    requires |es| >= 2
  {
    if es[1] == BRACKET then 2 else 1
  }

  predicate ShortForm(es: Text)
    requires |es| >= 2
  {
    Parameters(es) + 2 < |es| && es[Parameters(es) + 2] == LETTER_M
  }

  predicate LongForm(es: Text)
    requires |es| >= 2
  {
    var p := Parameters(es);
    p + 3 < |es| && es[p] == 0x31 && es[p + 1] == 0x30 && es[p + 3] == LETTER_M
  }

  /** The sequences terminal_escape_sequence returns from; the others have no defined result. */
  predicate WellFormedEscape(es: Text) {
    |es| >= 2 && es[0] == ESC && (es[1] == ESC || ShortForm(es) || LongForm(es))
  }

  /** What terminal_escape_sequence returns: the offset of the last character it looked at, or the
      offset after it for ESC ESC. */
  function EscapeLength(es: Text): (n: nat)
    requires WellFormedEscape(es)
    ensures 2 <= n <= |es|
  {
    if es[1] == ESC then 2
    else if ShortForm(es) then Parameters(es) + 2
    else Parameters(es) + 3
  }

  /** The color it leaves. */
  function NewColor(k: color, es: Text): color
    requires WellFormedEscape(es)
  {
    var n := Parameters(es);
    if es[1] == ESC then k
    else if ShortForm(es) then
      var c, d := es[n], es[n + 1];
      if c == 0x30 then GREY_ON_BLACK
      else if c == 0x33 && BelowEight(d) then Foreground(k, Digit(d, 0))
      else if c == 0x39 && BelowEight(d) then Foreground(k, Digit(d, 8))
      else if c == 0x34 && BelowEight(d) then Background(k, Digit(d, 0))
      else k
    else if BelowEight(es[n + 2]) then Background(k, Digit(es[n + 2], 8))
    else k
  }

  /** What it prints ('0' is 0x30): the pair ESC ESC and colors out of range are echoed. `tail` is what
      terminal_writestring prints after each string: nothing, or a zero byte with strlen as
      written, which counts the terminator. */
  function Echo(es: Text, tail: Text): Text
    requires WellFormedEscape(es)
  {
    var n := Parameters(es);
    if es[1] == ESC then [CARET, BRACKET, CARET, BRACKET] + tail
    else if ShortForm(es) then
      var c, d := es[n], es[n + 1];
      if c == 0x30 then []
      else if c == 0x33 || c == 0x39 || c == 0x34 then
        if BelowEight(d) then [] else [CARET, BRACKET, c] + tail + [d, LETTER_M]
      else [CARET, BRACKET] + tail + [c, d, LETTER_M]
    else if BelowEight(es[n + 2]) then []
    else [CARET, BRACKET, 0x31, 0x30] + tail + [es[n + 2], LETTER_M]
  }

  function Escape(p: Page, es: Text, tail: Text): (q: Page)
    requires p.Valid() && WellFormedEscape(es)
    ensures q.Valid()
  {
    PutAll(p.(color := NewColor(p.color, es)), Echo(es, tail))
  }

  // ---------------------------------------------------------------- texts

  /** What the writing loop can step over: no carriage return, whose own loop never ends, and no
      malformed escape sequence. */
  predicate StepOk(s: Text)
    requires s != []
  {
    s[0] != RETURN && (s[0] == ESC ==> WellFormedEscape(s))
  }

  /** One step of the loop. */
  function Step(p: Page, s: Text, tail: Text): (q: Page)
    requires p.Valid() && s != [] && StepOk(s)
    ensures q.Valid()
  {
    if s[0] == NEWLINE then NextRow(p)
    else if s[0] == TAB then Tab(p, 0)
    else if s[0] == ESC then Escape(p, s, tail)
    else PutChar(p, s[0])
  }

  /** Where it goes on: after the character at the offset terminal_escape_sequence returns. */
  function Rest(s: Text): (r: Text)
    requires s != [] && StepOk(s)
    ensures |r| < |s|
  {
    if s[0] != ESC then s[1..]
    else if EscapeLength(s) < |s| then s[EscapeLength(s) + 1..]
    else []
  }

  predicate WellFormed(s: Text)
    decreases |s|
  {
    s == [] || (StepOk(s) && WellFormed(Rest(s)))
  }

  /** The page after a text is written. */
  function Write(p: Page, s: Text, tail: Text): (q: Page)
    requires p.Valid() && WellFormed(s)
    ensures q.Valid()
    decreases |s|
  {
    if s == [] then p else Write(Step(p, s, tail), Rest(s), tail)
  }

  // ---------------------------------------------------------------- what texts do

  /** `q` has only written at and after the cursor of `p`. */
  ghost predicate Grows(p: Page, q: Page)
    requires p.Valid() && q.Valid()
  {
    q.Position() >= p.Position() && |q.cells| >= |p.cells| && p.cells[..p.Position()] <= q.cells
  }

  lemma GrowsTwice(p: Page, q: Page, r: Page)
    requires p.Valid() && q.Valid() && r.Valid() && Grows(p, q) && Grows(q, r)
    ensures Grows(p, r)
  {
  }

  /** Nothing once written ever changes. */
  lemma {:induction false} HistoryKept(p: Page, s: Text, tail: Text)
    requires p.Valid() && WellFormed(s)
    ensures Grows(p, Write(p, s, tail))
    decreases |s|
  {
    if s != [] {
      StepGrows(p, s, tail);
      HistoryKept(Step(p, s, tail), Rest(s), tail);
      GrowsTwice(p, Step(p, s, tail), Write(p, s, tail));
    }
  }

  lemma StepGrows(p: Page, s: Text, tail: Text)
    requires p.Valid() && s != [] && StepOk(s)
    ensures Grows(p, Step(p, s, tail))
  {
    hide NewColor, Echo, Cell;
    if s[0] == TAB {
      TabGrows(p, 0);
    } else if s[0] == ESC {
      PutAllIs(p.(color := NewColor(p.color, s)), Echo(s, tail));
    }
  }

  lemma {:induction false} TabGrows(p: Page, i: nat)
    requires p.Valid() && i <= 4
    ensures Grows(p, Tab(p, i))
    decreases 4 - i
  {
    hide Cell;
    if i < 4 - p.column % 4 {
      TabGrows(PutChar(p, SPACE), i + 1);
      GrowsTwice(p, PutChar(p, SPACE), Tab(p, i));
    }
  }

  /** Characters go into consecutive cells, in the current color, whatever the row boundaries. */
  lemma {:induction false} PutAllIs(p: Page, s: Text)
    requires p.Valid()
    ensures var q := PutAll(p, s);
            && Grows(p, q) && q.color == p.color && q.Position() == p.Position() + |s|
            && forall k :: 0 <= k < |s| ==> q.cells[p.Position() + k] == Cell(s[k], p.color)
    decreases |s|
  {
    hide Cell;
    if s != [] {
      var m := PutChar(p, s[0]);
      PutAllIs(m, s[1..]);
      var q := PutAll(p, s);
      GrowsTwice(p, m, q);
      assert q.cells[p.Position()] == m.cells[..m.Position()][p.Position()];
      forall k | 1 <= k < |s|
        ensures q.cells[p.Position() + k] == Cell(s[k], p.color)
      {
        assert s[1..][k - 1] == s[k];
      }
    }
  }

  lemma {:induction false} PutAllConcat(p: Page, a: Text, b: Text)
    requires p.Valid()
    ensures PutAll(p, a + b) == PutAll(PutAll(p, a), b)
    decreases |a|
  {
    hide PutChar;
    if a == [] {
      assert a + b == b;
    } else {
      assert (a + b)[0] == a[0] && (a + b)[1..] == a[1..] + b;
      PutAllConcat(PutChar(p, a[0]), a[1..], b);
    }
  }

  predicate Plain(s: Text) {
    forall i :: 0 <= i < |s| ==> s[i] != NEWLINE && s[i] != TAB && s[i] != RETURN && s[i] != ESC
  }

  /** Text without control characters is written character by character. */
  lemma {:induction false} WritePlain(p: Page, s: Text, tail: Text)
    requires p.Valid() && Plain(s)
    ensures WellFormed(s) && Write(p, s, tail) == PutAll(p, s)
    decreases |s|
  {
    hide PutChar;
    if s != [] {
      assert StepOk(s) && Rest(s) == s[1..];
      WritePlain(PutChar(p, s[0]), s[1..], tail);
    }
  }

  /** The screen after a plain text: the number of scrolls is a function of its length, and the
      page shows the characters that wrap into its rows, in light grey on black. Behind them are the zero
      characters of the first screenful and the spaces of later rows. */
  lemma PlainScreen(s: Text, tail: Text)
    requires Plain(s)
    ensures WellFormed(s)
    ensures var q := Write(Initial(), s, tail);
            && q.row == |s| / WIDTH && q.column == |s| % WIDTH
            && q.Scrolls() == (if |s| / WIDTH < HEIGHT then 0 else |s| / WIDTH - HEIGHT + 1)
            && q.color == 0x07
            && (forall k :: 0 <= k < |s| ==> q.cells[k] == Cell(s[k], 0x07))
            && (forall k :: |s| <= k < |q.cells| ==> q.cells[k] == if k < 2000 then 0x0700 else 0x0720)
  {
    BlankIs();
    hide Cell;
    WritePlain(Initial(), s, tail);
    PutAllIs(Initial(), s);
    BehindTheCursor(Initial(), s);
    hide PutAll, Write;
  }

  function Spaces(n: nat): Text {
    if n == 0 then [] else [SPACE] + Spaces(n - 1)
  }

  /** How many spaces the tab loop puts from column `r` past a multiple of four. */
  function TabCount(r: nat, i: nat): nat
    requires r < 4 && i <= 4
    decreases 4 - i
  {
    if i < 4 - r then 1 + TabCount((r + 1) % 4, i + 1) else 0
  }

  lemma PutCharColumn(p: Page, c: byte)
    requires p.Valid()
    ensures PutChar(p, c).column % 4 == (p.column % 4 + 1) % 4
  {
    hide Cell;
    assert PutChar(p, c).column == if p.column + 1 == WIDTH then 0 else p.column + 1;
  }

  lemma {:induction false} TabIs(p: Page, i: nat)
    requires p.Valid() && i <= 4
    ensures Tab(p, i) == PutAll(p, Spaces(TabCount(p.column % 4, i)))
    decreases 4 - i
  {
    hide PutChar, Cell, NextRow;
    if i < 4 - p.column % 4 {
      var q := PutChar(p, SPACE);
      PutCharColumn(p, SPACE);
      var n := TabCount(q.column % 4, i + 1);
      TabIs(q, i + 1);
      assert Spaces(n + 1)[1..] == Spaces(n);
    }
  }

  lemma {:induction false} TabColumn(p: Page, i: nat)
    requires p.Valid() && i <= 4
    ensures Tab(p, i).column % 4 == (p.column % 4 + TabCount(p.column % 4, i)) % 4
    decreases 4 - i
  {
    hide PutChar, Cell, NextRow;
    if i < 4 - p.column % 4 {
      var q := PutChar(p, SPACE);
      PutCharColumn(p, SPACE);
      TabColumn(q, i + 1);
      ModStep(p.column % 4, TabCount(q.column % 4, i + 1));
    }
  }

  lemma ModStep(r: nat, n: nat)
    ensures ((r + 1) % 4 + n) % 4 == (r + (1 + n)) % 4
  {
    var q := (r + 1) / 4;
    assert r + 1 + n == 4 * q + ((r + 1) % 4 + n);
  }

  lemma TabCountIs(r: nat)
    requires r < 4
    ensures TabCount(r, 0) == [2, 2, 1, 3][r]
  {
    assert TabCount(0, 0) == 2 && TabCount(1, 0) == 2 && TabCount(2, 0) == 1 && TabCount(3, 0) == 3;
  }

  /** Where a tab leaves the cursor: two, two, one or three columns on, from columns 0 to 3 past a
      multiple of four. It never stops on a multiple of four: no column is a tab stop. */
  lemma TabSpaces(p: Page)
    requires p.Valid()
    ensures Tab(p, 0) == PutAll(p, Spaces([2, 2, 1, 3][p.column % 4]))
    ensures Tab(p, 0).column % 4 == [2, 3, 3, 2][p.column % 4]
  {
    hide PutChar, PutAll, Tab, Spaces, TabCount;
    TabIs(p, 0);
    TabColumn(p, 0);
    TabCountIs(p.column % 4);
  }

  /** A tab in a text writes these spaces. Like the next one this carries into any text by `WriteConcat`. */
  lemma TabText(p: Page, tail: Text)
    requires p.Valid()
    ensures WellFormed([0x09]) && Complete([0x09])
    ensures Write(p, [0x09], tail) ==
            PutAll(p, [[0x20, 0x20], [0x20, 0x20], [0x20], [0x20, 0x20, 0x20]][p.column % 4])
  {
    hide PutChar, PutAll, Tab;
    TabSpaces(p);
    assert Spaces(1) == [0x20] && Spaces(2) == [0x20, 0x20] && Spaces(3) == [0x20, 0x20, 0x20];
    assert Rest([0x09]) == [];
  }

  /** A newline goes to the start of the next row, which is a new row of grey spaces at the end of the page. */
  lemma NewlineText(p: Page, tail: Text)
    requires p.Valid()
    ensures WellFormed([0x0A]) && Complete([0x0A])
    ensures var q := Write(p, [0x0A], tail);
            && q.row == p.row + 1 && q.column == 0 && q.color == p.color && p.cells <= q.cells
            && |q.cells| == (if 80 * (p.row + 1) == |p.cells| then |p.cells| + 80 else |p.cells|)
            && forall k :: |p.cells| <= k < |q.cells| ==> q.cells[k] == 0x0720
  {
    BlankIs();
    hide Cell;
    assert Rest([0x0A]) == [];
  }

  /** A text with a carriage return is never written to its end. */
  lemma CarriageReturn(a: Text, b: Text)
    requires WellFormed(a) && Complete(a)
    ensures !WellFormed(a + ([0x0D] + b))
    decreases |a|
  {
    if a == [] {
      assert a + ([0x0D] + b) == [0x0D] + b;
    } else {
      StepConcat(Initial(), a, [0x0D] + b, []);
      CarriageReturn(Rest(a), b);
    }
  }

  /** What is behind the cursor after some characters: what was there before, or new rows of grey spaces. */
  lemma {:induction false} BehindTheCursor(p: Page, s: Text)
    requires p.Valid()
    ensures var q := PutAll(p, s);
            forall k :: q.Position() <= k < |q.cells| ==> q.cells[k] == if k < |p.cells| then p.cells[k] else 0x0720
    decreases |s|
  {
    hide Cell;
    if s != [] {
      BlankIs();
      BehindTheCursor(PutChar(p, s[0]), s[1..]);
      PutAllIs(PutChar(p, s[0]), s[1..]);
    }
  }

  /** Setting one half of the color keeps the other, and colors 0 to 15 read back. */
  lemma ColorHalves(k: color, c: color)
    requires c < 16
    ensures Foreground(k, c) & 0x0F == c && Foreground(k, c) & 0xF0 == k & 0xF0
    ensures Background(k, c) >> 4 == c && Background(k, c) & 0x0F == k & 0x0F
  {
  }

  /** ESC [ c d m, with or without the bracket. */
  function Short(bracket: bool, c: byte, d: byte): Text {
    [0x1B] + (if bracket then [0x5B] else []) + [c, d, 0x6D]
  }

  /** ESC [ 1 0 d m, with or without the bracket. */
  function Long(bracket: bool, d: byte): Text {
    [0x1B] + (if bracket then [0x5B] else []) + [0x31, 0x30, d, 0x6D]
  }

  /** ESC [ 3 x m sets the foreground to color x and ESC [ 9 x m to its bright variant, ESC [ 4 x m the
      background, ESC [ 0 x m makes it grey on black. Nothing is printed and nothing else changes. */
  lemma ShortSequence(p: Page, bracket: bool, c: byte, x: byte, tail: Text)
    requires p.Valid() && 0x30 <= x < 0x38 && (c == 0x30 || c == 0x33 || c == 0x34 || c == 0x39)
    ensures WellFormed(Short(bracket, c, x)) && Complete(Short(bracket, c, x))
    ensures var q := Write(p, Short(bracket, c, x), tail);
            && q == p.(color := q.color)
            && (c == 0x30 ==> q.color == 0x07)
            && (c == 0x33 ==> q.color & 0x0F == (x - 0x30) as color && q.color & 0xF0 == p.color & 0xF0)
            && (c == 0x39 ==> q.color & 0x0F == (x - 0x30 + 8) as color && q.color & 0xF0 == p.color & 0xF0)
            && (c == 0x34 ==> q.color >> 4 == (x - 0x30) as color && q.color & 0x0F == p.color & 0x0F)
  {
    hide Write, WellFormed, Complete, Short;
    AnyShortSequence(p, bracket, c, x, tail);
    ColorNumber(x);
    ColorHalves(p.color, (x - 0x30) as color);
    ColorHalves(p.color, (x - 0x30 + 8) as color);
    assert (x + 0xD0) % 0x100 == x - 0x30 && (x + 0xD8) % 0x100 == x - 0x30 + 8;
  }

  /** ESC [ 1 0 x m sets the background to the bright variant of color x. */
  lemma LongSequence(p: Page, bracket: bool, x: byte, tail: Text)
    requires p.Valid() && 0x30 <= x < 0x38
    ensures WellFormed(Long(bracket, x)) && Complete(Long(bracket, x))
    ensures var q := Write(p, Long(bracket, x), tail);
            && q == p.(color := q.color)
            && q.color >> 4 == (x - 0x30 + 8) as color && q.color & 0x0F == p.color & 0x0F
  {
    hide Write, WellFormed, Complete, Long;
    AnyLongSequence(p, bracket, x, tail);
    ColorNumber(x);
    ColorHalves(p.color, (x - 0x30 + 8) as color);
    assert (x + 0xD8) % 0x100 == x - 0x30 + 8;
  }

  lemma ColorNumber(x: byte)
    requires 0x30 <= x < 0x38
    ensures (x - 0x30) as color < 16 && (x - 0x30 + 8) as color < 16
  {
    assert x == 0x30 || x == 0x31 || x == 0x32 || x == 0x33 || x == 0x34 || x == 0x35 || x == 0x36 || x == 0x37;
  }

  /** The digit is compared as a signed char and has no lower bound: any byte below '0', or from 0x80 on,
      is or-ed into the color as it is. */
  lemma AnyShortSequence(p: Page, bracket: bool, c: byte, d: byte, tail: Text)
    requires p.Valid() && (d < 0x38 || d >= 0x80) && (c == 0x30 || c == 0x33 || c == 0x34 || c == 0x39)
    ensures WellFormed(Short(bracket, c, d)) && Complete(Short(bracket, c, d))
    ensures Write(p, Short(bracket, c, d), tail) ==
            p.(color := if c == 0x30 then 0x07
                        else if c == 0x33 then (p.color & 0xF0) | ((d + 0xD0) % 0x100) as color
                        else if c == 0x39 then (p.color & 0xF0) | ((d + 0xD8) % 0x100) as color
                        else (p.color & 0x0F) | (((d + 0xD0) % 0x100) as color << 4))
  {
    var es := Short(bracket, c, d);
    OneSequence(p, es, tail);
    assert (d - 0x30 + 0) % 256 == (d + 0xD0) % 0x100 && (d - 0x30 + 8) % 256 == (d + 0xD8) % 0x100;
    hide Write, Complete, WellFormed;
  }

  lemma LongIs(bracket: bool, d: byte, k: color, tail: Text)
    requires d != 0x6D
    ensures var es := Long(bracket, d);
            && WellFormedEscape(es) && es[1] != ESC && !ShortForm(es) && EscapeLength(es) == |es| - 1
            && (BelowEight(d) ==> NewColor(k, es) == Background(k, Digit(d, 8)) && Echo(es, tail) == [])
            && (!BelowEight(d) ==> Echo(es, tail) == [0x5E, 0x5B, 0x31, 0x30] + tail + [d, 0x6D])
  {
    hide Background, Digit;
    assert Long(bracket, d)[Parameters(Long(bracket, d)) + 2] == d;
  }

  lemma AnyLongSequence(p: Page, bracket: bool, d: byte, tail: Text)
    requires p.Valid() && (d < 0x38 || d >= 0x80)
    ensures WellFormed(Long(bracket, d)) && Complete(Long(bracket, d))
    ensures Write(p, Long(bracket, d), tail) ==
            p.(color := (p.color & 0x0F) | (((d + 0xD8) % 0x100) as color << 4))
  {
    hide Write, Complete, WellFormed, Long, ShortForm, LongForm, Parameters, EscapeLength, WellFormedEscape, NewColor, Echo;
    LongIs(bracket, d, p.color, tail);
    OneSequence(p, Long(bracket, d), tail);
    assert (d - 0x30 + 8) % 256 == (d + 0xD8) % 0x100;
  }

  /** What sets no color is echoed, with a caret for ESC; `tail` comes in where terminal_writestring prints
      a literal. (The character m in place of the last digit ends the sequence before it.) */
  lemma EchoedSequences(p: Page, bracket: bool, c: byte, d: byte, tail: Text)
    requires p.Valid() && c != 0x1B && (bracket || c != 0x5B)
    ensures WellFormed(Short(bracket, c, d)) && Complete(Short(bracket, c, d))
    ensures 0x38 <= d < 0x80 && (c == 0x33 || c == 0x34 || c == 0x39) ==>
              Write(p, Short(bracket, c, d), tail) == PutAll(p, [0x5E, 0x5B, c] + tail + [d, 0x6D])
    ensures c != 0x30 && c != 0x33 && c != 0x34 && c != 0x39 ==>
              Write(p, Short(bracket, c, d), tail) == PutAll(p, [0x5E, 0x5B] + tail + [c, d, 0x6D])
    ensures 0x38 <= d < 0x80 && d != 0x6D ==>
              && WellFormed(Long(bracket, d)) && Complete(Long(bracket, d))
              && Write(p, Long(bracket, d), tail) == PutAll(p, [0x5E, 0x5B, 0x31, 0x30] + tail + [d, 0x6D])
    ensures Write(p, [0x1B, 0x1B], tail) == PutAll(p, [0x5E, 0x5B, 0x5E, 0x5B] + tail)
  {
    hide PutAll, PutChar, Write, Complete, WellFormed;
    OneEscape(p, Short(bracket, c, d), tail);
    OneEscape(p, [0x1B, 0x1B], tail);
    if 0x38 <= d < 0x80 && d != 0x6D {
      LongIs(bracket, d, p.color, tail);
      OneEscape(p, Long(bracket, d), tail);
    }
  }

  lemma OneEscape(p: Page, es: Text, tail: Text)
    requires p.Valid() && WellFormedEscape(es) && EscapeLength(es) >= |es| - 1
    ensures WellFormed(es) && Write(p, es, tail) == Escape(p, es, tail)
    ensures EscapeLength(es) < |es| ==> Complete(es)
  {
    hide NewColor, Echo;
    assert Rest(es) == [];
  }

  lemma OneSequence(p: Page, es: Text, tail: Text)
    requires p.Valid() && WellFormedEscape(es) && EscapeLength(es) == |es| - 1 && Echo(es, tail) == []
    ensures WellFormed(es) && Complete(es) && Write(p, es, tail) == p.(color := NewColor(p.color, es))
  {
    hide NewColor, Echo;
    OneEscape(p, es, tail);
  }

  /** The text ends where the loop ends. After ESC ESC the character that follows is skipped, so
      a text that ends in that pair is not complete. */
  predicate Complete(s: Text)
    requires WellFormed(s)
    decreases |s|
  {
    s == [] || ((s[0] == ESC ==> EscapeLength(s) < |s|) && Complete(Rest(s)))
  }

  /** Writing a text in two parts is writing it whole, when the first part is complete. */
  lemma {:induction false} WriteConcat(p: Page, a: Text, b: Text, tail: Text)
    requires p.Valid() && WellFormed(a) && Complete(a) && WellFormed(b)
    ensures WellFormed(a + b) && Write(p, a + b, tail) == Write(Write(p, a, tail), b, tail)
    decreases |a|
  {
    if a == [] {
      assert a + b == b;
    } else {
      StepConcat(p, a, b, tail);
      WriteConcat(Step(p, a, tail), Rest(a), b, tail);
    }
  }

  lemma StepConcat(p: Page, a: Text, b: Text, tail: Text)
    requires p.Valid() && a != [] && StepOk(a) && (a[0] == ESC ==> EscapeLength(a) < |a|)
    ensures a + b != [] && StepOk(a + b) && Rest(a + b) == Rest(a) + b
    ensures Step(p, a + b, tail) == Step(p, a, tail)
  {
    hide PutChar, PutAll, Tab, NextRow;
    var c := a + b;
    assert c[0] == a[0];
    if a[0] == ESC {
      SameEscape(a, b, p.color, tail);
      assert c[EscapeLength(a) + 1..] == a[EscapeLength(a) + 1..] + b;
    } else {
      assert c[1..] == a[1..] + b;
    }
  }

  lemma SameForm(a: Text, b: Text)
    requires WellFormedEscape(a)
    ensures WellFormedEscape(a + b) && (a + b)[1] == a[1]
    ensures Parameters(a + b) == Parameters(a) && EscapeLength(a + b) == EscapeLength(a)
    ensures a[1] != ESC ==> ShortForm(a + b) == ShortForm(a)
  {
    var c := a + b;
    assert c[0] == a[0] && c[1] == a[1];
    if a[1] != ESC {
      var p := Parameters(a);
      assert c[p] == a[p] && c[p + 1] == a[p + 1] && c[p + 2] == a[p + 2];
      if LongForm(a) {
        assert c[p + 3] == a[p + 3];
      }
    }
  }

  lemma SameEscape(a: Text, b: Text, k: color, tail: Text)
    requires WellFormedEscape(a)
    ensures WellFormedEscape(a + b) && EscapeLength(a + b) == EscapeLength(a)
    ensures NewColor(k, a + b) == NewColor(k, a) && Echo(a + b, tail) == Echo(a, tail)
  {
    SameForm(a, b);
    hide Digit, Foreground, Background, BelowEight, EscapeLength, WellFormedEscape;
    if a[1] != ESC {
      var p := Parameters(a);
      assert (a + b)[p] == a[p] && (a + b)[p + 1] == a[p + 1] && (a + b)[p + 2] == a[p + 2];
    }
  }

  /** An incomplete text swallows the next character, whatever it is. */
  lemma {:induction false} IncompleteSwallows(p: Page, a: Text, c: byte, tail: Text)
    requires p.Valid() && WellFormed(a) && !Complete(a)
    ensures WellFormed(a + [c]) && Write(p, a + [c], tail) == Write(p, a, tail)
    decreases |a|
  {
    hide PutChar, PutAll, Tab, NextRow, NewColor, Echo;
    if a[0] == ESC && EscapeLength(a) == |a| {
      SameEscape(a, [c], p.color, tail);
      assert (a + [c])[0] == ESC;
      assert Rest(a + [c]) == [] && Rest(a) == [];
    } else {
      StepConcat(p, a, [c], tail);
      IncompleteSwallows(Step(p, a, tail), Rest(a), c, tail);
    }
  }

  /** So a text can be continued, already by a space, exactly when it is complete. */
  lemma CompleteIff(p: Page, a: Text, tail: Text)
    requires p.Valid() && WellFormed(a)
    ensures Complete(a) <==>
            WellFormed(a + [SPACE]) && Write(p, a + [SPACE], tail) == Write(Write(p, a, tail), [SPACE], tail)
  {
    hide Step, Complete, Cell;
    var q := Write(p, a, tail);
    WritePlain(q, [SPACE], tail);
    PutAllIs(q, [SPACE]);
    if Complete(a) {
      WriteConcat(p, a, [SPACE], tail);
    } else {
      IncompleteSwallows(p, a, SPACE, tail);
    }
  }

  /** The shortest incomplete text. */
  lemma EscapePairSwallows(p: Page, c: byte, tail: Text)
    requires p.Valid()
    ensures WellFormed([ESC, ESC]) && !Complete([ESC, ESC]) && WellFormed([ESC, ESC, c])
    ensures Write(p, [ESC, ESC, c], tail) == Write(p, [ESC, ESC], tail)
  {
    assert Rest([ESC, ESC]) == [] && Rest([ESC, ESC, c]) == [];
  }

  // ---------------------------------------------------------------- lines

  /** Lines of text with a newline after each but the last. */
  function Joined(lines: seq<Text>): Text {
    if lines == [] then []
    else if |lines| == 1 then lines[0]
    else lines[0] + ([NEWLINE] + Joined(lines[1..]))
  }

  ghost predicate PlainLines(lines: seq<Text>) {
    lines != [] && forall i :: 0 <= i < |lines| ==> Plain(lines[i])
  }

  /** How many rows the first `i` lines take: one more than they fill. A line of exactly 80 characters
      leaves an empty row behind it. */
  function RowsAbove(lines: seq<Text>, i: nat): nat
    requires i <= |lines|
  {
    if i == 0 then 0 else |lines[0]| / WIDTH + 1 + RowsAbove(lines[1..], i - 1)
  }

  lemma {:induction false} PlainComplete(s: Text)
    requires Plain(s)
    ensures WellFormed(s) && Complete(s)
    decreases |s|
  {
    if s != [] {
      assert Rest(s) == s[1..];
      PlainComplete(s[1..]);
    }
  }

  /** The page at the start of the second line. */
  function SecondLine(p: Page, line: Text): (q: Page)
    requires p.Valid() && p.column == 0
    ensures q.Valid() && q.column == 0
  {
    NextRow(PutAll(p, line))
  }

  lemma SecondLineIs(p: Page, line: Text, k: nat)
    requires p.Valid() && p.column == 0
    ensures var q := SecondLine(p, line);
            && q.row == p.row + |line| / WIDTH + 1 && q.color == p.color
            && Grows(p, q) && q.Position() >= p.Position() + |line|
            && (k < |line| ==> q.cells[..q.Position()][p.Position() + k] == Cell(line[k], p.color))
  {
    hide Cell;
    PutAllIs(p, line);
  }

  lemma {:induction false} WriteLine(p: Page, lines: seq<Text>, tail: Text)
    requires p.Valid() && p.column == 0 && PlainLines(lines) && |lines| > 1
    requires WellFormed(Joined(lines[1..]))
    ensures WellFormed(Joined(lines))
    ensures Write(p, Joined(lines), tail) == Write(SecondLine(p, lines[0]), Joined(lines[1..]), tail)
  {
    hide PutChar, PutAll, NextRow, Joined;
    var rest := [NEWLINE] + Joined(lines[1..]);
    assert rest[1..] == Joined(lines[1..]) && StepOk(rest) && Rest(rest) == rest[1..];
    PlainComplete(lines[0]);
    WritePlain(p, lines[0], tail);
    WriteConcat(p, lines[0], rest, tail);
    JoinedLines(lines);
  }

  lemma JoinedLines(lines: seq<Text>)
    requires |lines| > 1
    ensures Joined(lines) == lines[0] + ([NEWLINE] + Joined(lines[1..]))
  {
  }

  /** Where line `i` begins. */
  function LineStart(p: Page, lines: seq<Text>, i: nat): nat
    requires i <= |lines|
  {
    WIDTH * (p.row + RowsAbove(lines, i))
  }

  lemma LineStarts(p: Page, q: Page, lines: seq<Text>, i: nat)
    requires p.column == 0 && i < |lines| && q.row == p.row + |lines[0]| / WIDTH + 1
    ensures LineStart(p, lines, 0) == p.Position()
    ensures i > 0 ==> LineStart(q, lines[1..], i - 1) == LineStart(p, lines, i)
  {
  }

  /** After lines of text the cursor stands behind the last one. */
  lemma {:induction false} LinesCursor(p: Page, lines: seq<Text>, tail: Text)
    requires p.Valid() && p.column == 0 && PlainLines(lines)
    ensures WellFormed(Joined(lines))
    ensures var q, last := Write(p, Joined(lines), tail), |lines| - 1;
            Grows(p, q) && q.Position() == LineStart(p, lines, last) + |lines[last]|
    decreases |lines|
  {
    hide Cell, Joined, Write, WellFormed, SecondLine, Plain, Grows, LineStart, RowsAbove;
    if |lines| == 1 {
      OneLine(p, lines, tail, 0);
    } else {
      var m := SecondLine(p, lines[0]);
      SecondLineIs(p, lines[0], 0);
      LinesCursor(m, lines[1..], tail);
      LineStarts(p, m, lines, |lines| - 1);
      WriteLine(p, lines, tail);
      GrowsTwice(p, m, Write(p, Joined(lines), tail));
    }
  }

  /** Character `k` of line `i` is `k` cells behind the start of the row that its line begins, across
      all wraps and scrolls. */
  lemma {:induction false} LinesWritten(p: Page, lines: seq<Text>, tail: Text, i: nat, k: nat)
    requires p.Valid() && p.column == 0 && PlainLines(lines) && i < |lines| && k < |lines[i]|
    ensures WellFormed(Joined(lines))
    ensures var q, a := Write(p, Joined(lines), tail), LineStart(p, lines, i) + k;
            a < |q.cells| && q.cells[a] == Cell(lines[i][k], p.color)
    decreases |lines|
  {
    hide Cell, Joined, Write, WellFormed, SecondLine, Plain, Grows, LineStart, RowsAbove;
    if |lines| == 1 {
      OneLine(p, lines, tail, k);
    } else {
      var m, rest := SecondLine(p, lines[0]), lines[1..];
      SecondLineIs(p, lines[0], k);
      LinesCursor(m, rest, tail);
      WriteLine(p, lines, tail);
      LineStarts(p, m, lines, i);
      if i == 0 {
        OldCell(m, Write(p, Joined(lines), tail), p.Position() + k);
      } else {
        LinesWritten(m, rest, tail, i - 1, k);
      }
    }
  }

  lemma OneLine(p: Page, lines: seq<Text>, tail: Text, k: nat)
    requires p.Valid() && p.column == 0 && |lines| == 1 && Plain(lines[0])
    ensures WellFormed(Joined(lines))
    ensures var q, a := Write(p, Joined(lines), tail), LineStart(p, lines, 0) + k;
            && Grows(p, q) && q.Position() == LineStart(p, lines, 0) + |lines[0]|
            && (k < |lines[0]| ==> a < |q.cells| && q.cells[a] == Cell(lines[0][k], p.color))
  {
    hide Cell, PutAll, PutChar, Write, WellFormed;
    WritePlain(p, lines[0], tail);
    PutAllIs(p, lines[0]);
  }

  lemma OldCell(p: Page, q: Page, a: nat)
    requires p.Valid() && q.Valid() && Grows(p, q) && a < p.Position()
    ensures a < |q.cells| && q.cells[a] == p.cells[..p.Position()][a]
  {
  }

  /** The screen after lines of console text. */
  lemma LinesScreen(lines: seq<Text>, tail: Text, i: nat, k: nat)
    requires PlainLines(lines) && i < |lines|
    ensures WellFormed(Joined(lines))
    ensures var q, last := Write(Initial(), Joined(lines), tail), |lines| - 1;
            && q.Valid() && q.row == RowsAbove(lines, last) + |lines[last]| / WIDTH && q.column == |lines[last]| % WIDTH
            && q.Scrolls() == (if q.row < HEIGHT then 0 else q.row - HEIGHT + 1)
            && (k < |lines[i]| ==>
                  var a := WIDTH * RowsAbove(lines, i) + k;
                  a < |q.cells| && q.cells[a] == Cell(lines[i][k], 0x07))
  {
    hide Cell, Write, WellFormed, Joined, Grows, RowsAbove;
    LinesCursor(Initial(), lines, tail);
    if k < |lines[i]| {
      LinesWritten(Initial(), lines, tail, i, k);
    }
  }
}
