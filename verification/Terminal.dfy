/** tty.c: the 80x25 text buffer, which shows the last 25 rows of the transcript. */
module Terminal {
  import opened LittleEndian
  import opened Transcript

  /** The screenful that starts at the number of scrolls so far. */
  ghost function Window(p: Page): (w: seq<cell>)
    requires p.Valid()
    ensures |w| == WIDTH * HEIGHT
  {
    p.cells[WIDTH * p.Scrolls()..WIDTH * p.Scrolls() + WIDTH * HEIGHT]
  }

  lemma WindowPut(p: Page, at: nat, c: cell)
    requires p.Valid() && WIDTH * p.Scrolls() <= at < |p.cells|
    ensures var q := p.(cells := p.cells[at := c]);
            q.Valid() && Window(q) == Window(p)[at - WIDTH * p.Scrolls() := c]
  {
  }

  lemma WindowScroll(p: Page)
    requires p.Valid() && WIDTH * (p.row + 1) == |p.cells|
    ensures NextRow(p).Scrolls() == p.Scrolls() + 1
    ensures Window(NextRow(p)) == Window(p)[WIDTH..] + Blanks(WIDTH)
  {
    hide Cell;
    var q, n := NextRow(p), WIDTH * p.Scrolls();
    assert q.cells == p.cells + Blanks(WIDTH) && |p.cells| == n + WIDTH * HEIGHT;
    assert q.cells[n + WIDTH..n + WIDTH + WIDTH * HEIGHT] == p.cells[n + WIDTH..] + Blanks(WIDTH);
    assert Window(p)[WIDTH..] == p.cells[n + WIDTH..];
  }

  class Screen {
    var row: nat
    var column: nat
    var color: color
    const buffer: array<cell>
    /** What terminal_writestring prints after each string; see `Transcript.Echo`. */
    const tail: Text
    ghost var script: Page

    ghost predicate Valid()
      reads this, buffer
    {
      && buffer.Length == WIDTH * HEIGHT && (tail == [] || tail == [0])
      && script.Valid()
      && row < HEIGHT && row + script.Scrolls() == script.row
      && column == script.column && color == script.color
      && buffer[..] == Window(script)
    }

    /** initialize_terminal */
    constructor (t: Text)
      requires t == [] || t == [0]
      ensures Valid() && script == Initial() && tail == t && fresh(buffer)
      ensures row == column == 0 && color == 0x07 && forall k :: 0 <= k < 2000 ==> buffer[k] == 0x0700
    {
      row, column, color := 0, 0, GREY_ON_BLACK;
      buffer := new cell[WIDTH * HEIGHT](_ => Cell(0, GREY_ON_BLACK));
      tail := t;
      script := Initial();
      new;
      BlankIs();
      assert buffer[..] == Window(script);
    }

    /** terminal_scroll moves the rows up in place, one cell after another. */
    method Scroll()
      requires buffer.Length == WIDTH * HEIGHT && row > 0
      modifies this`row, buffer
      ensures row == old(row) - 1
      ensures buffer[..] == old(buffer[..])[WIDTH..] + Blanks(WIDTH)
      ensures forall k :: 1920 <= k < 2000 ==> buffer[k] == 0x0720
    {
      BlankIs();
      var i := 0;
      while i < WIDTH * (HEIGHT - 1)
        invariant 0 <= i <= WIDTH * (HEIGHT - 1) && row == old(row)
        invariant forall k :: 0 <= k < i ==> buffer[k] == old(buffer[k + WIDTH])
        invariant forall k :: i <= k < buffer.Length ==> buffer[k] == old(buffer[k])
      {
        buffer[i] := buffer[i + WIDTH];
        i := i + 1;
      }
      while i < WIDTH * HEIGHT
        invariant WIDTH * (HEIGHT - 1) <= i <= WIDTH * HEIGHT && row == old(row)
        invariant forall k :: 0 <= k < WIDTH * (HEIGHT - 1) ==> buffer[k] == old(buffer[k + WIDTH])
        invariant forall k :: WIDTH * (HEIGHT - 1) <= k < i ==> buffer[k] == BLANK
      {
        buffer[i] := BLANK;
        i := i + 1;
      }
      row := row - 1;
    }

    /** The end of a row, reached by a newline or by the last column. */
    method NextLine()
      requires Valid()
      modifies this`row, this`column, this`script, buffer
      ensures Valid() && script == NextRow(old(script))
    {
      hide Cell;
      ghost var p := script;
      if WIDTH * (p.row + 1) == |p.cells| {
        WindowScroll(p);
      }
      script := NextRow(p);
      column := 0;
      row := row + 1;
      if row == HEIGHT {
        Scroll();
      }
    }

    method PutChar(c: byte)
      requires Valid()
      modifies this`row, this`column, this`script, buffer
      ensures Valid() && script == Transcript.PutChar(old(script), c)
    {
      hide Cell;
      ghost var p := script;
      buffer[row * WIDTH + column] := Cell(c, color);
      WindowPut(p, p.Position(), Cell(c, color));
      assert buffer[..] == Window(p)[row * WIDTH + column := Cell(c, color)];
      script := p.(cells := p.cells[p.Position() := Cell(c, color)]);
      if column + 1 == WIDTH {
        NextLine();
      } else {
        column := column + 1;
        script := script.(column := column);
      }
    }

    /** terminal_write */
    method Write(data: Text)
      requires Valid() && WellFormed(data)
      modifies this, buffer
      ensures Valid() && script == Transcript.Write(old(script), data, tail)
      decreases if Plain(data) then 0 else 2, 0
    {
      hide Cell, Transcript.PutChar, NextRow, Window;
      var i := 0;
      ghost var s := data;
      while i < |data|
        invariant Valid() && WellFormed(s) && 0 <= i
        invariant s == if i < |data| then data[i..] else []
        invariant Transcript.Write(script, s, tail) == Transcript.Write(old(script), data, tail)
      {
        assert s[0] == data[i];
        ghost var rest := Rest(s);
        if data[i] == NEWLINE {
          NextLine();
        } else if data[i] == TAB {
          PutTab();
        } else if data[i] == ESC {
          var n := EscapeSequence(data[i..]);
          i := i + n;
        } else {
          PutChar(data[i]);
        }
        i := i + 1;
        s := rest;
      }
    }

    /** The tab loop of terminal_write, whose bound moves with the column. */
    method PutTab()
      requires Valid()
      modifies this`row, this`column, this`script, buffer
      ensures Valid() && script == Tab(old(script), 0)
    {
      hide Cell, Transcript.PutChar, Window;
      var i := 0;
      while i < 4 - column % 4
        invariant Valid() && 0 <= i <= 4
        invariant Tab(script, i) == Tab(old(script), 0)
        decreases 4 - i
      {
        i := i + 1;
        PutChar(SPACE);
      }
    }

    /** terminal_writestring of a literal */
    method WriteString(data: Text)
      requires Valid() && Plain(data)
      modifies this, buffer
      ensures Valid() && script == PutAll(old(script), data + tail)
      decreases 0, 1
    {
      WritePlain(script, data + tail, tail);
      Write(data + tail);
    }

    /** The echo of a color out of range: a literal, then characters. */
    method EchoBack(literal: Text, rest: Text)
      requires Valid() && Plain(literal)
      modifies this, buffer
      ensures Valid() && script == PutAll(old(script), literal + tail + rest)
      decreases 0, 2
    {
      hide Cell, Transcript.PutChar, Window;
      PutAllConcat(script, literal + tail, rest);
      WriteString(literal);
      var i := 0;
      while i < |rest|
        invariant Valid() && 0 <= i <= |rest|
        invariant PutAll(script, rest[i..]) == PutAll(old(script), literal + tail + rest)
      {
        assert rest[i..][1..] == rest[i + 1..];
        PutChar(rest[i]);
        i := i + 1;
      }
    }

    /** terminal_escape_sequence, on a sequence it returns from. */
    method EscapeSequence(es: Text) returns (n: nat)
      requires Valid() && WellFormedEscape(es)
      modifies this, buffer
      ensures Valid() && script == Escape(old(script), es, tail) && n == EscapeLength(es)
      decreases 1, 0
    {
      hide Cell, Transcript.PutChar, Window, Digit, Foreground, Background, BelowEight;
      if es[1] == ESC {
        EchoBack([CARET, BRACKET, CARET, BRACKET], []);
        assert [CARET, BRACKET, CARET, BRACKET] + tail + [] == [CARET, BRACKET, CARET, BRACKET] + tail;
        return 2;
      }
      var p := if es[1] == BRACKET then 2 else 1;
      if p + 2 < |es| && es[p + 2] == LETTER_M {
        var c, d := es[p], es[p + 1];
        if c == 0x30 {
          SetColor(GREY_ON_BLACK);
        } else if c == 0x33 {
          if BelowEight(d) {
            SetColor(Foreground(color, Digit(d, 0)));
          } else {
            EchoBack([CARET, BRACKET, 0x33], [d, LETTER_M]);
          }
        } else if c == 0x39 {
          if BelowEight(d) {
            SetColor(Foreground(color, Digit(d, 8)));
          } else {
            EchoBack([CARET, BRACKET, 0x39], [d, LETTER_M]);
          }
        } else if c == 0x34 {
          if BelowEight(d) {
            SetColor(Background(color, Digit(d, 0)));
          } else {
            EchoBack([CARET, BRACKET, 0x34], [d, LETTER_M]);
          }
        } else {
          EchoBack([CARET, BRACKET], [c, d, LETTER_M]);
        }
        return p + 2;
      } else {
        var d := es[p + 2];
        if BelowEight(d) {
          SetColor(Background(color, Digit(d, 8)));
        } else {
          EchoBack([CARET, BRACKET, 0x31, 0x30], [d, LETTER_M]);
        }
        return p + 3;
      }
    }

    method SetColor(k: color)
      requires Valid()
      modifies this`color, this`script
      ensures Valid() && script == old(script).(color := k)
    {
      color := k;
      script := script.(color := k);
    }
  }
}
