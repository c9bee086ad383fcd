/** strlen, and the way from printf through putchar to the screen. */
module Console {
  import opened LittleEndian
  import T = Transcript
  import opened Terminal
  import Digits
  import Printf

  /** The length of the string at `s`: the bytes before its first zero byte (section 7.24.6.3 of
      ISO C11). */
  ghost predicate IsLength(m: seq<byte>, s: nat, n: nat) {
    s + n < |m| && m[s + n] == 0 && forall k :: s <= k < s + n ==> m[k] != 0
  }

  /** strlen as written: the pointer has passed the terminator when the loop ends, so the result
      is one more than the length of every string. */
  method Strlen(m: seq<byte>, s: nat, ghost n: nat) returns (r: nat)
    requires IsLength(m, s, n)
    ensures r == n + 1 && !IsLength(m, s, r)
  {
    var s2 := s;
    while m[s2] != 0
      invariant s <= s2 <= s + n
      decreases s + n - s2
    {
      s2 := s2 + 1;
    }
    s2 := s2 + 1;
    r := s2 - s;
  }

  /** terminal_writehex */
  method WriteHex(screen: Screen, data: nat)
    requires screen.Valid() && data < 0x1_0000_0000
    modifies screen, screen.buffer
    ensures screen.Valid()
    ensures screen.script == T.PutAll(old(screen.script), Digits.Numeral(data, 16) + screen.tail)
  {
    hide T.PutChar, T.Cell, Window;
    var str, p := Digits.HexDigits(data);
    Digits.NumeralValue(data, 16);
    assert str[p..16] == Digits.Numeral(data, 16);
    forall i | 0 <= i < |Digits.Numeral(data, 16)|
      ensures 0x30 <= Digits.Numeral(data, 16)[i]
    {
      assert Digits.IsDigit(Digits.Numeral(data, 16)[i], 16);
    }
    T.WritePlain(screen.script, str[p..16] + screen.tail, screen.tail);
    screen.Write(str[p..16] + screen.tail);
  }

  /** Text that putchar can pass on a byte at a time: an escape sequence would be cut short, and a
      carriage return never ends. */
  predicate Printable(s: Digits.Text) {
    forall i :: 0 <= i < |s| ==> s[i] != T.ESC && s[i] != 0x0D
  }

  lemma {:induction false} PrintableIsWellFormed(s: Digits.Text)
    requires Printable(s)
    ensures T.WellFormed(s) && T.Complete(s)
    decreases |s|
  {
    if s != [] {
      PrintableIsWellFormed(s[1..]);
    }
  }

  /** print: each byte goes through putchar, which writes a text of length one. The screen ends up
      as if the text had been written whole. */
  method Print(screen: Screen, data: Digits.Text)
    requires screen.Valid() && Printable(data)
    modifies screen, screen.buffer
    ensures T.WellFormed(data) && screen.Valid()
    ensures screen.script == T.Write(old(screen.script), data, screen.tail)
  {
    PrintableIsWellFormed(data);
    hide T.PutChar, T.Cell, Window, T.Step;
    for i := 0 to |data|
      invariant screen.Valid() && T.WellFormed(data[..i])
      invariant screen.script == T.Write(old(screen.script), data[..i], screen.tail)
    {
      PrintableIsWellFormed([data[i]]);
      PrintableIsWellFormed(data[..i]);
      T.WriteConcat(old(screen.script), data[..i], [data[i]], screen.tail);
      assert data[..i] + [data[i]] == data[..i + 1];
      screen.Write([data[i]]);
    }
    assert data[..|data|] == data;
  }

  /** printf on the kernel console, for formats and arguments that print no escape character. */
  method PrintfToScreen(screen: Screen, format: Digits.Text, parameters: seq<Printf.Arg>) returns (written: nat)
    requires screen.Valid() && Printf.Render(format, false, parameters, screen.tail).Rendered?
    requires Printable(Printf.Render(format, false, parameters, screen.tail).out)
    modifies screen, screen.buffer
    ensures var r := Printf.Render(format, false, parameters, screen.tail);
            && T.WellFormed(r.out) && screen.Valid() && written == r.written
            && screen.script == T.Write(old(screen.script), r.out, screen.tail)
  {
    var out;
    out, written := Printf.Printf(format, parameters, screen.tail);
    Print(screen, out);
  }
}
