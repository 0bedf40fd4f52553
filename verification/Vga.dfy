/** The text terminal of kernel/dev/vga.c: a screen buffer and a cursor updated in place. */
module Vga {
  import opened Words
  import opened Libc
  import opened VgaModel

  class Terminal {
    /** `vga_buffer`. */
    const buffer: array<int>
    var x: nat
    var y: nat
    var color: Byte

    ghost function State(): Screen
      reads this, buffer
    {
      Screen(buffer[..], x, y, color)
    }

    /** A screen at the origin in grey on black, its memory as it was found: it shows the empty log over that. */
    constructor (buffer: array<int>)
      requires buffer.Length == COLUMNS * ROWS
      ensures this.buffer == buffer && State() == Screen(buffer[..], 0, 0, 0x07)
      ensures ShowsOver(State(), EMPTY, buffer[..])
    {
      this.buffer := buffer;
      x, y, color := 0, 0, 0x07;
      new;
      FoundShowsEmpty(State());
    }

    /** `vga_clear`. */
    method ClearScreen()
      requires buffer.Length == COLUMNS * ROWS
      modifies buffer
      ensures State() == Clear(old(State()))
    {
      for i := 0 to COLUMNS * ROWS
        invariant forall k :: 0 <= k < i ==> buffer[k] == Blank(color)
      {
        buffer[i] := Blank(color);
      }
      assert buffer[..] == Clear(old(State())).cells;
    }

    /** `vga_scroll`. */
    method ScrollUp()
      requires buffer.Length == COLUMNS * ROWS && 0 < y
      modifies this`y, buffer
      ensures State() == Scroll(old(State()))
    {
      for i := 0 to COLUMNS * (ROWS - 1)
        invariant y == old(y) && forall k :: 0 <= k < i ==> buffer[k] == old(buffer[k + COLUMNS])
        invariant forall k :: i <= k < buffer.Length ==> buffer[k] == old(buffer[k])
      {
        buffer[i] := buffer[i + COLUMNS];
      }
      for i := 0 to COLUMNS
        invariant y == old(y) && forall k :: 0 <= k < COLUMNS * (ROWS - 1) ==> buffer[k] == old(buffer[k + COLUMNS])
        invariant forall k :: COLUMNS * (ROWS - 1) <= k < COLUMNS * (ROWS - 1) + i ==> buffer[k] == Blank(color)
      {
        buffer[COLUMNS * (ROWS - 1) + i] := Blank(color);
      }
      y := y - 1;
      assert buffer[..] == Scroll(old(State())).cells;
    }

    /** The end of `vga_putchar`: wrap at the right edge, scroll at the bottom. */
    method WrapAndScroll()
      requires buffer.Length == COLUMNS * ROWS && x <= COLUMNS && y < ROWS
      modifies this`x, this`y, buffer
      ensures State() == Settle(old(State()))
    {
      if x >= COLUMNS {
        x := 0;
        y := y + 1;
      }
      if y >= ROWS {
        ScrollUp();
      }
    }

    /** `vga_putchar`. */
    method PutCharacter(c: Byte)
      requires InBounds(State()) && CanPut(State(), c)
      modifies this`x, this`y, buffer
      ensures State() == PutChar(old(State()), c)
      decreases if c == TAB then 2 else 0
    {
      if c == NEWLINE {
        x := COLUMNS;
      } else if c == BACKSPACE {
        if x == 0 {
          x := COLUMNS - 1;
          y := y - 1;
        } else {
          x := x - 1;
        }
        buffer[y * COLUMNS + x] := Blank(color);
      } else if c == TAB {
        PutSpaces();
      } else {
        buffer[y * COLUMNS + x] := Cell(color, c);
        x := x + 1;
      }
      WrapAndScroll();
    }

    /** `vga_puts("    ")`. */
    method PutSpaces()
      requires InBounds(State())
      modifies this`x, this`y, buffer
      ensures State() == Draw(Draw(Draw(Draw(old(State()), SPACE), SPACE), SPACE), SPACE)
      decreases 1
    {
      PutCharacter(SPACE);
      PutCharacter(SPACE);
      PutCharacter(SPACE);
      PutCharacter(SPACE);
    }

    /** The digits before the 'm' of a colour escape, copied into a zeroed buffer of four, and their value. */
    method ReadCode(body: seq<Byte>) returns (m: nat, code: int)
      requires ColorEscapeEnds(body)
      ensures m == FindM(body) && code == Value(body[..m], 0)
    {
      m := 0;
      var buf: seq<Byte> := [];
      while body[m] != LETTER_M
        invariant m <= FindM(body) && buf == body[..m]
        decreases FindM(body) - m
      {
        buf := buf + [body[m]];
        m := m + 1;
      }
      FirstM(body, m);
      ValueStops(buf, 0);
      code := Atoi(buf + [0]);
    }

    /** One turn of `vga_puts` at an escape: what is left of the string after it. */
    method PutEscape(str: seq<Byte>) returns (rest: seq<Byte>)
      requires InBounds(State()) && StartsEscape(str) && Printable(State(), str)
      modifies this, buffer
      ensures InBounds(State()) && |rest| < |str| && Printable(State(), rest)
      ensures Puts(State(), rest) == Puts(old(State()), str)
    {
      var body := str[2..];
      if |body| >= 2 && body[0] == 50 && body[1] == 74 {
        ClearScreen();
        return body[2..];
      }
      if |body| >= 1 && body[0] == 72 {
        x, y := 0, 0;
        return body[1..];
      }
      var m, code := ReadCode(body);
      color := Recolor(color, code);
      PutCharacter(body[m + 1]);
      return body[m + 2..];
    }

    /** `vga_puts`; `left` is what the moving pointer still has before it. */
    method PutString(str: seq<Byte>)
      requires InBounds(State()) && Printable(State(), str)
      modifies this, buffer
      ensures State() == Puts(old(State()), str)
    {
      var left := str;
      ghost var goal := Puts(State(), str);
      while left != []
        invariant InBounds(State()) && Printable(State(), left) && Puts(State(), left) == goal
        decreases |left|
      {
        if StartsEscape(left) {
          left := PutEscape(left);
        } else {
          PutCharacter(left[0]);
          left := left[1..];
        }
      }
    }
  }

  lemma {:induction false} FirstM(body: seq<Byte>, m: nat)
    requires m <= FindM(body) && m < |body| && body[m] == LETTER_M
    ensures m == FindM(body)
  {
  }
}
