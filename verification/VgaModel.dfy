/** The text terminal of kernel/dev/vga.c on values: a screen, what prints on it, and the unbounded log it shows. */
module VgaModel {
  import opened Words
  import opened Libc

  const COLUMNS := 80
  const ROWS := 25

  const NEWLINE: Byte := 10
  const BACKSPACE: Byte := 8
  const TAB: Byte := 9
  const ESC: Byte := 27
  const BRACKET: Byte := 91 // '['
  const LETTER_M: Byte := 109 // 'm'

  /** `vga_buffer` as 16-bit cells, the cursor and the current colour. */
  datatype Screen = Screen(cells: seq<int>, x: nat, y: nat, color: Byte)

  /** `(vga_color << 8) | c`: a `char` is signed, so a byte above 127 fills the colour half with ones. */
  function Cell(color: Byte, c: Byte): int {
    if c < 128 then color * 256 + c else 0xFF00 + c
  }

  function Blank(color: Byte): int { color * 256 }

  predicate InBounds(s: Screen) {
    |s.cells| == COLUMNS * ROWS && s.x < COLUMNS && s.y < ROWS
  }

  // ---------- vga_scroll, vga_putchar ----------

  /** `vga_scroll`. */
  function Scroll(s: Screen): Screen
    requires |s.cells| == COLUMNS * ROWS && 0 < s.y
  {
    s.(cells := s.cells[COLUMNS..] + seq(COLUMNS, _ => Blank(s.color)), y := s.y - 1)
  }

  /** The wrap and scroll tests at the end of `vga_putchar`. */
  function Settle(s: Screen): (r: Screen)
    requires |s.cells| == COLUMNS * ROWS && s.x <= COLUMNS && s.y < ROWS
    ensures InBounds(r) && r.color == s.color
  {
    var s1 := if s.x >= COLUMNS then s.(x := 0, y := s.y + 1) else s;
    if s1.y >= ROWS then Scroll(s1) else s1
  }

  /** A character that is simply drawn. */
  function Draw(s: Screen, c: Byte): (r: Screen)
    requires InBounds(s)
    ensures InBounds(r) && r.color == s.color
  {
    Settle(s.(cells := s.cells[s.y * COLUMNS + s.x := Cell(s.color, c)], x := s.x + 1))
  }

  /** A backspace must not be printed in the top left corner, where `vga_y` would underflow. */
  predicate CanPut(s: Screen, c: Byte) {
    c == BACKSPACE ==> s.x > 0 || s.y > 0
  }

  /** `vga_putchar`. */
  function PutChar(s: Screen, c: Byte): (r: Screen)
    requires InBounds(s) && CanPut(s, c)
    ensures InBounds(r) && r.color == s.color
  {
    if c == NEWLINE then Settle(s.(x := COLUMNS))
    else if c == BACKSPACE then
      var back := if s.x == 0 then s.(x := COLUMNS - 1, y := s.y - 1) else s.(x := s.x - 1);
      Settle(back.(cells := s.cells[back.y * COLUMNS + back.x := Blank(s.color)]))
    else if c == TAB then Settle(Draw(Draw(Draw(Draw(s, SPACE), SPACE), SPACE), SPACE))
    else Draw(s, c)
  }

  // ---------- vga_puts and its escapes ----------

  /** `ansi_to_vga`. */
  function AnsiToVga(ansi: int): Byte {
    var table: seq<Byte> := [0x00, 0x04, 0x02, 0x06, 0x01, 0x05, 0x03, 0x07,
                             0x08, 0x0C, 0x0A, 0x0E, 0x09, 0x0D, 0x0B, 0x0F];
    if 30 <= ansi <= 37 then table[ansi - 30]
    else if 40 <= ansi <= 47 then table[ansi - 40]
    else if 90 <= ansi <= 97 then table[ansi - 82]
    else if 100 <= ansi <= 107 then table[ansi - 92]
    else 0
  }

  /** The colour after an escape with this code. */
  function Recolor(color: Byte, code: int): Byte {
    if code == 0 then 0x07
    else if 30 <= code <= 37 || 90 <= code <= 97 then color / 16 * 16 + AnsiToVga(code) % 16
    else if 40 <= code <= 47 || 100 <= code <= 107 then color % 16 + AnsiToVga(code) / 16 * 16
    else color
  }

  /** A background escape sets the background asked for only for black: the table has no entry above 15. */
  lemma BackgroundIsBlackIff(color: Byte, code: int)
    requires 40 <= code <= 47 || 100 <= code <= 107
    ensures Recolor(color, code) == color % 16
    ensures Recolor(color, code) / 16 == AnsiToVga(code) <==> code == 40
  {
  }

  function Clear(s: Screen): Screen
    requires |s.cells| == COLUMNS * ROWS
  {
    s.(cells := seq(COLUMNS * ROWS, _ => Blank(s.color)))
  }

  predicate StartsEscape(str: seq<Byte>) {
    |str| >= 2 && str[0] == ESC && str[1] == BRACKET
  }

  /** The position of the first 'm', or the length if there is none. */
  function FindM(str: seq<Byte>): (n: nat)
    ensures n <= |str| && (n < |str| ==> str[n] == LETTER_M) && forall i :: 0 <= i < n ==> str[i] != LETTER_M
  {
    if str == [] || str[0] == LETTER_M then 0 else 1 + FindM(str[1..])
  }

  /** A colour escape ends in an 'm' within the four-byte buffer, and a character follows it. */
  predicate ColorEscapeEnds(body: seq<Byte>) {
    FindM(body) < 4 && FindM(body) + 1 < |body|
  }

  /** What `vga_puts` needs of a string: escapes complete, no backspace in the top left corner. */
  predicate Printable(s: Screen, str: seq<Byte>)
    requires InBounds(s)
    decreases |str|
  {
    if str == [] then true
    else if StartsEscape(str) then
      var body := str[2..];
      if |body| >= 2 && body[0] == 50 && body[1] == 74 then Printable(Clear(s), body[2..])
      else if |body| >= 1 && body[0] == 72 then Printable(s.(x := 0, y := 0), body[1..])
      else (
        ColorEscapeEnds(body) &&
        var m := FindM(body);
        var t := s.(color := Recolor(s.color, Value(body[..m], 0)));
        CanPut(t, body[m + 1]) && Printable(PutChar(t, body[m + 1]), body[m + 2..]))
    else CanPut(s, str[0]) && Printable(PutChar(s, str[0]), str[1..])
  }

  /** `vga_puts`. After a colour escape the next character is printed as it is, even if it is an escape. */
  function Puts(s: Screen, str: seq<Byte>): (r: Screen)
    requires InBounds(s) && Printable(s, str)
    ensures InBounds(r)
    decreases |str|
  {
    if str == [] then s
    else if StartsEscape(str) then
      var body := str[2..];
      if |body| >= 2 && body[0] == 50 && body[1] == 74 then Puts(Clear(s), body[2..])
      else if |body| >= 1 && body[0] == 72 then Puts(s.(x := 0, y := 0), body[1..])
      else
        var m := FindM(body);
        var t := s.(color := Recolor(s.color, Value(body[..m], 0)));
        Puts(PutChar(t, body[m + 1]), body[m + 2..])
    else Puts(PutChar(s, str[0]), str[1..])
  }

  // ---------- what characters and escapes do to the screen ----------

  lemma AnsiTable(i: nat)
    requires i < 8
    ensures var vga := i % 2 * 4 + i / 2 % 2 * 2 + i / 4;
      && AnsiToVga(30 + i) == vga && AnsiToVga(40 + i) == vga && vga < 8
      && AnsiToVga(90 + i) == vga + 8 && AnsiToVga(100 + i) == vga + 8
  {
  }

  lemma Nibbles(color: Byte, v: nat)
    requires v < 16
    ensures (color / 16 * 16 + v % 16) % 16 == v && (color / 16 * 16 + v % 16) / 16 == color / 16
  {
    DivisionIs(color / 16 * 16 + v, 16, color / 16, v);
  }

  /** A foreground escape selects its colour in the order of the ANSI codes: red, green and blue are bits 0, 1 and 2. */
  lemma ForegroundIsAnsi(color: Byte, i: nat)
    requires i < 8
    ensures var vga := i % 2 * 4 + i / 2 % 2 * 2 + i / 4;
      && Recolor(color, 30 + i) % 16 == vga && Recolor(color, 30 + i) / 16 == color / 16
      && Recolor(color, 90 + i) % 16 == vga + 8 && Recolor(color, 90 + i) / 16 == color / 16
      && AnsiToVga(40 + i) == vga && AnsiToVga(100 + i) == vga + 8
  {
    AnsiTable(i);
    hide AnsiToVga;
    Nibbles(color, AnsiToVga(30 + i));
    Nibbles(color, AnsiToVga(90 + i));
  }

  /** Code 0 selects grey on black, and codes that name no colour select nothing. */
  lemma OtherCodes(color: Byte, code: int)
    ensures Recolor(color, 0) == 0x07
    ensures code < 0 || 0 < code < 30 || 38 <= code < 40 || 48 <= code < 90 || 98 <= code < 100 || code > 107 ==>
      Recolor(color, code) == color
  {
  }

  /** A drawn character stands in the low byte of its cell and the colour in the high byte, for 7-bit characters. */
  lemma PutCharDraws(s: Screen, c: Byte)
    requires InBounds(s) && c != 10 && c != 8 && c != 9 && !(s.x == 79 && s.y == 24)
    ensures var t, at := PutChar(s, c), s.y * 80 + s.x;
      && t.cells[at] % 256 == c && t.cells[at] / 256 == (if c < 128 then s.color else 0xFF)
      && (forall k :: 0 <= k < 2000 && k != at ==> t.cells[k] == s.cells[k])
      && (if s.x == 79 then t.x == 0 && t.y == s.y + 1 else t.x == s.x + 1 && t.y == s.y)
  {
    CellBytes(s.color, c);
  }

  lemma CellBytes(color: Byte, c: Byte)
    ensures Cell(color, c) % 256 == c && Cell(color, c) / 256 == (if c < 128 then color else 0xFF)
    ensures Blank(color) % 256 == 0 && Blank(color) / 256 == color
  {
  }

  /** A backspace erases the cell before the cursor and stays there; from the first column it goes up a row. */
  lemma BackspaceErases(s: Screen)
    requires InBounds(s) && (s.x > 0 || s.y > 0)
    ensures var t, at := PutChar(s, 8), s.y * 80 + s.x - 1;
      && t.y * 80 + t.x == at && t.color == s.color
      && t.cells[at] % 256 == 0 && t.cells[at] / 256 == s.color
      && forall k :: 0 <= k < 2000 && k != at ==> t.cells[k] == s.cells[k]
  {
    CellBytes(s.color, 0);
  }

  /** After a character that did not scroll, a backspace brings the cursor back. */
  lemma BackspaceUndoes(s: Screen, c: Byte)
    requires InBounds(s) && c != 10 && c != 8 && c != 9 && !(s.x == 79 && s.y == 24)
    ensures var t := PutChar(PutChar(s, c), 8); t.x == s.x && t.y == s.y
  {
  }

  /** A line feed goes to the start of the next row. */
  lemma LineFeedAdvances(s: Screen)
    requires InBounds(s) && s.y < 24
    ensures PutChar(s, 10) == s.(x := 0, y := s.y + 1)
  {
  }

  /** The clear escape blanks every cell in the current colour and leaves the cursor; the home escape moves it only. */
  lemma ClearAndHome(s: Screen, rest: seq<Byte>)
    requires InBounds(s)
    ensures var t := s.(cells := Clear(s).cells);
      && (forall k :: 0 <= k < 2000 ==> t.cells[k] % 256 == 0 && t.cells[k] / 256 == s.color)
      && (Printable(s, [27, 91, 50, 74] + rest) <==> Printable(t, rest))
      && (Printable(t, rest) ==> Puts(s, [27, 91, 50, 74] + rest) == Puts(t, rest))
    ensures var t := s.(x := 0, y := 0);
      && (Printable(s, [27, 91, 72] + rest) <==> Printable(t, rest))
      && (Printable(t, rest) ==> Puts(s, [27, 91, 72] + rest) == Puts(t, rest))
  {
    CellBytes(s.color, 0);
    var clear, home := [27, 91, 50, 74] + rest, [27, 91, 72] + rest;
    assert clear[2..][0] == 50 && clear[2..][1] == 74 && clear[2..][2..] == rest;
    assert home[2..][0] == 72 && home[2..][1..] == rest;
  }

  /** One turn of `vga_puts` at a colour escape. */
  lemma {:induction false} ColorTurn(s: Screen, str: seq<Byte>, m: nat)
    requires InBounds(s) && StartsEscape(str) && m == FindM(str[2..]) && m < 4 && m + 1 < |str[2..]|
    requires str[2] != 72 && !(str[2] == 50 && str[3] == 74)
    ensures var body := str[2..];
      var t := s.(color := Recolor(s.color, Value(body[..m], 0)));
      CanPut(t, body[m + 1]) && Printable(PutChar(t, body[m + 1]), body[m + 2..]) ==>
        Printable(s, str) && Puts(s, str) == Puts(PutChar(t, body[m + 1]), body[m + 2..])
  {
    hide PutChar, Recolor, Value, CanPut;
    assert str[2..][0] == str[2] && str[2..][1] == str[3];
  }

  /** A colour escape reads its digits, changes the colour, and prints the character behind the 'm' as it is. */
  lemma ColorEscape(s: Screen, digits: seq<Byte>, c: Byte, rest: seq<Byte>)
    requires InBounds(s) && |digits| < 4 && forall i :: 0 <= i < |digits| ==> IsDigit(digits[i])
    requires var t := s.(color := Recolor(s.color, Value(digits, 0)));
      CanPut(t, c) && Printable(PutChar(t, c), rest)
    ensures var t, str := s.(color := Recolor(s.color, Value(digits, 0))), [27, 91] + (digits + ([109, c] + rest));
      Printable(s, str) && Puts(s, str) == Puts(PutChar(t, c), rest)
  {
    hide Puts, Printable, PutChar, Recolor, Value, CanPut;
    var body, m := digits + ([109, c] + rest), |digits|;
    var str := [27, 91] + body;
    assert str[2..] == body && StartsEscape(str);
    assert body[m] == 109 && body[m + 1] == c && body[m + 2..] == rest && body[..m] == digits;
    forall i | 0 <= i < m ensures body[i] != LETTER_M { assert body[i] == digits[i]; }
    FirstMIs(body, m);
    assert m >= 1 ==> IsDigit(body[0]);
    assert m >= 2 ==> IsDigit(body[1]);
    assert str[2] == body[0] && str[3] == body[1];
    ColorTurn(s, str, m);
  }

  lemma {:induction false} FirstMIs(body: seq<Byte>, m: nat)
    requires m < |body| && body[m] == LETTER_M && forall i :: 0 <= i < m ==> body[i] != LETTER_M
    ensures FindM(body) == m
  {
  }

  // ---------- the log ----------

  /** A row of the log, and the cell that fills it past its end if it was scrolled in. */
  datatype Row = Row(cells: seq<int>, blank: int)

  /** Everything ever printed: the finished rows and the row the cursor is in. */
  datatype Log = Log(rows: seq<Row>, line: Row)

  /** The log at boot. Its first row is not scrolled in, so what fills it does not matter. */
  const EMPTY := Log([], Row([], 0))

  predicate Wrapped(log: Log) {
    |log.line.cells| < COLUMNS && forall i :: 0 <= i < |log.rows| ==> |log.rows[i].cells| <= COLUMNS
  }

  /** The cursor's row is finished; if the next one scrolls in, it does in this colour. */
  function EndRow(log: Log, color: Byte): Log {
    Log(log.rows + [log.line], Row([], Blank(color)))
  }

  function Extend(log: Log, cell: int): Log {
    log.(line := log.line.(cells := log.line.cells + [cell]))
  }

  function Append(log: Log, cell: int, color: Byte): Log {
    if |log.line.cells| + 1 == COLUMNS then EndRow(Extend(log, cell), color) else Extend(log, cell)
  }

  /** A character other than a backspace added to the log. */
  function LogChar(log: Log, c: Byte, color: Byte): Log {
    if c == NEWLINE then EndRow(log, color)
    else if c == TAB then
      var sp := Cell(color, SPACE);
      Append(Append(Append(Append(log, sp, color), sp, color), sp, color), sp, color)
    else Append(log, Cell(color, c), color)
  }

  /** The character behind the colour escape that a string starts with, and the rest of the string behind that. */
  function AfterEscape(str: seq<Byte>): (Byte, seq<Byte>)
    requires StartsEscape(str) && ColorEscapeEnds(str[2..])
  {
    var body := str[2..];
    (body[FindM(body) + 1], body[FindM(body) + 2..])
  }

  /** The colour an escape at the start of the string selects. */
  function EscapeColor(str: seq<Byte>, color: Byte): Byte
    requires StartsEscape(str)
  {
    Recolor(color, Value(str[2..][..FindM(str[2..])], 0))
  }

  /** No backspace, and no escapes but colour escapes, which a character follows. */
  predicate Colored(str: seq<Byte>)
    decreases |str|
  {
    if str == [] then true
    else if StartsEscape(str) then
      var body := str[2..];
      && ColorEscapeEnds(body) && body[0] != 72 && !(body[0] == 50 && body[1] == 74)
      && AfterEscape(str).0 != BACKSPACE && Colored(AfterEscape(str).1)
    else str[0] != BACKSPACE && Colored(str[1..])
  }

  function LogString(log: Log, str: seq<Byte>, color: Byte): Log
    requires Colored(str)
    decreases |str|
  {
    if str == [] then log
    else if StartsEscape(str) then
      var next := EscapeColor(str, color);
      LogString(LogChar(log, AfterEscape(str).0, next), AfterEscape(str).1, next)
    else LogString(LogChar(log, str[0], color), str[1..], color)
  }

  /** The colour a string leaves. */
  function LastColor(str: seq<Byte>, color: Byte): Byte
    requires Colored(str)
    decreases |str|
  {
    if str == [] then color
    else if StartsEscape(str) then LastColor(AfterEscape(str).1, EscapeColor(str, color))
    else LastColor(str[1..], color)
  }

  /** The first row of the window: the last 25 rows, the cursor's included. */
  function Top(log: Log): nat { if |log.rows| < ROWS then 0 else |log.rows| - (ROWS - 1) }

  /** Row r of the log, which is empty past the log's end. */
  function RowAt(log: Log, r: nat): Row {
    if r < |log.rows| then log.rows[r] else if r == |log.rows| then log.line else Row([], 0)
  }

  /** The log has a character at column c of row r. */
  predicate Written(log: Log, r: nat, c: nat) { c < |RowAt(log, r).cells| }

  /**
   * The cell at column c of row r over a screen found with the cells `under`: where nothing was printed, the first 25
   * rows let it through, and rows scrolled in have their own blank.
   */
  function CellOver(log: Log, r: nat, c: nat, under: seq<int>): int
    requires |under| == COLUMNS * ROWS && c < COLUMNS
  {
    var row := RowAt(log, r);
    if c < |row.cells| then row.cells[c] else if r < ROWS then under[r * COLUMNS + c] else row.blank
  }

  /** Position k of the window: 80 cells to a row, the rows from `Top` on. */
  ghost predicate IsWindowOver(cells: seq<int>, log: Log, under: seq<int>)
    requires |under| == COLUMNS * ROWS
  {
    |cells| == COLUMNS * ROWS
    && forall k :: 0 <= k < COLUMNS * ROWS ==> cells[k] == CellOver(log, Top(log) + k / COLUMNS, k % COLUMNS, under)
  }

  /**
   * The screen is the window on the last 25 rows of the log, printed over what it was found with, and the cursor is
   * where the log ends.
   */
  ghost predicate ShowsOver(s: Screen, log: Log, under: seq<int>) {
    && InBounds(s) && Wrapped(log) && |under| == COLUMNS * ROWS
    && s.x == |log.line.cells| && s.y == |log.rows| - Top(log)
    && IsWindowOver(s.cells, log, under)
  }

  function BlankCells(color: Byte): (cells: seq<int>)
    ensures |cells| == COLUMNS * ROWS
  {
    seq(COLUMNS * ROWS, _ => Blank(color))
  }

  /** The screen is the window on the log over a screen that was cleared in this colour. */
  ghost predicate Shows(s: Screen, log: Log, color: Byte) { ShowsOver(s, log, BlankCells(color)) }

  /** No backspace and no escape sequence. */
  predicate Plain(str: seq<Byte>) {
    forall i :: 0 <= i < |str| ==> str[i] != BACKSPACE && !(str[i] == ESC && i + 1 < |str| && str[i + 1] == BRACKET)
  }

  /** Every screen with the cursor at the origin shows the empty log over what it was found with. */
  lemma FoundShowsEmpty(s: Screen)
    requires InBounds(s) && s.x == 0 && s.y == 0
    ensures ShowsOver(s, EMPTY, s.cells)
  {
  }

  /** A cleared screen with the cursor at the origin shows the empty log. */
  lemma ClearShowsEmpty(s: Screen)
    requires |s.cells| == COLUMNS * ROWS
    ensures Shows(Clear(s).(x := 0, y := 0), EMPTY, s.color)
  {
    assert Clear(s).cells == BlankCells(s.color);
  }

  /** Two screens underneath agree wherever the window lets them through. */
  ghost predicate SameShowing(log: Log, under: seq<int>, other: seq<int>)
    requires |under| == COLUMNS * ROWS == |other|
  {
    forall k :: Top(log) * COLUMNS <= k < COLUMNS * ROWS && !Written(log, k / COLUMNS, k % COLUMNS) ==>
      under[k] == other[k]
  }

  /** Where the log has no character, the first 25 rows let the screen underneath through, and no other row does. */
  lemma LetsThrough(log: Log, r: nat, c: nat, under: seq<int>, other: seq<int>)
    requires |under| == COLUMNS * ROWS == |other| && c < COLUMNS
    ensures CellOver(log, r, c, under) == CellOver(log, r, c, other)
      <==> Written(log, r, c) || r >= ROWS || under[r * COLUMNS + c] == other[r * COLUMNS + c]
  {
  }

  /** The window over one screen is the window over another exactly when what shows of them is the same. */
  lemma ShowsIff(s: Screen, log: Log, under: seq<int>, other: seq<int>)
    requires ShowsOver(s, log, under) && |other| == COLUMNS * ROWS
    ensures ShowsOver(s, log, other) <==> SameShowing(log, under, other)
  {
    hide CellOver, Written;
    var top := Top(log);
    if SameShowing(log, under, other) {
      forall k | 0 <= k < COLUMNS * ROWS ensures s.cells[k] == CellOver(log, top + k / COLUMNS, k % COLUMNS, other) {
        RowOf(top + k / COLUMNS, k % COLUMNS);
        LetsThrough(log, top + k / COLUMNS, k % COLUMNS, under, other);
      }
    }
    if ShowsOver(s, log, other) {
      forall k | top * COLUMNS <= k < COLUMNS * ROWS && !Written(log, k / COLUMNS, k % COLUMNS)
        ensures under[k] == other[k]
      {
        var r, c := k / COLUMNS, k % COLUMNS;
        RowOf(r - top, c);
        LetsThrough(log, r, c, under, other);
        var at := (r - top) * COLUMNS + c;
        assert s.cells[at] == CellOver(log, r, c, under) == CellOver(log, r, c, other);
      }
    }
  }

  lemma RowOf(r: nat, c: nat)
    requires c < COLUMNS
    ensures (r * COLUMNS + c) / COLUMNS == r && (r * COLUMNS + c) % COLUMNS == c
  {
  }

  /** Once the first 25 rows have scrolled away, nothing shows of the screen that was there before. */
  lemma ScrolledAwayShows(s: Screen, log: Log, under: seq<int>, color: Byte)
    requires ShowsOver(s, log, under) && Top(log) >= ROWS
    ensures Shows(s, log, color)
  {
    ShowsIff(s, log, under, BlankCells(color));
  }

  /** Ending the log's last row changes no cell that is not past the log's end. */
  lemma RowEnded(log: Log, color: Byte, r: nat, c: nat, under: seq<int>)
    requires |under| == COLUMNS * ROWS && c < COLUMNS && (r <= |log.rows| || r < ROWS)
    ensures CellOver(EndRow(log, color), r, c, under) == CellOver(log, r, c, under)
  {
  }

  /** The row begun then is blank in the colour it is scrolled in with. */
  lemma RowBegun(log: Log, color: Byte, c: nat, under: seq<int>)
    requires |under| == COLUMNS * ROWS && c < COLUMNS && |log.rows| + 1 >= ROWS
    ensures CellOver(EndRow(log, color), |log.rows| + 1, c, under) == Blank(color)
  {
  }

  /** The row ends: the screen is one row further down the log, scrolled if that row was the last. */
  lemma SettleShows(s: Screen, log: Log, under: seq<int>)
    requires |s.cells| == COLUMNS * ROWS == |under| && s.x == COLUMNS && s.y < ROWS
    requires Wrapped(log.(line := Row([], 0))) && |log.line.cells| <= COLUMNS && s.y == |log.rows| - Top(log)
    requires IsWindowOver(s.cells, log, under)
    ensures ShowsOver(Settle(s), EndRow(log, s.color), under)
  {
    hide CellOver, Blank;
    var next := EndRow(log, s.color);
    var t := Settle(s);
    forall k | 0 <= k < COLUMNS * ROWS
      ensures t.cells[k] == CellOver(next, Top(next) + k / COLUMNS, k % COLUMNS, under)
    {
      var r, c := Top(next) + k / COLUMNS, k % COLUMNS;
      if s.y + 1 < ROWS {
        RowEnded(log, s.color, r, c, under);
        assert t.cells == s.cells;
      } else if k < COLUMNS * (ROWS - 1) {
        RowEnded(log, s.color, r, c, under);
        assert t.cells[k] == s.cells[k + COLUMNS];
        NextRow(k);
      } else {
        LastRow(k);
        RowBegun(log, s.color, c, under);
      }
    }
  }

  lemma NextRow(k: nat)
    ensures (k + COLUMNS) / COLUMNS == k / COLUMNS + 1 && (k + COLUMNS) % COLUMNS == k % COLUMNS
  {
  }

  lemma LastRow(k: nat)
    requires COLUMNS * (ROWS - 1) <= k < COLUMNS * ROWS
    ensures k / COLUMNS == ROWS - 1
  {
  }

  lemma PositionIs(k: nat, r: nat, c: nat)
    requires c < COLUMNS
    ensures k == r * COLUMNS + c <==> k / COLUMNS == r && k % COLUMNS == c
  {
  }

  /** One more character at the end of the log changes one cell. */
  lemma CellAppended(log: Log, cell: int, r: nat, c: nat, under: seq<int>)
    requires |under| == COLUMNS * ROWS && c < COLUMNS
    ensures CellOver(Extend(log, cell), r, c, under) ==
      if r == |log.rows| && c == |log.line.cells| then cell else CellOver(log, r, c, under)
  {
  }

  /** A drawn character is the next cell of the log. */
  lemma DrawShows(s: Screen, log: Log, under: seq<int>, c: Byte)
    requires ShowsOver(s, log, under)
    ensures ShowsOver(Draw(s, c), Append(log, Cell(s.color, c), s.color), under)
  {
    hide CellOver, Blank, Settle, Cell;
    var drawn := s.(cells := s.cells[s.y * COLUMNS + s.x := Cell(s.color, c)], x := s.x + 1);
    var longer := Extend(log, Cell(s.color, c));
    forall k | 0 <= k < COLUMNS * ROWS
      ensures drawn.cells[k] == CellOver(longer, Top(longer) + k / COLUMNS, k % COLUMNS, under)
    {
      PositionIs(k, s.y, s.x);
      CellAppended(log, Cell(s.color, c), Top(log) + k / COLUMNS, k % COLUMNS, under);
    }
    if s.x + 1 == COLUMNS {
      SettleShows(drawn, longer, under);
    } else {
      NotAtEdge(drawn);
    }
  }

  lemma NotAtEdge(s: Screen)
    requires InBounds(s)
    ensures Settle(s) == s
  {
  }

  lemma PutCharShows(s: Screen, log: Log, under: seq<int>, c: Byte)
    requires ShowsOver(s, log, under) && c != BACKSPACE
    ensures ShowsOver(PutChar(s, c), LogChar(log, c, s.color), under)
  {
    if c == NEWLINE {
      SettleShows(s.(x := COLUMNS), log, under);
    } else if c == TAB {
      TabShows(s, log, under);
    } else {
      DrawShows(s, log, under, c);
    }
  }

  lemma TabShows(s: Screen, log: Log, under: seq<int>)
    requires ShowsOver(s, log, under)
    ensures ShowsOver(PutChar(s, TAB), LogChar(log, TAB, s.color), under)
  {
    assert InBounds(s);
    hide ShowsOver, Append, Cell;
    var sp := Cell(s.color, SPACE);
    DrawShows(s, log, under, SPACE);
    var s1, l1 := Draw(s, SPACE), Append(log, sp, s.color);
    DrawShows(s1, l1, under, SPACE);
    var s2, l2 := Draw(s1, SPACE), Append(l1, sp, s.color);
    DrawShows(s2, l2, under, SPACE);
    var s3, l3 := Draw(s2, SPACE), Append(l2, sp, s.color);
    DrawShows(s3, l3, under, SPACE);
    NotAtEdge(Draw(s3, SPACE));
  }

  /**
   * Scrolling is a faithful windowing: for every string without backspace, clear and home, colour escapes included, the
   * screen and cursor afterwards are the last 25-row window of the unbounded log wrapped at 80 columns, over the screen
   * as it was found.
   */
  lemma {:induction false} PutsShowsOver(s: Screen, log: Log, under: seq<int>, str: seq<Byte>)
    requires ShowsOver(s, log, under) && Colored(str)
    ensures Printable(s, str) && Puts(s, str).color == LastColor(str, s.color)
    ensures ShowsOver(Puts(s, str), LogString(log, str, s.color), under)
    decreases |str|
  {
    assert InBounds(s);
    hide ShowsOver, LogChar;
    if str == [] {
    } else if StartsEscape(str) {
      var t, next := s.(color := EscapeColor(str, s.color)), AfterEscape(str);
      ColorKeepsShowing(s, log, under, t.color);
      PutCharShows(t, log, under, next.0);
      PutsShowsOver(PutChar(t, next.0), LogChar(log, next.0, t.color), under, next.1);
    } else {
      PutCharShows(s, log, under, str[0]);
      PutsShowsOver(PutChar(s, str[0]), LogChar(log, str[0], s.color), under, str[1..]);
    }
  }

  lemma ColorKeepsShowing(s: Screen, log: Log, under: seq<int>, color: Byte)
    requires ShowsOver(s, log, under)
    ensures ShowsOver(s.(color := color), log, under)
  {
  }

  /** Strings without any escape are among them, and leave the colour alone. */
  lemma {:induction false} PlainIsColored(str: seq<Byte>, color: Byte)
    requires Plain(str)
    ensures Colored(str) && LastColor(str, color) == color
  {
    if str != [] {
      assert str[0] != BACKSPACE && !StartsEscape(str);
      assert forall i :: 0 <= i < |str| - 1 ==> str[1..][i] == str[i + 1];
      PlainIsColored(str[1..], color);
    }
  }

  /** The clear and home escapes together start anew: what is printed next is all the screen shows. */
  lemma ClearHomeRestarts(s: Screen, str: seq<Byte>)
    requires InBounds(s) && Colored(str)
    ensures var all := [27, 91, 50, 74] + ([27, 91, 72] + str);
      Printable(s, all) && Shows(Puts(s, all), LogString(EMPTY, str, s.color), s.color)
  {
    var cleared := s.(cells := Clear(s).cells);
    var start := cleared.(x := 0, y := 0);
    ClearAndHome(s, [27, 91, 72] + str);
    ClearAndHome(cleared, str);
    ClearShowsEmpty(s);
    PutsShows(start, EMPTY, s.color, str);
  }

  /** On a screen that was cleared nothing else shows throughout. */
  lemma PutsShows(s: Screen, log: Log, color: Byte, str: seq<Byte>)
    requires Shows(s, log, color) && Colored(str)
    ensures Printable(s, str) && Shows(Puts(s, str), LogString(log, str, s.color), color)
  {
    PutsShowsOver(s, log, BlankCells(color), str);
  }

  /**
   * The kernel never clears its screen. From the screen as found, a string leaves the screen that a cleared one would
   * show exactly when what still shows of the found screen was blank.
   */
  lemma PutsFromFoundIff(s: Screen, str: seq<Byte>)
    requires InBounds(s) && s.x == 0 && s.y == 0 && Colored(str)
    ensures Printable(s, str)
    ensures var t, log := Puts(s, str), LogString(EMPTY, str, s.color);
      && ShowsOver(t, log, s.cells)
      && (Shows(t, log, s.color) <==> SameShowing(log, s.cells, BlankCells(s.color)))
  {
    FoundShowsEmpty(s);
    PutsShowsOver(s, EMPTY, s.cells, str);
    ShowsIff(Puts(s, str), LogString(EMPTY, str, s.color), s.cells, BlankCells(s.color));
  }

  /** A screen as firmware leaves it, full of spaces: they are not the kernel's blank cells, and show as themselves. */
  lemma FirmwareScreenShowsThrough(c: Byte)
    requires c != BACKSPACE
    ensures var s := Screen(seq(COLUMNS * ROWS, _ => 0x0720), 0, 0, 0x07);
      Colored([c]) && Printable(s, [c]) && !Shows(Puts(s, [c]), LogString(EMPTY, [c], s.color), s.color)
  {
    var s := Screen(seq(COLUMNS * ROWS, _ => 0x0720), 0, 0, 0x07);
    assert Colored([c]) by { assert [c][1..] == []; }
    var log := LogString(EMPTY, [c], s.color);
    PutsFromFoundIff(s, [c]);
    assert log == LogChar(EMPTY, c, s.color);
    assert Top(log) == 0 && !Written(log, 24, 0);
    assert s.cells[24 * COLUMNS] == 0x0720;
    RowOf(24, 0);
  }

  /** What one character adds to the log's cells. */
  function Drawn(c: Byte, color: Byte): seq<int> {
    if c == NEWLINE then [] else if c == TAB then seq(4, _ => Cell(color, SPACE)) else [Cell(color, c)]
  }

  /** The cells a string draws, each in the colour selected where it stands. */
  function Characters(str: seq<Byte>, color: Byte): seq<int>
    requires Colored(str)
    decreases |str|
  {
    if str == [] then []
    else if StartsEscape(str) then
      var next := EscapeColor(str, color);
      Drawn(AfterEscape(str).0, next) + Characters(AfterEscape(str).1, next)
    else Drawn(str[0], color) + Characters(str[1..], color)
  }

  function Flatten(rows: seq<Row>): seq<int> {
    if rows == [] then [] else Flatten(rows[..|rows| - 1]) + rows[|rows| - 1].cells
  }

  function Contents(log: Log): seq<int> { Flatten(log.rows) + log.line.cells }

  lemma {:induction false} FlattenPush(rows: seq<Row>, row: Row)
    ensures Flatten(rows + [row]) == Flatten(rows) + row.cells
  {
    assert (rows + [row])[..|rows|] == rows;
  }

  lemma {:induction false} AppendContents(log: Log, cell: int, color: Byte)
    ensures Contents(Append(log, cell, color)) == Contents(log) + [cell]
  {
    FlattenPush(log.rows, Extend(log, cell).line);
    assert Flatten(log.rows) + (log.line.cells + [cell]) == Contents(log) + [cell];
  }

  /** A tab draws four spaces. */
  lemma TabContents(log: Log, sp: int, color: Byte)
    ensures Contents(Append(Append(Append(Append(log, sp, color), sp, color), sp, color), sp, color))
         == Contents(log) + [sp, sp, sp, sp]
  {
    hide Contents, Append;
    var l1 := Append(log, sp, color);
    var l2 := Append(l1, sp, color);
    var l3 := Append(l2, sp, color);
    AppendContents(log, sp, color);
    AppendContents(l1, sp, color);
    AppendContents(l2, sp, color);
    AppendContents(l3, sp, color);
  }

  lemma {:induction false} LogCharContents(log: Log, c: Byte, color: Byte)
    ensures Contents(LogChar(log, c, color)) == Contents(log) + Drawn(c, color)
  {
    if c == NEWLINE {
      FlattenPush(log.rows, log.line);
    } else if c == TAB {
      hide Contents, Append, Cell;
      TabContents(log, Cell(color, SPACE), color);
      assert Drawn(c, color) == [Cell(color, SPACE), Cell(color, SPACE), Cell(color, SPACE), Cell(color, SPACE)];
    } else {
      hide Contents, Append, Cell;
      AppendContents(log, Cell(color, c), color);
    }
  }

  /** The log forgets nothing: read row by row its cells are exactly the characters drawn, in order and in colour. */
  lemma {:induction false} LogKeepsEveryCharacter(log: Log, str: seq<Byte>, color: Byte)
    requires Colored(str)
    ensures Contents(LogString(log, str, color)) == Contents(log) + Characters(str, color)
    decreases |str|
  {
    hide Contents, Drawn, LogChar;
    if str == [] {
    } else if StartsEscape(str) {
      var next := EscapeColor(str, color);
      var (c, rest) := AfterEscape(str);
      LogCharContents(log, c, next);
      LogKeepsEveryCharacter(LogChar(log, c, next), rest, next);
    } else {
      LogCharContents(log, str[0], color);
      LogKeepsEveryCharacter(LogChar(log, str[0], color), str[1..], color);
    }
  }

  /** The bytes of a string that are seen: no escapes, no line feeds, and four spaces for a tab. */
  function Seen(str: seq<Byte>): seq<int>
    requires Colored(str)
    decreases |str|
  {
    if str == [] then []
    else
      var (c, rest) := if StartsEscape(str) then AfterEscape(str) else (str[0], str[1..]);
      (if c == 10 then [] else if c == 9 then [32, 32, 32, 32] else [c as int]) + Seen(rest)
  }

  /** The colour in force at each of them; characters above 127 lose it. */
  function Colors(str: seq<Byte>, color: Byte): seq<int>
    requires Colored(str)
    decreases |str|
  {
    if str == [] then []
    else
      var (c, rest) := if StartsEscape(str) then AfterEscape(str) else (str[0], str[1..]);
      var next := if StartsEscape(str) then EscapeColor(str, color) else color;
      (if c == 10 then [] else if c == 9 then [next as int, next as int, next as int, next as int]
       else [if c < 128 then next as int else 0xFF]) + Colors(rest, next)
  }

  function Low(cells: seq<int>): (bytes: seq<int>)
    ensures |bytes| == |cells|
  {
    seq(|cells|, i requires 0 <= i < |cells| => cells[i] % 256)
  }

  function High(cells: seq<int>): (bytes: seq<int>)
    ensures |bytes| == |cells|
  {
    seq(|cells|, i requires 0 <= i < |cells| => cells[i] / 256)
  }

  lemma DrawnBytes(c: Byte, color: Byte)
    ensures Low(Drawn(c, color)) == if c == 10 then [] else if c == 9 then [32, 32, 32, 32] else [c as int]
    ensures High(Drawn(c, color)) ==
      if c == 10 then [] else if c == 9 then [color as int, color as int, color as int, color as int]
      else [if c < 128 then color as int else 0xFF]
  {
    CellBytes(color, c);
    CellBytes(color, 32);
  }

  lemma BytesOfSum(a: seq<int>, b: seq<int>)
    ensures Low(a + b) == Low(a) + Low(b) && High(a + b) == High(a) + High(b)
  {
  }

  lemma {:induction false} CharactersBytes(str: seq<Byte>, color: Byte)
    requires Colored(str)
    ensures Low(Characters(str, color)) == Seen(str) && High(Characters(str, color)) == Colors(str, color)
    decreases |str|
  {
    hide Drawn, Low, High;
    if str == [] {
      assert |Low([])| == 0 && |High([])| == 0;
    } else if StartsEscape(str) {
      var next := EscapeColor(str, color);
      var (c, rest) := AfterEscape(str);
      DrawnBytes(c, next);
      CharactersBytes(rest, next);
      BytesOfSum(Drawn(c, next), Characters(rest, next));
    } else {
      DrawnBytes(str[0], color);
      CharactersBytes(str[1..], color);
      BytesOfSum(Drawn(str[0], color), Characters(str[1..], color));
    }
  }

  /** The log's low bytes are the characters printed, in order, and its high bytes their colours. */
  lemma LogBytes(log: Log, str: seq<Byte>, color: Byte)
    requires Colored(str)
    ensures Low(Contents(LogString(log, str, color))) == Low(Contents(log)) + Seen(str)
    ensures High(Contents(LogString(log, str, color))) == High(Contents(log)) + Colors(str, color)
  {
    LogKeepsEveryCharacter(log, str, color);
    CharactersBytes(str, color);
    BytesOfSum(Contents(log), Characters(str, color));
  }
}
