/** The VGA text console of the kernel: 80x25 cells of video memory and a
    cursor that is kept only in two hardware registers. */
module Screen {
  import opened Bytes
  import opened Terminal

  const REG_SCREEN_CTRL := 0x3d4
  const REG_SCREEN_DATA := 0x3d5

  function GetOffset(col: int, row: int): int { 2 * (row * 80 + col) }

  function GetOffsetRow(offset: nat): nat { offset / 160 }

  function GetOffsetCol(offset: nat): nat { (offset - GetOffsetRow(offset) * 2 * 80) / 2 }

  /** Row and column are the coordinates of a cell's offset, and back. */
  lemma {:induction false} Coordinates(n: nat)
    ensures GetOffsetRow(2 * n) * 80 + GetOffsetCol(2 * n) == n && GetOffsetCol(2 * n) < 80
    ensures GetOffset(GetOffsetCol(2 * n), GetOffsetRow(2 * n)) == 2 * n
    ensures GetOffsetRow(2 * n) < 25 <==> n < 2000
  {
    var q, r := n / 80, n % 80;
    assert n == 80 * q + r;
    assert GetOffsetRow(2 * n) == q;
    assert GetOffsetCol(2 * n) == r;
  }

  lemma TwoBytes(n: nat)
    requires n < 0x10000
    ensures 256 * (n / 256 % 256) + n % 256 == n && n / 256 < 256
  {}

  class Console {
    const vidmem: array<byte>
    /** The VGA controller: the register selected, and the cursor's two. */
    var selected: byte
    var cursorHigh: byte
    var cursorLow: byte

    ghost predicate Valid() reads this {
      vidmem.Length == 4000
    }

    constructor (vidmem: array<byte>)
      requires vidmem.Length == 4000
      ensures Valid() && this.vidmem == vidmem && Cursor() == 0
    {
      this.vidmem := vidmem;
      selected, cursorHigh, cursorLow := 0, 0, 0;
    }

    method PortByteOut(port: int, value: byte)
      modifies this`selected, this`cursorHigh, this`cursorLow
      ensures selected == if port == REG_SCREEN_CTRL then value else old(selected)
      ensures cursorHigh == if port == REG_SCREEN_DATA && old(selected) == 14 then value else old(cursorHigh)
      ensures cursorLow == if port == REG_SCREEN_DATA && old(selected) == 15 then value else old(cursorLow)
    {
      if port == REG_SCREEN_CTRL {
        selected := value;
      } else if port == REG_SCREEN_DATA {
        if selected == 14 { cursorHigh := value; }
        if selected == 15 { cursorLow := value; }
      }
    }

    method PortByteIn(port: int) returns (value: byte)
      ensures port == REG_SCREEN_DATA && selected == 14 ==> value == cursorHigh
      ensures port == REG_SCREEN_DATA && selected == 15 ==> value == cursorLow
    {
      value := if port != REG_SCREEN_DATA then 0 else if selected == 14 then cursorHigh else if selected == 15 then cursorLow else 0;
    }

    /** The offset that the two registers stand for. */
    ghost function Cursor(): int reads this {
      2 * (256 * cursorHigh + cursorLow)
    }

    method GetCursorOffset() returns (offset: nat)
      modifies this`selected, this`cursorHigh, this`cursorLow
      ensures offset == 2 * (256 * cursorHigh + cursorLow) && Cursor() == old(Cursor())
    {
      PortByteOut(REG_SCREEN_CTRL, 14);
      var high := PortByteIn(REG_SCREEN_DATA);
      offset := 256 * (high as int);
      PortByteOut(REG_SCREEN_CTRL, 15);
      var low := PortByteIn(REG_SCREEN_DATA);
      offset := (offset + low as int) * 2;
    }

    method SetCursorOffset(offset: nat)
      requires offset % 2 == 0 && offset < 0x20000
      modifies this`selected, this`cursorHigh, this`cursorLow
      ensures Cursor() == offset
    {
      var cell := offset / 2;
      TwoBytes(cell);
      PortByteOut(REG_SCREEN_CTRL, 14);
      PortByteOut(REG_SCREEN_DATA, cell / 256 % 256);
      PortByteOut(REG_SCREEN_CTRL, 15);
      PortByteOut(REG_SCREEN_DATA, cell % 256);
    }

    method MemoryCopy(source: nat, dest: nat, nbytes: nat)
      requires dest + nbytes <= source && source + nbytes <= vidmem.Length
      modifies vidmem
      ensures forall x :: 0 <= x < vidmem.Length ==>
        vidmem[x] == if dest <= x < dest + nbytes then old(vidmem[x - dest + source]) else old(vidmem[x])
    {
      for i := 0 to nbytes
        invariant forall x :: 0 <= x < vidmem.Length ==>
          vidmem[x] == if dest <= x < dest + i then old(vidmem[x - dest + source]) else old(vidmem[x])
      {
        vidmem[dest + i] := vidmem[source + i];
      }
    }

    /** Moves all rows up by one and blanks the last. */
    method Scroll()
      requires Valid()
      modifies vidmem
      ensures vidmem[..3840] == old(vidmem[160..]) && forall x :: 3840 <= x < 4000 ==> vidmem[x] == 0
    {
      for i := 1 to MAX_ROWS
        invariant forall x :: 0 <= x < 160 * (i - 1) ==> vidmem[x] == old(vidmem[x + 160])
        invariant forall x :: 160 * (i - 1) <= x < 4000 ==> vidmem[x] == old(vidmem[x])
      {
        MemoryCopy(GetOffset(0, i), GetOffset(0, i - 1), 160);
      }
      var lastLine := GetOffset(0, MAX_ROWS - 1);
      for i := 0 to 160
        invariant forall x :: 0 <= x < 3840 ==> vidmem[x] == old(vidmem[x + 160])
        invariant forall x :: 3840 <= x < 3840 + i ==> vidmem[x] == 0
      {
        vidmem[lastLine + i] := 0;
      }
    }

    /** Prints one character at given coordinates, or at the cursor. */
    method PrintChar(c: byte, col: int, row: int, attr: byte) returns (offset: int)
      requires Valid() && Cursor() < 4000
      modifies this`selected, this`cursorHigh, this`cursorLow, vidmem
      ensures col >= MAX_COLS || row >= MAX_ROWS ==>
        && vidmem[..] == old(vidmem[..])[3998 := 'E' as int][3999 := 0xf4]
        && Cursor() == old(Cursor()) && offset == 2 * (row * 80 + col)
      ensures col < MAX_COLS && row < MAX_ROWS ==>
        && Cursor() == offset
        && Shown(vidmem[..], offset) == PutOnScreen(
             Shown(old(vidmem[..]), if col >= 0 && row >= 0 then GetOffset(col, row) else old(Cursor())),
             c, if attr == 0 then WHITE_ON_BLACK else attr)
    {
      if col >= MAX_COLS || row >= MAX_ROWS {
        vidmem[3998] := 'E' as int;
        vidmem[3999] := RED_ON_WHITE;
        return GetOffset(col, row);
      }
      if col >= 0 && row >= 0 { offset := GetOffset(col, row); } else { offset := GetCursorOffset(); }
      offset := PutCell(c, offset, if attr == 0 then WHITE_ON_BLACK else attr);
      SetCursorOffset(offset);
    }

    /** Writes c at an offset and moves on, scrolling if need be. */
    method PutCell(c: byte, offset: nat, attr: byte) returns (offset': nat)
      requires Valid() && offset < 4000 && offset % 2 == 0
      modifies vidmem
      ensures Shown(vidmem[..], offset') == PutOnScreen(Shown(old(vidmem[..]), offset), c, attr)
      ensures offset' % 2 == 0
    {
      if c == NEWLINE {
        offset' := GetOffset(0, GetOffsetRow(offset) + 1);
      } else {
        vidmem[offset] := c;
        vidmem[offset + 1] := attr;
        offset' := offset + 2;
      }
      if offset' >= 4000 {
        assert vidmem[160..] == vidmem[..][160..];
        Scroll();
        offset' := offset' - 160;
      }
    }

    /** The console shows the end of t's tape, and its registers hold t's cursor. */
    ghost predicate Displays(t: Terminal) reads this, vidmem {
      Valid() && t.Valid() && vidmem[..] == t.Screen() && Cursor() == t.Offset()
    }

    /** Whatever is on the screen, with the cursor on it, is the end of some tape. */
    lemma AlwaysATerminal()
      requires Valid() && Cursor() < 4000
      ensures Displays(Terminal(vidmem[..], 25, 256 * cursorHigh as int + cursorLow as int))
    {}

    method ClearScreen()
      requires Valid()
      modifies this`selected, this`cursorHigh, this`cursorLow, vidmem
      ensures Displays(Terminal(seq(4000, i => if i % 2 == 0 then ' ' as int else WHITE_ON_BLACK), 25, 0))
    {
      for i := 0 to MAX_COLS * MAX_ROWS
        invariant forall x :: 0 <= x < 2 * i ==> vidmem[x] == if x % 2 == 0 then ' ' as int else WHITE_ON_BLACK
      {
        vidmem[i * 2] := ' ' as int;
        vidmem[i * 2 + 1] := WHITE_ON_BLACK;
      }
      SetCursorOffset(GetOffset(0, 0));
    }

    /** Prints a string at the cursor. */
    method Kprint(message: seq<byte>, ghost t: Terminal)
      requires Displays(t) && 0 !in message
      modifies this`selected, this`cursorHigh, this`cursorLow, vidmem
      ensures Displays(t.Type(message))
    {
      KprintAt(message, -1, -1, t);
    }

    /** Prints a string at given coordinates, or at the cursor if one of them is
        negative. Coordinates off the screen cost the first character: it turns
        into an E, and the rest goes to the place the coordinates come to when
        counted through, or is lost as well if that is below the screen. */
    method KprintAt(message: seq<byte>, col0: int, row0: int, ghost t: Terminal)
      requires Displays(t) && 0 !in message
      modifies this`selected, this`cursorHigh, this`cursorLow, vidmem
      ensures Displays(Printed(t, message, col0, row0))
    {
      var col, row, offset := col0, row0, 0;
      if col >= 0 && row >= 0 {
        offset := GetOffset(col, row);
      } else {
        offset := GetCursorOffset();
        row := GetOffsetRow(offset);
        col := GetOffsetCol(offset);
        PrintedAtCursor(t, message);
      }
      ghost var u := t;
      var i := 0;
      assert message[0..] == message;
      while i < |message|
        invariant i <= |message| && col >= 0 && row >= 0 && Displays(u)
        invariant Printed(t, message, col0, row0) == Printed(u, message[i..], col, row)
      {
        assert message[i..][1..] == message[i + 1..];
        if col < MAX_COLS && row < MAX_ROWS {
          u := StepOnScreen(u, message[i..], col, row);
        } else {
          u := StepOffScreen(u, message[i..], col, row);
        }
        offset := PrintChar(message[i], col, row, WHITE_ON_BLACK);
        i := i + 1;
        row := GetOffsetRow(offset);
        col := GetOffsetCol(offset);
      }
    }
  }

  function WithError(cells: seq<byte>): seq<byte>
    requires |cells| == 4000
  {
    cells[3998 := 'E' as int][3999 := RED_ON_WHITE]
  }

  /** The terminal after printing at given coordinates. */
  ghost function Printed(t: Terminal, message: seq<byte>, col: int, row: int): (u: Terminal)
    requires t.Valid()
    ensures u.Valid()
  {
    var place := row * 80 + col;
    if col < 0 || row < 0 then t.Type(message)
    else if message == [] then t
    else if col < MAX_COLS && row < MAX_ROWS then t.Goto(place).Type(message)
    else if place < 2000 && |message| > 1 then t.Err().Goto(place).Type(message[1..])
    else t.Err()
  }

  /** Printing at coordinates on the screen. */
  lemma {:induction false} PrintedOn(t: Terminal, message: seq<byte>, col: nat, row: nat, n: nat)
    requires t.Valid() && col < MAX_COLS && row < MAX_ROWS && n == row * 80 + col
    ensures n < 2000 && Printed(t, message, col, row) == if message == [] then t else t.Goto(n).Type(message)
  {}

  lemma {:induction false} PrintedAtCursor(t: Terminal, message: seq<byte>)
    requires t.Valid()
    ensures Printed(t, message, GetOffsetCol(t.Offset()), GetOffsetRow(t.Offset())) == t.Type(message)
  {
    var n := t.cell - 80 * (t.rows - 25);
    assert t.Offset() == 2 * n && n < 2000;
    Coordinates(n);
    PrintedOn(t, message, GetOffsetCol(2 * n), GetOffsetRow(2 * n), n);
    AtTheCursor(t, n);
  }

  lemma {:induction false} AtTheCursor(t: Terminal, n: nat)
    requires t.Valid() && t.cell == 80 * (t.rows - 25) + n && n < 2000
    ensures t.Goto(n) == t
  {}

  /** One character of a string printed on the screen: what it does there, and
      how the printing goes on. */
  lemma {:induction false} StepOnScreen(u: Terminal, rest: seq<byte>, col: nat, row: nat) returns (v: Terminal)
    requires u.Valid() && rest != [] && col < MAX_COLS && row < MAX_ROWS
    ensures v.Valid()
    ensures Shown(v.Screen(), v.Offset()) == PutOnScreen(Shown(u.Screen(), GetOffset(col, row)), rest[0], WHITE_ON_BLACK)
    ensures Printed(u, rest, col, row) == Printed(v, rest[1..], GetOffsetCol(v.Offset()), GetOffsetRow(v.Offset()))
  {
    var n := row * 80 + col;
    PrintedOn(u, rest, col, row, n);
    var at := u.Goto(n);
    v := at.Put(rest[0], WHITE_ON_BLACK);
    GotoShows(u, n);
    ScreenFollowsTape(at, rest[0], WHITE_ON_BLACK);
    PrintedAtCursor(v, rest[1..]);
    TypeFirst(at, rest);
  }

  lemma {:induction false} GotoShows(u: Terminal, n: nat)
    requires u.Valid() && n < 2000
    ensures u.Goto(n).Screen() == u.Screen() && u.Goto(n).Offset() == 2 * n
  {}

  lemma {:induction false} TypeFirst(t: Terminal, s: seq<byte>)
    requires t.Valid() && s != []
    ensures t.Type(s) == t.Put(s[0], WHITE_ON_BLACK).Type(s[1..])
  {}

  /** Off the screen, printing goes on at the coordinates that count through
      to the same place. */
  lemma {:induction false} PrintedOff(u: Terminal, rest: seq<byte>, col: nat, row: nat, col': nat, row': nat)
    requires u.Valid() && rest != [] && (col >= MAX_COLS || row >= MAX_ROWS)
    requires row' * 80 + col' == row * 80 + col && col' < MAX_COLS
    ensures Printed(u, rest, col, row) == Printed(u.Err(), rest[1..], col', row')
  {
    assert u.Err().Err() == u.Err();
  }

  /** The first character of a string printed off the screen. */
  lemma {:induction false} StepOffScreen(u: Terminal, rest: seq<byte>, col: nat, row: nat) returns (v: Terminal)
    requires u.Valid() && rest != [] && (col >= MAX_COLS || row >= MAX_ROWS)
    ensures v.Valid() && v.Screen() == WithError(u.Screen()) && v.Offset() == u.Offset()
    ensures var place := GetOffset(col, row);
      Printed(u, rest, col, row) == Printed(v, rest[1..], GetOffsetCol(place), GetOffsetRow(place))
  {
    Coordinates(row * 80 + col);
    PrintedOff(u, rest, col, row, GetOffsetCol(GetOffset(col, row)), GetOffsetRow(GetOffset(col, row)));
    v := u.Err();
    ErrorShown(u);
  }

  lemma ErrorShown(u: Terminal)
    requires u.Valid()
    ensures u.Err().Screen() == WithError(u.Screen())
  {}
}
