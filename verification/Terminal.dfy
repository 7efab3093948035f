/** An unbounded terminal: a tape of rows that only grows. A screen shows its
    last 25 rows. */
module Terminal {
  import opened Bytes

  const MAX_ROWS := 25
  const MAX_COLS := 80
  const WHITE_ON_BLACK: byte := 0x0f
  const RED_ON_WHITE: byte := 0xf4
  const NEWLINE: byte := 10

  /** The tape holds a character and its attribute for each cell of its rows
      of 80 cells; cell is the place of the next character. */
  datatype Terminal = Terminal(tape: seq<byte>, rows: nat, cell: nat) {
    /** The cursor is in the last 25 rows. */
    ghost predicate Valid() {
      |tape| == 160 * rows && rows >= 25 && 80 * (rows - 25) <= cell < 80 * rows
    }

    /** The cells of the last 25 rows. */
    function Screen(): (s: seq<byte>)
      requires |tape| >= 4000
      ensures |s| == 4000
    {
      tape[|tape| - 4000..]
    }

    /** The place of the next character in the bytes of the screen. */
    function Offset(): int {
      2 * (cell - 80 * (rows - 25))
    }

    /** Writes c with an attribute, or goes to the start of the next row; a
        cursor that leaves the tape finds a new blank row there. */
    ghost function Put(c: byte, attr: byte): (t: Terminal)
      requires Valid()
      ensures t.Valid()
    {
      var next := if c == NEWLINE then (cell / 80 + 1) * 80 else cell + 1;
      var written := if c == NEWLINE then tape else tape[2 * cell := c][2 * cell + 1 := attr];
      if next < 80 * rows then Terminal(written, rows, next) else Terminal(written + Blank(160), rows + 1, next)
    }

    ghost function Type(s: seq<byte>): (t: Terminal)
      requires Valid()
      ensures t.Valid()
      decreases |s|
    {
      if s == [] then this else Put(s[0], WHITE_ON_BLACK).Type(s[1..])
    }

    /** A red E in the last cell of the screen marks invalid coordinates. */
    ghost function Err(): (t: Terminal)
      requires Valid()
      ensures t.Valid()
    {
      this.(tape := tape[|tape| - 2 := 'E' as int][|tape| - 1 := RED_ON_WHITE])
    }

    /** Moves the cursor to a cell of the screen. */
    ghost function Goto(n: nat): (t: Terminal)
      requires Valid() && n < 2000
      ensures t.Valid()
    {
      this.(cell := 80 * (rows - 25) + n)
    }
  }

  function Blank(n: nat): (s: seq<byte>)
    ensures |s| == n && forall i :: 0 <= i < n ==> s[i] == 0
  {
    seq(n, _ => 0)
  }

  /** A screen, and the place in its bytes of the next character. */
  datatype Shown = Shown(cells: seq<byte>, offset: int)

  /** What a character does to a screen: the screen scrolls by a row when the
      cursor would leave it. */
  function PutOnScreen(s: Shown, c: byte, attr: byte): (s': Shown)
    requires |s.cells| == 4000 && 0 <= s.offset < 3999
  {
    var cells := if c == NEWLINE then s.cells else s.cells[s.offset := c][s.offset + 1 := attr];
    var offset := if c == NEWLINE then (s.offset / 160 + 1) * 160 else s.offset + 2;
    if offset < 4000 then Shown(cells, offset) else Shown(cells[160..] + Blank(160), offset - 160)
  }

  lemma NextRow(rows: nat, n: nat)
    requires rows >= 25
    ensures ((80 * (rows - 25) + n) / 80 + 1) * 80 == 80 * (rows - 25) + (n / 80 + 1) * 80
    ensures (2 * n / 160 + 1) * 160 == 2 * ((n / 80 + 1) * 80)
  {}

  lemma WrittenAt(tape: seq<byte>, base: nat, i: nat, c: byte, attr: byte)
    requires base + i + 1 < |tape|
    ensures tape[base + i := c][base + i + 1 := attr][base..] == tape[base..][i := c][i + 1 := attr]
  {}

  lemma Scrolled(tape: seq<byte>, base: nat)
    requires |tape| == base + 4000
    ensures (tape + Blank(160))[base + 160..] == tape[base..][160..] + Blank(160)
  {}

  /** The cell behind the one at n, counted in the cells of a screen. */
  function Behind(n: nat, c: byte): nat {
    if c == NEWLINE then (n / 80 + 1) * 80 else n + 1
  }

  lemma {:induction false} PutIs(t: Terminal, c: byte, attr: byte)
    requires t.Valid()
    ensures var n, base := t.cell - 80 * (t.rows - 25), 80 * (t.rows - 25);
      var written := if c == NEWLINE then t.tape else t.tape[2 * t.cell := c][2 * t.cell + 1 := attr];
      t.Put(c, attr) == if Behind(n, c) < 2000 then Terminal(written, t.rows, base + Behind(n, c))
                        else Terminal(written + Blank(160), t.rows + 1, base + Behind(n, c))
  {
    NextRow(t.rows, t.cell - 80 * (t.rows - 25));
  }

  lemma {:induction false} PutOnScreenIs(s: seq<byte>, n: nat, c: byte, attr: byte)
    requires |s| == 4000 && n < 2000
    ensures var cells := if c == NEWLINE then s else s[2 * n := c][2 * n + 1 := attr];
      PutOnScreen(Shown(s, 2 * n), c, attr) == if Behind(n, c) < 2000 then Shown(cells, 2 * Behind(n, c))
                        else Shown(cells[160..] + Blank(160), 2 * Behind(n, c) - 160)
  {
    NextRow(25, n);
  }

  /** The screen sees exactly what happens at the end of the tape. */
  lemma {:induction false} ScreenFollowsTape(t: Terminal, c: byte, attr: byte)
    requires t.Valid()
    ensures var u := t.Put(c, attr);
      Shown(u.Screen(), u.Offset()) == PutOnScreen(Shown(t.Screen(), t.Offset()), c, attr)
  {
    var base, n := 160 * (t.rows - 25), t.cell - 80 * (t.rows - 25);
    PutIs(t, c, attr);
    PutOnScreenIs(t.Screen(), n, c, attr);
    if c != NEWLINE { WrittenAt(t.tape, base, 2 * n, c, attr); }
    Scrolled(if c == NEWLINE then t.tape else t.tape[2 * t.cell := c][2 * t.cell + 1 := attr], base);
  }

  /** A character takes one cell, its attribute behind it; a newline takes the
      rest of the row. All else stays, and a new row is blank. */
  lemma {:induction false} PutShows(t: Terminal, c: byte, attr: byte)
    requires t.Valid()
    ensures var u := t.Put(c, attr);
      && |t.tape| <= |u.tape| && u.tape[|t.tape|..] == seq(|u.tape| - |t.tape|, _ => 0)
      && (forall x :: 0 <= x < |t.tape| && (c == 10 || x / 2 != t.cell) ==> u.tape[x] == t.tape[x])
      && if c == 10 then u.cell % 80 == 0 && t.cell < u.cell <= t.cell + 80
         else u.cell == t.cell + 1 && u.tape[2 * t.cell] == c && u.tape[2 * t.cell + 1] == attr
  {
    var u := t.Put(c, attr);
    assert u.tape[|t.tape|..] == Blank(|u.tape| - |t.tape|);
    if c == 10 {
      var q := t.cell / 80;
      assert u.cell == 80 * (q + 1);
    }
  }

  lemma SamePrefix(a: seq<byte>, b: seq<byte>, n: nat, x: nat)
    requires n <= |a| && n <= |b| && a[..n] == b[..n] && x < n
    ensures a[x] == b[x]
  {
    assert a[..n][x] == b[..n][x];
  }

  /** Text without newlines stands in the cells from the cursor on, white on
      black. */
  lemma {:induction false} TypedText(t: Terminal, s: seq<byte>)
    requires t.Valid() && 10 !in s
    ensures var u := t.Type(s);
      && u.cell == t.cell + |s| && 2 * u.cell <= |u.tape|
      && forall i :: 0 <= i < |s| ==> u.tape[2 * (t.cell + i)] == s[i] && u.tape[2 * (t.cell + i) + 1] == 0x0f
    decreases |s|
  {
    if s != [] {
      var v, u := t.Put(s[0], WHITE_ON_BLACK), t.Type(s);
      PutShows(t, s[0], WHITE_ON_BLACK);
      TypedText(v, s[1..]);
      HistoryStands(v, s[1..]);
      forall i | 0 <= i < |s| ensures u.tape[2 * (t.cell + i)] == s[i] && u.tape[2 * (t.cell + i) + 1] == 0x0f {
        if i == 0 {
          SamePrefix(u.tape, v.tape, 2 * v.cell, 2 * t.cell);
          SamePrefix(u.tape, v.tape, 2 * v.cell, 2 * t.cell + 1);
        } else {
          assert u.tape[2 * (v.cell + (i - 1))] == s[1..][i - 1];
        }
      }
    }
  }

  /** Typing two strings is typing their concatenation. */
  lemma {:induction false} TypeConcat(t: Terminal, s: seq<byte>, s': seq<byte>)
    requires t.Valid()
    ensures t.Type(s + s') == t.Type(s).Type(s')
    decreases |s|
  {
    if s == [] {
      assert s + s' == s';
    } else {
      assert (s + s')[1..] == s[1..] + s';
      TypeConcat(t.Put(s[0], WHITE_ON_BLACK), s[1..], s');
    }
  }

  lemma PutKeepsHistory(t: Terminal, c: byte)
    requires t.Valid()
    ensures var u := t.Put(c, WHITE_ON_BLACK);
      t.cell < u.cell && |t.tape| <= |u.tape| && u.tape[..2 * t.cell] == t.tape[..2 * t.cell]
  {}

  /** What stands before the cursor is never changed by typing on. */
  lemma {:induction false} HistoryStands(t: Terminal, s: seq<byte>)
    requires t.Valid()
    ensures var u := t.Type(s);
      t.cell <= u.cell && |t.tape| <= |u.tape| && u.tape[..2 * t.cell] == t.tape[..2 * t.cell]
    decreases |s|
  {
    if s != [] {
      var u, last := t.Put(s[0], WHITE_ON_BLACK), t.Type(s).tape;
      PutKeepsHistory(t, s[0]);
      HistoryStands(u, s[1..]);
      assert last[..2 * t.cell] == last[..2 * u.cell][..2 * t.cell];
      assert u.tape[..2 * u.cell][..2 * t.cell] == u.tape[..2 * t.cell];
    }
  }
}
