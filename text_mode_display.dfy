/**
 * The text-mode console of kernel/devices/display/text_mode_display.c.
 *
 * A device owns a memory-mapped buffer of 25 rows of 80 16-bit cells (the
 * attribute byte above the character byte) and a cursor position
 * (`index_row`, `index_col`).  Characters are written at the cursor, a
 * newline or a full row moves to the next row, and writing past the last
 * row scrolls the buffer up by one row.  The `set_cursor` callback of the
 * display driver is modelled by the `cursor` field it would set.
 */
module TextModeDisplay {
  import opened CTypes

  const COLS: int := 80
  const ROWS: int := 25
  const CELLS: int := 2000
  const TEXT_MODE_COLOR: int := 0x0F
  const SPACE: byte := 32

  /** `TEXT_BUFF_IDX`: the cell of a row and column, rows one after the other. */
  function Index(row: int, col: int): (k: int)
    requires 0 <= row < ROWS && 0 <= col < COLS
    ensures 0 <= k < CELLS
  {
    COLS * row + col
  }

  /** Each cell has one row and column: `Index` is undone by division and remainder by the row length. */
  lemma IndexInverse(row: int, col: int)
    requires 0 <= row < ROWS && 0 <= col < COLS
    ensures Index(row, col) / COLS == row && Index(row, col) % COLS == col
  {
  }

  /**
   * `TEXT_MODE_CHAR(c)` as written, for a `char` that is signed: a byte from
   * 0x80 on is sign-extended before the `|`, so its attribute byte becomes
   * 0xFF.
   */
  function Cell(c: byte): (cell: int)
    ensures 0 <= cell < 0x1_0000 && cell % 256 == c
  {
    if c < 128 then TEXT_MODE_COLOR * 256 + c else 0xFF00 + c
  }

  /** `TEXT_MODE_CHAR` as evidently intended: attribute 0x0F above the character, for every byte. */
  function CellIntended(c: byte): (cell: int)
  {
    TEXT_MODE_COLOR * 256 + c
  }

  /** The intended cell keeps the character in the low byte and the colour in the high byte. */
  lemma CellIntendedFields(c: byte)
    ensures CellIntended(c) % 256 == c && CellIntended(c) / 256 == TEXT_MODE_COLOR
  {
  }

  /** As written, bytes from 0x80 on get attribute 0xFF instead of 0x0F; 0xC0 shows it. */
  lemma CellHighBytes(c: byte)
    ensures c < 128 ==> Cell(c) == CellIntended(c)
    ensures c >= 128 ==> Cell(c) / 256 == 0xFF && Cell(c) != CellIntended(c)
    ensures Cell(0xC0) == 0xFFC0 && CellIntended(0xC0) == 0x0FC0
  {
  }

  /** A blank cell: a space in the console colour. */
  const BLANK: int := Cell(SPACE)

  /** The contents of the buffer and the cursor position of a device. */
  datatype Screen = Screen(cells: seq<int>, row: int, col: int)
  {
    ghost predicate Valid()
    {
      |cells| == CELLS && 0 <= row < ROWS && 0 <= col < COLS
    }
  }

  /** `scroll`: every row moves up one, the top row is lost and the bottom row is blank. */
  function Scrolled(cells: seq<int>): (r: seq<int>)
    requires |cells| == CELLS
    ensures |r| == CELLS
    ensures forall k :: 0 <= k < CELLS - COLS ==> r[k] == cells[k + COLS]
    ensures forall k :: CELLS - COLS <= k < CELLS ==> r[k] == BLANK
  {
    cells[COLS..] + seq(COLS, _ => BLANK)
  }

  /** `write_char`: the screen after one character. */
  function PutChar(s: Screen, c: byte): (r: Screen)
    requires s.Valid()
    ensures r.Valid()
  {
    var cells := if c == NEWLINE then s.cells else s.cells[Index(s.row, s.col) := Cell(c)];
    var col := if c == NEWLINE then 0 else s.col + 1;
    var row := if c == NEWLINE || col >= COLS then s.row + 1 else s.row;
    var col := if col >= COLS then 0 else col;
    if row >= ROWS then Screen(Scrolled(cells), ROWS - 1, 0) else Screen(cells, row, col)
  }

  const NEWLINE: byte := 10

  /** The screen after each character of `text` in turn. */
  function PutChars(s: Screen, text: seq<byte>): (r: Screen)
    requires s.Valid()
    ensures r.Valid()
    decreases |text|
  {
    if text == [] then s else PutChars(PutChar(s, text[0]), text[1..])
  }

  /** A character other than newline goes to the cursor's cell and the cursor moves one column right. */
  lemma PutCharAdvances(s: Screen, c: byte)
    requires s.Valid() && c != NEWLINE && s.col < COLS - 1
    ensures PutChar(s, c) == Screen(s.cells[Index(s.row, s.col) := Cell(c)], s.row, s.col + 1)
  {
  }

  /** Filling the last column, or a newline, moves to column 0 of the next row, scrolling on the last row. */
  lemma PutCharNextRow(s: Screen, c: byte)
    requires s.Valid() && (c == NEWLINE || s.col == COLS - 1)
    ensures var cells := if c == NEWLINE then s.cells else s.cells[Index(s.row, s.col) := Cell(c)];
      PutChar(s, c) == if s.row < ROWS - 1 then Screen(cells, s.row + 1, 0) else Screen(Scrolled(cells), ROWS - 1, 0)
  {
  }

  /** Scrolling moves the text of row `r + 1` to row `r` and blanks the last row. */
  lemma ScrolledRows(cells: seq<int>, r: int, c: int)
    requires |cells| == CELLS && 0 <= c < COLS && 0 <= r < ROWS
    ensures r < ROWS - 1 ==> Scrolled(cells)[Index(r, c)] == cells[Index(r + 1, c)]
    ensures r == ROWS - 1 ==> Scrolled(cells)[Index(r, c)] == BLANK
  {
  }

  /** Writing `a` and then `b` is writing `a + b`. */
  lemma {:induction false} PutCharsAppend(s: Screen, a: seq<byte>, b: seq<byte>)
    requires s.Valid()
    ensures PutChars(s, a + b) == PutChars(PutChars(s, a), b)
    decreases |a|
  {
    if a != [] {
      assert (a + b)[0] == a[0] && (a + b)[1..] == a[1..] + b;
      PutCharsAppend(PutChar(s, a[0]), a[1..], b);
    } else {
      assert a + b == b;
    }
  }

  /** A line of fewer than 80 characters without newlines stays on its row and fills its cells. */
  lemma {:induction false} PutCharsLine(s: Screen, text: seq<byte>)
    requires s.Valid() && NEWLINE !in text && s.col + |text| < COLS
    ensures PutChars(s, text).row == s.row && PutChars(s, text).col == s.col + |text|
    ensures forall k :: 0 <= k < |text| ==> PutChars(s, text).cells[Index(s.row, s.col + k)] == Cell(text[k])
    ensures forall k :: 0 <= k < CELLS && !(Index(s.row, s.col) <= k < Index(s.row, s.col) + |text|) ==>
      PutChars(s, text).cells[k] == s.cells[k]
    decreases |text|
  {
    if text != [] {
      assert text[0] in text;
      var t := PutChar(s, text[0]);
      PutCharAdvances(s, text[0]);
      assert NEWLINE !in text[1..] by {
        forall x | x in text[1..] ensures x in text { }
      }
      PutCharsLine(t, text[1..]);
      forall k | 1 <= k < |text|
        ensures PutChars(s, text).cells[Index(s.row, s.col + k)] == Cell(text[k])
      {
        assert text[1..][k - 1] == text[k];
      }
    }
  }

  class TextModeDevice {
    /** `buffer_addr`: the memory-mapped cells. */
    const buffer: array<int>
    var row: int
    var col: int
    /** The position the last `set_cursor` call was given. */
    var cursor: (int, int)

    ghost predicate Valid()
      reads this
    {
      buffer.Length == CELLS && 0 <= row < ROWS && 0 <= col < COLS
    }

    ghost function State(): (s: Screen)
      reads this, buffer
      requires Valid()
      ensures s.Valid()
    {
      Screen(buffer[..], row, col)
    }

    constructor (cells: seq<int>)
      requires |cells| == CELLS
      ensures Valid() && State() == Screen(cells, 0, 0) && fresh(buffer)
    {
      buffer := new int[CELLS](k requires 0 <= k < CELLS reads {} => cells[k]);
      row, col := 0, 0;
      cursor := (0, 0);
      new;
      assert buffer[..] == cells;
    }

    /** The `memmove` of one row of `scroll`: row `r` takes the cells of row `r + 1`. */
    method MoveRowUp(r: int)
      requires buffer.Length == CELLS && 0 <= r < ROWS - 1
      modifies buffer
      ensures forall k :: 0 <= k < COLS * r || COLS * (r + 1) <= k < CELLS ==> buffer[k] == old(buffer[k])
      ensures forall k :: COLS * r <= k < COLS * (r + 1) ==> buffer[k] == old(buffer[k + COLS])
    {
      ghost var before := buffer[..];
      var c := 0;
      while c < COLS
        invariant 0 <= c <= COLS
        invariant forall k :: 0 <= k < COLS * r || COLS * r + c <= k < CELLS ==> buffer[k] == before[k]
        invariant forall k :: COLS * r <= k < COLS * r + c ==> buffer[k] == before[k + COLS]
      {
        var src, dst := Index(r + 1, c), Index(r, c);
        assert src == dst + COLS;
        buffer[dst] := buffer[src];
        c := c + 1;
      }
    }

    /** `scroll`. */
    method Scroll()
      requires buffer.Length == CELLS
      modifies buffer
      ensures buffer[..] == Scrolled(old(buffer[..]))
    {
      ghost var before := buffer[..];
      var r := 1;
      while r < ROWS
        invariant 1 <= r <= ROWS
        invariant forall k :: 0 <= k < COLS * (r - 1) ==> buffer[k] == before[k + COLS]
        invariant forall k :: COLS * (r - 1) <= k < CELLS ==> buffer[k] == before[k]
      {
        MoveRowUp(r - 1);
        r := r + 1;
      }
      var c := 0;
      while c < COLS
        invariant 0 <= c <= COLS
        invariant forall k :: 0 <= k < CELLS - COLS ==> buffer[k] == before[k + COLS]
        invariant forall k :: CELLS - COLS <= k < CELLS - COLS + c ==> buffer[k] == BLANK
        invariant forall k :: CELLS - COLS + c <= k < CELLS ==> buffer[k] == before[k]
      {
        buffer[Index(ROWS - 1, c)] := BLANK;
        c := c + 1;
      }
      assert buffer[..] == Scrolled(before);
    }

    /** `write_char`. */
    method WriteChar(c: byte)
      requires Valid()
      modifies this, buffer
      ensures Valid() && State() == PutChar(old(State()), c) && cursor == old(cursor)
    {
      ghost var before := State();
      if c == NEWLINE {
        col := 0;
        row := row + 1;
      } else {
        buffer[Index(row, col)] := Cell(c);
        col := col + 1;
      }
      if col >= COLS {
        col := 0;
        row := row + 1;
      }
      if row >= ROWS {
        Scroll();
        col := 0;
        row := ROWS - 1;
      }
    }

    /**
     * `text_mode_putc`: one character, then the cursor follows.  Unlike the
     * other operations, the cursor is set through the active display's
     * operations (`current_dev`), which is `NULL` until a display has been
     * made active: `displayActive` says whether one has, and without it the
     * call faults after the character is written.
     */
    method Putc(c: byte, displayActive: bool) returns (faulted: bool)
      requires Valid()
      modifies this, buffer
      ensures Valid() && State() == PutChar(old(State()), c)
      ensures faulted <==> !displayActive
      ensures !faulted ==> cursor == (row, col)
      ensures faulted ==> cursor == old(cursor)
    {
      WriteChar(c);
      if !displayActive {
        return true;
      }
      cursor := (row, col);
      faulted := false;
    }

    /**
     * `text_mode_write`: the characters of `str` up to its NUL, at most `n`
     * of them; returns how many were written.
     */
    method Write(str: seq<byte>, n: int) returns (i: int)
      requires Valid() && 0 <= n && (n <= |str| || NUL in str)
      modifies this, buffer
      ensures Valid() && 0 <= i <= n && i <= |str|
      ensures NUL !in str[..i] && (i == n || str[i] == NUL)
      ensures State() == PutChars(old(State()), str[..i]) && cursor == (row, col)
    {
      ghost var before := State();
      i := 0;
      var remaining := n;
      while (i < |str| && str[i] != NUL) && remaining > 0
        invariant Valid() && 0 <= i <= |str| && i + remaining == n && 0 <= remaining
        invariant NUL !in str[..i]
        invariant State() == PutChars(before, str[..i])
      {
        WriteChar(str[i]);
        PutCharsAppend(before, str[..i], [str[i]]);
        assert str[..i + 1] == str[..i] + [str[i]];
        i, remaining := i + 1, remaining - 1;
      }
      cursor := (row, col);
    }

    /**
     * `text_mode_del`: up to `n` cells to the left of the cursor are blanked
     * and the cursor moves onto the last one; it never leaves its row.
     */
    method Del(n: int)
      requires Valid() && 0 <= n
      modifies this, buffer
      ensures Valid() && row == old(row)
      ensures col == if old(col) <= n then 0 else old(col) - n
      ensures forall k :: 0 <= k < CELLS ==>
        buffer[k] == if Index(row, col) <= k < Index(row, 0) + old(col) then BLANK else old(buffer[k])
      ensures cursor == if n > 0 && old(col) > 0 then (row, col) else old(cursor)
    {
      ghost var before := buffer[..];
      ghost var startCol := col;
      ghost var startCursor := cursor;
      var i := 0;
      while i < n
        invariant Valid() && 0 <= i <= n && row == old(row)
        invariant col == if startCol <= i then 0 else startCol - i
        invariant forall k :: 0 <= k < CELLS ==>
          buffer[k] == if Index(row, col) <= k < Index(row, 0) + startCol then BLANK else before[k]
        invariant cursor == if i > 0 && startCol > 0 then (row, col) else startCursor
      {
        if col >= 1 {
          col := col - 1;
          buffer[Index(row, col)] := BLANK;
          cursor := (row, col);
        }
        i := i + 1;
      }
    }

    /** `text_mode_clear`: every cell blank and the cursor at the top left. */
    method Clear()
      requires buffer.Length == CELLS
      modifies this, buffer
      ensures Valid() && row == 0 && col == 0 && cursor == (0, 0)
      ensures forall k :: 0 <= k < CELLS ==> buffer[k] == BLANK
    {
      col := 0;
      row := 0;
      cursor := (0, 0);
      var c := 0;
      while c < COLS
        invariant 0 <= c <= COLS && row == 0 && col == 0 && cursor == (0, 0)
        invariant forall k :: 0 <= k < CELLS && k % COLS < c ==> buffer[k] == BLANK
      {
        var r := 0;
        while r < ROWS
          invariant 0 <= r <= ROWS && row == 0 && col == 0 && cursor == (0, 0)
          invariant forall k :: 0 <= k < CELLS && (k % COLS < c || (k % COLS == c && k / COLS < r)) ==> buffer[k] == BLANK
        {
          buffer[Index(r, c)] := BLANK;
          r := r + 1;
        }
        c := c + 1;
      }
    }
  }
}
