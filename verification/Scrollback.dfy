/** The 100-row terminal as the kernel runs it (src/kernel/kernel.c:95-184, 636-657). */
module Scrollback {
  import opened ScrollbackModel

  const SCROLLBACK_SIZE: nat := 100
  const VGA_ROWS: nat := 25

  function Max(a: int, b: int): int { if a < b then b else a }

  /** How many of `n` log rows are stored. */
  function Stored(n: nat): nat { if n < 100 then n else 100 }

  /** Cell `c` of log row `i`; blank outside the log. */
  function LogCell(rows: seq<seq<Event>>, i: int, c: nat): nat
  {
    if 0 <= i < |rows| then CellAt(rows[i], c) else BLANK
  }

  /** The first stored row that is on the screen. */
  function Top(totalLines: int, offset: int): int { Max(0, totalLines - VGA_ROWS - offset) }

  /** At offset 0 the screen ends with the newest row, each step up shows exactly one row more of the past, and the
      largest offset reaches the oldest stored row. */
  lemma WindowMoves(totalLines: int, offset: int)
    requires 0 <= offset <= Max(0, totalLines - 25) && totalLines >= 0
    ensures 0 <= Top(totalLines, offset)
    ensures totalLines >= 25 ==> Top(totalLines, offset) + 25 == totalLines - offset
    ensures totalLines < 25 ==> Top(totalLines, offset) == 0
    ensures offset == Max(0, totalLines - 25) ==> Top(totalLines, offset) == 0
  {}

  class Terminal {
    const history: array2<nat>
    const screen: array2<nat>
    var totalLines: int
    var cursorRow: nat
    var cursorCol: nat
    var scrollOffset: int
    ghost var stream: seq<Event>    // everything since the last clear
    ghost var log: seq<seq<Event>>  // the same, wrapped at 80 columns

    ghost predicate Shape()
    {
      && history.Length0 == SCROLLBACK_SIZE && history.Length1 == COLS
      && screen.Length0 == VGA_ROWS && screen.Length1 == COLS && history != screen
    }

    /** Row `r` of the history shows log row `base + r`. */
    ghost predicate RowShows(rows: seq<seq<Event>>, base: int, r: nat)
      requires Shape() && r < SCROLLBACK_SIZE
      reads history
    {
      forall c :: 0 <= c < COLS ==> history[r, c] == LogCell(rows, base + r, c)
    }

    ghost predicate HistoryShows(rows: seq<seq<Event>>, base: int)
      requires Shape()
      reads history
    {
      forall r :: 0 <= r < SCROLLBACK_SIZE ==> RowShows(rows, base, r)
    }

    /** The counters agree with the log. */
    ghost predicate Counts(rows: seq<seq<Event>>)
      reads this
    {
      && RowsFit(rows)
      && totalLines == Stored(|rows|) && cursorRow == 0 && cursorCol == |rows[|rows| - 1]|
      && 0 <= scrollOffset <= Max(0, totalLines - VGA_ROWS)
    }

    /** The stored rows are the last rows of the log, at most 100; the rest of the buffer is blank. */
    ghost predicate Valid()
      reads this, history
    {
      Shape() && log == LogOf(stream) && Counts(log) && HistoryShows(log, |log| - totalLines)
    }

    /** The screen shows 25 consecutive rows of the log, `scrollOffset` rows above the newest. */
    ghost predicate ScreenShows(rows: seq<seq<Event>>)
      requires Shape()
      reads this, screen
    {
      var top := |rows| - totalLines + Top(totalLines, scrollOffset);
      forall r, c :: 0 <= r < VGA_ROWS && 0 <= c < COLS ==> screen[r, c] == LogCell(rows, top + r, c)
    }

    constructor (buffer: array2<nat>, display: array2<nat>)
      requires buffer.Length0 == SCROLLBACK_SIZE && buffer.Length1 == COLS
      requires display.Length0 == VGA_ROWS && display.Length1 == COLS && buffer != display
      modifies buffer, display
      ensures Valid() && stream == [] && history == buffer && screen == display && ScreenShows(log)
    {
      history, screen := buffer, display;
      new;
      Clear();
    }

    /** `vga_clear`: whatever the buffers held, the log starts again. */
    method Clear()
      requires Shape()
      modifies history, screen, this
      ensures Valid() && stream == [] && ScreenShows(log)
    {
      for i := 0 to SCROLLBACK_SIZE
        invariant forall r, c :: 0 <= r < i && 0 <= c < COLS ==> history[r, c] == BLANK
      {
        BlankRow(i);
      }
      totalLines, scrollOffset, cursorRow, cursorCol := 1, 0, 0, 0;
      stream, log := [], [[]];
      assert HistoryShows([[]], 0) by {
        forall r | 0 <= r < SCROLLBACK_SIZE ensures RowShows([[]], 0, r) {}
      }
      Refresh();
    }

    method BlankRow(r: nat)
      requires Shape() && r < SCROLLBACK_SIZE
      modifies history
      ensures forall i, c :: 0 <= i < SCROLLBACK_SIZE && 0 <= c < COLS ==>
        history[i, c] == if i == r then BLANK else old(history[i, c])
    {
      for j := 0 to COLS
        invariant forall i, c :: 0 <= i < SCROLLBACK_SIZE && 0 <= c < COLS ==>
          history[i, c] == if i == r && c < j then BLANK else old(history[i, c])
      {
        history[r, j] := BLANK;
      }
    }

    /** The row-shifting loops: every row moves up by one; the last row stays. */
    method ShiftUp()
      requires Shape()
      modifies history
      ensures forall i, c :: 0 <= i < SCROLLBACK_SIZE && 0 <= c < COLS ==>
        history[i, c] == old(history[if i < 99 then i + 1 else i, c])
    {
      for k := 0 to SCROLLBACK_SIZE - 1
        invariant forall i, c :: 0 <= i < SCROLLBACK_SIZE && 0 <= c < COLS ==>
          history[i, c] == old(history[if i < k then i + 1 else i, c])
      {
        CopyUp(k);
      }
    }

    method CopyUp(k: nat)
      requires Shape() && k + 1 < SCROLLBACK_SIZE
      modifies history
      ensures forall i, c :: 0 <= i < SCROLLBACK_SIZE && 0 <= c < COLS ==>
        history[i, c] == old(history[if i == k then k + 1 else i, c])
    {
      for j := 0 to COLS
        invariant forall i, c :: 0 <= i < SCROLLBACK_SIZE && 0 <= c < COLS ==>
          history[i, c] == old(history[if i == k && c < j then k + 1 else i, c])
      {
        history[k, j] := history[k + 1, j];
      }
    }

    /** An empty last row looks like no row at all. */
    lemma EmptyRowInvisible(rows: seq<seq<Event>>, base: int)
      requires Shape() && HistoryShows(rows, base)
      ensures HistoryShows(rows + [[]], base)
    {
      forall r | 0 <= r < SCROLLBACK_SIZE ensures RowShows(rows + [[]], base, r) {
        assert RowShows(rows, base, r);
      }
    }

    /** One more row, at the cost of the oldest when all 100 are taken (kernel.c:170-180). */
    method MakeRoom()
      requires Shape() && totalLines <= SCROLLBACK_SIZE
      modifies history, this`totalLines
      ensures totalLines == if old(totalLines) < 100 then old(totalLines) + 1 else 100
      ensures forall i, c :: 0 <= i < SCROLLBACK_SIZE && 0 <= c < COLS ==>
        history[i, c] == if old(totalLines) < 100 then old(history[i, c])
                         else if i < 99 then old(history[i + 1, c]) else BLANK
    {
      totalLines := totalLines + 1;
      if totalLines > SCROLLBACK_SIZE {
        ShiftUp();
        BlankRow(SCROLLBACK_SIZE - 1);
        totalLines := SCROLLBACK_SIZE;
      }
    }

    /** The history after a line break: the log with an empty row at its end. */
    method NewRow(ghost rows: seq<seq<Event>>)
      requires Shape() && |rows| > 0 && totalLines == Stored(|rows|) && HistoryShows(rows, |rows| - totalLines)
      modifies history, this`totalLines
      ensures totalLines == Stored(|rows| + 1) && HistoryShows(rows + [[]], |rows| + 1 - totalLines)
    {
      MakeRoom();
      ghost var base, base' := |rows| - Stored(|rows|), |rows| + 1 - totalLines;
      forall r | 0 <= r < SCROLLBACK_SIZE ensures RowShows(rows, base', r) {
        assert old(RowShows(rows, base, r));
        if r < 99 { assert old(RowShows(rows, base, r + 1)); }
      }
      EmptyRowInvisible(rows, base');
    }

    /** `vga_putchar_with_scrollback`: one more character on the log. */
    method PutChar(ch: int)
      requires Valid() && -128 <= ch < 128
      modifies history, screen, this
      ensures Valid() && stream == old(stream) + [Char(ch)] && scrollOffset == old(scrollOffset)
      ensures Breaks(Char(ch)) || old(cursorCol) == 79 ==> ScreenShows(log)
    {
      LogGrows(stream, Char(ch));
      WriteIs(log, ch);
      ghost var rows := Placed(log, ch);
      Place(ch, log);
      stream := stream + [Char(ch)];
      Finish(rows);
    }

    /** The end of `vga_putchar_with_scrollback`: a line break if the cursor has left the row. */
    method Finish(ghost rows: seq<seq<Event>>)
      requires Shape() && rows != [] && cursorRow <= 1
      requires LogOf(stream) == (if cursorRow > 0 then rows + [[]] else rows) && RowsFit(LogOf(stream))
      requires cursorCol == if cursorRow > 0 then 0 else |rows[|rows| - 1]|
      requires totalLines == Stored(|rows|) && HistoryShows(rows, |rows| - totalLines)
      requires 0 <= scrollOffset <= Max(0, totalLines - VGA_ROWS)
      modifies history, screen, this`totalLines, this`cursorRow, this`log
      ensures Valid() && (old(cursorRow) > 0 ==> ScreenShows(log))
    {
      if cursorRow > 0 { EndRow(rows); } else { log := rows; }
    }

    /** The line break of `vga_putchar_with_scrollback` (kernel.c:168-183): `rows` is the log before it. */
    method EndRow(ghost rows: seq<seq<Event>>)
      requires Shape() && rows != [] && LogOf(stream) == rows + [[]] && RowsFit(rows + [[]]) && cursorCol == 0
      requires totalLines == Stored(|rows|) && HistoryShows(rows, |rows| - totalLines)
      requires 0 <= scrollOffset <= Max(0, totalLines - VGA_ROWS)
      modifies history, screen, this`totalLines, this`cursorRow, this`log
      ensures Valid() && log == rows + [[]] && ScreenShows(log)
    {
      NewRow(rows);
      log := rows + [[]];
      cursorRow := 0;
      Refresh();
    }

    /** The store and the cursor movement of `vga_putchar_with_scrollback` (kernel.c:156-166). */
    method Place(ch: int, ghost rows: seq<seq<Event>>)
      requires Shape() && Counts(rows) && HistoryShows(rows, |rows| - totalLines) && -128 <= ch < 128
      modifies history, this`cursorCol, this`cursorRow
      ensures HistoryShows(Placed(rows, ch), |rows| - totalLines)
      ensures var wraps := ch == 10 || old(cursorCol) == 79;
        cursorRow == (if wraps then 1 else 0) && cursorCol == if wraps then 0 else old(cursorCol) + 1
    {
      if ch == 10 {
        cursorCol := 0;
        cursorRow := cursorRow + 1;
      } else {
        StoreCell(ch, rows);
        cursorCol := cursorCol + 1;
        if cursorCol >= COLS {
          cursorCol := 0;
          cursorRow := cursorRow + 1;
        }
      }
    }

    /** The store at kernel.c:160. */
    method StoreCell(ch: int, ghost rows: seq<seq<Event>>)
      requires Shape() && Counts(rows) && HistoryShows(rows, |rows| - totalLines) && -128 <= ch < 128 && ch != 10
      modifies history
      ensures HistoryShows(Extend(rows, Char(ch)), |rows| - totalLines)
    {
      ghost var base, rows' := |rows| - totalLines, Extend(rows, Char(ch));
      history[totalLines - 1, cursorCol] := if ch >= 0 then 0x700 + ch else ch % 0x1_0000;
      forall r | 0 <= r < SCROLLBACK_SIZE ensures RowShows(rows', base, r) {
        assert old(RowShows(rows, base, r));
      }
    }

    /** `vga_reserve_prompt_line`: a line break that also returns the view to the bottom. */
    method ReservePromptLine()
      requires Valid()
      modifies history, screen, this
      ensures Valid() && stream == old(stream) + [PromptLine] && scrollOffset == 0
      ensures ScreenShows(log)
    {
      LogGrows(stream, PromptLine);
      ghost var rows := log;
      PromptRow(rows);
      stream := stream + [PromptLine];
      ShowBottom(rows + [[]]);
    }

    /** Back to the bottom, at the start of the new row (kernel.c:653-656). */
    method ShowBottom(ghost rows: seq<seq<Event>>)
      requires Shape() && rows != [] && rows == LogOf(stream) && RowsFit(rows) && rows[|rows| - 1] == []
      requires totalLines == Stored(|rows|) && HistoryShows(rows, |rows| - totalLines)
      modifies screen, this`cursorCol, this`cursorRow, this`scrollOffset, this`log
      ensures Valid() && scrollOffset == 0 && ScreenShows(log)
    {
      cursorCol, cursorRow, scrollOffset := 0, 0, 0;
      log := rows;
      Refresh();
    }

    /** The room for the prompt (kernel.c:638-652). */
    method MakePromptRoom()
      requires Shape() && 0 <= totalLines <= SCROLLBACK_SIZE
      modifies history, this`totalLines
      ensures totalLines == if old(totalLines) < 100 then old(totalLines) + 1 else 100
      ensures forall i, c :: 0 <= i < SCROLLBACK_SIZE && 0 <= c < COLS ==>
        history[i, c] == if i == totalLines - 1 then BLANK
                         else old(history[if totalLines < 100 then i else i + 1, c])
    {
      if totalLines >= SCROLLBACK_SIZE {
        ShiftUp();
        totalLines := SCROLLBACK_SIZE;
      } else {
        totalLines := totalLines + 1;
      }
      BlankRow(totalLines - 1);
    }

    /** The history after a prompt line: the log with an empty row at its end. */
    method PromptRow(ghost rows: seq<seq<Event>>)
      requires Shape() && |rows| > 0 && totalLines == Stored(|rows|) && HistoryShows(rows, |rows| - totalLines)
      modifies history, this`totalLines
      ensures totalLines == Stored(|rows| + 1) && HistoryShows(rows + [[]], |rows| + 1 - totalLines)
    {
      MakePromptRoom();
      ghost var base, base' := |rows| - Stored(|rows|), |rows| + 1 - totalLines;
      forall r | 0 <= r < SCROLLBACK_SIZE ensures RowShows(rows, base', r) {
        assert old(RowShows(rows, base, r));
        if r < 99 { assert old(RowShows(rows, base, r + 1)); }
      }
      EmptyRowInvisible(rows, base');
    }

    /** `vga_scroll`: the view moves by `delta` rows, clamped to what is stored. */
    method Scroll(delta: int)
      requires Valid()
      modifies screen, this`scrollOffset
      ensures Valid() && ScreenShows(log)
      ensures scrollOffset == Max(0, Min(old(scrollOffset) + delta, Max(0, totalLines - VGA_ROWS)))
    {
      scrollOffset := scrollOffset + delta;
      if scrollOffset < 0 { scrollOffset := 0; }
      var maxOffset := totalLines - VGA_ROWS;
      if maxOffset < 0 { maxOffset := 0; }
      if scrollOffset > maxOffset { scrollOffset := maxOffset; }
      Refresh();
    }

    /** `vga_refresh`. */
    method Refresh()
      requires Valid()
      modifies screen
      ensures Valid() && ScreenShows(log)
    {
      var startRow := totalLines - VGA_ROWS - scrollOffset;
      if startRow < 0 { startRow := 0; }
      ghost var rows, base := log, |log| - totalLines;
      for r := 0 to VGA_ROWS
        invariant forall i, c :: 0 <= i < r && 0 <= c < COLS ==> screen[i, c] == LogCell(rows, base + startRow + i, c)
      {
        if startRow + r < totalLines { assert RowShows(rows, base, startRow + r); }
        RefreshRow(r, startRow + r);
      }
    }

    method RefreshRow(r: nat, from: nat)
      requires Shape() && r < VGA_ROWS && totalLines <= SCROLLBACK_SIZE
      modifies screen
      ensures forall i, c :: 0 <= i < VGA_ROWS && 0 <= c < COLS ==>
        screen[i, c] == if i != r then old(screen[i, c]) else if from < totalLines then history[from, c] else BLANK
    {
      for j := 0 to COLS
        invariant forall i, c :: 0 <= i < VGA_ROWS && 0 <= c < COLS ==>
          screen[i, c] == if i != r || c >= j then old(screen[i, c])
                          else if from < totalLines then history[from, c] else BLANK
      {
        if from < totalLines {
          screen[r, j] := history[from, j];
        } else {
          screen[r, j] := BLANK;
        }
      }
    }
  }

  /** The log with `ch` stored in its last row, before a line break. */
  function Placed(rows: seq<seq<Event>>, ch: int): (r: seq<seq<Event>>)
    requires rows != []
    ensures |r| == |rows|
  {
    if ch == 10 then rows else Extend(rows, Char(ch))
  }

  lemma WriteIs(rows: seq<seq<Event>>, ch: int)
    requires RowsFit(rows)
    ensures var wraps, r := ch == 10 || |rows[|rows| - 1]| == 79, Placed(rows, ch);
      && Write(rows, Char(ch)) == (if wraps then r + [[]] else r)
      && (!wraps ==> |r[|r| - 1]| == |rows[|rows| - 1]| + 1)
  {}

  function Min(a: int, b: int): int { if a < b then a else b }

  lemma LogGrows(stream: seq<Event>, e: Event)
    requires RowsFit(LogOf(stream))
    ensures LogOf(stream + [e]) == Write(LogOf(stream), e) && RowsFit(LogOf(stream + [e]))
    ensures Breaks(e) ==> LogOf(stream + [e]) == LogOf(stream) + [[]]
  {
    assert (stream + [e])[..|stream|] == stream;
    WriteFits(LogOf(stream), e);
  }
}
