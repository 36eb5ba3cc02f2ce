/**
 The unbounded log behind the scrollback terminal (src/kernel/kernel.c:95-184, 636-657): everything written since
 the screen was cleared, wrapped at 80 columns.
 */
module ScrollbackModel {

  const COLS: nat := 80
  const BLANK: nat := 0x0720  // a space with attribute 0x07

  /** What reaches the terminal: a `char`, or a request for a fresh prompt line. */
  datatype Event = Char(c: int) | PromptLine

  predicate Breaks(e: Event) { e == Char(10) || e == PromptLine }

  /** `c | (VGA_ATTR << 8)` stored in 16 bits; `c` is a signed 8-bit `char`. */
  function Cell(e: Event): nat
  {
    if e.PromptLine? then BLANK else if 0 <= e.c < 128 then 0x700 + e.c else e.c % 0x1_0000
  }

  /** The low byte of a cell is the character; the high byte is the attribute 7 exactly for ASCII, because a negative
      `char` is sign-extended before the attribute is or-ed in. */
  lemma CellHoldsCharacter(c: int)
    requires -128 <= c < 128
    ensures Cell(Char(c)) < 0x1_0000 && Cell(Char(c)) % 256 == c % 256
    ensures Cell(Char(c)) / 256 == 7 <==> c >= 0
    ensures c < 0 ==> Cell(Char(c)) / 256 == 0xFF
    ensures Cell(PromptLine) == Cell(Char(32)) == BLANK
  {}

  // ---------- the log, one event at a time ----------

  /** One more event at the end of the last row. */
  function Extend(rows: seq<seq<Event>>, e: Event): (r: seq<seq<Event>>)
    requires rows != []
    ensures |r| == |rows|
  {
    rows[..|rows| - 1] + [rows[|rows| - 1] + [e]]
  }

  /** All rows so far, without padding; the last one is the row being written. */
  function Write(rows: seq<seq<Event>>, e: Event): (r: seq<seq<Event>>)
    requires rows != []
    ensures r != []
  {
    if Breaks(e) then rows + [[]]
    else if |rows[|rows| - 1]| + 1 >= 80 then Extend(rows, e) + [[]]
    else Extend(rows, e)
  }

  function LogOf(stream: seq<Event>): (rows: seq<seq<Event>>)
    ensures rows != []
  {
    if stream == [] then [[]] else Write(LogOf(stream[..|stream| - 1]), stream[|stream| - 1])
  }

  ghost predicate RowsFit(rows: seq<seq<Event>>)
  {
    && rows != [] && |rows[|rows| - 1]| < COLS
    && forall i :: 0 <= i < |rows| ==> |rows[i]| <= COLS
  }

  lemma WriteFits(rows: seq<seq<Event>>, e: Event)
    requires RowsFit(rows)
    ensures RowsFit(Write(rows, e))
  {}

  // ---------- the same log, read from the front ----------

  /** How many events from `i` belong on the first row, at most 80 in all. */
  function FirstRow(s: seq<Event>, i: nat): (k: nat)
    requires i <= |s| && i <= 80
    ensures i <= k <= |s| && k <= 80
    ensures forall j :: i <= j < k ==> !Breaks(s[j])
    ensures k < 80 && k < |s| ==> Breaks(s[k])
    decreases |s| - i
  {
    if i == |s| || i == 80 || Breaks(s[i]) then i else FirstRow(s, i + 1)
  }

  /** The stream laid out in rows: a row ends at a break, which is consumed, or when it is 80 long. */
  function Layout(s: seq<Event>): (rows: seq<seq<Event>>)
    ensures rows != []
    decreases |s|
  {
    var k := FirstRow(s, 0);
    if k == 80 then [s[..80]] + Layout(s[80..])
    else if k < |s| then [s[..k]] + Layout(s[k + 1..])
    else [s]
  }

  lemma {:induction false} FirstRowOfAppend(s: seq<Event>, e: Event, i: nat)
    requires i <= |s| && i <= 80
    ensures FirstRow(s + [e], i) ==
            if FirstRow(s, i) == |s| < 80 && !Breaks(e) then |s| + 1 else FirstRow(s, i)
    decreases |s| - i
  {
    if i < |s| && i < 80 && !Breaks(s[i]) {
      FirstRowOfAppend(s, e, i + 1);
    }
  }

  /** One more event changes a layout only at its end. */
  lemma {:induction false} LayoutAppend(s: seq<Event>, e: Event)
    ensures Layout(s + [e]) == Write(Layout(s), e)
    decreases |s|
  {
    var k := FirstRow(s, 0);
    FirstRowOfAppend(s, e, 0);
    var t := s + [e];
    if k == 80 {
      assert t[..80] == s[..80] && t[80..] == s[80..] + [e];
      LayoutAppend(s[80..], e);
      WriteUnder(s[..80], Layout(s[80..]), e);
    } else if k < |s| {
      assert t[..k] == s[..k] && t[k + 1..] == s[k + 1..] + [e];
      LayoutAppend(s[k + 1..], e);
      WriteUnder(s[..k], Layout(s[k + 1..]), e);
    } else if Breaks(e) {
      assert t[..k] == s && t[k + 1..] == [];
      assert Layout([]) == [[]];
    } else if k == 79 {
      assert t[..80] == t && t[80..] == [];
      assert Layout([]) == [[]];
    }
  }

  lemma WriteUnder(row: seq<Event>, rows: seq<seq<Event>>, e: Event)
    requires rows != []
    ensures Write([row] + rows, e) == [row] + Write(rows, e)
  {
    var n := |rows| - 1;
    assert ([row] + rows)[..n + 1] == [row] + rows[..n];
    assert ([row] + rows)[n + 1] == rows[n];
  }

  /** The log kept one event at a time is the stream wrapped at 80 columns. */
  lemma {:induction false} LogIsLayout(stream: seq<Event>)
    ensures LogOf(stream) == Layout(stream)
    ensures RowsFit(LogOf(stream))
  {
    if stream != [] {
      var n := |stream| - 1;
      LogIsLayout(stream[..n]);
      LayoutAppend(stream[..n], stream[n]);
      assert stream[..n] + [stream[n]] == stream;
      WriteFits(LogOf(stream[..n]), stream[n]);
    }
  }

  /** What one more event does to the rows: a newline (10) or a prompt request starts a row and shows nothing; any other
      character goes to the end of the last row, and starts a new one when that row is 80 long. */
  lemma RowsGrow(stream: seq<Event>, e: Event)
    ensures var rows, rows' := LogOf(stream), LogOf(stream + [e]);
      var last := rows[|rows| - 1];
      && (e == Char(10) || e == PromptLine ==> rows' == rows + [[]])
      && (e != Char(10) && e.Char? ==>
            && |rows'| == |rows| + (if |last| == 79 then 1 else 0)
            && rows'[..|rows| - 1] == rows[..|rows| - 1] && rows'[|rows| - 1] == last + [e]
            && (|last| == 79 ==> rows'[|rows|] == []))
  {
    LogIsLayout(stream);
    assert (stream + [e])[..|stream|] == stream;
  }

  /** The cell at column `c` of a log row, padded with blanks. */
  function CellAt(row: seq<Event>, c: nat): nat { if c < |row| then Cell(row[c]) else BLANK }
}
