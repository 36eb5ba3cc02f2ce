/** Lines and line numbers in the editor (src/kernel/fs.c:615-633, 687-735, 790-808). */
module EditText {
  import opened Options

  // ---------- lines ----------

  /** The end of the line that starts at `pos`: the next newline, or the end of the text. */
  function LineEnd(s: string, pos: nat): (e: nat)
    requires pos <= |s|
    ensures pos <= e <= |s|
    ensures forall j :: pos <= j < e ==> s[j] != '\n'
    ensures e < |s| ==> s[e] == '\n'
    decreases |s| - pos
  {
    if pos == |s| || s[pos] == '\n' then pos else LineEnd(s, pos + 1)
  }

  function Newlines(s: string): nat
  {
    if s == "" then 0 else Newlines(s[..|s| - 1]) + if s[|s| - 1] == '\n' then 1 else 0
  }

  /** The line count of the `:e` command: a last line without newline counts too. */
  function TotalLines(s: string): nat
  {
    Newlines(s) + if s != "" && s[|s| - 1] != '\n' then 1 else 0
  }

  /** Where line `n` starts, counting lines from 0. */
  ghost predicate LineStartsAt(s: string, n: nat, pos: nat)
  {
    pos < |s| && Newlines(s[..pos]) == n && (pos > 0 ==> s[pos - 1] == '\n')
  }

  /** Line `n` replaced by `text`: the bytes before the line, the text, the bytes after the line. */
  function Splice(s: string, pos: nat, text: string): string
    requires pos <= |s|
  {
    s[..pos] + (text + s[LineEnd(s, pos)..])
  }

  lemma {:induction false} NewlinesOfConcat(a: string, b: string)
    ensures Newlines(a + b) == Newlines(a) + Newlines(b)
    decreases |b|
  {
    if b == "" {
      assert a + b == a;
    } else {
      var n := |b| - 1;
      assert (a + b)[..|a| + n] == a + b[..n];
      NewlinesOfConcat(a, b[..n]);
    }
  }

  lemma {:induction false} NoNewlines(s: string)
    requires forall j :: 0 <= j < |s| ==> s[j] != '\n'
    ensures Newlines(s) == 0
  {
    if s != "" { NoNewlines(s[..|s| - 1]); }
  }

  /** From one line to the next, the newline count goes up by one. */
  lemma NextLine(s: string, pos: nat)
    requires pos <= |s|
    ensures var e := LineEnd(s, pos);
      Newlines(s[..e]) == Newlines(s[..pos]) && (e < |s| ==> Newlines(s[..e + 1]) == Newlines(s[..pos]) + 1)
  {
    var e := LineEnd(s, pos);
    assert s[..e] == s[..pos] + s[pos..e];
    NoNewlines(s[pos..e]);
    NewlinesOfConcat(s[..pos], s[pos..e]);
    if e < |s| {
      assert s[..e + 1][..e] == s[..e];
    }
  }

  // ---------- the rebuild loop of `:e n text` ----------

  /** The rest of the rebuilt text from `pos`, where line `cur` starts; line `idx` is replaced. */
  function Rebuild(s: string, pos: nat, cur: nat, idx: nat, text: string): string
    requires pos <= |s|
    decreases |s| - pos
  {
    if pos == |s| then ""
    else
      var e := LineEnd(s, pos);
      var segment := if cur == idx then text else s[pos..e];
      if e < |s| then segment + "\n" + Rebuild(s, e + 1, cur + 1, idx, text) else segment
  }

  /** One turn of the loop: a line `segment` that ends at `e`, and the rest. */
  lemma RebuildTurn(s: string, pos: nat, cur: nat, idx: nat, text: string, e: nat, segment: string, all: string)
    requires pos < |s| && e == LineEnd(s, pos) && segment == if cur == idx then text else s[pos..e]
    requires all == Rebuild(s, pos, cur, idx, text)
    ensures all == if e < |s| then segment + "\n" + Rebuild(s, e + 1, cur + 1, idx, text) else segment
  {}

  lemma Glue(s: string, i: nat, j: nat, k: nat)
    requires i <= j < k <= |s| && s[j] == '\n'
    ensures s[i..j] + "\n" + s[j + 1..k] == s[i..k]
  {}

  lemma GlueRest(s: string, i: nat, j: nat)
    requires i <= j < |s| && s[j] == '\n'
    ensures s[i..j] + "\n" + s[j + 1..] == s[i..]
  {}

  lemma GlueEnd(s: string, j: nat)
    requires j < |s| && s[j] == '\n'
    ensures "\n" + s[j + 1..] == s[j..]
  {}

  lemma Associates(a: string, b: string, c: string)
    ensures a + (b + c) == (a + b) + c
  {}

  /** Past the replaced line the rebuild copies. */
  lemma {:induction false} RebuildCopies(s: string, pos: nat, cur: nat, idx: nat, text: string, all: string)
    requires pos <= |s| && idx < cur && all == Rebuild(s, pos, cur, idx, text)
    ensures all == s[pos..]
    decreases |s| - pos
  {
    if pos < |s| {
      var e := LineEnd(s, pos);
      if e < |s| { RebuildCopies(s, e + 1, cur + 1, idx, text, Rebuild(s, e + 1, cur + 1, idx, text)); }
      CopyTurn(s, pos, cur, idx, text, e, all);
    } else {
      assert s[pos..] == "";
    }
  }

  lemma CopyTurn(s: string, pos: nat, cur: nat, idx: nat, text: string, e: nat, all: string)
    requires pos < |s| && e == LineEnd(s, pos) && cur != idx && all == Rebuild(s, pos, cur, idx, text)
    requires e < |s| ==> Rebuild(s, e + 1, cur + 1, idx, text) == s[e + 1..]
    ensures all == s[pos..]
  {
    RebuildTurn(s, pos, cur, idx, text, e, s[pos..e], all);
    if e < |s| { GlueRest(s, pos, e); } else { assert s[pos..e] == s[pos..]; }
  }

  /** The replaced line itself. */
  lemma RebuildReplaces(s: string, pos: nat, idx: nat, text: string)
    requires pos < |s|
    ensures Rebuild(s, pos, idx, idx, text) == text + s[LineEnd(s, pos)..]
  {
    var e := LineEnd(s, pos);
    RebuildTurn(s, pos, idx, idx, text, e, text, Rebuild(s, pos, idx, idx, text));
    if e < |s| {
      RebuildCopies(s, e + 1, idx + 1, idx, text, Rebuild(s, e + 1, idx + 1, idx, text));
      GlueEnd(s, e);
      Associates(text, "\n", s[e + 1..]);
    } else {
      assert s[e..] == "" && text + "" == text;
    }
  }

  /** Segment by segment, the rebuild is an exact splice: line `idx` starts at `at`. */
  lemma {:induction false} RebuildSplices(s: string, pos: nat, cur: nat, idx: nat, text: string, at: nat, tail: string)
    requires pos <= at < |s| && cur <= idx && LineStartsAt(s, idx, at)
    requires Newlines(s[..pos]) == cur && (pos > 0 ==> s[pos - 1] == '\n') && tail == text + s[LineEnd(s, at)..]
    ensures Rebuild(s, pos, cur, idx, text) == s[pos..at] + tail
    decreases |s| - pos
  {
    if cur == idx {
      SameStart(s, pos, at);
      RebuildReplaces(s, pos, idx, text);
      assert s[pos..at] == "" && "" + tail == tail;
    } else {
      var e := LineEnd(s, pos);
      NextLine(s, pos);
      StartsAfter(s, pos, at);
      RebuildSplices(s, e + 1, cur + 1, idx, text, at, tail);
      SpliceTurn(s, pos, cur, idx, text, e, at, tail);
    }
  }

  lemma SpliceTurn(s: string, pos: nat, cur: nat, idx: nat, text: string, e: nat, at: nat, tail: string)
    requires pos < |s| && e == LineEnd(s, pos) && e < at <= |s| && cur != idx
    requires Rebuild(s, e + 1, cur + 1, idx, text) == s[e + 1..at] + tail
    ensures Rebuild(s, pos, cur, idx, text) == s[pos..at] + tail
  {
    RebuildTurn(s, pos, cur, idx, text, e, s[pos..e], Rebuild(s, pos, cur, idx, text));
    GlueFront(s, pos, e, at, tail);
  }

  lemma GlueFront(s: string, i: nat, j: nat, k: nat, tail: string)
    requires i <= j < k <= |s| && s[j] == '\n'
    ensures s[i..j] + "\n" + (s[j + 1..k] + tail) == s[i..k] + tail
  {
    Glue(s, i, j, k);
    Associates(s[i..j] + "\n", s[j + 1..k], tail);
  }

  /** Two line starts with as many newlines before them are the same place. */
  lemma SameStart(s: string, pos: nat, at: nat)
    requires pos <= at <= |s| && Newlines(s[..pos]) == Newlines(s[..at]) && (at > 0 ==> s[at - 1] == '\n')
    ensures pos == at
  {
    if pos < at {
      assert s[..at][..at - 1] == s[..at - 1];
      assert s[..at - 1] == s[..pos] + s[pos..at - 1];
      NewlinesOfConcat(s[..pos], s[pos..at - 1]);
    }
  }

  lemma StartsAfter(s: string, pos: nat, at: nat)
    requires pos <= at < |s| && Newlines(s[..pos]) < Newlines(s[..at])
    ensures LineEnd(s, pos) < at
  {
    var e := LineEnd(s, pos);
    if at <= e {
      assert s[..at] == s[..pos] + s[pos..at];
      NoNewlines(s[pos..at]);
      NewlinesOfConcat(s[..pos], s[pos..at]);
    }
  }

  /** The start of line `n`, counted from 0, found by skipping `n` lines. */
  function LineStart(s: string, n: nat): nat
  {
    if n == 0 then 0
    else
      var k := LineStart(s, n - 1);
      if k <= |s| then LineEnd(s, k) + 1 else k
  }

  /** `edit_fetch_line` for line `n`, counted from 1: at most 255 bytes of the line. */
  function FetchLine(s: string, n: int): Option<string>
  {
    if n < 1 || n > TotalLines(s) || LineStart(s, n - 1) > |s| then None
    else
      var pos := LineStart(s, n - 1);
      var line := s[pos..LineEnd(s, pos)];
      Some(if |line| <= 255 then line else line[..255])
  }

  /** Every line number below the total has a start. */
  lemma {:induction false} LineExists(s: string, n: nat)
    requires n < TotalLines(s)
    ensures LineStartsAt(s, n, LineStart(s, n))
  {
    if n > 0 {
      LineExists(s, n - 1);
      var k := LineStart(s, n - 1);
      NextLine(s, k);
      TotalFrom(s, LineEnd(s, k));
    }
  }

  lemma TotalFrom(s: string, e: nat)
    requires e <= |s| && Newlines(s[..e]) + 1 < TotalLines(s) && (e < |s| ==> s[e] == '\n')
    ensures e + 1 < |s|
  {
    assert s[..|s|] == s;
  }

  /** No line number from the total on has a start. */
  lemma NoMoreLines(s: string, n: nat, pos: nat)
    requires LineStartsAt(s, n, pos)
    ensures n < TotalLines(s)
  {
    assert s == s[..pos] + s[pos..];
    NewlinesOfConcat(s[..pos], s[pos..]);
    if Newlines(s[pos..]) == 0 {
      assert s[pos..][..|s| - pos - 1] == s[pos..|s| - 1];
    }
  }

  // ---------- line numbers ----------

  function Digit(d: nat): char
    requires d < 10
  {
    '0' + d as char
  }

  predicate IsDigit(c: char) { '0' <= c <= '9' }

  /** The decimal print of the `do ... while` loop at fs.c:622-623. */
  function Decimal(n: nat): (s: string)
    ensures s != "" && forall i :: 0 <= i < |s| ==> IsDigit(s[i])
  {
    if n < 10 then [Digit(n)] else Decimal(n / 10) + [Digit(n % 10)]
  }

  /** A signed 32-bit `int`: what arithmetic leaves of `x`. */
  function Int32(x: int): (r: int)
    ensures -0x8000_0000 <= r < 0x8000_0000
    ensures r == x <==> -0x8000_0000 <= x < 0x8000_0000
  {
    (x + 0x8000_0000) % 0x1_0000_0000 - 0x8000_0000
  }

  /** `n - 1` on an `int`. */
  function Decrement(n: int): int { if n == -0x8000_0000 then 0x7FFF_FFFF else n - 1 }

  function DigitValue(c: char): nat
    requires IsDigit(c)
  {
    c as int - '0' as int
  }

  /** Reading digits from the front into an `int` (fs.c:688-690): the value so far, then what is left. */
  function ParseNumber(acc: int, s: string): (int, string)
    decreases |s|
  {
    if s == "" || !IsDigit(s[0]) then (acc, s) else ParseNumber(Int32(acc * 10 + DigitValue(s[0])), s[1..])
  }

  /** The number that the digits stand for. */
  function Typed(acc: nat, s: string): nat
    decreases |s|
  {
    if s == "" || !IsDigit(s[0]) then acc else Typed(acc * 10 + DigitValue(s[0]), s[1..])
  }

  /** What follows the digits. */
  function AfterDigits(s: string): string
  {
    if s == "" || !IsDigit(s[0]) then s else AfterDigits(s[1..])
  }

  lemma MultiplesVanish(x: int, k: int)
    ensures (x + k * 0x1_0000_0000) % 0x1_0000_0000 == x % 0x1_0000_0000
  {}

  /** Wrapping early or late makes no difference. */
  lemma Int32Step(v: int, d: int)
    ensures Int32(Int32(v) * 10 + d) == Int32(v * 10 + d)
  {
    var k := (v + 0x8000_0000) / 0x1_0000_0000;
    assert Int32(v) == v - k * 0x1_0000_0000;
    MultiplesVanish(v * 10 + d + 0x8000_0000, -10 * k);
  }

  /** The parser computes the typed number modulo 2^32. */
  lemma {:induction false} ParseWraps(v: nat, s: string)
    ensures ParseNumber(Int32(v), s) == (Int32(Typed(v, s)), AfterDigits(s))
    decreases |s|
  {
    if s != "" && IsDigit(s[0]) {
      Int32Step(v, DigitValue(s[0]));
      ParseWraps(v * 10 + DigitValue(s[0]), s[1..]);
    }
  }

  /** Reading a printed number consumes exactly its digits. */
  lemma {:induction false} TypedDecimal(n: nat, rest: string)
    ensures Typed(0, Decimal(n) + rest) == Typed(n, rest) && AfterDigits(Decimal(n) + rest) == AfterDigits(rest)
    decreases n
  {
    if n < 10 {
      var s := [Digit(n)] + rest;
      assert s[1..] == rest;
    } else {
      var last := [Digit(n % 10)] + rest;
      assert Decimal(n) + rest == Decimal(n / 10) + last;
      TypedDecimal(n / 10, last);
      assert last[1..] == rest;
    }
  }

  /** The parser reads a printed number modulo 2^32, up to the first character that is no digit. */
  lemma ParseOfPrint(n: nat, rest: string)
    requires rest == "" || !IsDigit(rest[0])
    ensures ParseNumber(0, Decimal(n) + rest) == (Int32(n), rest)
  {
    TypedDecimal(n, rest);
    ParseWraps(0, Decimal(n) + rest);
  }

  /** So it undoes the printer exactly for numbers below 2^31. */
  lemma ParseUndoesPrint(n: nat, rest: string)
    requires rest == "" || !IsDigit(rest[0])
    ensures ParseNumber(0, Decimal(n) + rest) == (n, rest) <==> n < 0x8000_0000
  {
    ParseOfPrint(n, rest);
  }

  // ---------- C strings ----------

  /** The C string that starts a block of bytes: everything before the first NUL. */
  function UpToNul(s: string): (r: string)
    ensures |r| <= |s| && r == s[..|r|] && '\0' !in r
    ensures |r| < |s| ==> s[|r|] == '\0'
  {
    if s == "" || s[0] == '\0' then "" else [s[0]] + UpToNul(s[1..])
  }

  lemma {:induction false} NulFree(s: string)
    ensures UpToNul(s) == s <==> '\0' !in s
  {}
}
