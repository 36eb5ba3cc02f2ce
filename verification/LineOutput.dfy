/** Printing a file line by line, long lines cut into chunks (src/kernel/fs.c:480-496, 749-778). */
module LineOutput {
  import opened EditText

  /** A line cut into pieces of at most `w` characters; an empty line is one empty piece. */
  function Chunks(line: string, w: nat): seq<string>
    requires w > 0
    decreases |line|
  {
    if |line| <= w then [line] else [line[..w]] + Chunks(line[w..], w)
  }

  /** Each newline-delimited line of the text, in chunks. */
  function Output(s: string, w: nat): seq<string>
    requires w > 0
    decreases |s|
  {
    if s == "" then []
    else
      var e := LineEnd(s, 0);
      if e == |s| then Chunks(s, w) else Chunks(s[..e], w) + Output(s[e + 1..], w)
  }

  function Flatten(parts: seq<string>): string
  {
    if parts == [] then "" else parts[0] + Flatten(parts[1..])
  }

  function WithoutNewlines(s: string): string
  {
    if s == "" then "" else (if s[0] == '\n' then "" else [s[0]]) + WithoutNewlines(s[1..])
  }

  lemma {:induction false} FlattenConcat(a: seq<string>, b: seq<string>)
    ensures Flatten(a + b) == Flatten(a) + Flatten(b)
    decreases |a|
  {
    if a == [] {
      assert a + b == b;
    } else {
      assert (a + b)[1..] == a[1..] + b;
      FlattenConcat(a[1..], b);
    }
  }

  lemma {:induction false} ChunksJoin(line: string, w: nat)
    requires w > 0
    ensures Flatten(Chunks(line, w)) == line
    ensures forall c :: c in Chunks(line, w) ==> |c| <= w
    decreases |line|
  {
    if |line| > w {
      ChunksJoin(line[w..], w);
      assert ([line[..w]] + Chunks(line[w..], w))[1..] == Chunks(line[w..], w);
      assert line[..w] + line[w..] == line;
    } else {
      assert [line][1..] == [];
      assert line + "" == line;
    }
  }

  /** Every chunk of a line but the last is full, and only an empty line has an empty chunk. */
  lemma {:induction false} ChunksAreFull(line: string, w: nat)
    requires w > 0
    ensures var cs := Chunks(line, w);
      && cs != [] && (forall i :: 0 <= i < |cs| - 1 ==> |cs[i]| == w)
      && (line == "" ==> cs == [""]) && (line != "" ==> forall i :: 0 <= i < |cs| ==> cs[i] != "")
    decreases |line|
  {
    if |line| > w { ChunksAreFull(line[w..], w); }
  }

  /** Line by line: a line with its newline gives its chunks, a blank one included; so does an unterminated last
      line. */
  lemma OutputByLines(line: string, rest: string, w: nat)
    requires w > 0 && forall j :: 0 <= j < |line| ==> line[j] != '\n'
    ensures Output(line + "\n" + rest, w) == Chunks(line, w) + Output(rest, w)
    ensures Output(line, w) == if line == "" then [] else Chunks(line, w)
  {
    var s := line + "\n" + rest;
    LineEndIs(s, 0, |line|);
    LineEndIs(line, 0, |line|);
    assert s[..|line|] == line && s[|line| + 1..] == rest;
  }

  lemma {:induction false} SkipLine(s: string, e: nat)
    requires e <= |s| && forall j :: 0 <= j < e ==> s[j] != '\n'
    ensures WithoutNewlines(s) == s[..e] + WithoutNewlines(s[e..])
    decreases e
  {
    if e > 0 {
      SkipLine(s[1..], e - 1);
      assert s[1..][e - 1..] == s[e..];
      assert [s[0]] + s[1..][..e - 1] == s[..e];
      assert [s[0]] + (s[1..][..e - 1] + WithoutNewlines(s[e..])) == s[..e] + WithoutNewlines(s[e..]);
    } else {
      assert s[0..] == s;
    }
  }

  /** Nothing is lost: the chunks together are the text without its newlines, and none is too wide. */
  lemma {:induction false} OutputLosesNothing(s: string, w: nat)
    requires w > 0
    ensures Flatten(Output(s, w)) == WithoutNewlines(s)
    ensures forall c :: c in Output(s, w) ==> |c| <= w
    decreases |s|
  {
    if s != "" {
      var e := LineEnd(s, 0);
      SkipLine(s, e);
      ChunksJoin(s[..e], w);
      if e == |s| {
        assert s[..e] == s && s[e..] == "";
        assert s + "" == s;
      } else {
        OutputLosesNothing(s[e + 1..], w);
        FlattenConcat(Chunks(s[..e], w), Output(s[e + 1..], w));
        assert s[e..][1..] == s[e + 1..];
        assert "" + WithoutNewlines(s[e + 1..]) == WithoutNewlines(s[e + 1..]);
      }
    }
  }

  lemma {:induction false} ChunksCut(line: string, more: string, w: nat)
    requires w > 0 && |line| == w && more != ""
    ensures Chunks(line + more, w) == [line] + Chunks(more, w)
  {
    assert (line + more)[..w] == line && (line + more)[w..] == more;
  }

  /** A full line buffer followed by another character is a chunk of its own. */
  lemma {:induction false} CutFull(line: string, rest: string, w: nat)
    requires w > 0 && |line| == w && (forall j :: 0 <= j < w ==> line[j] != '\n') && rest != "" && rest[0] != '\n'
    ensures Output(line + rest, w) == [line] + Output(rest, w)
  {
    var k := LineEnd(rest, 0);
    EndInTail(line, rest);
    ConcatSlices(line, rest, k);
    if k < |rest| { ConcatSlices(line, rest, k + 1); }
    CutFullAt(line + rest, line, rest, k, w);
  }

  lemma {:induction false} CutFullAt(s: string, line: string, rest: string, k: nat, w: nat)
    requires w > 0 && |line| == w && 0 < k <= |rest| && k == LineEnd(rest, 0)
    requires |s| == w + |rest| && LineEnd(s, 0) == w + k && s[..w + k] == line + rest[..k]
    requires k < |rest| ==> s[w + k + 1..] == rest[k + 1..]
    ensures Output(s, w) == [line] + Output(rest, w)
  {
    ChunksCut(line, rest[..k], w);
    FirstLine(s, w + k, w, Output(s, w));
    FirstLine(rest, k, w, Output(rest, w));
    if k < |rest| {
      Regroup([line], Chunks(rest[..k], w), Output(rest[k + 1..], w));
    }
  }

  lemma {:induction false} FirstLine(s: string, e: nat, w: nat, out: seq<string>)
    requires w > 0 && s != "" && e == LineEnd(s, 0) && out == Output(s, w)
    ensures out == if e == |s| then Chunks(s[..e], w) else Chunks(s[..e], w) + Output(s[e + 1..], w)
  {
    if e == |s| { assert s[..e] == s; }
  }

  lemma ConcatSlices(a: string, b: string, n: nat)
    requires n <= |b|
    ensures (a + b)[..|a| + n] == a + b[..n] && (a + b)[|a| + n..] == b[n..]
  {}

  lemma Regroup(a: seq<string>, b: seq<string>, c: seq<string>)
    ensures (a + b) + c == a + (b + c)
  {}

  lemma EndInTail(line: string, rest: string)
    requires forall j :: 0 <= j < |line| ==> line[j] != '\n'
    ensures LineEnd(line + rest, 0) == |line| + LineEnd(rest, 0)
  {
    var s := line + rest;
    var k := LineEnd(rest, 0);
    assert forall j :: 0 <= j < |line| + k ==> s[j] != '\n';
    assert k < |rest| ==> s[|line| + k] == '\n';
    LineEndIs(s, 0, |line| + k);
  }

  lemma LineEndIs(s: string, i: nat, e: nat)
    requires i <= e <= |s| && (forall j :: i <= j < e ==> s[j] != '\n') && (e < |s| ==> s[e] == '\n')
    ensures LineEnd(s, i) == e
  {}

  lemma CutLine(line: string, rest: string, w: nat)
    requires w > 0 && |line| <= w && (forall j :: 0 <= j < |line| ==> line[j] != '\n') && rest != "" && rest[0] == '\n'
    ensures Output(line + rest, w) == [line] + Output(rest[1..], w)
  {
    var s := line + rest;
    EndInTail(line, rest);
    assert s[..|line|] == line && s[|line| + 1..] == rest[1..];
  }

  /** In the middle of the loop: what was emitted and what is still to come make up the whole output. */
  ghost predicate Emitting(emitted: seq<string>, line: string, rest: string, w: nat, all: seq<string>)
    requires w > 0
  {
    && |line| <= w && (forall j :: 0 <= j < |line| ==> line[j] != '\n')
    && emitted + Output(line + rest, w) == all
  }

  lemma {:induction false} EmitLine(emitted: seq<string>, line: string, rest: string, w: nat, all: seq<string>)
    requires w > 0 && Emitting(emitted, line, rest, w, all) && rest != "" && rest[0] == '\n'
    ensures Emitting(emitted + [line], "", rest[1..], w, all)
  {
    CutLine(line, rest, w);
    Regroup(emitted, [line], Output(rest[1..], w));
    assert "" + rest[1..] == rest[1..];
  }

  lemma {:induction false} EmitFull(emitted: seq<string>, line: string, rest: string, w: nat, all: seq<string>)
    requires w > 0 && Emitting(emitted, line, rest, w, all) && rest != "" && rest[0] != '\n' && |line| == w
    ensures Emitting(emitted + [line], "", rest, w, all)
  {
    CutFull(line, rest, w);
    Regroup(emitted, [line], Output(rest, w));
    assert "" + rest == rest;
  }

  lemma {:induction false} KeepChar(emitted: seq<string>, line: string, rest: string, w: nat, all: seq<string>)
    requires w > 0 && Emitting(emitted, line, rest, w, all) && rest != "" && rest[0] != '\n' && |line| < w
    ensures Emitting(emitted, line + [rest[0]], rest[1..], w, all)
  {
    assert (line + [rest[0]]) + rest[1..] == line + rest;
  }

  lemma {:induction false} EmitLast(emitted: seq<string>, line: string, w: nat, all: seq<string>)
    requires w > 0 && Emitting(emitted, line, "", w, all)
    ensures (if line == "" then emitted else emitted + [line]) == all
  {
    assert line + "" == line;
    LineEndIs(line, 0, |line|);
  }

  // ---------- chunks as C strings ----------

  /** What the receiver of `emit` sees: each chunk up to its first NUL. */
  function Seen(parts: seq<string>): (r: seq<string>)
    ensures |r| == |parts|
  {
    seq(|parts|, i requires 0 <= i < |parts| => UpToNul(parts[i]))
  }

  lemma {:induction false} SeenParts(parts: seq<string>)
    ensures |Flatten(Seen(parts))| <= |Flatten(parts)|
    ensures Flatten(Seen(parts)) == Flatten(parts) <==> '\0' !in Flatten(parts)
    decreases |parts|
  {
    if parts != [] {
      var first, rest := parts[0], parts[1..];
      assert Seen(parts)[1..] == Seen(rest);
      SeenParts(rest);
      NulFree(first);
      SamePrefix(UpToNul(first), Flatten(Seen(rest)), first, Flatten(rest));
    }
  }

  /** Two strings with a shorter or equal front and a shorter or equal rest are equal only part by part. */
  lemma SamePrefix(a: string, b: string, c: string, d: string)
    requires |a| <= |c| && |b| <= |d|
    ensures a + b == c + d <==> a == c && b == d
  {
    if a + b == c + d {
      assert |a| == |c|;
      assert a == (a + b)[..|a|] && c == (c + d)[..|c|];
      assert b == (a + b)[|a|..] && d == (c + d)[|c|..];
    }
  }

  lemma {:induction false} NulsRemain(s: string)
    ensures '\0' in WithoutNewlines(s) <==> '\0' in s
  {
    if s != "" {
      NulsRemain(s[1..]);
      assert s == [s[0]] + s[1..];
    }
  }

  /** What is seen is all of the text but its newlines exactly when the text has no NUL. */
  lemma SeenLosesNothingExactly(s: string, w: nat)
    requires w > 0
    ensures Flatten(Seen(Output(s, w))) == WithoutNewlines(s) <==> '\0' !in s
  {
    OutputLosesNothing(s, w);
    SeenParts(Output(s, w));
    NulsRemain(s);
  }

  /** The emit loop of `fs_cat` (width 127) and of `fs_edit_display_content` (width 80). */
  method Emit(text: string, w: nat) returns (emitted: seq<string>)
    requires w > 0
    ensures emitted == Seen(Output(text, w))
  {
    emitted := [];
    var line := "";
    ghost var chunks, all := [], Output(text, w);
    assert "" + text == text && text[0..] == text;
    for i := 0 to |text|
      invariant emitted == Seen(chunks) && Emitting(chunks, line, text[i..], w, all)
    {
      ghost var rest := text[i..];
      assert rest[0] == text[i] && rest[1..] == text[i + 1..];
      line, emitted, chunks := EmitChar(text[i], line, emitted, chunks, rest, w, all);
    }
    assert text[|text|..] == "";
    EmitLast(chunks, line, w, all);
    if line != "" {
      emitted := emitted + [UpToNul(line)];
    }
  }

  /** The body of the emit loop (fs.c:482-491, 757-770). */
  method EmitChar(c: char, line: string, emitted: seq<string>, ghost chunks: seq<string>, ghost rest: string, w: nat,
                  ghost all: seq<string>)
    returns (line': string, emitted': seq<string>, ghost chunks': seq<string>)
    requires w > 0 && rest != "" && rest[0] == c && emitted == Seen(chunks) && Emitting(chunks, line, rest, w, all)
    ensures emitted' == Seen(chunks') && Emitting(chunks', line', rest[1..], w, all)
    ensures emitted' == if c == '\n' || |line| >= w then emitted + [UpToNul(line)] else emitted
    ensures line' == if c == '\n' then "" else if |line| >= w then [c] else line + [c]
  {
    line', emitted', chunks' := line, emitted, chunks;
    if c == '\n' {
      EmitLine(chunks, line, rest, w, all);
      return "", emitted + [UpToNul(line)], chunks + [line];
    }
    if |line| >= w {
      EmitFull(chunks, line, rest, w, all);
      line', emitted', chunks' := "", emitted + [UpToNul(line)], chunks + [line];
    }
    KeepChar(chunks', line', rest, w, all);
    line' := line' + [c];
  }
}
