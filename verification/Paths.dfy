/** Paths and names of the in-memory filesystem (src/kernel/fs.c:41-96, 157-234): strings split at `/`. */
module Paths {

  const FS_MAX_NAME: nat := 48
  const FS_MAX_PATH: nat := 256

  predicate NoSlash(s: string) { forall i :: 0 <= i < |s| ==> s[i] != '/' }

  /** `fs_is_valid_name`. */
  predicate ValidName(s: string)
  {
    s != "" && s != "." && s != ".." && forall i :: 0 <= i < |s| ==> s[i] != '/' && s[i] != '\\'
  }

  /** `fs_ends_with_txt`. */
  predicate EndsWithTxt(s: string) { |s| >= 4 && s[|s| - 4..] == ".txt" }

  /** `fs_strcpy` into a buffer of `max` bytes. */
  function Truncate(s: string, max: nat): string
    requires max > 0
  {
    if |s| <= max - 1 then s else s[..max - 1]
  }

  // ---------- splitting ----------

  /** The end of the component that starts at `i`. */
  function ComponentEnd(p: string, i: nat): (k: nat)
    requires i <= |p|
    ensures i <= k <= |p|
    ensures forall j :: i <= j < k ==> p[j] != '/'
    ensures k < |p| ==> p[k] == '/'
    decreases |p| - i
  {
    if i == |p| || p[i] == '/' then i else ComponentEnd(p, i + 1)
  }

  /** The non-empty pieces of `p` between slashes. */
  function Components(p: string): seq<string>
    decreases |p|
  {
    if p == "" then []
    else if p[0] == '/' then Components(p[1..])
    else var k := ComponentEnd(p, 0); assert k > 0; [p[..k]] + Components(p[k..])
  }

  lemma {:induction false} EndIs(p: string, i: nat, k: nat)
    requires i <= k <= |p| && (forall j :: i <= j < k ==> p[j] != '/') && (k < |p| ==> p[k] == '/')
    ensures ComponentEnd(p, i) == k
  {}

  lemma {:induction false} ComponentsAreNames(p: string)
    ensures forall c :: c in Components(p) ==> c != "" && NoSlash(c)
    decreases |p|
  {
    if p != "" {
      if p[0] == '/' {
        ComponentsAreNames(p[1..]);
      } else {
        ComponentsAreNames(p[ComponentEnd(p, 0)..]);
      }
    }
  }

  /** A slash always separates: the pieces before it and after it are the pieces of the whole. */
  lemma {:induction false} SplitAtSlash(a: string, b: string)
    ensures Components(a + "/" + b) == Components(a) + Components(b)
    decreases |a|
  {
    var p := a + "/" + b;
    if a == "" {
      assert p[1..] == b;
    } else if a[0] == '/' {
      assert p[1..] == a[1..] + "/" + b;
      SplitAtSlash(a[1..], b);
    } else {
      var k := ComponentEnd(a, 0);
      EndIs(p, 0, k);
      assert p[..k] == a[..k] && p[k..] == a[k..] + "/" + b;
      SplitAtSlash(a[k..], b);
      Prepend(a[..k], Components(a[k..]), Components(b));
    }
  }

  lemma Prepend(first: string, a: seq<string>, b: seq<string>)
    ensures [first] + (a + b) == ([first] + a) + b
  {}

  lemma {:induction false} SingleComponent(c: string)
    requires c != "" && NoSlash(c)
    ensures Components(c) == [c]
  {
    EndIs(c, 0, |c|);
    assert c[|c|..] == "" && c[..|c|] == c;
  }

  // ---------- joining ----------

  function Join(names: seq<string>): string
  {
    if names == [] then ""
    else if |names| == 1 then names[0]
    else Join(names[..|names| - 1]) + "/" + names[|names| - 1]
  }

  ghost predicate Names(names: seq<string>)
  {
    forall i :: 0 <= i < |names| ==> names[i] != "" && NoSlash(names[i])
  }

  /** Splitting undoes joining, with or without a final slash. */
  lemma {:induction false} SplitJoin(names: seq<string>)
    requires Names(names)
    ensures Components(Join(names)) == names
    ensures Components(Join(names) + "/") == names
  {
    var n := |names| - 1;
    if n == 0 {
      SingleComponent(names[0]);
    } else if n > 0 {
      var front, last := names[..n], names[n];
      SplitJoin(front);
      SingleComponent(last);
      SplitAtSlash(Join(front), last);
      assert Join(names) == Join(front) + "/" + last;
      assert front + [last] == names;
    }
    TrailingSlash(Join(names));
  }

  lemma TrailingSlash(p: string)
    ensures Components(p + "/") == Components(p)
  {
    SplitAtSlash(p, "");
    assert p + "/" + "" == p + "/";
    assert Components(p) + [] == Components(p);
  }

  lemma {:induction false} JoinAppend(names: seq<string>, name: string)
    ensures Join(names + [name]) == if names == [] then name else Join(names) + "/" + name
  {
    assert (names + [name])[..|names|] == names;
  }

  lemma {:induction false} JoinNotEmpty(names: seq<string>)
    requires Names(names) && names != []
    ensures Join(names) != "" && Join(names)[|Join(names)| - 1] != '/' && Join(names)[0] != '/'
  {
    var n := |names| - 1;
    assert names[n] != "" && NoSlash(names[n]);
    if n > 0 {
      assert Names(names[..n]);
      JoinNotEmpty(names[..n]);
    }
  }

  // ---------- the last slash ----------

  /** One past the last slash among the first `i` characters, or 0. */
  function AfterSlash(p: string, i: nat): (k: nat)
    requires i <= |p|
    ensures k <= i
    ensures k > 0 ==> p[k - 1] == '/'
    ensures forall j :: k <= j < i ==> p[j] != '/'
  {
    if i == 0 || p[i - 1] == '/' then i else AfterSlash(p, i - 1)
  }

  /** What follows the last slash. */
  function LastPart(p: string): string { p[AfterSlash(p, |p|)..] }

  /** The pieces of a path are those of its parent path and, if it is not empty, the last part. */
  lemma {:induction false} PartsOfPath(p: string)
    requires LastPart(p) != ""
    ensures var k := AfterSlash(p, |p|);
      Components(p) == (if k == 0 then [] else Components(p[..k - 1])) + [LastPart(p)]
    ensures NoSlash(LastPart(p))
  {
    var k := AfterSlash(p, |p|);
    var last := p[k..];
    assert last == LastPart(p);
    assert NoSlash(last) by {
      forall i | 0 <= i < |last| ensures last[i] != '/' { assert last[i] == p[k + i]; }
    }
    SingleComponent(last);
    if k > 0 {
      var parent := p[..k - 1];
      assert p == parent + "/" + last;
      SplitAtSlash(parent, last);
    } else {
      assert last == p && [] + [last] == [last];
    }
  }
}
