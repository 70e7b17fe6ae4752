/** `os.path.splitext` for Windows paths (`ntpath`), where both `/` and `\`
    separate directories. */
module PyPath {
  import opened PyCore

  /** Python's `s.rfind(c)`: the last index of `c` in `s`, or -1. */
  function RFind(s: string, c: char): (r: int)
    ensures -1 <= r < |s|
    ensures r >= 0 ==> s[r] == c
  {
    if s == [] then -1
    else if s[|s| - 1] == c then |s| - 1
    else RFind(s[..|s| - 1], c)
  }

  /** No `c` occurs after the index `rfind` returns. */
  lemma {:induction false} RFindLast(s: string, c: char)
    ensures forall k :: RFind(s, c) < k < |s| ==> s[k] != c
  {
    if s != [] && s[|s| - 1] != c {
      RFindLast(s[..|s| - 1], c);
    }
  }

  /** Characters appended after the last `c` do not move it. */
  lemma {:induction false} RFindAppend(a: string, t: string, c: char)
    requires forall k :: 0 <= k < |t| ==> t[k] != c
    ensures RFind(a + t, c) == RFind(a, c)
    decreases |t|
  {
    if t != [] {
      var t' := t[..|t| - 1];
      assert (a + t)[..|a + t| - 1] == a + t';
      RFindAppend(a, t', c);
    } else {
      assert a + t == a;
    }
  }

  /** The index of the last directory separator, or -1. */
  function LastSeparator(p: string): (r: int)
    ensures -1 <= r < |p|
  {
    Max(RFind(p, '/'), RFind(p, '\\'))
  }

  /** The final path component, after the last separator. */
  function Basename(p: string): string
  {
    p[LastSeparator(p) + 1..]
  }

  /** A bare file name, as a directory listing returns it, is its own final
      component. */
  lemma BasenameOfBareName(p: string)
    requires forall k :: 0 <= k < |p| ==> p[k] != '/' && p[k] != '\\'
    ensures Basename(p) == p
  {
    assert RFind(p, '/') == -1 && RFind(p, '\\') == -1;
  }

  /** Text without separators appended to a path extends its final component. */
  lemma BasenameAppend(p: string, t: string)
    requires forall k :: 0 <= k < |t| ==> t[k] != '/' && t[k] != '\\'
    ensures Basename(p + t) == Basename(p) + t
  {
    RFindAppend(p, t, '/');
    RFindAppend(p, t, '\\');
    assert (p + t)[LastSeparator(p) + 1..] == p[LastSeparator(p) + 1..] + t;
  }

  predicate AllDots(s: string)
  {
    forall k :: 0 <= k < |s| ==> s[k] == '.'
  }

  /** `os.path.splitext(p)`: the extension runs from the last dot of the final
      component, unless everything before that dot in the component is dots
      (as in `.pdf`), in which case there is no extension. Root and extension
      always concatenate back to `p`, and an extension starts with its only dot. */
  function SplitExt(p: string): (r: (string, string))
    ensures r.0 + r.1 == p
    ensures r.1 != [] ==> r.1[0] == '.' && forall k :: 1 <= k < |r.1| ==> r.1[k] != '.'
  {
    var sep := LastSeparator(p);
    var dot := RFind(p, '.');
    RFindLast(p, '.');
    if dot > sep && !AllDots(p[sep + 1..dot]) then (p[..dot], p[dot..]) else (p, "")
  }

  /** How `splitext` treats a name ending in `.pdf`: the extension is `.pdf`
      unless the final component of the stem is made of dots only. */
  lemma SplitExtPdf(stem: string)
    ensures SplitExt(stem + ".pdf") == if AllDots(Basename(stem)) then (stem + ".pdf", "") else (stem, ".pdf")
  {
    var p := stem + ".pdf";
    RFindAppend(stem, ".pdf", '/');
    RFindAppend(stem, ".pdf", '\\');
    assert LastSeparator(p) == LastSeparator(stem);
    assert p[|stem|] == '.';
    RFindLast(p, '.');
    assert RFind(p, '.') == |stem|;
    assert p[LastSeparator(stem) + 1..|stem|] == Basename(stem);
    assert p[..|stem|] == stem;
  }
}
