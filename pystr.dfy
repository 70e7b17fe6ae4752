/** The `str` methods the scripts call: `split()`, `join`, `strip()`,
    `endswith`, `replace` and `str(int)`; and `Contains`, Python's `in` test
    for substrings, which the scripts never call but which states what
    `replace` does. */
module PyStr {
  import opened Seqs

  /** The code point ranges of the characters for which Python's
      `str.isspace()` holds; `split()` and `strip()` without arguments treat
      exactly these as whitespace. */
  predicate IsSpace(c: char)
  {
    || ('\t' <= c <= '\r')
    || ('\U{1C}' <= c <= '\U{20}')
    || c == '\U{85}' || c == '\U{A0}' || c == '\U{1680}'
    || ('\U{2000}' <= c <= '\U{200A}')
    || c == '\U{2028}' || c == '\U{2029}' || c == '\U{202F}' || c == '\U{205F}' || c == '\U{3000}'
  }

  predicate AllSpace(s: string)
  {
    forall i :: 0 <= i < |s| ==> IsSpace(s[i])
  }

  /** A word of `split()`: a nonempty run of non-whitespace characters. */
  predicate IsWord(w: string)
  {
    w != [] && forall i :: 0 <= i < |w| ==> !IsSpace(w[i])
  }

  /** The length of the run of non-whitespace characters `s` starts with. */
  function WordLength(s: string): (n: nat)
    ensures n <= |s|
    ensures forall i :: 0 <= i < n ==> !IsSpace(s[i])
    ensures n < |s| ==> IsSpace(s[n])
  {
    if s == [] || IsSpace(s[0]) then 0 else 1 + WordLength(s[1..])
  }

  /** Python's `s.split()`: the maximal runs of non-whitespace characters, in
      order; leading, trailing and repeated whitespace produce no words. */
  function Split(s: string): (words: seq<string>)
    ensures forall i :: 0 <= i < |words| ==> IsWord(words[i])
    decreases |s|
  {
    if s == [] then []
    else if IsSpace(s[0]) then Split(s[1..])
    else
      var n := WordLength(s);
      [s[..n]] + Split(s[n..])
  }

  /** Python's `sep.join(parts)`. */
  function Join(sep: string, parts: seq<string>): string
  {
    if |parts| == 0 then ""
    else if |parts| == 1 then parts[0]
    else parts[0] + sep + Join(sep, parts[1..])
  }

  /** A word cannot run past a whitespace character. */
  lemma {:induction false} WordLengthBeforeSpace(a: string, t: string)
    requires t != [] && IsSpace(t[0])
    ensures WordLength(a + t) == WordLength(a)
  {
    if a != [] && !IsSpace(a[0]) {
      assert (a + t)[1..] == a[1..] + t;
      WordLengthBeforeSpace(a[1..], t);
    }
  }

  /** A whitespace character is a word boundary: text on its two sides splits
      independently. */
  lemma {:induction false} SplitAtSpace(a: string, c: char, b: string)
    requires IsSpace(c)
    ensures Split(a + [c] + b) == Split(a) + Split(b)
    decreases |a|
  {
    var s := a + [c] + b;
    if a == [] {
      assert s[1..] == b;
    } else if IsSpace(a[0]) {
      assert s[1..] == a[1..] + [c] + b;
      SplitAtSpace(a[1..], c, b);
    } else {
      var n := WordLength(a);
      WordLengthBeforeSpace(a, [c] + b);
      assert s == a + ([c] + b);
      assert s[..n] == a[..n];
      assert s[n..] == a[n..] + [c] + b;
      assert Split(s) == [a[..n]] + Split(s[n..]);
      assert Split(a) == [a[..n]] + Split(a[n..]);
      SplitAtSpace(a[n..], c, b);
      AppendAssoc([a[..n]], Split(a[n..]), Split(b));
    }
  }

  lemma SplitWord(w: string)
    requires IsWord(w)
    ensures Split(w) == [w]
  {
    assert WordLength(w) == |w|;
    assert w[..|w|] == w;
  }

  /** Joining words with single spaces and splitting again gives the words
      back. */
  lemma {:induction false} SplitJoin(ws: seq<string>)
    requires forall i :: 0 <= i < |ws| ==> IsWord(ws[i])
    ensures Split(Join(" ", ws)) == ws
  {
    if |ws| == 1 {
      SplitWord(ws[0]);
    } else if |ws| > 1 {
      SplitWord(ws[0]);
      SplitJoin(ws[1..]);
      SplitAtSpace(ws[0], ' ', Join(" ", ws[1..]));
      assert ws == [ws[0]] + ws[1..];
    }
  }

  /** `split()` finds no word exactly when the text is all whitespace. */
  lemma {:induction false} SplitBlank(s: string)
    ensures Split(s) == [] <==> AllSpace(s)
    decreases |s|
  {
    if s != [] {
      if IsSpace(s[0]) {
        SplitBlank(s[1..]);
        if AllSpace(s[1..]) {
          assert forall i :: 1 <= i < |s| ==> s[i] == s[1..][i - 1];
        }
      } else {
        assert !AllSpace(s);
      }
    }
  }

  /** The number of whitespace characters `s` starts with. */
  function LeadingSpaces(s: string): (n: nat)
    ensures n <= |s|
    ensures forall i :: 0 <= i < n ==> IsSpace(s[i])
    ensures n < |s| ==> !IsSpace(s[n])
  {
    if s != [] && IsSpace(s[0]) then 1 + LeadingSpaces(s[1..]) else 0
  }

  /** The number of whitespace characters `s` ends with. */
  function TrailingSpaces(s: string): (n: nat)
    ensures n <= |s|
    ensures forall i :: |s| - n <= i < |s| ==> IsSpace(s[i])
    ensures n < |s| ==> !IsSpace(s[|s| - n - 1])
  {
    if s != [] && IsSpace(s[|s| - 1]) then 1 + TrailingSpaces(s[..|s| - 1]) else 0
  }

  /** Where `strip` cuts: after the leading whitespace, and before the
      trailing whitespace unless that overlaps the leading one. */
  function StripEnd(s: string): nat
  {
    if LeadingSpaces(s) <= |s| - TrailingSpaces(s) then |s| - TrailingSpaces(s) else LeadingSpaces(s)
  }

  lemma LeadingPart(s: string)
    ensures AllSpace(s[..LeadingSpaces(s)])
  {
    var i := LeadingSpaces(s);
    forall k | 0 <= k < i
      ensures IsSpace(s[..i][k])
    {
      assert s[..i][k] == s[k];
    }
  }

  lemma LeadingEdge(s: string)
    requires LeadingSpaces(s) < |s|
    ensures !IsSpace(s[LeadingSpaces(s)])
  {
  }

  lemma TrailingEdge(s: string, j: int)
    requires 0 < j == |s| - TrailingSpaces(s)
    ensures !IsSpace(s[j - 1])
  {
  }

  lemma TrailingPart(s: string, j: nat)
    requires |s| - TrailingSpaces(s) <= j <= |s|
    ensures AllSpace(s[j..])
  {
    forall k | 0 <= k < |s| - j
      ensures IsSpace(s[j..][k])
    {
      assert s[j..][k] == s[j + k];
    }
  }

  lemma StripParts(s: string)
    ensures var i, j := LeadingSpaces(s), StripEnd(s);
      && 0 <= i <= j <= |s|
      && AllSpace(s[..i]) && AllSpace(s[j..])
      && (i < j ==> !IsSpace(s[i]) && !IsSpace(s[j - 1]))
  {
    var i, j := LeadingSpaces(s), StripEnd(s);
    if i < j {
      LeadingEdge(s);
      TrailingEdge(s, j);
    }
    LeadingPart(s);
    TrailingPart(s, j);
  }

  /** Python's `s.strip()`: `s` without its leading and trailing whitespace.
      What is removed is whitespace, what is kept is a contiguous part of `s`,
      and the result neither starts nor ends with whitespace. */
  function Strip(s: string): (r: string)
    ensures r == [] || (!IsSpace(r[0]) && !IsSpace(r[|r| - 1]))
    ensures exists i, j {:trigger s[i..j]} :: 0 <= i <= j <= |s| && r == s[i..j] && AllSpace(s[..i]) && AllSpace(s[j..])
  {
    StripParts(s);
    s[LeadingSpaces(s)..StripEnd(s)]
  }

  /** Stripping twice is stripping once. */
  lemma StripIdempotent(s: string)
    ensures Strip(Strip(s)) == Strip(s)
  {
    var r := Strip(s);
    if r != [] {
      assert LeadingSpaces(r) == 0;
      assert TrailingSpaces(r) == 0;
      assert r[0..|r|] == r;
    }
  }

  /** Python's `s.endswith(suffix)`. */
  predicate EndsWith(s: string, suffix: string)
  {
    |suffix| <= |s| && s[|s| - |suffix|..] == suffix
  }

  lemma EndsWithIff(s: string, suffix: string)
    ensures EndsWith(s, suffix) <==> exists stem :: s == stem + suffix
  {
    if EndsWith(s, suffix) {
      var stem := s[..|s| - |suffix|];
      assert s == stem + suffix;
    }
  }

  /** Python's `pat in s`. */
  predicate Contains(s: string, pat: string)
  {
    exists i {:trigger s[i..]} :: 0 <= i && i + |pat| <= |s| && s[i..][..|pat|] == pat
  }

  /** Python's `s.replace(pat, rep)` for a nonempty `pat`: every occurrence
      found scanning left to right, without overlaps, is replaced. */
  function Replace(s: string, pat: string, rep: string): string
    requires pat != []
    decreases |s|
  {
    if |s| < |pat| then s
    else if s[..|pat|] == pat then rep + Replace(s[|pat|..], pat, rep)
    else [s[0]] + Replace(s[1..], pat, rep)
  }

  /** Without an occurrence of `pat` there is nothing to replace. */
  lemma {:induction false} ReplaceAbsent(s: string, pat: string, rep: string)
    requires pat != []
    requires !Contains(s, pat)
    ensures Replace(s, pat, rep) == s
    decreases |s|
  {
    if |s| >= |pat| {
      assert s[0..][..|pat|] != pat;
      assert s[..|pat|] != pat;
      assert !Contains(s[1..], pat) by {
        forall i | 0 <= i && i + |pat| <= |s| - 1
          ensures s[1..][i..][..|pat|] != pat
        {
          assert s[1..][i..] == s[i + 1..];
        }
      }
      ReplaceAbsent(s[1..], pat, rep);
      assert s == [s[0]] + s[1..];
    }
  }

  /** With a longer replacement, replacing never shortens the text and an
      occurrence makes it strictly longer. */
  lemma {:induction false} ReplaceGrows(s: string, pat: string, rep: string)
    requires pat != [] && |rep| > |pat|
    ensures |Replace(s, pat, rep)| >= |s|
    ensures Contains(s, pat) ==> |Replace(s, pat, rep)| > |s|
    decreases |s|
  {
    if |s| >= |pat| {
      if s[..|pat|] == pat {
        ReplaceGrows(s[|pat|..], pat, rep);
      } else {
        ReplaceGrows(s[1..], pat, rep);
        if Contains(s, pat) {
          var i :| 0 <= i && i + |pat| <= |s| && s[i..][..|pat|] == pat;
          assert i != 0;
          assert s[1..][i - 1..] == s[i..];
          assert Contains(s[1..], pat);
        }
      }
    } else {
      assert !Contains(s, pat);
    }
  }

  /** No proper suffix of `pat` is also a prefix of it, so two occurrences of
      `pat` can never overlap. */
  predicate NoBorder(pat: string)
  {
    forall k :: 0 < k < |pat| ==> pat[k..] != pat[..|pat| - k]
  }

  lemma BorderAt(s: string, pat: string)
    requires 0 < |s| < |pat|
    requires (s + pat)[..|pat|] == pat
    ensures pat[|s|..] == pat[..|pat| - |s|]
  {
    assert (s + pat)[..|pat|][|s|..] == pat[..|pat| - |s|];
  }

  /** Text shorter than a border-free `pat` is left alone, and a `pat` right
      after it is found only at its own position. */
  lemma {:induction false} ReplaceShortPrefix(s: string, pat: string, rep: string, b: string)
    requires pat != [] && NoBorder(pat) && |s| < |pat|
    ensures Replace(s + pat + b, pat, rep) == s + rep + Replace(b, pat, rep)
    decreases |s|
  {
    var t, rest := s + pat + b, Replace(b, pat, rep);
    if s == [] {
      assert t == pat + b;
      assert t[..|pat|] == pat;
      assert t[|pat|..] == b;
    } else {
      assert t[..|pat|] == (s + pat)[..|pat|];
      assert t[..|pat|] != pat by {
        if (s + pat)[..|pat|] == pat {
          BorderAt(s, pat);
          assert false;
        }
      }
      assert t[1..] == s[1..] + pat + b;
      assert Replace(t, pat, rep) == [s[0]] + Replace(s[1..] + pat + b, pat, rep);
      ReplaceShortPrefix(s[1..], pat, rep, b);
      AppendAssoc([s[0]], s[1..] + rep, rest);
      AppendAssoc([s[0]], s[1..], rep);
      assert [s[0]] + s[1..] == s;
    }
  }

  /** For a pattern that cannot overlap itself, every occurrence is replaced:
      around any one occurrence, the text before it and the text after it are
      replaced on their own. With `ReplaceAbsent` this fixes the result for
      every text. */
  lemma {:induction false} ReplaceOccurrence(s: string, pat: string, rep: string, b: string)
    requires pat != [] && NoBorder(pat)
    ensures Replace(s + pat + b, pat, rep) == Replace(s, pat, rep) + rep + Replace(b, pat, rep)
    decreases |s|
  {
    var t, rest := s + pat + b, Replace(b, pat, rep);
    if |s| < |pat| {
      ReplaceShortPrefix(s, pat, rep, b);
      assert Replace(s, pat, rep) == s;
    } else if s[..|pat|] == pat {
      var tail := s[|pat|..];
      assert t[..|pat|] == pat;
      assert t[|pat|..] == tail + pat + b;
      ReplaceOccurrence(tail, pat, rep, b);
      assert Replace(t, pat, rep) == rep + Replace(tail + pat + b, pat, rep);
      assert Replace(s, pat, rep) == rep + Replace(tail, pat, rep);
      AppendAssoc(rep, Replace(tail, pat, rep) + rep, rest);
      AppendAssoc(rep, Replace(tail, pat, rep), rep);
    } else {
      var tail := s[1..];
      assert t[..|pat|] == s[..|pat|];
      assert t[1..] == tail + pat + b;
      ReplaceOccurrence(tail, pat, rep, b);
      assert Replace(t, pat, rep) == [s[0]] + Replace(tail + pat + b, pat, rep);
      assert Replace(s, pat, rep) == [s[0]] + Replace(tail, pat, rep);
      AppendAssoc([s[0]], Replace(tail, pat, rep) + rep, rest);
      AppendAssoc([s[0]], Replace(tail, pat, rep), rep);
    }
  }

  /** In particular an occurrence at the very end is replaced after the text
      before it. */
  lemma ReplaceAppend(s: string, pat: string, rep: string)
    requires pat != [] && NoBorder(pat)
    ensures Replace(s + pat, pat, rep) == Replace(s, pat, rep) + rep
  {
    ReplaceOccurrence(s, pat, rep, []);
    assert s + pat + [] == s + pat;
    assert Replace([], pat, rep) == [];
  }

  /** The text changes under `replace` exactly when `pat` occurs in it. */
  lemma ReplaceIdentity(s: string, pat: string, rep: string)
    requires pat != [] && |rep| > |pat|
    ensures Replace(s, pat, rep) == s <==> !Contains(s, pat)
  {
    ReplaceGrows(s, pat, rep);
    if !Contains(s, pat) {
      ReplaceAbsent(s, pat, rep);
    }
  }

  predicate IsDigit(c: char)
  {
    '0' <= c <= '9'
  }

  function DigitChar(d: nat): (c: char)
    requires d < 10
    ensures IsDigit(c)
  {
    ('0' as int + d) as char
  }

  function DigitValue(c: char): nat
    requires IsDigit(c)
  {
    (c as int) - ('0' as int)
  }

  /** Python's `str(n)` (and `f"{n}"`) for a non-negative integer: its
      decimal digits, with no leading zero. */
  function IntToDecimal(n: nat): (s: string)
    ensures s != [] && forall i :: 0 <= i < |s| ==> IsDigit(s[i])
    ensures s[0] == '0' <==> n == 0
    ensures n == 0 ==> s == "0"
  {
    if n < 10 then [DigitChar(n)] else IntToDecimal(n / 10) + [DigitChar(n % 10)]
  }

  /** The number a string of decimal digits denotes. */
  function DecimalValue(s: string): nat
    requires forall i :: 0 <= i < |s| ==> IsDigit(s[i])
  {
    if s == [] then 0 else 10 * DecimalValue(s[..|s| - 1]) + DigitValue(s[|s| - 1])
  }

  /** Reading back the digits `str(n)` prints gives `n`. */
  lemma {:induction false} DecimalRoundTrip(n: nat)
    ensures DecimalValue(IntToDecimal(n)) == n
  {
    var s := IntToDecimal(n);
    if n >= 10 {
      var q, d := n / 10, n % 10;
      DecimalRoundTrip(q);
      assert s == IntToDecimal(q) + [DigitChar(d)];
      assert s[..|s| - 1] == IntToDecimal(q);
      assert DigitValue(s[|s| - 1]) == d;
      assert DecimalValue(s) == 10 * q + d;
    }
  }
}
