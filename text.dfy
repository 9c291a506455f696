/** Plain-text helpers of the popover controller: the JavaScript whitespace class,
    `String.prototype.trim`, the single-line collapse `replace(/\s+/g, " ").trim()`
    and the naive tag stripper `replace(/<[^>]+>/g, "")`. */
module Text {

  /** The code points matched by the JavaScript regular-expression class `\s` and
      removed by `trim`: WhiteSpace (TAB, VT, FF, ZWNBSP and the Zs category) and
      LineTerminator (LF, CR, LS, PS). */
  predicate IsSpace(c: char) {
    c == '\t' || c == '\n' || c == '\U{000B}' || c == '\U{000C}' || c == '\r' || c == ' '
    || c == '\U{00A0}' || c == '\U{1680}' || ('\U{2000}' <= c <= '\U{200A}')
    || c == '\U{2028}' || c == '\U{2029}' || c == '\U{202F}' || c == '\U{205F}'
    || c == '\U{3000}' || c == '\U{FEFF}'
  }

  predicate AllSpace(s: string) {
    forall i :: 0 <= i < |s| ==> IsSpace(s[i])
  }

  /** The number of whitespace characters `s` starts with. */
  function LeadingSpace(s: string): (n: nat)
    ensures n <= |s|
  {
    if s != [] && IsSpace(s[0]) then 1 + LeadingSpace(s[1..]) else 0
  }

  /** The number of whitespace characters `s` ends with. */
  function TrailingSpace(s: string): (n: nat)
    ensures n <= |s|
  {
    if s != [] && IsSpace(s[|s| - 1]) then 1 + TrailingSpace(s[..|s| - 1]) else 0
  }

  /** `LeadingSpace` counts the longest all-whitespace prefix. */
  lemma {:induction false} LeadingSpaceSpec(s: string)
    ensures var n := LeadingSpace(s);
      AllSpace(s[..n]) && (n < |s| ==> !IsSpace(s[n]))
  {
    if s != [] && IsSpace(s[0]) {
      LeadingSpaceSpec(s[1..]);
      var n := LeadingSpace(s);
      forall i | 0 < i < n ensures IsSpace(s[..n][i]) {
        assert s[..n][i] == s[1..][..n - 1][i - 1];
      }
      assert n < |s| ==> s[n] == s[1..][n - 1];
    }
  }

  /** `TrailingSpace` counts the longest all-whitespace suffix. */
  lemma {:induction false} TrailingSpaceSpec(s: string)
    ensures var n := TrailingSpace(s);
      AllSpace(s[|s| - n..]) && (n < |s| ==> !IsSpace(s[|s| - n - 1]))
  {
    if s != [] && IsSpace(s[|s| - 1]) {
      var p := s[..|s| - 1];
      TrailingSpaceSpec(p);
      var n := TrailingSpace(s);
      var u, v := s[|s| - n..], p[|p| - (n - 1)..];
      forall i | 0 <= i < n - 1 ensures IsSpace(u[i]) {
        assert u[i] == v[i];
      }
      assert u[n - 1] == s[|s| - 1];
      assert n < |s| ==> s[|s| - n - 1] == p[|p| - (n - 1) - 1];
    }
  }

  /** Drops the leading whitespace. */
  function TrimStart(s: string): string {
    s[LeadingSpace(s)..]
  }

  /** Drops the trailing whitespace. */
  function TrimEnd(s: string): string {
    s[..|s| - TrailingSpace(s)]
  }

  /** `String.prototype.trim`. */
  function Trim(s: string): string {
    TrimEnd(TrimStart(s))
  }

  /** The trimmed text is empty exactly when the text is all whitespace, and
      otherwise neither starts nor ends with whitespace. */
  lemma TrimSpec(s: string)
    ensures var r := Trim(s);
      && (r == [] <==> AllSpace(s))
      && (r != [] ==> !IsSpace(r[0]) && !IsSpace(r[|r| - 1]))
  {
    TrimEmpty(s);
    TrimEnds(s);
  }

  lemma TrimEmpty(s: string)
    ensures Trim(s) == [] <==> AllSpace(s)
  {
    if AllSpace(s) {
      TrimOfSpaces(s);
    } else {
      TrimOfText(s);
    }
  }

  lemma TrimOfSpaces(s: string)
    requires AllSpace(s)
    ensures Trim(s) == []
  {
    LeadingSpaceSpec(s);
  }

  lemma TrimOfText(s: string)
    requires !AllSpace(s)
    ensures Trim(s) != []
  {
    var k := LeadingSpace(s);
    LeadingSpaceSpec(s);
    assert s[..|s|] == s;
    var t := TrimStart(s);
    var m := TrailingSpace(t);
    TrailingSpaceSpec(t);
    assert t[0] == s[k];
  }

  lemma TrimEnds(s: string)
    ensures var r := Trim(s);
      r != [] ==> !IsSpace(r[0]) && !IsSpace(r[|r| - 1])
  {
    var k := LeadingSpace(s);
    var t := TrimStart(s);
    LeadingSpaceSpec(s);
    TrailingSpaceSpec(t);
    var r := Trim(s);
    assert r != [] ==> r[0] == s[k] && r[|r| - 1] == t[|t| - TrailingSpace(t) - 1];
  }

  /** The middle of `s` that `Trim` keeps, starting at `lead`: what it drops at
      either end is whitespace. */
  lemma TrimIsSlice(s: string) returns (lead: nat)
    ensures lead + |Trim(s)| <= |s|
    ensures Trim(s) == s[lead..lead + |Trim(s)|]
    ensures AllSpace(s[..lead])
    ensures AllSpace(s[lead + |Trim(s)|..])
  {
    var t := TrimStart(s);
    var r := TrimEnd(t);
    LeadingSpaceSpec(s);
    TrailingSpaceSpec(t);
    lead := LeadingSpace(s);
    assert s[lead + |r|..] == t[|r|..];
    assert t[..|r|] == s[lead..lead + |r|];
  }

  /** `replace(/\s+/g, " ")`: every maximal run of whitespace becomes one space. */
  function CollapseSpaceRuns(s: string): string
    decreases |s|
  {
    if s == [] then []
    else if IsSpace(s[0]) then [' '] + CollapseSpaceRuns(TrimStart(s))
    else [s[0]] + CollapseSpaceRuns(s[1..])
  }

  /** The collapsed text is empty only for the empty text and starts like it;
      its only whitespace is the plain space, and no two whitespace characters
      are adjacent. */
  lemma {:induction false} CollapseSpaceRunsSpec(s: string)
    ensures var r := CollapseSpaceRuns(s);
      && (r == [] <==> s == [])
      && (s != [] ==> r[0] == (if IsSpace(s[0]) then ' ' else s[0]))
      && (forall i :: 0 <= i < |r| && IsSpace(r[i]) ==> r[i] == ' ')
      && (forall i, j :: 0 <= i && j == i + 1 < |r| && IsSpace(r[i]) ==> !IsSpace(r[j]))
    decreases |s|
  {
    if s != [] {
      var rest := if IsSpace(s[0]) then TrimStart(s) else s[1..];
      CollapseSpaceRunsSpec(rest);
      var tail := CollapseSpaceRuns(rest);
      var r := CollapseSpaceRuns(s);
      var head := if IsSpace(s[0]) then ' ' else s[0];
      assert r == [head] + tail;
      if IsSpace(s[0]) {
        LeadingSpaceSpec(s);
        assert rest != [] ==> rest[0] == s[LeadingSpace(s)];
      }
      forall i | 0 < i < |r| ensures r[i] == tail[i - 1] {
      }
    }
  }

  /** The text a single-line editor is pre-filled with:
      `innerText.replace(/\s+/g, " ").trim()`. */
  function CollapseLine(s: string): string {
    Trim(CollapseSpaceRuns(s))
  }

  /** A sequence is its prefix, a middle part and its suffix. */
  lemma SplitAround<T>(c: seq<T>, i: nat, n: nat)
    requires i + n <= |c|
    ensures c == c[..i] + c[i..][..n] + c[i + n..]
  {
  }

  /** The non-whitespace characters of `s`, in order. */
  function NonSpace(s: string): string {
    if s == [] then []
    else if IsSpace(s[0]) then NonSpace(s[1..])
    else [s[0]] + NonSpace(s[1..])
  }

  lemma {:induction false} NonSpaceAppend(a: string, b: string)
    ensures NonSpace(a + b) == NonSpace(a) + NonSpace(b)
  {
    if a != [] {
      assert (a + b)[0] == a[0] && (a + b)[1..] == a[1..] + b;
      NonSpaceAppend(a[1..], b);
    } else {
      assert a + b == b;
    }
  }

  lemma {:induction false} NonSpaceOfSpaces(s: string)
    requires AllSpace(s)
    ensures NonSpace(s) == []
  {
    if s != [] {
      NonSpaceOfSpaces(s[1..]);
    }
  }

  lemma {:induction false} CollapseRunsKeepsText(s: string)
    ensures NonSpace(CollapseSpaceRuns(s)) == NonSpace(s)
    decreases |s|
  {
    if s == [] {
    } else if IsSpace(s[0]) {
      var rest := TrimStart(s);
      LeadingSpaceSpec(s);
      CollapseRunsKeepsText(rest);
      assert s == s[..|s| - |rest|] + rest;
      NonSpaceAppend(s[..|s| - |rest|], rest);
      NonSpaceOfSpaces(s[..|s| - |rest|]);
      NonSpaceAppend([' '], CollapseSpaceRuns(rest));
    } else {
      CollapseRunsKeepsText(s[1..]);
      NonSpaceAppend([s[0]], CollapseSpaceRuns(s[1..]));
    }
  }

  /** The single-line pre-fill is empty exactly when the element's text is all
      whitespace, and otherwise has no whitespace at either end. */
  lemma CollapseLineEnds(s: string)
    ensures var r := CollapseLine(s);
      && (r == [] <==> AllSpace(s))
      && (r != [] ==> !IsSpace(r[0]) && !IsSpace(r[|r| - 1]))
  {
    CollapseRunsKeepsText(s);
    NonSpaceEmpty(s);
    NonSpaceEmpty(CollapseSpaceRuns(s));
    TrimSpec(CollapseSpaceRuns(s));
  }

  /** Inside the single-line pre-fill every whitespace character is a plain space
      (so no line break reaches the `<input>`) and no two spaces are adjacent. */
  lemma CollapseLineSpaces(s: string)
    ensures var r := CollapseLine(s);
      && (forall i :: 0 <= i < |r| && IsSpace(r[i]) ==> r[i] == ' ')
      && (forall i, j :: 0 <= i && j == i + 1 < |r| && IsSpace(r[i]) ==> !IsSpace(r[j]))
  {
    var c := CollapseSpaceRuns(s);
    var r := CollapseLine(s);
    var lead := TrimIsSlice(c);
    CollapseSpaceRunsSpec(s);
    forall i | 0 <= i < |r| && IsSpace(r[i]) ensures r[i] == ' ' {
      assert r[i] == c[lead + i];
    }
    forall i, j | 0 <= i && j == i + 1 < |r| && IsSpace(r[i]) ensures !IsSpace(r[j]) {
      assert r[i] == c[lead + i] && r[j] == c[lead + j];
    }
  }

  /** The single-line pre-fill keeps every visible character of the element's
      text, in order: only whitespace is merged or dropped. */
  lemma CollapseLineKeepsText(s: string)
    ensures NonSpace(CollapseLine(s)) == NonSpace(s)
  {
    var c := CollapseSpaceRuns(s);
    var r := CollapseLine(s);
    var lead := TrimIsSlice(c);
    SplitAround(c, lead, |r|);
    NonSpaceAppend(c[..lead] + r, c[lead + |r|..]);
    NonSpaceAppend(c[..lead], r);
    NonSpaceOfSpaces(c[..lead]);
    NonSpaceOfSpaces(c[lead + |r|..]);
    CollapseRunsKeepsText(s);
  }

  lemma {:induction false} NonSpaceEmpty(s: string)
    ensures AllSpace(s) <==> NonSpace(s) == []
  {
    if s != [] {
      NonSpaceEmpty(s[1..]);
      assert AllSpace(s) <==> IsSpace(s[0]) && AllSpace(s[1..]);
    }
  }

  // ---------------------------------------------------------------------------
  // How the collapse treats words and the whitespace between them

  /** `t` contains no whitespace at all. */
  predicate NoSpace(t: string) {
    forall i :: 0 <= i < |t| ==> !IsSpace(t[i])
  }

  /** Leading whitespace is counted within `a` when `a` has a visible character. */
  lemma {:induction false} LeadingSpaceAppend(a: string, b: string)
    requires !AllSpace(a)
    ensures LeadingSpace(a + b) == LeadingSpace(a) < |a|
  {
    assert a != [] && (a + b)[0] == a[0] && (a + b)[1..] == a[1..] + b;
    if IsSpace(a[0]) {
      var j :| 0 <= j < |a| && !IsSpace(a[j]);
      assert 0 < j && a[1..][j - 1] == a[j];
      LeadingSpaceAppend(a[1..], b);
    }
  }

  /** A run of whitespace followed by a visible character, or by nothing, is
      counted whole. */
  lemma {:induction false} LeadingSpaceOfRun(w: string, b: string)
    requires AllSpace(w) && (b == [] || !IsSpace(b[0]))
    ensures LeadingSpace(w + b) == |w|
  {
    if w != [] {
      assert (w + b)[0] == w[0] && (w + b)[1..] == w[1..] + b;
      LeadingSpaceOfRun(w[1..], b);
    } else {
      assert w + b == b;
    }
  }

  /** Trailing whitespace is counted within `b` when `b` has a visible character. */
  lemma {:induction false} TrailingSpaceAppend(a: string, b: string)
    requires !AllSpace(b)
    ensures TrailingSpace(a + b) == TrailingSpace(b)
    decreases |b|
  {
    var s := a + b;
    assert b != [] && s[|s| - 1] == b[|b| - 1];
    assert s[..|s| - 1] == a + b[..|b| - 1];
    if IsSpace(b[|b| - 1]) {
      var j :| 0 <= j < |b| && !IsSpace(b[j]);
      assert j < |b| - 1 && b[..|b| - 1][j] == b[j];
      TrailingSpaceAppend(a, b[..|b| - 1]);
    }
  }

  /** The collapsed text ends with a space when the text ends with whitespace,
      and with the text's own last character otherwise. */
  lemma {:induction false} CollapseSpaceRunsLast(a: string)
    requires a != []
    ensures var r := CollapseSpaceRuns(a);
      r != [] && r[|r| - 1] == (if IsSpace(a[|a| - 1]) then ' ' else a[|a| - 1])
    decreases |a|
  {
    if IsSpace(a[0]) {
      var t := TrimStart(a);
      LeadingSpaceSpec(a);
      if t == [] {
        assert a[..|a|] == a;
      } else {
        assert t[|t| - 1] == a[|a| - 1];
        CollapseSpaceRunsLast(t);
      }
    } else if a[1..] != [] {
      assert a[1..][|a| - 2] == a[|a| - 1];
      CollapseSpaceRunsLast(a[1..]);
    }
  }

  /** A text without whitespace passes through the collapse unchanged. */
  lemma {:induction false} CollapseSpaceRunsOfWord(t: string)
    requires NoSpace(t)
    ensures CollapseSpaceRuns(t) == t
    decreases |t|
  {
    if t != [] {
      assert forall i :: 0 <= i < |t| - 1 ==> t[1..][i] == t[i + 1];
      CollapseSpaceRunsOfWord(t[1..]);
    }
  }

  /** A text without whitespace is its own single-line pre-fill. */
  lemma CollapseLineOfWord(t: string)
    requires NoSpace(t)
    ensures CollapseLine(t) == t
  {
    CollapseSpaceRunsOfWord(t);
    if t != [] {
      assert LeadingSpace(t) == 0 && t[0..] == t;
      assert TrailingSpace(t) == 0 && t[..|t|] == t;
    }
  }

  /** A text that starts with whitespace and ends with a visible character: the
      run in front becomes one space and the collapse goes on after it, whatever
      follows the text. */
  lemma SplitSpaceStep(a: string, m: string)
    requires a != [] && IsSpace(a[0]) && !IsSpace(a[|a| - 1])
    ensures var t := TrimStart(a);
      && t != [] && |t| < |a| && t[|t| - 1] == a[|a| - 1]
      && CollapseSpaceRuns(a + m) == " " + CollapseSpaceRuns(t + m)
  {
    assert !AllSpace(a);
    LeadingSpaceAppend(a, m);
    var k := LeadingSpace(a);
    assert (a + m)[0] == a[0];
    assert (a + m)[k..] == a[k..] + m;
  }

  /** A text that starts with a visible character keeps it, whatever follows. */
  lemma SplitWordStep(a: string, m: string)
    requires a != [] && !IsSpace(a[0])
    ensures CollapseSpaceRuns(a + m) == [a[0]] + CollapseSpaceRuns(a[1..] + m)
  {
    assert (a + m)[0] == a[0] && (a + m)[1..] == a[1..] + m;
  }

  /** A text ending in a visible character is collapsed on its own: no run of
      whitespace crosses its end. */
  lemma {:induction false} CollapseSpaceRunsSplit(a: string, m: string)
    requires a == [] || !IsSpace(a[|a| - 1])
    ensures CollapseSpaceRuns(a + m) == CollapseSpaceRuns(a) + CollapseSpaceRuns(m)
    decreases |a|
  {
    if a == [] {
      assert a + m == m;
    } else if IsSpace(a[0]) {
      var t := TrimStart(a);
      SplitSpaceStep(a, m);
      CollapseSpaceRunsSplit(t, m);
      var ct, cm := CollapseSpaceRuns(t), CollapseSpaceRuns(m);
      assert CollapseSpaceRuns(a) == " " + ct;
      assert " " + (ct + cm) == (" " + ct) + cm;
    } else {
      SplitWordStep(a, m);
      assert a[1..] != [] ==> a[1..][|a| - 2] == a[|a| - 1];
      CollapseSpaceRunsSplit(a[1..], m);
      var cr, cm := CollapseSpaceRuns(a[1..]), CollapseSpaceRuns(m);
      assert [a[0]] + (cr + cm) == ([a[0]] + cr) + cm;
    }
  }

  /** A whitespace run followed by a visible character, or by nothing, becomes
      one space. */
  lemma CollapseRunFront(w: string, b: string)
    requires w != [] && AllSpace(w)
    requires b == [] || !IsSpace(b[0])
    ensures CollapseSpaceRuns(w + b) == " " + CollapseSpaceRuns(b)
  {
    LeadingSpaceOfRun(w, b);
    assert (w + b)[0] == w[0];
    assert (w + b)[|w|..] == b;
  }

  /** A whitespace run between two stretches of text becomes exactly one space,
      and the text on either side is collapsed on its own. */
  lemma CollapseSpaceRunsJoin(a: string, w: string, b: string)
    requires a == [] || !IsSpace(a[|a| - 1])
    requires w != [] && AllSpace(w)
    requires b == [] || !IsSpace(b[0])
    ensures CollapseSpaceRuns(a + (w + b)) == CollapseSpaceRuns(a) + " " + CollapseSpaceRuns(b)
  {
    CollapseSpaceRunsSplit(a, w + b);
    CollapseRunFront(w, b);
    var ca, cb := CollapseSpaceRuns(a), CollapseSpaceRuns(b);
    assert ca + (" " + cb) == ca + " " + cb;
  }

  /** Trimming a text with a visible character, then appending, is trimming the
      whole text at the front. */
  lemma TrimStartAppend(x: string, m: string)
    requires !AllSpace(x)
    ensures TrimStart(x + m) == TrimStart(x) + m
  {
    LeadingSpaceAppend(x, m);
    assert (x + m)[LeadingSpace(x)..] == x[LeadingSpace(x)..] + m;
  }

  /** Trimming the end of a text whose tail has a visible character only touches
      the tail. */
  lemma TrimEndPrepend(p: string, y: string)
    requires !AllSpace(y)
    ensures TrimEnd(p + y) == p + TrimEnd(y)
  {
    TrailingSpaceAppend(p, y);
    var n := TrailingSpace(y);
    assert (p + y)[..|p + y| - n] == p + y[..|y| - n];
  }

  /** `trim` splits around a single space between two visible characters. */
  lemma TrimJoin(x: string, y: string)
    requires x != [] && !IsSpace(x[|x| - 1])
    requires y != [] && !IsSpace(y[0])
    ensures Trim(x + " " + y) == Trim(x) + " " + Trim(y)
  {
    assert !AllSpace(x) && !AllSpace(y);
    assert x + " " + y == x + (" " + y);
    TrimStartAppend(x, " " + y);
    var tx := TrimStart(x);
    LeadingSpaceSpec(x);
    assert tx != [] && tx[|tx| - 1] == x[|x| - 1];
    assert TrailingSpace(tx) == 0 && tx[..|tx|] == tx;
    assert tx + (" " + y) == (tx + " ") + y;
    TrimEndPrepend(tx + " ", y);
    assert LeadingSpace(y) == 0 && y[0..] == y;
    assert (tx + " ") + TrimEnd(y) == tx + " " + TrimEnd(y);
  }

  /** In the single-line pre-fill, whitespace between two visible characters
      becomes exactly one space, and each side reads as it would alone. */
  lemma CollapseLineJoin(a: string, w: string, b: string)
    requires a != [] && !IsSpace(a[|a| - 1])
    requires w != [] && AllSpace(w)
    requires b != [] && !IsSpace(b[0])
    ensures CollapseLine(a + (w + b)) == CollapseLine(a) + " " + CollapseLine(b)
  {
    CollapseSpaceRunsJoin(a, w, b);
    CollapseSpaceRunsLast(a);
    var y := CollapseSpaceRuns(b);
    assert y == [b[0]] + CollapseSpaceRuns(b[1..]);
    TrimJoin(CollapseSpaceRuns(a), y);
  }

  // ---------------------------------------------------------------------------
  // The tag stripper `value.replace(/<[^>]+>/g, "")`

  /** A complete match of `<[^>]+>`: an opening `<`, at least one character that
      is not `>`, and a closing `>`. */
  predicate IsTag(t: string) {
    |t| >= 3 && t[0] == '<' && t[|t| - 1] == '>'
    && forall i :: 1 <= i < |t| - 1 ==> t[i] != '>'
  }

  /** Index of the first `>` in `s`, or `|s|` when there is none. */
  function FirstClose(s: string): (k: nat)
    ensures k <= |s|
    ensures k < |s| ==> s[k] == '>'
    ensures forall i :: 0 <= i < k ==> s[i] != '>'
  {
    if s == [] || s[0] == '>' then 0 else 1 + FirstClose(s[1..])
  }

  /** Length of the match the regular expression finds when it is tried at the
      start of `s`, or 0 when it fails there. */
  function TagLength(s: string): (n: nat)
    ensures n <= |s|
  {
    if s != [] && s[0] == '<' then
      var k := 1 + FirstClose(s[1..]);
      if 2 <= k < |s| then k + 1 else 0
    else 0
  }

  /** `TagLength` is the regular expression's verdict at the start of `s`: since
      `[^>]+` can only stop at the first `>`, at most one prefix of `s` is a tag,
      and `TagLength` is its length (0 when there is none). */
  lemma TagLengthIsMatch(s: string)
    ensures forall m :: 0 < m <= |s| ==> (IsTag(s[..m]) <==> m == TagLength(s))
  {
    if s != [] && s[0] == '<' {
      var k := 1 + FirstClose(s[1..]);
      assert forall i :: 1 <= i < k ==> s[i] == s[1..][i - 1];
      forall m | 0 < m <= |s| && IsTag(s[..m]) ensures m == TagLength(s) {
        assert s[m - 1] == s[..m][m - 1] == '>';
        assert m - 1 >= k;
        assert forall i :: 1 <= i < m - 1 ==> s[i] == s[..m][i] != '>';
        assert s[k] == s[1..][k - 1] == '>';
        assert m - 1 <= k;
      }
    } else {
      forall m | 0 < m <= |s| ensures !IsTag(s[..m]) {
        if s != [] { assert s[..m][0] == s[0]; }
      }
    }
  }

  /** The global replacement: scanning left to right, each match is deleted and
      the scan resumes after it; where the match fails one character is kept. */
  function StripTags(s: string): string
    decreases |s|
  {
    if s == [] then []
    else
      var n := TagLength(s);
      if n > 0 then StripTags(s[n..]) else [s[0]] + StripTags(s[1..])
  }

  /** `a` can be obtained from `b` by deleting characters. */
  predicate IsSubsequence(a: string, b: string)
    decreases |b|
  {
    if a == [] then true
    else if b == [] then false
    else (a[0] == b[0] && IsSubsequence(a[1..], b[1..])) || IsSubsequence(a, b[1..])
  }

  lemma {:induction false} SubsequenceDrop(a: string, b: string, n: nat)
    requires n <= |b| && IsSubsequence(a, b[n..])
    ensures IsSubsequence(a, b)
  {
    if n > 0 {
      assert b[n..] == b[1..][n - 1..];
      SubsequenceDrop(a, b[1..], n - 1);
    }
  }

  lemma {:induction false} SubsequenceChars(a: string, b: string)
    requires IsSubsequence(a, b)
    ensures forall c :: c in a ==> c in b
    decreases |b|
  {
    if a != [] && b != [] {
      if a[0] == b[0] && IsSubsequence(a[1..], b[1..]) {
        SubsequenceChars(a[1..], b[1..]);
        assert forall c :: c in a ==> c == a[0] || c in a[1..];
      } else {
        SubsequenceChars(a, b[1..]);
      }
    }
  }

  /** The stripper only deletes: what is left is the input with some characters
      removed and the others in their original order. */
  lemma {:induction false} StripTagsIsSubsequence(s: string)
    ensures IsSubsequence(StripTags(s), s)
    decreases |s|
  {
    if s != [] {
      var n := TagLength(s);
      if n > 0 {
        StripTagsIsSubsequence(s[n..]);
        SubsequenceDrop(StripTags(s[n..]), s, n);
      } else {
        StripTagsIsSubsequence(s[1..]);
        assert [s[0]] + StripTags(s[1..]) == StripTags(s);
      }
    }
  }

  /** No match of `<[^>]+>` starts anywhere in `t`. */
  predicate NoTags(t: string) {
    forall i :: 0 <= i < |t| ==> TagLength(t[i..]) == 0
  }

  /** Text that keeps its first character keeps it at the front of the output. */
  lemma StripTagsKeepsHead(s: string)
    requires s != [] && s[0] != '<'
    ensures StripTags(s) == [s[0]] + StripTags(s[1..])
  {
  }

  /** The stripped text contains no tag: a `<` that survives is either followed
      directly by `>` (the empty tag `<>`) or has no `>` anywhere after it. */
  lemma {:induction false} StripTagsLeavesNoTag(s: string)
    ensures NoTags(StripTags(s))
    decreases |s|
  {
    if s != [] {
      var n := TagLength(s);
      if n > 0 {
        StripTagsLeavesNoTag(s[n..]);
      } else {
        var rest := StripTags(s[1..]);
        var r := [s[0]] + rest;
        StripTagsLeavesNoTag(s[1..]);
        forall i | 1 <= i < |r| ensures TagLength(r[i..]) == 0 {
          assert r[i..] == rest[i - 1..];
        }
        if s[0] == '<' {
          var k := 1 + FirstClose(s[1..]);
          if k >= |s| {
            StripTagsIsSubsequence(s[1..]);
            SubsequenceChars(rest, s[1..]);
            assert '>' !in s[1..];
            assert '>' !in r[1..];
            assert FirstClose(r[1..]) == |r[1..]|;
          } else {
            assert k == 1 && s[1] == '>';
            StripTagsKeepsHead(s[1..]);
            assert r[1] == '>';
            assert FirstClose(r[1..]) == 0;
          }
        }
        assert TagLength(r[0..]) == 0;
      }
    }
  }

  /** Text without tags passes through the stripper unchanged. */
  lemma {:induction false} StripTagsFixesTagFree(s: string)
    requires NoTags(s)
    ensures StripTags(s) == s
    decreases |s|
  {
    if s != [] {
      assert TagLength(s[0..]) == 0;
      assert s[0..] == s;
      forall i | 0 <= i < |s| - 1 ensures TagLength(s[1..][i..]) == 0 {
        assert s[1..][i..] == s[i + 1..];
      }
      StripTagsFixesTagFree(s[1..]);
    }
  }

  /** Stripping twice is the same as stripping once. */
  lemma StripTagsIdempotent(s: string)
    ensures StripTags(StripTags(s)) == StripTags(s)
  {
    StripTagsLeavesNoTag(s);
    StripTagsFixesTagFree(StripTags(s));
  }

  /** Text without a `<` is copied through, whatever follows it. */
  lemma {:induction false} StripTagsKeepsPlain(a: string, rest: string)
    requires '<' !in a
    ensures StripTags(a + rest) == a + StripTags(rest)
    decreases |a|
  {
    if a != [] {
      assert (a + rest)[1..] == a[1..] + rest;
      assert (a + rest)[0] == a[0] && a[0] != '<' && '<' !in a[1..];
      StripTagsKeepsPlain(a[1..], rest);
      StripTagsKeepsHead(a + rest);
      assert a == [a[0]] + a[1..];
    } else {
      assert a + rest == rest;
    }
  }

  /** A tag at the front is deleted and the scan resumes right after it. */
  lemma StripTagsDropsTag(t: string, rest: string)
    requires IsTag(t)
    ensures StripTags(t + rest) == StripTags(rest)
  {
    TagLengthIsMatch(t + rest);
    assert (t + rest)[..|t|] == t;
    assert (t + rest)[|t|..] == rest;
  }

  /** Worked example: the markup around a typed word disappears and the rest of
      the text is kept. */
  lemma StripTagsExample()
    ensures StripTags("<b>" + "Hi" + "</b>" + " there") == "Hi" + " there"
  {
    var tail := "</b>" + " there";
    assert "<b>" + "Hi" + "</b>" + " there" == "<b>" + ("Hi" + tail);
    assert IsTag("<b>") && IsTag("</b>");
    StripTagsDropsTag("<b>", "Hi" + tail);
    StripTagsKeepsPlain("Hi", tail);
    StripTagsDropsTag("</b>", " there");
    assert " there" + [] == " there" && StripTags([]) == [];
    StripTagsKeepsPlain(" there", []);
  }

  /** The empty tag `<>` survives wherever it stands: `[^>]+` needs at least one
      character. */
  lemma StripTagsKeepsEmptyTag(rest: string)
    ensures StripTags("<>" + rest) == "<>" + StripTags(rest)
  {
    var s := "<>" + rest;
    assert s[..2] == "<>" && s[2..] == rest;
    EmptyTagAt(s);
  }

  /** At a `<>` the match fails, so both characters are kept and the scan goes
      on after them. */
  lemma EmptyTagAt(s: string)
    requires |s| >= 2 && s[0] == '<' && s[1] == '>'
    ensures StripTags(s) == s[..2] + StripTags(s[2..])
  {
    var t := s[1..];
    assert t[0] == '>' && FirstClose(t) == 0;
    assert TagLength(s) == 0;
    StripTagsKeepsHead(t);
    assert t[1..] == s[2..];
    assert s[..2] == [s[0], t[0]];
  }

  /** Text between a `<` and a later `>` is lost with them, even when it is not
      markup. */
  lemma StripTagsOverreaches()
    ensures StripTags("a" + "<b and c>" + "d") == "a" + "d"
  {
    assert "a" + "<b and c>" + "d" == "a" + ("<b and c>" + "d");
    assert IsTag("<b and c>");
    StripTagsKeepsPlain("a", "<b and c>" + "d");
    StripTagsDropsTag("<b and c>", "d");
    assert "d" + [] == "d" && StripTags([]) == [];
    StripTagsKeepsPlain("d", []);
  }
}
