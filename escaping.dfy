/** The two escapers that build the editor's markup: `escapeHtml` for the text
    between `<textarea>` tags and `escapeAttr` for the `value="…"` attribute of a
    single-line `<input>`. Each is a chain of global single-character replacements;
    `Decode` is the browser's reading of the five character references they emit. */
module Escaping {

  /** `str.replace(/c/g, rep)` for a single character `c`. */
  function ReplaceAll(s: string, c: char, rep: string): (r: string)
    ensures c !in s ==> r == s
  {
    if s == [] then []
    else (if s[0] == c then rep else [s[0]]) + ReplaceAll(s[1..], c, rep)
  }

  /** What the replacement can leave behind: characters of the input other than
      `c`, and characters of `rep`. */
  lemma {:induction false} ReplaceAllChars(s: string, c: char, rep: string)
    ensures forall x :: x in ReplaceAll(s, c, rep) ==> (x in s && x != c) || x in rep
  {
    if s != [] {
      ReplaceAllChars(s[1..], c, rep);
      var head := if s[0] == c then rep else [s[0]];
      assert ReplaceAll(s, c, rep) == head + ReplaceAll(s[1..], c, rep);
      assert forall x :: x in s[1..] ==> x in s;
    }
  }

  lemma {:induction false} ReplaceAllAppend(a: string, b: string, c: char, rep: string)
    ensures ReplaceAll(a + b, c, rep) == ReplaceAll(a, c, rep) + ReplaceAll(b, c, rep)
  {
    if a == [] {
      assert a + b == b;
    } else {
      assert (a + b)[0] == a[0] && (a + b)[1..] == a[1..] + b;
      ReplaceAllAppend(a[1..], b, c, rep);
    }
  }

  /** `escapeHtml`: `&` first, then `<`, then `>`. */
  function EscapeHtml(s: string): string {
    ReplaceAll(ReplaceAll(ReplaceAll(s, '&', "&amp;"), '<', "&lt;"), '>', "&gt;")
  }

  /** `escapeAttr`: `&`, `"`, `'`, `<`, `>`, in that order. */
  function EscapeAttr(s: string): string {
    ReplaceAll(ReplaceAll(ReplaceAll(ReplaceAll(ReplaceAll(
      s, '&', "&amp;"), '"', "&quot;"), '\'', "&#39;"), '<', "&lt;"), '>', "&gt;")
  }

  /** The reference each character becomes in text content. */
  function HtmlEntity(c: char): string {
    if c == '&' then "&amp;" else if c == '<' then "&lt;" else if c == '>' then "&gt;" else [c]
  }

  /** The reference each character becomes inside a quoted attribute value. */
  function AttrEntity(c: char): string {
    if c == '"' then "&quot;" else if c == '\'' then "&#39;" else HtmlEntity(c)
  }

  /** Character-by-character escaping in text content. */
  function HtmlEscaped(s: string): string {
    if s == [] then [] else HtmlEntity(s[0]) + HtmlEscaped(s[1..])
  }

  /** Character-by-character escaping in an attribute value. */
  function AttrEscaped(s: string): string {
    if s == [] then [] else AttrEntity(s[0]) + AttrEscaped(s[1..])
  }

  lemma EscapeHtmlAppend(a: string, b: string)
    ensures EscapeHtml(a + b) == EscapeHtml(a) + EscapeHtml(b)
  {
    ReplaceAllAppend(a, b, '&', "&amp;");
    var a1, b1 := ReplaceAll(a, '&', "&amp;"), ReplaceAll(b, '&', "&amp;");
    ReplaceAllAppend(a1, b1, '<', "&lt;");
    ReplaceAllAppend(ReplaceAll(a1, '<', "&lt;"), ReplaceAll(b1, '<', "&lt;"), '>', "&gt;");
  }

  lemma EscapeAttrAppend(a: string, b: string)
    ensures EscapeAttr(a + b) == EscapeAttr(a) + EscapeAttr(b)
  {
    ReplaceAllAppend(a, b, '&', "&amp;");
    var a1, b1 := ReplaceAll(a, '&', "&amp;"), ReplaceAll(b, '&', "&amp;");
    ReplaceAllAppend(a1, b1, '"', "&quot;");
    var a2, b2 := ReplaceAll(a1, '"', "&quot;"), ReplaceAll(b1, '"', "&quot;");
    ReplaceAllAppend(a2, b2, '\'', "&#39;");
    var a3, b3 := ReplaceAll(a2, '\'', "&#39;"), ReplaceAll(b2, '\'', "&#39;");
    ReplaceAllAppend(a3, b3, '<', "&lt;");
    ReplaceAllAppend(ReplaceAll(a3, '<', "&lt;"), ReplaceAll(b3, '<', "&lt;"), '>', "&gt;");
  }

  lemma ReplaceAllOne(c: char, x: char, rep: string)
    ensures ReplaceAll([c], x, rep) == if c == x then rep else [c]
  {
    assert [c][1..] == [];
  }

  lemma EscapeHtmlOne(c: char)
    ensures EscapeHtml([c]) == HtmlEntity(c)
  {
    ReplaceAllOne(c, '&', "&amp;");
    if c == '&' {
      assert '<' !in "&amp;" && '>' !in "&amp;";
    } else {
      ReplaceAllOne(c, '<', "&lt;");
      if c == '<' {
        assert '>' !in "&lt;";
      } else {
        ReplaceAllOne(c, '>', "&gt;");
      }
    }
  }

  lemma EscapeAttrOne(c: char)
    ensures EscapeAttr([c]) == AttrEntity(c)
  {
    ReplaceAllOne(c, '&', "&amp;");
    if c == '&' {
      assert '"' !in "&amp;" && '\'' !in "&amp;" && '<' !in "&amp;" && '>' !in "&amp;";
    } else {
      ReplaceAllOne(c, '"', "&quot;");
      if c == '"' {
        assert '\'' !in "&quot;" && '<' !in "&quot;" && '>' !in "&quot;";
      } else {
        ReplaceAllOne(c, '\'', "&#39;");
        if c == '\'' {
          assert '<' !in "&#39;" && '>' !in "&#39;";
        } else {
          ReplaceAllOne(c, '<', "&lt;");
          if c == '<' {
            assert '>' !in "&lt;";
          } else {
            ReplaceAllOne(c, '>', "&gt;");
          }
        }
      }
    }
  }

  /** The chain of replacements behaves as one character-by-character escape:
      a later replacement never touches the references an earlier one wrote. */
  lemma {:induction false} EscapeHtmlPerChar(s: string)
    ensures EscapeHtml(s) == HtmlEscaped(s)
  {
    if s != [] {
      EscapeHtmlPerChar(s[1..]);
      assert s == [s[0]] + s[1..];
      EscapeHtmlAppend([s[0]], s[1..]);
      EscapeHtmlOne(s[0]);
    }
  }

  /** The same for the five replacements of `escapeAttr`. */
  lemma {:induction false} EscapeAttrPerChar(s: string)
    ensures EscapeAttr(s) == AttrEscaped(s)
  {
    if s != [] {
      EscapeAttrPerChar(s[1..]);
      assert s == [s[0]] + s[1..];
      EscapeAttrAppend([s[0]], s[1..]);
      EscapeAttrOne(s[0]);
    }
  }

  /** A character that is neither in the input nor in the replacement is not in
      the result; the replaced character is gone unless the replacement has it. */
  lemma ReplaceAllAbsent(s: string, c: char, rep: string, d: char)
    requires (d !in s || d == c) && d !in rep
    ensures d !in ReplaceAll(s, c, rep)
  {
    ReplaceAllChars(s, c, rep);
  }

  /** No markup delimiter survives `escapeHtml`, so the text cannot close the
      `<textarea>` or open a tag. */
  lemma EscapeHtmlHasNoDelimiters(s: string)
    ensures '<' !in EscapeHtml(s) && '>' !in EscapeHtml(s)
  {
    var s1 := ReplaceAll(s, '&', "&amp;");
    var s2 := ReplaceAll(s1, '<', "&lt;");
    assert '<' !in "&lt;" && '<' !in "&gt;" && '>' !in "&gt;";
    ReplaceAllAbsent(s1, '<', "&lt;", '<');
    ReplaceAllAbsent(s2, '>', "&gt;", '<');
    ReplaceAllAbsent(s2, '>', "&gt;", '>');
  }

  /** No quote and no markup delimiter survives `escapeAttr`, so the text cannot
      leave the quoted `value` attribute. */
  lemma EscapeAttrHasNoDelimiters(s: string)
    ensures var r := EscapeAttr(s);
      '"' !in r && '\'' !in r && '<' !in r && '>' !in r
  {
    var s1 := ReplaceAll(s, '&', "&amp;");
    var s2 := ReplaceAll(s1, '"', "&quot;");
    var s3 := ReplaceAll(s2, '\'', "&#39;");
    var s4 := ReplaceAll(s3, '<', "&lt;");
    assert '"' !in "&quot;" && '"' !in "&#39;" && '"' !in "&lt;" && '"' !in "&gt;";
    assert '\'' !in "&#39;" && '\'' !in "&lt;" && '\'' !in "&gt;";
    assert '<' !in "&lt;" && '<' !in "&gt;" && '>' !in "&gt;";
    ReplaceAllAbsent(s1, '"', "&quot;", '"');
    ReplaceAllAbsent(s2, '\'', "&#39;", '"');
    ReplaceAllAbsent(s2, '\'', "&#39;", '\'');
    ReplaceAllAbsent(s3, '<', "&lt;", '"');
    ReplaceAllAbsent(s3, '<', "&lt;", '\'');
    ReplaceAllAbsent(s3, '<', "&lt;", '<');
    ReplaceAllAbsent(s4, '>', "&gt;", '"');
    ReplaceAllAbsent(s4, '>', "&gt;", '\'');
    ReplaceAllAbsent(s4, '>', "&gt;", '<');
    ReplaceAllAbsent(s4, '>', "&gt;", '>');
  }

  /** `s` begins with `p`. */
  predicate StartsWith(s: string, p: string)
    ensures StartsWith(s, p) ==> |p| <= |s|
    decreases p
  {
    p == [] || (s != [] && s[0] == p[0] && StartsWith(s[1..], p[1..]))
  }

  lemma {:induction false} StartsWithPrefix(p: string, rest: string)
    ensures StartsWith(p + rest, p)
  {
    if p != [] {
      assert (p + rest)[1..] == p[1..] + rest;
      StartsWithPrefix(p[1..], rest);
    }
  }

  lemma {:induction false} StartsWithMismatch(s: string, p: string, i: nat)
    requires i < |s| && i < |p| && s[i] != p[i]
    ensures !StartsWith(s, p)
  {
    if i > 0 {
      StartsWithMismatch(s[1..], p[1..], i - 1);
    }
  }

  /** How the browser reads character references back, restricted to the five
      that the escapers emit; any other character stands for itself. */
  function Decode(s: string): string
    decreases |s|
  {
    if s == [] then []
    else if StartsWith(s, "&amp;") then "&" + Decode(s[5..])
    else if StartsWith(s, "&lt;") then "<" + Decode(s[4..])
    else if StartsWith(s, "&gt;") then ">" + Decode(s[4..])
    else if StartsWith(s, "&quot;") then "\"" + Decode(s[6..])
    else if StartsWith(s, "&#39;") then "'" + Decode(s[5..])
    else [s[0]] + Decode(s[1..])
  }

  /** A reference written by `AttrEntity` (which includes every one `HtmlEntity`
      writes) is read back as the character it replaced. */
  lemma DecodeEntity(c: char, rest: string)
    ensures Decode(AttrEntity(c) + rest) == [c] + Decode(rest)
  {
    var e := AttrEntity(c);
    var t := e + rest;
    assert t[|e|..] == rest;
    StartsWithPrefix(e, rest);
    if c == '&' {
    } else if c == '<' {
      StartsWithMismatch(t, "&amp;", 1);
    } else if c == '>' {
      StartsWithMismatch(t, "&amp;", 1);
      StartsWithMismatch(t, "&lt;", 1);
    } else if c == '"' {
      StartsWithMismatch(t, "&amp;", 1);
      StartsWithMismatch(t, "&lt;", 1);
      StartsWithMismatch(t, "&gt;", 1);
    } else if c == '\'' {
      StartsWithMismatch(t, "&amp;", 1);
      StartsWithMismatch(t, "&lt;", 1);
      StartsWithMismatch(t, "&gt;", 1);
      StartsWithMismatch(t, "&quot;", 1);
    } else {
      PlainChar(c, rest);
    }
  }

  /** A character other than `&` is read as itself. */
  lemma PlainChar(c: char, rest: string)
    requires c != '&'
    ensures Decode([c] + rest) == [c] + Decode(rest)
  {
    var t := [c] + rest;
    assert t[1..] == rest;
    StartsWithMismatch(t, "&amp;", 0);
    StartsWithMismatch(t, "&lt;", 0);
    StartsWithMismatch(t, "&gt;", 0);
    StartsWithMismatch(t, "&quot;", 0);
    StartsWithMismatch(t, "&#39;", 0);
  }

  lemma {:induction false} DecodeAttrEscaped(s: string)
    ensures Decode(AttrEscaped(s)) == s
  {
    if s != [] {
      DecodeAttrEscaped(s[1..]);
      DecodeEntity(s[0], AttrEscaped(s[1..]));
    }
  }

  lemma {:induction false} DecodeHtmlEscaped(s: string)
    ensures Decode(HtmlEscaped(s)) == s
  {
    if s != [] {
      DecodeHtmlEscaped(s[1..]);
      var c := s[0];
      if c == '"' || c == '\'' {
        assert HtmlEntity(c) == [c];
        PlainChar(c, HtmlEscaped(s[1..]));
      } else {
        assert HtmlEntity(c) == AttrEntity(c);
        DecodeEntity(c, HtmlEscaped(s[1..]));
      }
    }
  }

  /** The text area shows exactly the text that was escaped into it. */
  lemma EscapeHtmlRoundTrip(s: string)
    ensures Decode(EscapeHtml(s)) == s
  {
    EscapeHtmlPerChar(s);
    DecodeHtmlEscaped(s);
  }

  /** The input's value is exactly the text that was escaped into its attribute. */
  lemma EscapeAttrRoundTrip(s: string)
    ensures Decode(EscapeAttr(s)) == s
  {
    EscapeAttrPerChar(s);
    DecodeAttrEscaped(s);
  }
}
