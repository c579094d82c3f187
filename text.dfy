/**
 * The text helpers of the quiz handler: the markup escaper applied to every
 * question body (`sanitize_html`), the topic-name sanitizer (`sanitize_filename`),
 * and the decimal conversions the handler performs with `str(...)` and `int(...)`.
 */
module Text {
  import opened Wrappers

  // ---------------------------------------------------------------------------
  // Python's str.replace
  // ---------------------------------------------------------------------------

  /** `s.replace(pat, rep)`: every non-overlapping occurrence of `pat`, found left
      to right, is replaced by `rep`. */
  function Replace(s: string, pat: string, rep: string): string
    requires |pat| > 0
    decreases |s|
  {
    if |s| == 0 then s
    else if pat <= s then rep + Replace(s[|pat|..], pat, rep)
    else [s[0]] + Replace(s[1..], pat, rep)
  }

  /** A string in which the first character of `pat` never occurs is left unchanged. */
  lemma {:induction false} ReplaceNoMatch(s: string, pat: string, rep: string)
    requires |pat| > 0
    requires forall i :: 0 <= i < |s| ==> s[i] != pat[0]
    ensures Replace(s, pat, rep) == s
  {
    if |s| > 0 {
      assert !(pat <= s) by { assert s[0] != pat[0]; }
      ReplaceNoMatch(s[1..], pat, rep);
      assert [s[0]] + s[1..] == s;
    }
  }

  /** A character missing from `rep` is missing from the result when it is
      itself the pattern, or when it was missing from `s` in the first place. */
  lemma {:induction false} ReplaceAbsent(s: string, pat: string, rep: string, c: char)
    requires |pat| > 0
    requires c !in rep
    requires pat == [c] || c !in s
    ensures c !in Replace(s, pat, rep)
  {
    if |s| > 0 {
      if pat <= s {
        assert c !in s[|pat|..] || pat == [c];
        ReplaceAbsent(s[|pat|..], pat, rep, c);
      } else {
        assert s[0] != c by {
          if pat == [c] { assert s[0] != pat[0]; }
          else { assert s[0] in s; }
        }
        assert c !in s[1..] || pat == [c];
        ReplaceAbsent(s[1..], pat, rep, c);
      }
    }
  }

  /** When none of the first `n` characters of `s` starts `pat`, replacing
      leaves those `n` characters in front, untouched. */
  lemma {:induction false} ReplaceSkip(s: string, pat: string, rep: string, n: nat)
    requires |pat| > 0
    requires n <= |s|
    requires forall j :: 0 <= j < n ==> s[j] != pat[0]
    ensures Replace(s, pat, rep) == s[..n] + Replace(s[n..], pat, rep)
  {
    if n > 0 {
      assert !(pat <= s) by { assert s[0] != pat[0]; }
      ReplaceSkip(s[1..], pat, rep, n - 1);
      assert s[1..][n - 1..] == s[n..];
      assert [s[0]] + s[1..][..n - 1] == s[..n];
    }
  }

  // ---------------------------------------------------------------------------
  // sanitize_html
  // ---------------------------------------------------------------------------

  /** The six tags the escaper turns back into markup. */
  predicate IsAllowedTag(t: string) {
    t == "<code>" || t == "</code>" || t == "<pre>" || t == "</pre>" || t == "<b>" || t == "</b>"
  }

  /** Every `<` and `>` of `s` belongs to an allowed tag: reading left to right,
      each `<` opens a whole allowed tag, and no `>` occurs outside one. */
  predicate MarkupSafe(s: string)
    decreases |s|
  {
    if |s| == 0 then true
    else if s[0] == '<' then exists k :: 0 < k <= |s| && IsAllowedTag(s[..k]) && MarkupSafe(s[k..])
    else s[0] != '>' && MarkupSafe(s[1..])
  }

  /** Lines 16-17: every `<` becomes `&lt;`, then every `>` becomes `&gt;`. */
  function EscapeAngles(text: string): string {
    Replace(Replace(text, "<", "&lt;"), ">", "&gt;")
  }

  /** Lines 18-24, in order; the second `&lt;/pre&gt;` step repeats the first
      and so never finds anything left to replace. */
  function RestoreTags(s: string): string {
    Replace(Replace(Replace(Replace(Replace(Replace(Replace(s,
      "&lt;code&gt;", "<code>"),
      "&lt;/code&gt;", "</code>"),
      "&lt;pre&gt;", "<pre>"),
      "&lt;/pre&gt;", "</pre>"),
      "&lt;/pre&gt;", "</pre>"),
      "&lt;b&gt;", "<b>"),
      "&lt;/b&gt;", "</b>")
  }

  /** `sanitize_html(text)`. */
  function SanitizeHtml(text: string): string {
    RestoreTags(EscapeAngles(text))
  }

  lemma TagHasNoAmpersand(t: string)
    requires IsAllowedTag(t)
    ensures forall j :: 0 <= j < |t| ==> t[j] != '&'
  {
  }

  /** Text with no angle brackets at all is markup-safe. */
  lemma {:induction false} PlainIsSafe(s: string)
    requires '<' !in s && '>' !in s
    ensures MarkupSafe(s)
  {
    if |s| > 0 {
      assert s[0] in s;
      assert forall c :: c in s[1..] ==> c in s;
      PlainIsSafe(s[1..]);
    }
  }

  /** An allowed tag in front of a markup-safe string keeps it markup-safe. */
  lemma SafeConsTag(t: string, rest: string)
    requires IsAllowedTag(t) && MarkupSafe(rest)
    ensures MarkupSafe(t + rest)
  {
    var c := t + rest;
    assert c[..|t|] == t && c[|t|..] == rest;
    assert c[0] == '<';
  }

  /** So does a character other than `<` and `>`. */
  lemma SafeConsChar(x: char, rest: string)
    requires x != '<' && x != '>' && MarkupSafe(rest)
    ensures MarkupSafe([x] + rest)
  {
    assert ([x] + rest)[1..] == rest;
  }

  /** Dropping a prefix without angle brackets keeps a string markup-safe. */
  lemma {:induction false} SafeDrop(s: string, m: nat)
    requires MarkupSafe(s)
    requires m <= |s|
    requires forall j :: 0 <= j < m ==> s[j] != '<' && s[j] != '>'
    ensures MarkupSafe(s[m..])
  {
    if m > 0 {
      SafeDrop(s[1..], m - 1);
      assert s[1..][m - 1..] == s[m..];
    }
  }

  /** One restoring step of lines 18-24 keeps a markup-safe string markup-safe:
      the escaped pattern starts with `&`, which no allowed tag contains, and it
      holds no angle bracket, while what it puts back is an allowed tag. */
  lemma {:induction false} RestoreStepKeepsSafe(s: string, pat: string, tag: string)
    requires |pat| > 0 && pat[0] == '&'
    requires '<' !in pat && '>' !in pat
    requires IsAllowedTag(tag)
    requires MarkupSafe(s)
    ensures MarkupSafe(Replace(s, pat, tag))
    decreases |s|
  {
    if |s| == 0 {
    } else if s[0] == '<' {
      var k :| 0 < k <= |s| && IsAllowedTag(s[..k]) && MarkupSafe(s[k..]);
      TagHasNoAmpersand(s[..k]);
      assert forall j :: 0 <= j < k ==> s[j] != pat[0] by {
        forall j | 0 <= j < k ensures s[j] != pat[0] { assert s[..k][j] == s[j]; }
      }
      ReplaceSkip(s, pat, tag, k);
      RestoreStepKeepsSafe(s[k..], pat, tag);
      SafeConsTag(s[..k], Replace(s[k..], pat, tag));
    } else if pat <= s {
      assert forall j :: 0 <= j < |pat| ==> s[j] != '<' && s[j] != '>' by {
        forall j | 0 <= j < |pat| ensures s[j] != '<' && s[j] != '>' {
          assert s[j] == pat[j] && pat[j] in pat;
        }
      }
      SafeDrop(s, |pat|);
      RestoreStepKeepsSafe(s[|pat|..], pat, tag);
      SafeConsTag(tag, Replace(s[|pat|..], pat, tag));
    } else {
      RestoreStepKeepsSafe(s[1..], pat, tag);
      SafeConsChar(s[0], Replace(s[1..], pat, tag));
    }
  }

  /** In the output of `sanitize_html`, every `<` and `>` belongs to one of the
      tags `<code>`, `</code>`, `<pre>`, `</pre>`, `<b>`, `</b>`. */
  lemma SanitizeHtmlIsSafe(text: string)
    ensures MarkupSafe(SanitizeHtml(text))
  {
    var s1 := Replace(text, "<", "&lt;");
    ReplaceAbsent(text, "<", "&lt;", '<');
    var s2 := Replace(s1, ">", "&gt;");
    ReplaceAbsent(s1, ">", "&gt;", '<');
    ReplaceAbsent(s1, ">", "&gt;", '>');
    PlainIsSafe(s2);
    var s3 := Replace(s2, "&lt;code&gt;", "<code>");
    RestoreStepKeepsSafe(s2, "&lt;code&gt;", "<code>");
    var s4 := Replace(s3, "&lt;/code&gt;", "</code>");
    RestoreStepKeepsSafe(s3, "&lt;/code&gt;", "</code>");
    var s5 := Replace(s4, "&lt;pre&gt;", "<pre>");
    RestoreStepKeepsSafe(s4, "&lt;pre&gt;", "<pre>");
    var s6 := Replace(s5, "&lt;/pre&gt;", "</pre>");
    RestoreStepKeepsSafe(s5, "&lt;/pre&gt;", "</pre>");
    var s7 := Replace(s6, "&lt;/pre&gt;", "</pre>");
    RestoreStepKeepsSafe(s6, "&lt;/pre&gt;", "</pre>");
    var s8 := Replace(s7, "&lt;b&gt;", "<b>");
    RestoreStepKeepsSafe(s7, "&lt;b&gt;", "<b>");
    RestoreStepKeepsSafe(s8, "&lt;/b&gt;", "</b>");
  }

  /** Text containing none of `<`, `>` and `&` passes through `sanitize_html` unchanged. */
  lemma SanitizeHtmlPlain(text: string)
    requires '<' !in text && '>' !in text && '&' !in text
    ensures SanitizeHtml(text) == text
  {
    assert forall i :: 0 <= i < |text| ==> text[i] != '<' && text[i] != '>' && text[i] != '&' by {
      forall i | 0 <= i < |text| ensures text[i] != '<' && text[i] != '>' && text[i] != '&' {
        assert text[i] in text;
      }
    }
    ReplaceNoMatch(text, "<", "&lt;");
    ReplaceNoMatch(text, ">", "&gt;");
    ReplaceNoMatch(text, "&lt;code&gt;", "<code>");
    ReplaceNoMatch(text, "&lt;/code&gt;", "</code>");
    ReplaceNoMatch(text, "&lt;pre&gt;", "<pre>");
    ReplaceNoMatch(text, "&lt;/pre&gt;", "</pre>");
    ReplaceNoMatch(text, "&lt;b&gt;", "<b>");
    ReplaceNoMatch(text, "&lt;/b&gt;", "</b>");
  }

  /** Text with none of `<`, `>` and `&`: nothing in it is escaped or restored. */
  predicate Plain(t: string) {
    forall i :: 0 <= i < |t| ==> t[i] != '<' && t[i] != '>' && t[i] != '&'
  }

  /** How lines 16-17 write an allowed tag: `<` and `>` become `&lt;` and `&gt;`. */
  function EscapedTag(g: string): string
    requires IsAllowedTag(g)
  {
    "&lt;" + g[1..|g| - 1] + "&gt;"
  }

  /** An allowed tag is `<`, a plain name, then `>`. */
  lemma TagShape(g: string)
    requires IsAllowedTag(g)
    ensures |g| >= 3 && g == "<" + g[1..|g| - 1] + ">"
    ensures Plain(g[1..|g| - 1])
  {
    var n := g[1..|g| - 1];
    if g == "<code>" { TagOfName(g, "code"); }
    else if g == "</code>" { TagOfName(g, "/code"); }
    else if g == "<pre>" { TagOfName(g, "pre"); }
    else if g == "</pre>" { TagOfName(g, "/pre"); }
    else if g == "<b>" { TagOfName(g, "b"); }
    else { TagOfName(g, "/b"); }
  }

  /** A tag written `<`, a name, `>` has that name between its brackets. */
  lemma TagOfName(g: string, n: string)
    requires g == "<" + n + ">"
    requires Plain(n)
    ensures |g| >= 2 && g[1..|g| - 1] == n
  {
  }

  /** The patterns of lines 18-24 are the escaped forms of the six tags. */
  lemma EscapedTagLiterals()
    ensures EscapedTag("<code>") == "&lt;code&gt;"
    ensures EscapedTag("</code>") == "&lt;/code&gt;"
    ensures EscapedTag("<pre>") == "&lt;pre&gt;"
    ensures EscapedTag("</pre>") == "&lt;/pre&gt;"
    ensures EscapedTag("<b>") == "&lt;b&gt;"
    ensures EscapedTag("</b>") == "&lt;/b&gt;"
  {
  }

  /** Replacing a single character works piece by piece: no occurrence can
      straddle the point where two strings are joined. */
  lemma {:induction false} ReplaceCharConcat(a: string, b: string, pat: string, rep: string)
    requires |pat| == 1
    ensures Replace(a + b, pat, rep) == Replace(a, pat, rep) + Replace(b, pat, rep)
    decreases |a|
  {
    if |a| == 0 {
      assert a + b == b;
    } else {
      assert (a + b)[1..] == a[1..] + b;
      assert pat <= a + b <==> pat <= a by { assert (a + b)[0] == a[0]; }
      ReplaceCharConcat(a[1..], b, pat, rep);
    }
  }

  /** Lines 16-17 escape a joined string piece by piece. */
  lemma EscapeAnglesConcat(a: string, b: string)
    ensures EscapeAngles(a + b) == EscapeAngles(a) + EscapeAngles(b)
  {
    ReplaceCharConcat(a, b, "<", "&lt;");
    ReplaceCharConcat(Replace(a, "<", "&lt;"), Replace(b, "<", "&lt;"), ">", "&gt;");
  }

  /** Plain text is not escaped. */
  lemma EscapeAnglesPlain(t: string)
    requires Plain(t)
    ensures EscapeAngles(t) == t
  {
    ReplaceNoMatch(t, "<", "&lt;");
    ReplaceNoMatch(t, ">", "&gt;");
  }

  lemma EscapeAnglesBrackets()
    ensures EscapeAngles("<") == "&lt;"
    ensures EscapeAngles(">") == "&gt;"
  {
    assert Replace("<", "<", "&lt;") == "&lt;" + Replace("", "<", "&lt;");
    ReplaceNoMatch("&lt;", ">", "&gt;");
    ReplaceNoMatch(">", "<", "&lt;");
    assert Replace(">", ">", "&gt;") == "&gt;" + Replace("", ">", "&gt;");
  }

  /** Lines 16-17 on an allowed tag between two plain texts escape only the tag. */
  lemma EscapeAroundTag(t1: string, g: string, t2: string)
    requires Plain(t1) && Plain(t2) && IsAllowedTag(g)
    ensures EscapeAngles(t1 + g + t2) == t1 + EscapedTag(g) + t2
  {
    var n := g[1..|g| - 1];
    TagShape(g);
    EscapeAnglesBrackets();
    EscapeAnglesPlain(t1);
    EscapeAnglesPlain(t2);
    EscapeAnglesPlain(n);
    EscapeAnglesConcat("<", n);
    EscapeAnglesConcat("<" + n, ">");
    EscapeAnglesConcat(t1, g);
    EscapeAnglesConcat(t1 + g, t2);
  }

  /** The escaped form of one allowed tag does not start the escaped form of
      another, whatever plain text follows it. */
  lemma EscapedTagsDiffer(g: string, g': string, t: string)
    requires IsAllowedTag(g) && IsAllowedTag(g') && g != g'
    requires Plain(t)
    ensures !(EscapedTag(g') <= EscapedTag(g) + t)
  {
    TagShape(g);
    TagShape(g');
    var n, n' := g[1..|g| - 1], g'[1..|g'| - 1];
    var p, s := EscapedTag(g'), EscapedTag(g) + t;
    if |n'| < |n| {
      assert p[4 + |n'|] == '&';
      assert s[4 + |n'|] == n[|n'|];
    } else if |n'| > |n| {
      assert s[4 + |n|] == '&';
      assert p[4 + |n|] == n'[|n|];
    } else {
      assert n != n';
      var k :| 0 <= k < |n| && n[k] != n'[k];
      assert p[4 + k] == n'[k] && s[4 + k] == n[k];
    }
  }

  /** A restoring step that looks for the escaped tag in front of plain text
      restores it. */
  lemma RestoreStepMatch(g: string, t: string)
    requires Plain(t) && IsAllowedTag(g)
    ensures Replace(EscapedTag(g) + t, EscapedTag(g), g) == g + t
  {
    var p := EscapedTag(g);
    assert p <= p + t;
    assert (p + t)[|p|..] == t;
    ReplaceNoMatch(t, p, g);
  }

  /** A restoring step that looks for another tag leaves an escaped tag in
      front of plain text alone. */
  lemma RestoreStepOther(g: string, g': string, t: string)
    requires Plain(t) && IsAllowedTag(g) && IsAllowedTag(g') && g != g'
    ensures Replace(EscapedTag(g) + t, EscapedTag(g'), g') == EscapedTag(g) + t
  {
    TagShape(g);
    var n := g[1..|g| - 1];
    var p := EscapedTag(g');
    var tail := "&gt;" + t;
    var x := ("lt;" + n) + tail;
    assert EscapedTag(g) + t == "&" + x;
    EscapedTagsDiffer(g, g', t);
    ReplaceNotHere(x, p, g');
    RestoreSkipName(n, tail, p, g');
    StrayStaysEscaped("&gt;", t, g');
  }

  /** Where the pattern does not start, the first character is kept. */
  lemma ReplaceNotHere(x: string, pat: string, rep: string)
    requires |pat| > 0 && !(pat <= "&" + x)
    ensures Replace("&" + x, pat, rep) == "&" + Replace(x, pat, rep)
  {
    assert ("&" + x)[1..] == x;
  }

  lemma RestoreSkipName(n: string, tail: string, p: string, rep: string)
    requires Plain(n) && |p| > 0 && p[0] == '&'
    ensures Replace(("lt;" + n) + tail, p, rep) == ("lt;" + n) + Replace(tail, p, rep)
  {
    var s := ("lt;" + n) + tail;
    var m := 3 + |n|;
    assert forall j :: 0 <= j < m ==> s[j] != p[0] by {
      forall j | 0 <= j < m ensures s[j] != p[0] {
        if j >= 3 { assert s[j] == n[j - 3]; }
      }
    }
    ReplaceSkip(s, p, rep, m);
    assert s[..m] == "lt;" + n && s[m..] == tail;
  }

  /** A restoring step passes over plain text untouched. */
  lemma RestoreSkipPlain(t: string, z: string, p: string, rep: string)
    requires Plain(t) && |p| > 0 && p[0] == '&'
    ensures Replace(t + z, p, rep) == t + Replace(z, p, rep)
  {
    var s := t + z;
    assert forall j :: 0 <= j < |t| ==> s[j] != p[0] by {
      forall j | 0 <= j < |t| ensures s[j] != p[0] { assert s[j] == t[j]; }
    }
    ReplaceSkip(s, p, rep, |t|);
    assert s[..|t|] == t && s[|t|..] == z;
  }

  /** A restoring step leaves a restored tag followed by plain text alone. */
  lemma RestoreStepRestored(g: string, t: string, p: string, rep: string)
    requires Plain(t) && IsAllowedTag(g) && |p| > 0 && p[0] == '&'
    ensures Replace(g + t, p, rep) == g + t
  {
    TagHasNoAmpersand(g);
    assert forall i :: 0 <= i < |g + t| ==> (g + t)[i] != p[0] by {
      forall i | 0 <= i < |g + t| ensures (g + t)[i] != p[0] {
        if i >= |g| { assert (g + t)[i] == t[i - |g|]; }
      }
    }
    ReplaceNoMatch(g + t, p, rep);
  }

  /** One restoring step of lines 18-24 on an allowed tag, still escaped or
      already restored, between two plain texts: it restores the tag when the
      step looks for that tag and otherwise changes nothing. */
  lemma RestoreStepAroundTag(t1: string, y: string, t2: string, g: string, g': string)
    requires Plain(t1) && Plain(t2) && IsAllowedTag(g) && IsAllowedTag(g')
    requires y == EscapedTag(g) || y == g
    ensures Replace(t1 + y + t2, EscapedTag(g'), g') ==
      t1 + (if y == EscapedTag(g) && g == g' then g else y) + t2
  {
    var p := EscapedTag(g');
    RestoreSkipPlain(t1, y + t2, p, g');
    AppendAssoc(t1, y, t2);
    if y == EscapedTag(g) && g == g' {
      RestoreStepMatch(g, t2);
      AppendAssoc(t1, g, t2);
    } else if y == EscapedTag(g) {
      RestoreStepOther(g, g', t2);
    } else {
      RestoreStepRestored(g, t2, p, g');
    }
  }

  /** Each of the six tags survives `sanitize_html` between plain texts: lines
      18-24 undo what lines 16-17 do to it. */
  lemma SanitizeHtmlKeepsTag(t1: string, g: string, t2: string)
    requires Plain(t1) && Plain(t2) && IsAllowedTag(g)
    ensures SanitizeHtml(t1 + g + t2) == t1 + g + t2
  {
    EscapeAroundTag(t1, g, t2);
    EscapedTagLiterals();
    var y0 := EscapedTag(g);
    RestoreStepAroundTag(t1, y0, t2, g, "<code>");
    var y1 := if y0 == EscapedTag(g) && g == "<code>" then g else y0;
    RestoreStepAroundTag(t1, y1, t2, g, "</code>");
    var y2 := if y1 == EscapedTag(g) && g == "</code>" then g else y1;
    RestoreStepAroundTag(t1, y2, t2, g, "<pre>");
    var y3 := if y2 == EscapedTag(g) && g == "<pre>" then g else y2;
    RestoreStepAroundTag(t1, y3, t2, g, "</pre>");
    var y4 := if y3 == EscapedTag(g) && g == "</pre>" then g else y3;
    RestoreStepAroundTag(t1, y4, t2, g, "</pre>");
    var y5 := if y4 == EscapedTag(g) && g == "</pre>" then g else y4;
    RestoreStepAroundTag(t1, y5, t2, g, "<b>");
    var y6 := if y5 == EscapedTag(g) && g == "<b>" then g else y5;
    RestoreStepAroundTag(t1, y6, t2, g, "</b>");
    var y7 := if y6 == EscapedTag(g) && g == "</b>" then g else y6;
    assert y7 == g;
  }

  /** A restoring step leaves an escaped stray bracket between plain texts alone. */
  lemma RestoreStepStray(t1: string, e: string, t2: string, g': string)
    requires Plain(t1) && Plain(t2) && IsAllowedTag(g')
    requires e == "&lt;" || e == "&gt;"
    ensures Replace(t1 + e + t2, EscapedTag(g'), g') == t1 + e + t2
  {
    RestoreSkipPlain(t1, e + t2, EscapedTag(g'), g');
    AppendAssoc(t1, e, t2);
    StrayStaysEscaped(e, t2, g');
  }

  /** An escaped stray bracket in front of plain text does not start an escaped
      tag, so a restoring step leaves it alone. */
  lemma StrayStaysEscaped(e: string, t: string, g': string)
    requires Plain(t) && IsAllowedTag(g')
    requires e == "&lt;" || e == "&gt;"
    ensures Replace(e + t, EscapedTag(g'), g') == e + t
  {
    TagShape(g');
    var p := EscapedTag(g');
    var x := e[1..] + t;
    assert e + t == "&" + x;
    assert !(p <= e + t) by {
      if e == "&gt;" {
        assert p[1] == 'l' && (e + t)[1] == 'g';
      } else if |p| <= |e + t| {
        assert p[|p| - 4] == '&';
        assert (e + t)[|p| - 4] == t[|p| - 8];
      }
    }
    ReplaceNotHere(x, p, g');
    assert forall i :: 0 <= i < |x| ==> x[i] != p[0] by {
      forall i | 0 <= i < |x| ensures x[i] != p[0] {
        if i >= 3 { assert x[i] == t[i - 3]; }
      }
    }
    ReplaceNoMatch(x, p, g');
  }

  /** A `<` or `>` that opens or closes no allowed tag stays escaped. */
  lemma SanitizeHtmlEscapesStray(t1: string, c: char, t2: string)
    requires Plain(t1) && Plain(t2) && (c == '<' || c == '>')
    ensures SanitizeHtml(t1 + [c] + t2) == t1 + (if c == '<' then "&lt;" else "&gt;") + t2
  {
    var e := if c == '<' then "&lt;" else "&gt;";
    EscapeAnglesBrackets();
    EscapeAnglesPlain(t1);
    EscapeAnglesPlain(t2);
    EscapeAnglesConcat(t1, [c]);
    EscapeAnglesConcat(t1 + [c], t2);
    EscapedTagLiterals();
    RestoreStepStray(t1, e, t2, "<code>");
    RestoreStepStray(t1, e, t2, "</code>");
    RestoreStepStray(t1, e, t2, "<pre>");
    RestoreStepStray(t1, e, t2, "</pre>");
    RestoreStepStray(t1, e, t2, "<b>");
    RestoreStepStray(t1, e, t2, "</b>");
  }

  // ---------------------------------------------------------------------------
  // sanitize_filename
  // ---------------------------------------------------------------------------

  /** The character class `[a-zA-z1-9]` as the regular expression engine reads
      it: `A-z` spans code points 65 to 122, so it also admits `[`, `\`, `]`,
      `^`, `_` and the backtick, and `1-9` leaves out `0`. */
  predicate IsNameChar(c: char) {
    ('a' <= c <= 'z') || ('A' <= c <= 'z') || ('1' <= c <= '9')
  }

  /** The outcomes of `sanitize_filename`: `None` for an argument that is not a
      string, the `IndexError` of `findall(...)[0]` when nothing matches, or the
      first match. */
  datatype Sanitized = NotAString | NoMatch | Name(name: string)

  /** Where the first match of `[a-zA-z1-9]+` begins: the length of the prefix
      of non-name characters (`|s|` when there is no match). */
  function MatchStart(s: string): (i: nat)
    ensures i <= |s|
    ensures forall j :: 0 <= j < i ==> !IsNameChar(s[j])
    ensures i < |s| ==> IsNameChar(s[i])
    decreases |s|
  {
    if |s| == 0 || IsNameChar(s[0]) then 0 else 1 + MatchStart(s[1..])
  }

  /** How far the run of name characters starting at `i` extends: the match is
      greedy, so it stops at the end of `s` or at the first non-name character. */
  function RunLength(s: string, i: nat): (n: nat)
    requires i <= |s|
    ensures i + n <= |s|
    ensures forall j :: i <= j < i + n ==> IsNameChar(s[j])
    ensures i + n == |s| || !IsNameChar(s[i + n])
    decreases |s| - i
  {
    if i == |s| || !IsNameChar(s[i]) then 0 else 1 + RunLength(s, i + 1)
  }

  /** `w` is the match `findall` lists first when it starts at `i`: nothing
      before `i` matches, `w` is a non-empty run of name characters, and the
      run cannot be extended. */
  ghost predicate IsFirstMatchAt(s: string, i: int, w: string) {
    && 0 <= i && i + |w| <= |s|
    && |w| > 0
    && s[i..i + |w|] == w
    && (forall j :: 0 <= j < i ==> !IsNameChar(s[j]))
    && (forall j :: 0 <= j < |w| ==> IsNameChar(w[j]))
    && (i + |w| == |s| || !IsNameChar(s[i + |w|]))
  }

  /** `sanitize_filename(filename)`, lines 27-31. */
  function SanitizeFilename(filename: Option<string>): (r: Sanitized)
    ensures r == NotAString <==> filename.None?
    ensures filename.Some? ==>
      (r == NoMatch <==> forall j :: 0 <= j < |filename.value| ==> !IsNameChar(filename.value[j]))
    ensures r.Name? ==> filename.Some? && exists i :: IsFirstMatchAt(filename.value, i, r.name)
  {
    match filename
    case None => NotAString
    case Some(s) =>
      var i := MatchStart(s);
      if i == |s| then NoMatch
      else
        var w := s[i..i + RunLength(s, i)];
        assert IsFirstMatchAt(s, i, w);
        Name(w)
  }

  /** The first match is unique, so the contract of `SanitizeFilename` pins its result. */
  lemma FirstMatchUnique(s: string, i: int, w: string, i': int, w': string)
    requires IsFirstMatchAt(s, i, w) && IsFirstMatchAt(s, i', w')
    ensures i == i' && w == w'
  {
    assert s[i] == w[0] && s[i'] == w'[0];
    assert i == i';
    assert forall j :: i <= j < i + |w| ==> IsNameChar(s[j]) by {
      forall j | i <= j < i + |w| ensures IsNameChar(s[j]) { assert s[j] == w[j - i]; }
    }
    assert forall j :: i <= j < i + |w'| ==> IsNameChar(s[j]) by {
      forall j | i <= j < i + |w'| ensures IsNameChar(s[j]) { assert s[j] == w'[j - i]; }
    }
  }

  /** Sanitizing an already sanitized name gives it back, which is why the
      second call on line 84 changes nothing. */
  lemma SanitizeFilenameIdempotent(filename: Option<string>)
    requires SanitizeFilename(filename).Name?
    ensures SanitizeFilename(Some(SanitizeFilename(filename).name)) == SanitizeFilename(filename)
  {
    var w := SanitizeFilename(filename).name;
    var i :| IsFirstMatchAt(filename.value, i, w);
    assert MatchStart(w) == 0;
    assert RunLength(w, 0) == |w|;
    assert w[0..|w|] == w;
  }

  // ---------------------------------------------------------------------------
  // str(...) and int(...) on decimal numbers
  // ---------------------------------------------------------------------------

  predicate IsDigit(c: char) { '0' <= c <= '9' }

  predicate AllDigits(s: string) { forall i :: 0 <= i < |s| ==> IsDigit(s[i]) }

  function DigitChar(d: nat): (c: char)
    requires d < 10
    ensures IsDigit(c)
  {
    (48 + d) as char
  }

  /** `str(n)` for a non-negative integer: its decimal digits, most significant first. */
  function NatToString(n: nat): (s: string)
    ensures |s| > 0 && AllDigits(s)
    ensures s[0] == '0' ==> n == 0
    ensures |s| == 1 <==> n < 10
    decreases n
  {
    if n < 10 then [DigitChar(n)] else NatToString(n / 10) + [DigitChar(n % 10)]
  }

  /** `str(n)` for any integer. */
  function IntToString(n: int): string {
    if n < 0 then "-" + NatToString(-n) else NatToString(n)
  }

  /** The number a string of decimal digits denotes. */
  function DigitsValue(s: string): nat
    requires AllDigits(s)
    decreases |s|
  {
    if |s| == 0 then 0
    else DigitsValue(s[..|s| - 1]) * 10 + (s[|s| - 1] as int - 48)
  }

  /** What `int(...)` accepts here: an optional sign followed by one or more decimal digits. */
  predicate IsIntLiteral(s: string) {
    || (|s| > 1 && (s[0] == '+' || s[0] == '-') && AllDigits(s[1..]))
    || (|s| > 0 && AllDigits(s))
  }

  /** `int(text)`, with `None` standing for the `ValueError` it raises. */
  function ParseInt(s: string): (r: Option<int>)
    ensures r.Some? <==> IsIntLiteral(s)
  {
    if |s| > 1 && (s[0] == '+' || s[0] == '-') && AllDigits(s[1..]) then
      var v: int := DigitsValue(s[1..]);
      Some(if s[0] == '-' then -v else v)
    else if |s| > 0 && AllDigits(s) then Some(DigitsValue(s))
    else None
  }

  lemma {:induction false} DigitsValueOfNatToString(n: nat)
    ensures DigitsValue(NatToString(n)) == n
    decreases n
  {
    var s := NatToString(n);
    if n < 10 {
      assert s[..|s| - 1] == [];
    } else {
      DigitsValueOfNatToString(n / 10);
      assert s[..|s| - 1] == NatToString(n / 10);
    }
  }

  /** `int(str(n)) == n` for every integer `n`. */
  lemma ParseIntOfIntToString(n: int)
    ensures ParseInt(IntToString(n)) == Some(n)
  {
    if n < 0 {
      var s := IntToString(n);
      assert s[1..] == NatToString(-n);
      DigitsValueOfNatToString(-n);
    } else {
      var s := NatToString(n);
      assert !(s[0] == '+' || s[0] == '-') by { assert IsDigit(s[0]); }
      DigitsValueOfNatToString(n);
    }
  }
}
