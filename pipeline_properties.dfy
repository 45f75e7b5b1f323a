/**
 * What the highlighter does to whole texts: placeholders are told apart
 * by their numbers, a restoring step puts its literal back, and text
 * without anything to highlight, a lone string literal and a lone comment
 * come out as they should. The placeholders are ordinary text, though, so
 * a sample that already holds a placeholder's spelling can take a literal
 * in its place.
 */
module PipelineProperties {
  import opened SyntaxHighlighter
  import opened MatcherProperties

  // ---------------------------------------------------------------------
  // Placeholder numbers

  function DigitValue(c: char): int
  {
    c as int - '0' as int
  }

  /** The number a string of decimal digits spells. */
  function DecimalValue(r: string): int
  {
    if r == [] then 0 else 10 * DecimalValue(r[..|r| - 1]) + DigitValue(r[|r| - 1])
  }

  /** The numeral of `n` reads back as `n`. */
  lemma {:induction false} DecimalRoundTrip(n: nat)
    ensures DecimalValue(DecimalString(n)) == n
  {
    var last := ['0' + (n % 10) as char];
    if n >= 10 {
      DecimalRoundTrip(n / 10);
      var d := DecimalString(n / 10);
      assert DecimalString(n) == d + last;
      assert (d + last)[..|d + last| - 1] == d;
    }
  }

  /** Different numbers have different numerals. */
  lemma DecimalInjective(a: nat, b: nat)
    requires DecimalString(a) == DecimalString(b)
    ensures a == b
  {
    DecimalRoundTrip(a);
    DecimalRoundTrip(b);
  }

  /** The characters of a placeholder, position by position: two
      underscores, the tag's letters, an underscore, the numeral's digits
      and two underscores. */
  lemma PlaceholderLayout(x: Extractor, k: nat)
    ensures var p := Placeholder(x, k);
            var t := |Tag(x)|;
            var d := DecimalString(k);
            t >= 6 && |p| == t + |d| + 5 &&
            p[0] == '_' && p[1] == '_' && p[2] == Tag(x)[0] && p[2 + t] == '_' &&
            p[3 + t + |d|] == '_' && p[4 + t + |d|] == '_' &&
            (forall j :: 2 <= j < 2 + t ==> IsLetter(p[j])) &&
            (forall j :: 3 + t <= j < 3 + t + |d| ==> p[j] == d[j - 3 - t])
  {
    var p := Placeholder(x, k);
    var t := |Tag(x)|;
    var d := DecimalString(k);
    assert p == "__" + Tag(x) + "_" + d + "__";
    forall j | 2 <= j < 2 + t ensures IsLetter(p[j]) {
      assert p[j] == Tag(x)[j - 2];
    }
    forall j | 3 + t <= j < 3 + t + |d| ensures p[j] == d[j - 3 - t] {
    }
  }

  /** An occurrence, character by character. */
  lemma OccursChars(t: string, p: string, m: nat)
    requires OccursAt(t, p, m)
    ensures forall j :: 0 <= j < |p| ==> p[j] == t[m + j]
  {
    forall j | 0 <= j < |p| ensures p[j] == t[m + j] {
      assert t[m..m + |p|][j] == t[m + j];
    }
  }

  /** `p` is spelled `__`, the letters of `tag`, `_`, the digits of `d`,
      `__`, position by position. */
  predicate Framed(p: string, tag: string, d: string)
  {
    |tag| > 0 && |d| > 0 && |p| == |tag| + |d| + 5 &&
    p[0] == '_' && p[1] == '_' && p[2 + |tag|] == '_' &&
    p[3 + |tag| + |d|] == '_' && p[4 + |tag| + |d|] == '_' &&
    (forall j :: 0 <= j < |tag| ==> p[2 + j] == tag[j] && IsLetter(tag[j])) &&
    (forall j :: 0 <= j < |d| ==> p[3 + |tag| + j] == d[j] && IsDigit(d[j]))
  }

  lemma PlaceholderIsFramed(x: Extractor, k: nat)
    ensures Framed(Placeholder(x, k), Tag(x), DecimalString(k))
  {
    PlaceholderLayout(x, k);
    var t, d := Tag(x), DecimalString(k);
    assert forall j :: 0 <= j < |t| ==> IsLetter(t[j]) by {
      assert t == "COMMENT" || t == "STRING";
    }
  }

  /** Inside a framed word, the tag's letters and the numeral's digits
      are not underscores. */
  lemma FramedUnderscores(p: string, tag: string, d: string)
    requires Framed(p, tag, d)
    ensures forall j :: 2 <= j < 2 + |tag| ==> p[j] != '_'
    ensures forall j :: 3 + |tag| <= j < 3 + |tag| + |d| ==> p[j] != '_'
  {
    forall j | 2 <= j < 2 + |tag| ensures p[j] != '_' {
      assert p[2 + (j - 2)] == tag[j - 2];
    }
    forall j | 3 + |tag| <= j < 3 + |tag| + |d| ensures p[j] != '_' {
      assert p[3 + |tag| + (j - 3 - |tag|)] == d[j - 3 - |tag|];
    }
  }

  /** One framed word inside another starts where the other starts. */
  lemma FramedAtStart(pa: string, ta: string, da: string, pb: string, tb: string, db: string, m: nat)
    requires Framed(pa, ta, da) && Framed(pb, tb, db) && OccursAt(pa, pb, m)
    ensures m == 0
  {
    OccursChars(pa, pb, m);
    FramedUnderscores(pa, ta, da);
    assert pa[m] == '_' && pa[m + 1] == '_';
  }

  /** A framed word that starts another framed word is all of it. */
  lemma FramedPrefix(pa: string, ta: string, da: string, pb: string, tb: string, db: string)
    requires Framed(pa, ta, da) && Framed(pb, tb, db) && OccursAt(pa, pb, 0)
    ensures ta == tb && da == db
  {
    OccursChars(pa, pb, 0);
    FramedUnderscores(pa, ta, da);
    FramedUnderscores(pb, tb, db);
    assert pa[2 + |tb|] == '_';
    assert 2 + |ta| < |pb| ==> pb[2 + |ta|] == '_';
    assert |ta| == |tb|;
    var t := |ta|;
    assert forall j :: 0 <= j < t ==> ta[j] == pa[2 + j] == tb[j];
    assert pa[3 + t + |db|] == '_';
    assert 3 + t + |da| < |pb| ==> pb[3 + t + |da|] == '_';
    assert |da| == |db|;
    assert forall j :: 0 <= j < |da| ==> da[j] == pa[3 + t + j] == db[j];
  }

  /** A placeholder occurs in another only as the whole of it, and then
      both number the same literal: `__STRING_1__` is not found inside
      `__STRING_10__`, nor the other way round. */
  lemma PlaceholderOccursOnlyAsItself(x: Extractor, a: nat, y: Extractor, b: nat, m: nat)
    requires OccursAt(Placeholder(x, a), Placeholder(y, b), m)
    ensures m == 0 && Tag(x) == Tag(y) && a == b
  {
    PlaceholderIsFramed(x, a);
    PlaceholderIsFramed(y, b);
    FramedAtStart(Placeholder(x, a), Tag(x), DecimalString(a), Placeholder(y, b), Tag(y), DecimalString(b), m);
    FramedPrefix(Placeholder(x, a), Tag(x), DecimalString(a), Placeholder(y, b), Tag(y), DecimalString(b));
    DecimalInjective(a, b);
  }

  // ---------------------------------------------------------------------
  // Restoring

  /** A replacement whose pattern is in the text puts the replacement
      where the first occurrence of the pattern was. */
  lemma ReplaceFirstInserts(text: string, pat: string, rep: string)
    requires exists m: nat :: OccursAt(text, pat, m)
    ensures IndexOf(text, pat, 0).Some?
    ensures OccursAt(ReplaceFirst(text, pat, rep), rep, IndexOf(text, pat, 0).value)
  {
    var j := IndexOf(text, pat, 0).value;
    var r := ReplaceFirst(text, pat, rep);
    assert r == text[..j] + rep + text[j + |pat|..];
    assert r[j..j + |rep|] == rep;
  }

  /** Step `k` of a restoring loop puts the `k`-th literal, in its span,
      where the first occurrence of the `k`-th placeholder was, provided
      the placeholder is in the text. */
  lemma RestoreStepInserts(text: string, found: seq<string>, x: Extractor, k: nat)
    requires k < |found|
    requires exists m: nat :: OccursAt(RestoreUpTo(text, found, x, k), Placeholder(x, k), m)
    ensures IndexOf(RestoreUpTo(text, found, x, k), Placeholder(x, k), 0).Some?
    ensures OccursAt(RestoreUpTo(text, found, x, k + 1), Span(SpanClass(x), found[k]),
                     IndexOf(RestoreUpTo(text, found, x, k), Placeholder(x, k), 0).value)
  {
    ReplaceFirstInserts(RestoreUpTo(text, found, x, k), Placeholder(x, k), Span(SpanClass(x), found[k]));
  }

  /** No two underscores stand next to each other. */
  predicate NoDoubleUnderscore(t: string)
  {
    forall j :: 0 <= j < |t| - 1 ==> !(t[j] == '_' && t[j + 1] == '_')
  }

  /** A restoring step puts its literal exactly where its placeholder was
      when the text before the placeholder holds no `__`: no earlier
      spelling of the placeholder can then be found first. */
  lemma RestoreInPlace(a: string, b: string, x: Extractor, k: nat, rep: string)
    requires NoDoubleUnderscore(a)
    ensures ReplaceFirst(a + Placeholder(x, k) + b, Placeholder(x, k), rep) == a + rep + b
  {
    var p := Placeholder(x, k);
    var t := a + p + b;
    PlaceholderLayout(x, k);
    assert t[|a|..|a| + |p|] == p;
    forall m: nat | m < |a| ensures !OccursAt(t, p, m) {
      assert t[m..m + |p|][0] == t[m] && t[m..m + |p|][1] == t[m + 1] && t[m..m + |p|][2] == t[m + 2];
      if m + 1 < |a| {
        assert t[m] == a[m] && t[m + 1] == a[m + 1];
      } else {
        assert t[m + 1] == p[0] && t[m + 2] == p[1];
      }
    }
    ReplaceFirstReplacesLeftmost(t, p, rep, |a|);
    assert t[..|a|] == a;
    assert t[|a| + |p|..] == b;
  }

  // ---------------------------------------------------------------------
  // Whole texts

  /** A text without quotes and without `#`: no extraction pass finds a
      literal in it. */
  predicate Plain(t: string)
  {
    forall j :: 0 <= j < |t| ==> !IsQuote(t[j]) && t[j] != '#'
  }

  /** A text in which no wrap pass finds a match. */
  ghost predicate Unmarked(t: string)
  {
    forall w: Wrapper, j :: 0 <= j < |t| ==> WrapEnd(w, t, j).None?
  }

  /** Where no literal starts, an extraction pass keeps the characters
      and records nothing. */
  lemma {:induction false} ExtractKeeps(x: Extractor, s: string, lo: nat, hi: nat, n: nat)
    requires lo <= hi <= |s|
    requires forall j :: lo <= j < hi ==> LiteralEnd(x, s, j).None?
    ensures Render(x, Extract(x, s, lo), n) == s[lo..hi] + Render(x, Extract(x, s, hi), n)
    ensures HeldTexts(Extract(x, s, lo)) == HeldTexts(Extract(x, s, hi))
    decreases hi - lo
  {
    if lo < hi {
      ExtractKeeps(x, s, lo + 1, hi, n);
      var ps := Extract(x, s, lo);
      var tail := Extract(x, s, lo + 1);
      assert ps == [Keep(s[lo])] + tail;
      assert ps[1..] == tail;
      assert Render(x, ps, n) == [s[lo]] + Render(x, tail, n);
      assert HeldTexts(ps) == HeldTexts(tail);
      SliceConsRange(s, lo, hi);
      ConcatAssoc([s[lo]], s[lo + 1..hi], Render(x, Extract(x, s, hi), n));
    }
  }

  /** An extraction pass leaves a plain text alone. */
  lemma ExtractPassOnPlain(x: Extractor, t: string, found: seq<string>)
    requires Plain(t)
    ensures ExtractPass(x, t, found) == Extracted(t, found)
  {
    ExtractKeeps(x, t, 0, |t|, |found|);
    assert t[0..|t|] == t;
  }

  /** The wrap passes leave a text without matches alone. */
  lemma WrapAllUnmarked(t: string)
    requires Unmarked(t)
    ensures WrapAll(t) == t
  {
    WrapWithoutMatches(KeywordWrap(KeywordList), t);
    WrapWithoutMatches(FunctionWrap, t);
    WrapWithoutMatches(ClassWrap, t);
    WrapWithoutMatches(NumberWrap, t);
    WrapWithoutMatches(SelfWrap, t);
  }

  /** A placeholder is plain and holds no match of any wrap pass. */
  lemma PlaceholderIsInert(x: Extractor, k: nat)
    ensures Plain(Placeholder(x, k)) && Unmarked(Placeholder(x, k))
  {
    var p := Placeholder(x, k);
    PlaceholderIsUnderscoreWord(x, k);
    OccursSelf(p);
    forall w: Wrapper, j | 0 <= j < |p| ensures WrapEnd(w, p, j).None? {
      NoMatchInsideWord(w, p, 0, p);
    }
  }

  /** A replacement whose pattern starts the text replaces that start. */
  lemma ReplaceAtFront(p: string, rest: string, rep: string)
    ensures ReplaceFirst(p + rest, p, rep) == rep + rest
  {
    var t := p + rest;
    assert OccursAt(t, p, 0) by {
      assert t[0..|p|] == p;
    }
    ReplaceFirstReplacesLeftmost(t, p, rep, 0);
    assert t[..0] + rep + t[|p|..] == rep + rest;
  }

  /** Restoring loops over no literal and over one literal. */
  lemma RestoreFew(t: string, lit: string, x: Extractor)
    ensures RestoreAll(t, [], x) == t
    ensures RestoreAll(t, [lit], x) == ReplaceFirst(t, Placeholder(x, 0), Span(SpanClass(x), lit))
  {
    assert RestoreUpTo(t, [lit], x, 0) == t;
    assert [lit][0] == lit;
  }

  /** The highlighter's output, from what the extraction passes leave. */
  lemma HighlightFromLift(s: string, text: string, strings: seq<string>, comments: seq<string>)
    requires Lift(s) == Lifted(text, strings, comments)
    ensures Highlight(s) == RestoreAll(RestoreAll(WrapAll(text), comments, LineComment), strings, Quoted)
  {
  }

  /** A pass over a text that is one literal from end to end leaves that
      literal's placeholder and records the literal. */
  lemma ExtractWhole(x: Extractor, s: string, found: seq<string>)
    requires |s| > 0 && LiteralEnd(x, s, 0) == Some(|s|)
    ensures ExtractPass(x, s, found) == Extracted(Placeholder(x, |found|), found + [s])
  {
    ExtractBeforeLiteral(x, s, 0, found);
    assert s[..0] == [] && s[0..] == s;
  }

  /** A text with no quote, no `#` and nothing for the wrap passes comes
      out of the highlighter unchanged. */
  lemma HighlightPlainText(s: string)
    requires Plain(s) && Unmarked(s)
    ensures Highlight(s) == s
  {
    ExtractPassOnPlain(Quoted, s, []);
    ExtractPassOnPlain(TripleQuoted, s, []);
    ExtractPassOnPlain(LineComment, s, []);
    HighlightFromLift(s, s, [], []);
    WrapAllUnmarked(s);
  }

  /** The extraction passes over a lone string literal. */
  lemma LiftLoneString(s: string)
    requires |s| > 0 && LiteralEnd(Quoted, s, 0) == Some(|s|)
    ensures Lift(s) == Lifted(Placeholder(Quoted, 0), [s], [])
  {
    var p := Placeholder(Quoted, 0);
    ExtractWhole(Quoted, s, []);
    PlaceholderIsInert(Quoted, 0);
    ExtractPassOnPlain(TripleQuoted, p, [] + [s]);
    ExtractPassOnPlain(LineComment, p, []);
  }

  /** A text that is one string literal from end to end, escapes
      included, comes out as one string span holding the literal verbatim:
      keywords, numbers and `#` inside it are left alone. */
  lemma HighlightLoneString(s: string)
    requires |s| > 0 && LiteralEnd(Quoted, s, 0) == Some(|s|)
    ensures Highlight(s) == Span("code-string", s)
  {
    var p := Placeholder(Quoted, 0);
    var rep := Span("code-string", s);
    LiftLoneString(s);
    HighlightFromLift(s, p, [s], []);
    PlaceholderIsInert(Quoted, 0);
    WrapAllUnmarked(p);
    RestoreFew(p, s, LineComment);
    RestoreFew(p, s, Quoted);
    ReplaceAtFront(p, [], rep);
    assert p + [] == p && rep + [] == rep;
  }

  /** The extraction passes over a lone comment. */
  lemma LiftLoneComment(s: string)
    requires |s| >= 1 && s[0] == '#'
    requires forall k :: 0 <= k < |s| ==> !IsQuote(s[k]) && !IsLineTerminator(s[k])
    ensures Lift(s) == Lifted(Placeholder(LineComment, 0), [], [s])
  {
    ExtractKeeps(Quoted, s, 0, |s|, 0);
    ExtractKeeps(TripleQuoted, s, 0, |s|, 0);
    assert s[0..|s|] == s;
    assert ExtractPass(Quoted, s, []) == Extracted(s, []);
    assert ExtractPass(TripleQuoted, s, []) == Extracted(s, []);
    RunEndAt(s, 1, LineRun, |s|);
    ExtractWhole(LineComment, s, []);
  }

  /** A lone comment (a `#` and a rest without quotes or line breaks)
      comes out as one comment span holding the comment verbatim. */
  lemma HighlightLoneComment(s: string)
    requires |s| >= 1 && s[0] == '#'
    requires forall k :: 0 <= k < |s| ==> !IsQuote(s[k]) && !IsLineTerminator(s[k])
    ensures Highlight(s) == Span("code-comment", s)
  {
    var p := Placeholder(LineComment, 0);
    var rep := Span("code-comment", s);
    LiftLoneComment(s);
    HighlightFromLift(s, p, [], [s]);
    PlaceholderIsInert(LineComment, 0);
    WrapAllUnmarked(p);
    RestoreFew(p, s, LineComment);
    ReplaceAtFront(p, [], rep);
    assert p + [] == p && rep + [] == rep;
    RestoreFew(rep, s, Quoted);
  }

  // ---------------------------------------------------------------------
  // Placeholders are ordinary text

  /** A literal that runs to the end of the text is the last piece. */
  lemma ExtractLastLiteral(x: Extractor, s: string, n: nat)
    requires n < |s| && LiteralEnd(x, s, n) == Some(|s|)
    ensures Extract(x, s, n) == [Held(s[n..])]
  {
    assert Extract(x, s, n) == [Held(s[n..|s|])] + Extract(x, s, |s|);
    assert s[n..|s|] == s[n..];
  }

  /** One literal piece renders as one placeholder. */
  lemma RenderOneLiteral(x: Extractor, t: string, k: nat)
    ensures Render(x, [Held(t)], k) == Placeholder(x, k)
    ensures HeldTexts([Held(t)]) == [t]
  {
    assert Render(x, [Held(t)], k) == Placeholder(x, k) + [];
    assert HeldTexts([Held(t)]) == [t] + [];
  }

  /** A pass over a text whose only literal runs from `n` to the end
      keeps the text before it and leaves the literal's placeholder. */
  lemma ExtractBeforeLiteral(x: Extractor, s: string, n: nat, found: seq<string>)
    requires n < |s| && LiteralEnd(x, s, n) == Some(|s|)
    requires forall j :: 0 <= j < n ==> LiteralEnd(x, s, j).None?
    ensures ExtractPass(x, s, found) == Extracted(s[..n] + Placeholder(x, |found|), found + [s[n..]])
  {
    ExtractKeeps(x, s, 0, n, |found|);
    ExtractLastLiteral(x, s, n);
    RenderOneLiteral(x, s[n..], |found|);
    assert s[0..n] == s[..n];
  }

  /** The string pass over a text without quotes followed by a string
      literal keeps the text and lifts the literal as the first string. */
  lemma LiftAfterPlain(a: string, q: string)
    requires forall j :: 0 <= j < |a| ==> !IsQuote(a[j])
    requires |q| >= 2 && IsQuote(q[0]) && q[|q| - 1] == q[0]
    requires forall k :: 0 < k < |q| - 1 ==> q[k] != q[0] && q[k] != '\\' && !IsLineTerminator(q[k])
    ensures ExtractPass(Quoted, a + q, []) == Extracted(a + Placeholder(Quoted, 0), [q])
  {
    var s := a + q;
    var n := |a|;
    assert forall k :: 0 <= k < |q| ==> s[n + k] == q[k];
    PlainStringIsLifted(s, n, |s|);
    forall j | 0 <= j < n ensures LiteralEnd(Quoted, s, j).None? {
      assert s[j] == a[j];
    }
    ExtractBeforeLiteral(Quoted, s, n, []);
    assert s[..n] == a && s[n..] == q;
  }

  /** Two underscore words around a character that is neither a letter
      nor a digit hold no match of any wrap pass. */
  lemma UnmarkedAround(p: string, c: char)
    requires IsUnderscoreWord(p) && !IsLetter(c) && !IsDigit(c)
    ensures Unmarked(p + [c] + p)
  {
    var t := p + [c] + p;
    var n := |p|;
    assert t[0..n] == p && t[n + 1..n + 1 + n] == p;
    forall w: Wrapper, j | 0 <= j < |t| ensures WrapEnd(w, t, j).None? {
      NoMatchInsideWord(w, t, 0, p);
      NoMatchInsideWord(w, t, n + 1, p);
      assert t[n] == c;
    }
  }

  /** Two plain texts around a plain character make a plain text. */
  lemma PlainAround(p: string, c: char)
    requires Plain(p) && !IsQuote(c) && c != '#'
    ensures Plain(p + [c] + p)
  {
    var t := p + [c] + p;
    assert forall j :: 0 <= j < |p| ==> t[j] == p[j] && t[|p| + 1 + j] == p[j];
  }

  /** A sample that spells the first string placeholder before its first
      string literal: the literal is put back where the sample's own
      spelling stood, and the real placeholder is left in the output. */
  lemma PlaceholderCollision()
    ensures var p := Placeholder(Quoted, 0);
            Highlight(p + "=\"x\"") == Span("code-string", "\"x\"") + "=" + p
  {
    var p := Placeholder(Quoted, 0);
    var q := "\"x\"";
    var s := p + "=" + q;
    var t := p + "=" + p;
    assert p + "=\"x\"" == s by {
      ConcatAssoc(p, "=", q);
    }
    var rep := Span("code-string", q);
    PlaceholderIsInert(Quoted, 0);
    PlaceholderIsUnderscoreWord(Quoted, 0);
    // The string pass keeps the sample's spelling and `=`, and lifts the literal.
    LiftAfterPlain(p + "=", q);
    // Nothing else is lifted or wrapped.
    PlainAround(p, '=');
    UnmarkedAround(p, '=');
    ExtractPassOnPlain(TripleQuoted, t, [q]);
    ExtractPassOnPlain(LineComment, t, []);
    HighlightFromLift(s, t, [q], []);
    WrapAllUnmarked(t);
    RestoreFew(t, q, LineComment);
    RestoreFew(t, q, Quoted);
    // The first spelling of the placeholder is the sample's own.
    ReplaceAtFront(p, "=" + p, rep);
    ConcatAssoc(p, "=", p);
    ConcatAssoc(rep, "=", p);
  }
}
