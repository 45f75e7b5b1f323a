/**
 * The scanners of the highlighter seen from the other side: each reports
 * a match exactly when the text holds one, and the match it reports is the
 * one the regular expression picks (the first closing delimiter of a lazy
 * body, the first alternative of the keyword list, the whole name of a
 * declaration). With these, each wrap pass is shown to put its markup
 * wherever its pattern occurs, at any word boundary of the text.
 */
module MatcherProperties {
  import opened SyntaxHighlighter

  // ---------------------------------------------------------------------
  // Quoted bodies

  /** One step through the body of a quoted literal at `j`: a backslash
      takes the character after it along, any other character is taken
      alone, and a line terminator cannot be taken at all. */
  function TokenEnd(s: string, j: nat): (r: Option<nat>)
    requires j < |s|
    ensures r.Some? ==> j < r.value <= |s|
    ensures r.Some? ==> forall k :: j <= k < r.value ==> !IsLineTerminator(s[k])
  {
    if s[j] == '\\' then
      if j + 1 < |s| && !IsLineTerminator(s[j + 1]) then Some(j + 2) else None
    else if IsLineTerminator(s[j]) then None
    else Some(j + 1)
  }

  /** Position `k` is reached from `j` by whole steps through a body. */
  predicate Reaches(s: string, j: nat, k: nat)
    decreases |s| - j
  {
    j == k || (j < k && j < |s| && TokenEnd(s, j).Some? && Reaches(s, TokenEnd(s, j).value, k))
  }

  /** A step taken from `j` towards a position reached from `j`. */
  lemma ReachesUnfold(s: string, j: nat, k: nat)
    requires j < k && Reaches(s, j, k)
    ensures j < |s| && TokenEnd(s, j).Some? && TokenEnd(s, j).value <= k
    ensures Reaches(s, TokenEnd(s, j).value, k)
  {
  }

  /** Where the body scanner finds a closing delimiter, it is reached
      from where the scan started, and no earlier one is. */
  lemma {:induction false} CloseDelimiterIsFirst(s: string, i: nat, w: nat, j: nat)
    requires w == 1 || w == 3
    requires i + w <= j <= |s| && CloseDelimiter(s, i, w, j).Some?
    ensures var e := CloseDelimiter(s, i, w, j).value;
            Reaches(s, j, e - w) &&
            forall k :: j <= k < e - w && Reaches(s, j, k) ==> !RepeatsAt(s, i, w, k)
    decreases |s| - j
  {
    if !(j + w <= |s| && RepeatsAt(s, i, w, j)) {
      assert j < |s| && TokenEnd(s, j).Some?;
      var next := TokenEnd(s, j).value;
      assert CloseDelimiter(s, i, w, j) == CloseDelimiter(s, i, w, next);
      CloseDelimiterIsFirst(s, i, w, next);
      var e := CloseDelimiter(s, i, w, j).value;
      forall k | j <= k < e - w && Reaches(s, j, k) ensures !RepeatsAt(s, i, w, k) {
        if j < k {
          ReachesUnfold(s, j, k);
        }
      }
    }
  }

  /** Where the body scanner fails, no closing delimiter can be reached. */
  lemma {:induction false} CloseDelimiterFails(s: string, i: nat, w: nat, j: nat)
    requires w == 1 || w == 3
    requires i + w <= j <= |s| && CloseDelimiter(s, i, w, j).None?
    ensures forall k :: j <= k && k + w <= |s| && Reaches(s, j, k) ==> !RepeatsAt(s, i, w, k)
    decreases |s| - j
  {
    if j < |s| && TokenEnd(s, j).Some? {
      var next := TokenEnd(s, j).value;
      assert CloseDelimiter(s, i, w, j) == CloseDelimiter(s, i, w, next);
      CloseDelimiterFails(s, i, w, next);
      forall k | j <= k && k + w <= |s| && Reaches(s, j, k) ensures !RepeatsAt(s, i, w, k) {
        if j < k {
          ReachesUnfold(s, j, k);
        }
      }
    }
  }

  /** The body scanner fails exactly when no closing delimiter can be
      reached, and otherwise stops after the first one it reaches: the
      lazy `*?` of the pattern. */
  lemma CloseDelimiterFindsFirst(s: string, i: nat, w: nat, j: nat)
    requires w == 1 || w == 3
    requires i + w <= j <= |s|
    ensures CloseDelimiter(s, i, w, j).None? <==>
              forall k :: j <= k && k + w <= |s| && Reaches(s, j, k) ==> !RepeatsAt(s, i, w, k)
    ensures CloseDelimiter(s, i, w, j).Some? ==>
              var e := CloseDelimiter(s, i, w, j).value;
              Reaches(s, j, e - w) &&
              forall k :: j <= k < e - w && Reaches(s, j, k) ==> !RepeatsAt(s, i, w, k)
  {
    if CloseDelimiter(s, i, w, j).Some? {
      CloseDelimiterIsFirst(s, i, w, j);
    } else {
      CloseDelimiterFails(s, i, w, j);
    }
  }

  /** The `w` characters at `i` are quotes. */
  predicate Opens(s: string, i: nat, w: nat)
    requires i + w <= |s|
  {
    forall k :: i <= k < i + w ==> IsQuote(s[k])
  }

  /** A comment starts exactly at a `#`. */
  lemma CommentStartsAtHash(s: string, i: nat)
    requires i < |s|
    ensures LiteralEnd(LineComment, s, i).Some? <==> s[i] == '#'
  {
  }

  /** A quoted pass opens on `w` quotes and then looks for the close. */
  lemma QuotedLiteralOpensThenCloses(x: Extractor, s: string, i: nat, w: nat)
    requires x != LineComment && w == (if x == Quoted then 1 else 3) && i < |s|
    ensures LiteralEnd(x, s, i) ==
              if i + w <= |s| && Opens(s, i, w) then CloseDelimiter(s, i, w, i + w) else None
  {
    if w == 1 {
      assert Opens(s, i, w) <==> IsQuote(s[i]);
    } else if i + w <= |s| {
      assert Opens(s, i, w) <==> IsQuote(s[i]) && IsQuote(s[i + 1]) && IsQuote(s[i + 2]);
    }
  }

  /** A quoted literal of `w` quotes starts exactly where `w` quotes are
      followed by a reachable closing delimiter, and it ends at the first
      such delimiter. */
  lemma QuotedLiteralFindsFirst(x: Extractor, s: string, i: nat, w: nat)
    requires x != LineComment && w == (if x == Quoted then 1 else 3) && i < |s|
    ensures LiteralEnd(x, s, i).Some? <==>
              i + w <= |s| && Opens(s, i, w) &&
              exists k :: i + w <= k && k + w <= |s| && Reaches(s, i + w, k) && RepeatsAt(s, i, w, k)
    ensures LiteralEnd(x, s, i).Some? ==> i + 2 * w <= LiteralEnd(x, s, i).value <= |s|
    ensures LiteralEnd(x, s, i).Some? ==>
              var e := LiteralEnd(x, s, i).value;
              Reaches(s, i + w, e - w) && RepeatsAt(s, i, w, e - w) &&
              forall k :: i + w <= k < e - w && Reaches(s, i + w, k) ==> !RepeatsAt(s, i, w, k)
  {
    QuotedLiteralOpensThenCloses(x, s, i, w);
    if i + w <= |s| && Opens(s, i, w) {
      CloseDelimiterFindsFirst(s, i, w, i + w);
    }
  }

  /** Steps through a body that holds neither the opening quote, a
      backslash nor a line terminator end at the next copy of the quote. */
  lemma {:induction false} PlainBodyCloses(s: string, i: nat, j: nat, e: nat)
    requires i + 1 <= j < e <= |s| && s[e - 1] == s[i]
    requires forall k :: j <= k < e - 1 ==> s[k] != s[i] && s[k] != '\\' && !IsLineTerminator(s[k])
    ensures CloseDelimiter(s, i, 1, j) == Some(e)
    decreases e - j
  {
    if j < e - 1 {
      PlainBodyCloses(s, i, j + 1, e);
    }
  }

  /** A quote, a body with neither that quote, a backslash nor a line
      terminator, and the same quote again: the string pass lifts exactly
      that literal. */
  lemma PlainStringIsLifted(s: string, i: nat, e: nat)
    requires i + 2 <= e <= |s| && IsQuote(s[i]) && s[e - 1] == s[i]
    requires forall k :: i < k < e - 1 ==> s[k] != s[i] && s[k] != '\\' && !IsLineTerminator(s[k])
    ensures LiteralEnd(Quoted, s, i) == Some(e)
  {
    PlainBodyCloses(s, i, i + 1, e);
  }

  // ---------------------------------------------------------------------
  // Keywords

  /** The alternative `kw` matches at `i` and is followed by `\b`. */
  predicate KeywordAt(s: string, i: nat, kw: string)
    requires i <= |s|
  {
    StartsWith(s, i, kw) && IsBoundary(s, i + |kw|)
  }

  /** The keyword matcher fails exactly when no alternative matches, and
      otherwise ends after the first alternative that does. */
  lemma {:induction false} KeywordMatchFindsFirst(s: string, i: nat, kws: seq<Keyword>)
    requires i <= |s|
    ensures KeywordMatch(s, i, kws).None? <==> forall k :: 0 <= k < |kws| ==> !KeywordAt(s, i, kws[k])
    ensures KeywordMatch(s, i, kws).Some? ==>
              exists k :: 0 <= k < |kws| && KeywordAt(s, i, kws[k]) &&
                          KeywordMatch(s, i, kws).value == i + |kws[k]| &&
                          forall j :: 0 <= j < k ==> !KeywordAt(s, i, kws[j])
    decreases |kws|
  {
    if kws != [] && !KeywordAt(s, i, kws[0]) {
      var tail := kws[1..];
      KeywordMatchFindsFirst(s, i, tail);
      assert forall k :: 1 <= k < |kws| ==> kws[k] == tail[k - 1];
      if KeywordMatch(s, i, tail).Some? {
        var k :| 0 <= k < |tail| && KeywordAt(s, i, tail[k]) &&
                 KeywordMatch(s, i, tail).value == i + |tail[k]| &&
                 forall j :: 0 <= j < k ==> !KeywordAt(s, i, tail[j]);
        assert kws[k + 1] == tail[k];
        assert forall j :: 0 <= j < k + 1 ==> !KeywordAt(s, i, kws[j]);
      }
    }
  }

  /** At most one word of letters matches at a position and is followed by
      `\b`, so the order of the alternatives never changes the match. */
  lemma KeywordAtUnique(s: string, i: nat, a: string, b: string)
    requires i <= |s| && IsLetterWord(a) && IsLetterWord(b)
    requires KeywordAt(s, i, a) && KeywordAt(s, i, b)
    ensures a == b
  {
    StartsWithAt(s, i, a);
    StartsWithAt(s, i, b);
    if |a| < |b| {
      assert IsWordChar(s[i + |a| - 1]) && IsWordChar(s[i + |a|]);
    } else if |b| < |a| {
      assert IsWordChar(s[i + |b| - 1]) && IsWordChar(s[i + |b|]);
    } else {
      assert a == s[i..i + |a|] == b;
    }
  }

  /** An alternative that matches makes the keyword matcher end after it. */
  lemma KeywordMatchEndsAfter(s: string, i: nat, kws: seq<Keyword>, kw: Keyword)
    requires i <= |s| && kw in kws && KeywordAt(s, i, kw)
    ensures KeywordMatch(s, i, kws) == Some(i + |kw|)
  {
    KeywordMatchFindsFirst(s, i, kws);
    var k :| 0 <= k < |kws| && KeywordAt(s, i, kws[k]) &&
             KeywordMatch(s, i, kws).value == i + |kws[k]|;
    KeywordAtUnique(s, i, kws[k], kw);
  }

  /** Wherever an alternative of the keyword pass occurs at a word
      boundary and is followed by one, the pass wraps it in a keyword span
      and goes on after it. */
  lemma KeywordIsWrapped(kws: seq<Keyword>, s: string, i: nat, kw: Keyword)
    requires i < |s| && IsBoundary(s, i) && kw in kws && KeywordAt(s, i, kw)
    ensures Scan(KeywordWrap(kws), s, i) == Span("code-keyword", kw) + Scan(KeywordWrap(kws), s, i + |kw|)
  {
    var w := KeywordWrap(kws);
    KeywordMatchEndsAfter(s, i, kws, kw);
    assert WrapEnd(w, s, i) == Some(i + |kw|);
    ScanReplacesMatch(w, s, i, i + |kw|);
    assert Markup(w, s, i, i + |kw|) == Span("code-keyword", kw);
  }

  // ---------------------------------------------------------------------
  // Declarations, numbers and `self`

  /** A declaration keyword at a word boundary, white space up to `n` and
      a word from `n` to `e` make a declaration match that ends at `e`
      and whose name starts at `n`; with the contract of `DeclarationMatch`
      this is an if-and-only-if. */
  lemma DeclarationFound(s: string, i: nat, kw: string, n: nat, e: nat)
    requires IsLetterWord(kw) && i <= |s| && IsBoundary(s, i) && StartsWith(s, i, kw)
    requires i + |kw| < n < e <= |s|
    requires forall k :: i + |kw| <= k < n ==> IsSpace(s[k])
    requires forall k :: n <= k < e ==> IsWordChar(s[k])
    requires e == |s| || !IsWordChar(s[e])
    ensures NameStart(s, i, kw) == n && DeclarationMatch(s, i, kw) == Some(e)
  {
    StartsWithAt(s, i, kw);
    assert !IsSpace(s[n]) by {
      assert IsWordChar(s[n]);
    }
    RunEndAt(s, i + |kw|, SpaceRun, n);
    RunEndAt(s, n, WordRun, e);
  }

  /** Wherever `def` or `class` stands at a word boundary followed by
      white space and a word, its pass puts the keyword span, one space
      (whatever the gap was) and the name span holding the whole word,
      and goes on after the word. */
  lemma DeclarationIsWrapped(w: Wrapper, kw: string, cls: string, s: string, i: nat, n: nat, e: nat)
    requires (w == FunctionWrap && kw == "def" && cls == "code-function") ||
             (w == ClassWrap && kw == "class" && cls == "code-class")
    requires i < |s| && IsBoundary(s, i) && StartsWith(s, i, kw)
    requires i + |kw| < n < e <= |s|
    requires forall k :: i + |kw| <= k < n ==> IsSpace(s[k])
    requires forall k :: n <= k < e ==> IsWordChar(s[k])
    requires e == |s| || !IsWordChar(s[e])
    ensures Scan(w, s, i) == (Span("code-keyword", kw) + " ") + Span(cls, s[n..e]) + Scan(w, s, e)
  {
    DeclarationKeywordsAreWords();
    DeclarationFound(s, i, kw, n, e);
    ScanAtDeclaration(w, s, i, e, kw, cls);
  }

  /** A number starts exactly where a digit run starts and ends at word
      boundaries. */
  lemma NumberMatchFinds(s: string, i: nat)
    requires i < |s|
    ensures NumberMatch(s, i).Some? <==>
              IsBoundary(s, i) && IsDigit(s[i]) && IsBoundary(s, RunEnd(s, i, DigitRun))
  {
  }

  /** Wherever a number starts, the number pass wraps the longest
      `digits[.digits]` that ends at a word boundary in a number span and
      goes on after it: `3.14` is one span. */
  lemma NumberIsWrapped(s: string, i: nat)
    requires i < |s| && IsBoundary(s, i) && IsDigit(s[i]) && IsBoundary(s, RunEnd(s, i, DigitRun))
    ensures NumberMatch(s, i).Some?
    ensures var e := NumberMatch(s, i).value;
            NumberShape(s, i, e) && IsBoundary(s, e) &&
            forall f :: e < f <= |s| && NumberShape(s, i, f) ==> !IsBoundary(s, f)
    ensures var e := NumberMatch(s, i).value;
            Scan(NumberWrap, s, i) == Span("code-number", s[i..e]) + Scan(NumberWrap, s, e)
  {
    NumberMatchFinds(s, i);
    ScanReplacesMatch(NumberWrap, s, i, NumberMatch(s, i).value);
  }

  /** Wherever the word `self` stands alone, the last pass wraps it. */
  lemma SelfIsWrapped(s: string, i: nat)
    requires i < |s| && IsBoundary(s, i) && StartsWith(s, i, "self") && IsBoundary(s, i + 4)
    ensures Scan(SelfWrap, s, i) == Span("code-self", "self") + Scan(SelfWrap, s, i + 4)
  {
    ScanReplacesMatch(SelfWrap, s, i, i + 4);
  }
}
