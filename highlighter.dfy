/**
 * The syntax highlighter of the code sample: a fixed pipeline of text
 * passes over the sample's raw text.
 *
 *  1. quoted string literals are lifted out into `__STRING_k__` placeholders,
 *  2. then triple-quoted literals (numbering continues),
 *  3. then `#` comments into `__COMMENT_k__` placeholders;
 *  4. whole-word keywords are wrapped in a keyword span,
 *  5. `def name` and `class name` become a keyword span and a name span,
 *  6. numbers and then `self` are wrapped;
 *  7. comment placeholders and then string placeholders are replaced, first
 *     occurrence first, by their literal inside a span.
 *
 * Each regular expression of the pipeline is written out as a scanner over
 * `seq<char>` with the JavaScript meaning of its classes: `\w` is
 * `[A-Za-z0-9_]`, `\d` is `[0-9]`, `\s` is the JavaScript white-space set,
 * `.` is any character but a line terminator, and `\b` holds between a word
 * and a non-word character (the ends of the text count as non-word). A
 * global replace tries a match at every position from left to right,
 * resumes after each match, and always inspects the text it started from.
 */
module SyntaxHighlighter {

  datatype Option<T> = None | Some(value: T)

  // ---------------------------------------------------------------------
  // Character classes

  predicate IsLetter(c: char) { 'a' <= c <= 'z' || 'A' <= c <= 'Z' }

  predicate IsDigit(c: char) { '0' <= c <= '9' }

  /** JavaScript `\w`. */
  predicate IsWordChar(c: char) { IsLetter(c) || IsDigit(c) || c == '_' }

  /** The characters JavaScript's `.` does not match and its `$` (multiline) stops before. */
  predicate IsLineTerminator(c: char)
  {
    c == '\n' || c == '\r' || c == '\U{2028}' || c == '\U{2029}'
  }

  /** JavaScript `\s`: the white-space and line-terminator characters. */
  predicate IsSpace(c: char)
  {
    c == '\t' || c == '\n' || c == '\U{B}' || c == '\U{C}' || c == '\r' || c == ' ' ||
    c == '\U{A0}' || c == '\U{1680}' || ('\U{2000}' <= c <= '\U{200A}') ||
    c == '\U{2028}' || c == '\U{2029}' || c == '\U{202F}' || c == '\U{205F}' ||
    c == '\U{3000}' || c == '\U{FEFF}'
  }

  /** The three quote characters of `["'`]`. */
  predicate IsQuote(c: char) { c == '"' || c == '\'' || c == '`' }

  /** `\b` at position `i` of `s`. */
  predicate IsBoundary(s: string, i: nat)
    requires i <= |s|
  {
    (i > 0 && IsWordChar(s[i - 1])) != (i < |s| && IsWordChar(s[i]))
  }

  /** The character runs the scanners skip over greedily. */
  datatype Run = WordRun | SpaceRun | DigitRun | LineRun

  predicate InRun(c: char, run: Run)
  {
    match run
    case WordRun => IsWordChar(c)
    case SpaceRun => IsSpace(c)
    case DigitRun => IsDigit(c)
    case LineRun => !IsLineTerminator(c)
  }

  /** The end of the longest run of `run` characters starting at `i`. */
  function RunEnd(s: string, i: nat, run: Run): (e: nat)
    requires i <= |s|
    ensures i <= e <= |s|
    ensures forall k :: i <= k < e ==> InRun(s[k], run)
    ensures e == |s| || !InRun(s[e], run)
    decreases |s| - i
  {
    if i < |s| && InRun(s[i], run) then RunEnd(s, i + 1, run) else i
  }

  predicate NoLineTerminator(t: string)
  {
    forall k :: 0 <= k < |t| ==> !IsLineTerminator(t[k])
  }

  // ---------------------------------------------------------------------
  // Extraction passes (steps 1-3)

  /** The three extraction passes: `(["'`])(?:(?=(\\?))\2.)*?\1`,
      `(["'`]{3})(?:(?=(\\?))\2.)*?\1` and `#.*$` with the multiline flag. */
  datatype Extractor = Quoted | TripleQuoted | LineComment

  /** The `w` characters at `j` repeat the `w` quote characters at `i`
      (the back-reference `\1`; `w` is 1 or 3). */
  predicate RepeatsAt(s: string, i: nat, w: nat, j: nat)
    requires w == 1 || w == 3
    requires i + w <= |s| && j + w <= |s|
  {
    s[j] == s[i] && (w == 3 ==> s[j + 1] == s[i + 1] && s[j + 2] == s[i + 2])
  }

  /**
   * The lazy body of a quoted literal opened by the `w` quotes at `i`, from
   * `j` up to and including the closing delimiter: at each position the
   * delimiter closes the literal; otherwise a backslash takes the next
   * character with it, and any other character is taken alone; a line
   * terminator, or the end of the text, makes the match fail.
   */
  function CloseDelimiter(s: string, i: nat, w: nat, j: nat): (r: Option<nat>)
    requires w == 1 || w == 3
    requires i + w <= j <= |s|
    ensures r.Some? ==> j + w <= r.value <= |s| && RepeatsAt(s, i, w, r.value - w)
    ensures r.Some? ==> forall k :: j <= k < r.value - w ==> !IsLineTerminator(s[k])
    decreases |s| - j
  {
    if j + w <= |s| && RepeatsAt(s, i, w, j) then Some(j + w)
    else if j >= |s| then None
    else if s[j] == '\\' then
      if j + 1 < |s| && !IsLineTerminator(s[j + 1]) then CloseDelimiter(s, i, w, j + 2) else None
    else if IsLineTerminator(s[j]) then None
    else CloseDelimiter(s, i, w, j + 1)
  }

  /** The text of a literal one extraction pass lifts out: a quoted string
      opened and closed by the same quote, a triple-quoted one opened and
      closed by the same three quotes, or a `#` comment; none spans a line
      break. */
  predicate IsLiteral(x: Extractor, t: string)
  {
    NoLineTerminator(t) &&
    match x
    case Quoted => |t| >= 2 && IsQuote(t[0]) && t[|t| - 1] == t[0]
    case TripleQuoted =>
      |t| >= 6 && IsQuote(t[0]) && IsQuote(t[1]) && IsQuote(t[2]) &&
      t[|t| - 3] == t[0] && t[|t| - 2] == t[1] && t[|t| - 1] == t[2]
    case LineComment => |t| >= 1 && t[0] == '#'
  }

  /** A slice of `s` free of line terminators, stated by positions. */
  lemma NoLineTerminatorSlice(s: string, i: nat, e: nat)
    requires i <= e <= |s|
    requires forall k :: i <= k < e ==> !IsLineTerminator(s[k])
    ensures NoLineTerminator(s[i..e])
  {
    forall k | 0 <= k < e - i ensures !IsLineTerminator(s[i..e][k]) {
      assert s[i..e][k] == s[i + k];
    }
  }

  /** A quoted literal of `s[i..e]` read back as a text on its own. */
  lemma QuotedLiteral(x: Extractor, s: string, i: nat, e: nat)
    requires x == Quoted || x == TripleQuoted
    requires var w := if x == Quoted then 1 else 3;
             i + 2 * w <= e <= |s| && RepeatsAt(s, i, w, e - w) &&
             (forall k :: i <= k < i + w ==> IsQuote(s[k])) &&
             (forall k :: i + w <= k < e - w ==> !IsLineTerminator(s[k]))
    ensures IsLiteral(x, s[i..e])
  {
    var w := if x == Quoted then 1 else 3;
    forall k | i <= k < e ensures !IsLineTerminator(s[k]) {
      if k < i + w {
        assert IsQuote(s[k]);
      } else if e - w <= k {
        assert IsQuote(s[k - (e - w) + i]);
      }
    }
    NoLineTerminatorSlice(s, i, e);
  }

  /** Where a match of the pass starting at `i` ends, if one does. */
  function LiteralEnd(x: Extractor, s: string, i: nat): (r: Option<nat>)
    requires i < |s|
    ensures r.Some? ==> i < r.value <= |s| && IsLiteral(x, s[i..r.value])
    ensures r.Some? && x == LineComment ==> r.value == |s| || IsLineTerminator(s[r.value])
  {
    match x
    case Quoted =>
      if IsQuote(s[i]) then
        var r := CloseDelimiter(s, i, 1, i + 1);
        if r.Some? then
          QuotedLiteral(x, s, i, r.value);
          r
        else None
      else None
    case TripleQuoted =>
      if i + 3 <= |s| && IsQuote(s[i]) && IsQuote(s[i + 1]) && IsQuote(s[i + 2]) then
        var r := CloseDelimiter(s, i, 3, i + 3);
        if r.Some? then
          QuotedLiteral(x, s, i, r.value);
          r
        else None
      else None
    case LineComment =>
      if s[i] == '#' then
        var e := RunEnd(s, i + 1, LineRun);
        NoLineTerminatorSlice(s, i, e);
        Some(e)
      else None
  }

  /** What a global replace sees, position by position: a character it
      keeps, or a whole match it hands to the callback. */
  datatype Piece = Keep(c: char) | Held(text: string)

  /** The matches of one extraction pass over `s[i..]`, left to right. */
  function Extract(x: Extractor, s: string, i: nat): (ps: seq<Piece>)
    requires i <= |s|
    ensures forall k :: 0 <= k < |ps| && ps[k].Held? ==> IsLiteral(x, ps[k].text)
    decreases |s| - i
  {
    if i == |s| then []
    else match LiteralEnd(x, s, i)
      case Some(e) => [Held(s[i..e])] + Extract(x, s, e)
      case None => [Keep(s[i])] + Extract(x, s, i + 1)
  }

  function PieceText(p: Piece): string
  {
    match p
    case Keep(c) => [c]
    case Held(t) => t
  }

  /** The text the pieces were cut from. */
  function Flatten(ps: seq<Piece>): string
  {
    if ps == [] then [] else PieceText(ps[0]) + Flatten(ps[1..])
  }

  /** The matched texts, in the order the callback pushes them. */
  function HeldTexts(ps: seq<Piece>): seq<string>
  {
    if ps == [] then []
    else (match ps[0] case Keep(_) => [] case Held(t) => [t]) + HeldTexts(ps[1..])
  }

  /** The decimal numeral of `n`, as a template literal prints it. */
  function DecimalString(n: nat): (r: string)
    ensures |r| > 0 && forall k :: 0 <= k < |r| ==> IsDigit(r[k])
  {
    var last := ['0' + (n % 10) as char];
    if n < 10 then last else DecimalString(n / 10) + last
  }

  function Tag(x: Extractor): string
  {
    if x == LineComment then "COMMENT" else "STRING"
  }

  /** The placeholder for the `k`-th literal of a pass. */
  function Placeholder(x: Extractor, k: nat): string
  {
    "__" + Tag(x) + "_" + DecimalString(k) + "__"
  }

  /** The replaced text: every match becomes the placeholder numbered by
      how many literals were recorded before it. */
  function Render(x: Extractor, ps: seq<Piece>, next: nat): string
  {
    if ps == [] then []
    else match ps[0]
      case Keep(c) => [c] + Render(x, ps[1..], next)
      case Held(_) => Placeholder(x, next) + Render(x, ps[1..], next + 1)
  }

  /** Text and recorded literals after an extraction pass. */
  datatype Extracted = Extracted(text: string, found: seq<string>)

  /** One extraction pass over `text`, appending its literals to `found`. */
  function ExtractPass(x: Extractor, text: string, found: seq<string>): Extracted
  {
    var ps := Extract(x, text, 0);
    Extracted(Render(x, ps, |found|), found + HeldTexts(ps))
  }

  // ---------------------------------------------------------------------
  // Wrap passes (steps 4-6)

  /** A non-empty word of letters. */
  predicate IsLetterWord(w: string)
  {
    |w| > 0 && forall k :: 0 <= k < |w| ==> IsLetter(w[k])
  }

  /** An alternative of the keyword pattern. Every keyword is a non-empty
      word of letters, so a keyword match never holds `_`, a digit or a
      space. */
  type Keyword = w: string | IsLetterWord(w) witness "if"

  /** The five wrap passes: `\b(if|elif|...)\b` over its alternatives,
      `\bdef\s+(\w+)`, `\bclass\s+(\w+)`, `\b\d+\.?\d*\b` and `\bself\b`. */
  datatype Wrapper =
    | KeywordWrap(keywords: seq<Keyword>)
    | FunctionWrap
    | ClassWrap
    | NumberWrap
    | SelfWrap

  /** The keyword alternatives, in the order the alternation tries them,
      five to a line. */
  const Keywords1: seq<Keyword> := ["if", "elif", "else", "for", "while"]
  const Keywords2: seq<Keyword> := ["return", "import", "from", "as", "try"]
  const Keywords3: seq<Keyword> := ["except", "finally", "with", "and", "or"]
  const Keywords4: seq<Keyword> := ["not", "in", "is", "None", "True"]
  const Keywords5: seq<Keyword> := ["False", "break", "continue", "pass", "lambda"]
  const Keywords6: seq<Keyword> := ["yield", "async", "await", "global", "nonlocal"]
  const KeywordList: seq<Keyword> := Keywords1 + Keywords2 + Keywords3 + Keywords4 + Keywords5 + Keywords6

  /** `def`, `class` and `self` are words of letters too. */
  lemma DeclarationKeywordsAreWords()
    ensures IsLetterWord("def") && IsLetterWord("class") && IsLetterWord("self")
  {
  }

  predicate StartsWith(s: string, i: nat, w: string)
    requires i <= |s|
  {
    i + |w| <= |s| && s[i..i + |w|] == w
  }

  /** A word at `i` puts its own characters at the positions it covers. */
  lemma StartsWithAt(s: string, i: nat, w: string)
    requires i <= |s| && StartsWith(s, i, w)
    ensures forall k :: i <= k < i + |w| ==> s[k] == w[k - i]
  {
    forall k | i <= k < i + |w| ensures s[k] == w[k - i] {
      assert s[k] == s[i..i + |w|][k - i];
    }
  }

  /** The first alternative that matches at `i` and is followed by `\b`. */
  function KeywordMatch(s: string, i: nat, kws: seq<Keyword>): (r: Option<nat>)
    requires i <= |s|
    ensures r.Some? ==> i < r.value <= |s| && s[i..r.value] in kws && IsBoundary(s, r.value)
    ensures r.Some? ==> forall k :: i <= k < r.value ==> IsLetter(s[k])
    decreases |kws|
  {
    if kws == [] then None
    else if StartsWith(s, i, kws[0]) && IsBoundary(s, i + |kws[0]|) then
      StartsWithAt(s, i, kws[0]);
      Some(i + |kws[0]|)
    else KeywordMatch(s, i, kws[1..])
  }

  /** The start of the name in a `def`/`class` match starting at `i`. */
  function NameStart(s: string, i: nat, kw: string): nat
    requires i + |kw| <= |s|
  {
    RunEnd(s, i + |kw|, SpaceRun)
  }

  /** `\b` + kw + `\s+(\w+)` at `i`: the greedy space run must be followed
      by at least one word character, and the name is the whole word run. */
  function DeclarationMatch(s: string, i: nat, kw: string): (r: Option<nat>)
    requires i <= |s| && IsLetterWord(kw)
    ensures r.Some? ==> StartsWith(s, i, kw) && IsBoundary(s, i) && IsLetter(s[i])
    ensures r.Some? ==> i + |kw| < NameStart(s, i, kw) < r.value <= |s|
    ensures r.Some? ==> forall k :: i + |kw| <= k < NameStart(s, i, kw) ==> IsSpace(s[k])
    ensures r.Some? ==> forall k :: NameStart(s, i, kw) <= k < r.value ==> IsWordChar(s[k])
    ensures r.Some? ==> r.value == |s| || !IsWordChar(s[r.value])
  {
    if IsBoundary(s, i) && StartsWith(s, i, kw) && i + |kw| < |s| && IsSpace(s[i + |kw|]) then
      StartsWithAt(s, i, kw);
      var n := NameStart(s, i, kw);
      if n < |s| && IsWordChar(s[n]) then Some(RunEnd(s, n, WordRun)) else None
    else None
  }

  /** `s[i..e]` has the shape of `\d+\.?\d*`: digits, then at most one
      dot, then digits. */
  predicate NumberShape(s: string, i: nat, e: nat)
  {
    i < e <= |s| && IsDigit(s[i]) &&
    (forall k :: i <= k < e ==> IsDigit(s[k]) || s[k] == '.') &&
    (forall k, j :: i <= k < j < e && s[k] == '.' ==> IsDigit(s[j]))
  }

  /** `\b\d+\.?\d*\b` at `i`, with the backtracking order of the greedy
      quantifiers: the longest `digits.digits` ending at a boundary, else
      `digits.` when a word character follows the dot, else the digits. */
  function NumberMatch(s: string, i: nat): (r: Option<nat>)
    requires i < |s|
    ensures r.Some? ==> i < r.value <= |s| && IsBoundary(s, i) && IsBoundary(s, r.value)
    ensures r.Some? ==> IsDigit(s[i]) && forall k :: i <= k < r.value ==> IsDigit(s[k]) || s[k] == '.'
    ensures r.Some? ==> forall k, j :: i <= k < j < r.value && s[k] == '.' ==> IsDigit(s[j])
    ensures r.Some? ==> forall e :: r.value < e <= |s| && NumberShape(s, i, e) ==> !IsBoundary(s, e)
  {
    if !(IsBoundary(s, i) && IsDigit(s[i])) then None
    else
      var a := RunEnd(s, i, DigitRun);
      if a < |s| && s[a] == '.' then
        var b := RunEnd(s, a + 1, DigitRun);
        if b > a + 1 && IsBoundary(s, b) then Some(b)
        else if IsBoundary(s, a + 1) then Some(a + 1)
        else if IsBoundary(s, a) then Some(a)
        else None
      else if IsBoundary(s, a) then Some(a)
      else None
  }

  /** Where a match of the wrap pass starting at `i` ends, if one does. */
  function WrapEnd(w: Wrapper, s: string, i: nat): (r: Option<nat>)
    requires i < |s|
    ensures r.Some? ==> i < r.value <= |s| && IsBoundary(s, i) && (IsLetter(s[i]) || IsDigit(s[i]))
    ensures r.Some? && !(w.FunctionWrap? || w.ClassWrap?) ==>
              forall k :: i <= k < r.value ==> s[k] != '_'
    ensures r.Some? && w == SelfWrap ==>
              r.value == i + 4 && StartsWith(s, i, "self") && IsBoundary(s, i + 4)
  {
    match w
    case KeywordWrap(keywords) =>
      if IsBoundary(s, i) then KeywordMatch(s, i, keywords) else None
    case FunctionWrap =>
      DeclarationKeywordsAreWords();
      DeclarationMatch(s, i, "def")
    case ClassWrap =>
      DeclarationKeywordsAreWords();
      DeclarationMatch(s, i, "class")
    case NumberWrap => NumberMatch(s, i)
    case SelfWrap =>
      if IsBoundary(s, i) && StartsWith(s, i, "self") && IsBoundary(s, i + 4) then
        StartsWithAt(s, i, "self");
        DeclarationKeywordsAreWords();
        Some(i + 4)
      else None
  }

  /** `<span class="cls">body</span>` */
  function Span(cls: string, body: string): string
  {
    "<span class=\"" + cls + "\">" + body + "</span>"
  }

  /** The replacement text of a match `s[i..e]` of the wrap pass. */
  function Markup(w: Wrapper, s: string, i: nat, e: nat): string
    requires i < |s| && WrapEnd(w, s, i) == Some(e)
  {
    match w
    case KeywordWrap(_) => Span("code-keyword", s[i..e])
    case FunctionWrap =>
      Span("code-keyword", "def") + " " + Span("code-function", s[NameStart(s, i, "def")..e])
    case ClassWrap =>
      Span("code-keyword", "class") + " " + Span("code-class", s[NameStart(s, i, "class")..e])
    case NumberWrap => Span("code-number", s[i..e])
    case SelfWrap => Span("code-self", "self")
  }

  /** One global replace of the wrap pass over `s[i..]`. */
  function Scan(w: Wrapper, s: string, i: nat): string
    requires i <= |s|
    decreases |s| - i
  {
    if i == |s| then []
    else match WrapEnd(w, s, i)
      case Some(e) => Markup(w, s, i, e) + Scan(w, s, e)
      case None => [s[i]] + Scan(w, s, i + 1)
  }

  function Wrap(w: Wrapper, s: string): string
  {
    Scan(w, s, 0)
  }

  /** Steps 4-6 in the order the source runs them. */
  function WrapAll(t: string): string
  {
    Wrap(SelfWrap, Wrap(NumberWrap, Wrap(ClassWrap, Wrap(FunctionWrap, Wrap(KeywordWrap(KeywordList), t)))))
  }

  // ---------------------------------------------------------------------
  // Restoration (step 7)

  /** `pat` occurs in `text` at position `m`. */
  predicate OccursAt(text: string, pat: string, m: nat)
  {
    m + |pat| <= |text| && text[m..m + |pat|] == pat
  }

  /** The first position at or after `k` where `pat` occurs in `text`. */
  function IndexOf(text: string, pat: string, k: nat): (r: Option<nat>)
    requires k <= |text|
    ensures r.Some? ==> k <= r.value && OccursAt(text, pat, r.value)
    ensures r.Some? ==> forall m :: k <= m < r.value ==> !OccursAt(text, pat, m)
    ensures r.None? ==> forall m :: k <= m ==> !OccursAt(text, pat, m)
    decreases |text| - k
  {
    if k + |pat| > |text| then None
    else if text[k..k + |pat|] == pat then Some(k)
    else IndexOf(text, pat, k + 1)
  }

  /** `text.replace(pat, rep)` with a string pattern: the first occurrence only. */
  function ReplaceFirst(text: string, pat: string, rep: string): string
  {
    match IndexOf(text, pat, 0)
    case None => text
    case Some(j) => text[..j] + rep + text[j + |pat|..]
  }

  function SpanClass(x: Extractor): string
  {
    if x == LineComment then "code-comment" else "code-string"
  }

  /** The text after restoring the first `k` recorded literals of a pass, in order. */
  function RestoreUpTo(text: string, found: seq<string>, x: Extractor, k: nat): string
    requires k <= |found|
  {
    if k == 0 then text
    else ReplaceFirst(RestoreUpTo(text, found, x, k - 1), Placeholder(x, k - 1), Span(SpanClass(x), found[k - 1]))
  }

  /** Every recorded literal of a pass put back, in recording order. */
  function RestoreAll(text: string, found: seq<string>, x: Extractor): string
  {
    RestoreUpTo(text, found, x, |found|)
  }

  /** The text after the three extraction passes, with the string and the
      comment literals they recorded. */
  datatype Lifted = Lifted(text: string, strings: seq<string>, comments: seq<string>)

  function Lift(source: string): Lifted
  {
    var quoted := ExtractPass(Quoted, source, []);
    var triples := ExtractPass(TripleQuoted, quoted.text, quoted.found);
    var comments := ExtractPass(LineComment, triples.text, []);
    Lifted(comments.text, triples.found, comments.found)
  }

  /** The whole pipeline, as the specification of `HighlightCodeSyntax`. */
  function Highlight(source: string): string
  {
    var lifted := Lift(source);
    RestoreAll(RestoreAll(WrapAll(lifted.text), lifted.comments, LineComment), lifted.strings, Quoted)
  }

  /** One `forEach` restoring loop: the `k`-th recorded literal replaces the
      first occurrence of the `k`-th placeholder, inside a span. */
  method RestorePlaceholders(text: string, found: seq<string>, x: Extractor) returns (restored: string)
    ensures restored == RestoreAll(text, found, x)
  {
    restored := text;
    for k := 0 to |found|
      invariant restored == RestoreUpTo(text, found, x, k)
    {
      var placeholder := Placeholder(x, k);
      var replacement := Span(SpanClass(x), found[k]);
      restored := ReplaceFirst(restored, placeholder, replacement);
    }
  }

  /** The highlighter as the page runs it on the element's raw text: the
      text is reassigned pass by pass, then the comment and the string
      placeholders are restored. */
  method HighlightCodeSyntax(source: string) returns (html: string)
    ensures html == Highlight(source)
  {
    var text := source;
    var stringPlaceholders: seq<string> := [];
    var r := ExtractPass(Quoted, text, stringPlaceholders);
    text, stringPlaceholders := r.text, r.found;
    r := ExtractPass(TripleQuoted, text, stringPlaceholders);
    text, stringPlaceholders := r.text, r.found;
    var commentPlaceholders: seq<string> := [];
    r := ExtractPass(LineComment, text, commentPlaceholders);
    text, commentPlaceholders := r.text, r.found;
    assert Lift(source) == Lifted(text, stringPlaceholders, commentPlaceholders);

    text := Wrap(KeywordWrap(KeywordList), text);
    text := Wrap(FunctionWrap, text);
    text := Wrap(ClassWrap, text);
    text := Wrap(NumberWrap, text);
    text := Wrap(SelfWrap, text);

    text := RestorePlaceholders(text, commentPlaceholders, LineComment);
    html := RestorePlaceholders(text, stringPlaceholders, Quoted);
  }

  // ---------------------------------------------------------------------
  // Properties of the passes

  /** `ReplaceFirst` leaves a text without the pattern alone, and
      otherwise replaces exactly the leftmost occurrence. */
  lemma ReplaceFirstReplacesLeftmost(text: string, pat: string, rep: string, j: nat)
    ensures (forall m: nat :: !OccursAt(text, pat, m)) ==> ReplaceFirst(text, pat, rep) == text
    ensures OccursAt(text, pat, j) && (forall m: nat :: m < j ==> !OccursAt(text, pat, m)) ==>
              ReplaceFirst(text, pat, rep) == text[..j] + rep + text[j + |pat|..]
  {
    var r := IndexOf(text, pat, 0);
    if r.Some? && OccursAt(text, pat, j) && (forall m: nat :: m < j ==> !OccursAt(text, pat, m)) {
      assert !(j < r.value) && !(r.value < j);
    }
  }

  /** An extraction pass only cuts its text into pieces: the kept
      characters and the lifted literals, in order, are the text again. */
  lemma {:induction false} ExtractRoundTrip(x: Extractor, s: string, i: nat)
    requires i <= |s|
    ensures Flatten(Extract(x, s, i)) == s[i..]
    decreases |s| - i
  {
    if i < |s| {
      match LiteralEnd(x, s, i)
      case Some(e) =>
        ExtractRoundTrip(x, s, e);
        FlattenCons(Held(s[i..e]), Extract(x, s, e));
        SliceSplit(s, i, e);
      case None =>
        ExtractRoundTrip(x, s, i + 1);
        FlattenCons(Keep(s[i]), Extract(x, s, i + 1));
        SliceCons(s, i);
    }
  }

  lemma FlattenCons(p: Piece, ps: seq<Piece>)
    ensures Flatten([p] + ps) == PieceText(p) + Flatten(ps)
  {
    assert ([p] + ps)[1..] == ps;
  }

  // Small facts about slices and concatenation.

  lemma SliceSplit(s: string, i: nat, e: nat)
    requires i <= e <= |s|
    ensures s[i..] == s[i..e] + s[e..]
  {
  }

  lemma SliceCons(s: string, i: nat)
    requires i < |s|
    ensures s[i..] == [s[i]] + s[i + 1..]
  {
  }

  lemma SliceConsRange(s: string, lo: nat, hi: nat)
    requires lo < hi <= |s|
    ensures s[lo..hi] == [s[lo]] + s[lo + 1..hi]
  {
  }

  lemma ConcatAssoc(a: string, b: string, c: string)
    ensures (a + b) + c == a + (b + c)
  {
  }

  lemma OccursSelf(p: string)
    ensures OccursAt(p, p, 0)
  {
    assert p[0..|p|] == p;
  }

  /** A pattern occurring in `t` occurs, shifted, after a prefix. */
  lemma OccursAfter(a: string, t: string, pat: string, m: nat)
    requires OccursAt(t, pat, m)
    ensures OccursAt(a + t, pat, |a| + m)
  {
    assert (a + t)[|a| + m..|a| + m + |pat|] == t[m..m + |pat|];
  }

  /** A pattern occurring in `t` occurs at the same place before a suffix. */
  lemma OccursBefore(t: string, b: string, pat: string, m: nat)
    requires OccursAt(t, pat, m)
    ensures OccursAt(t + b, pat, m)
  {
    assert (t + b)[m..m + |pat|] == t[m..m + |pat|];
  }

  /** A pattern occurring in a span's body occurs in the span. */
  lemma OccursInSpan(cls: string, body: string, pat: string, m: nat)
    requires OccursAt(body, pat, m)
    ensures exists k: nat :: OccursAt(Span(cls, body), pat, k)
  {
    var head := "<span class=\"" + cls + "\">";
    OccursAfter(head, body, pat, m);
    OccursBefore(head + body, "</span>", pat, |head| + m);
    assert OccursAt(Span(cls, body), pat, |head| + m);
  }

  /** Where no match starts, the scan copies one character. */
  lemma ScanCopiesChar(w: Wrapper, s: string, i: nat)
    requires i < |s| && WrapEnd(w, s, i).None?
    ensures Scan(w, s, i) == [s[i]] + Scan(w, s, i + 1)
  {
  }

  /** Where a match starts, the scan puts its markup and resumes after it. */
  lemma ScanReplacesMatch(w: Wrapper, s: string, i: nat, e: nat)
    requires i < |s| && WrapEnd(w, s, i) == Some(e)
    ensures Scan(w, s, i) == Markup(w, s, i, e) + Scan(w, s, e)
  {
  }

  /** Where no match starts, a wrap pass copies the text. */
  lemma {:induction false} ScanCopies(w: Wrapper, s: string, lo: nat, hi: nat)
    requires lo <= hi <= |s|
    requires forall j :: lo <= j < hi ==> WrapEnd(w, s, j).None?
    ensures Scan(w, s, lo) == s[lo..hi] + Scan(w, s, hi)
    decreases hi - lo
  {
    if lo < hi {
      ScanCopies(w, s, lo + 1, hi);
      assert Scan(w, s, lo) == [s[lo]] + Scan(w, s, lo + 1);
      ConcatAssoc([s[lo]], s[lo + 1..hi], Scan(w, s, hi));
      SliceConsRange(s, lo, hi);
    }
  }

  /** A text in which no match of the pass starts comes out unchanged. */
  lemma WrapWithoutMatches(w: Wrapper, s: string)
    requires forall j :: 0 <= j < |s| ==> WrapEnd(w, s, j).None?
    ensures Wrap(w, s) == s
  {
    ScanCopies(w, s, 0, |s|);
    assert s[0..|s|] == s;
  }

  /** A word that starts with `_`, the shape of every placeholder. */
  predicate IsUnderscoreWord(p: string)
  {
    |p| > 0 && p[0] == '_' && forall k :: 0 <= k < |p| ==> IsWordChar(p[k])
  }

  /** No match starts at or inside an underscore word: at its first
      character a match would start with `_`, and inside it there is no
      `\b`. */
  lemma NoMatchInsideWord(w: Wrapper, s: string, lo: nat, p: string)
    requires OccursAt(s, p, lo) && IsUnderscoreWord(p)
    ensures forall j :: lo <= j < lo + |p| ==> WrapEnd(w, s, j).None?
  {
    StartsWithAt(s, lo, p);
    forall j | lo <= j < lo + |p| ensures WrapEnd(w, s, j).None? {
      assert IsWordChar(s[j]);
      if j > lo {
        assert IsWordChar(s[j - 1]);
      }
    }
  }

  /** A `def`/`class` match that reaches past an underscore word starting
      inside it takes the whole word into its name. */
  lemma DeclarationSwallows(s: string, i: nat, kw: string, e: nat, lo: nat, p: string)
    requires OccursAt(s, p, lo) && IsUnderscoreWord(p)
    requires IsLetterWord(kw) && i < lo < e && DeclarationMatch(s, i, kw) == Some(e)
    ensures NameStart(s, i, kw) <= lo && lo + |p| <= e <= |s|
    ensures OccursAt(s[NameStart(s, i, kw)..e], p, lo - NameStart(s, i, kw))
  {
    var n := NameStart(s, i, kw);
    StartsWithAt(s, i, kw);
    assert forall k :: lo <= k < lo + |p| ==> s[k] == p[k - lo] by {
      StartsWithAt(s, lo, p);
    }
    assert n <= lo;
    assert lo + |p| <= e;
    var name := s[n..e];
    forall k | 0 <= k < |p| ensures name[lo - n..lo - n + |p|][k] == p[k] {
      assert name[lo - n + k] == s[lo + k];
    }
    assert name[lo - n..lo - n + |p|] == p;
  }

  /** A scan started on an underscore word copies the word first. */
  lemma ScanFromWord(w: Wrapper, s: string, lo: nat, p: string)
    requires OccursAt(s, p, lo) && IsUnderscoreWord(p)
    ensures OccursAt(Scan(w, s, lo), p, 0)
  {
    NoMatchInsideWord(w, s, lo, p);
    ScanCopies(w, s, lo, lo + |p|);
    OccursSelf(p);
    OccursBefore(p, Scan(w, s, lo + |p|), p, 0);
  }

  /** The output of a scan at a `def`/`class` match: the keyword span, a
      space and the name span, then the scan after the match. */
  lemma ScanAtDeclaration(w: Wrapper, s: string, i: nat, e: nat, kw: string, cls: string)
    requires i < |s| && WrapEnd(w, s, i) == Some(e)
    requires (w == FunctionWrap && kw == "def" && cls == "code-function") ||
             (w == ClassWrap && kw == "class" && cls == "code-class")
    ensures IsLetterWord(kw) && DeclarationMatch(s, i, kw) == Some(e)
    ensures Scan(w, s, i) ==
              (Span("code-keyword", kw) + " ") + Span(cls, s[NameStart(s, i, kw)..e]) + Scan(w, s, e)
  {
    DeclarationKeywordsAreWords();
  }

  /** A `def`/`class` match that covers the start of an underscore word
      puts the word into its output. */
  lemma ScanThroughDeclaration(w: Wrapper, s: string, i: nat, e: nat, lo: nat, p: string, kw: string, cls: string)
    requires OccursAt(s, p, lo) && IsUnderscoreWord(p)
    requires i < lo < e && WrapEnd(w, s, i) == Some(e)
    requires (w == FunctionWrap && kw == "def" && cls == "code-function") ||
             (w == ClassWrap && kw == "class" && cls == "code-class")
    ensures exists m: nat :: OccursAt(Scan(w, s, i), p, m)
  {
    ScanAtDeclaration(w, s, i, e, kw, cls);
    var n := NameStart(s, i, kw);
    DeclarationSwallows(s, i, kw, e, lo, p);
    OccursInNameSpan(kw, cls, s[n..e], Scan(w, s, e), p, lo - n);
  }

  /** A run that stops exactly at `e` ends there. */
  lemma {:induction false} RunEndAt(s: string, i: nat, run: Run, e: nat)
    requires i <= e <= |s|
    requires forall k :: i <= k < e ==> InRun(s[k], run)
    requires e == |s| || !InRun(s[e], run)
    ensures RunEnd(s, i, run) == e
    decreases e - i
  {
    if i < e {
      RunEndAt(s, i + 1, run, e);
    }
  }

  /** A pattern in the name of a declaration occurs in its markup. */
  lemma OccursInNameSpan(kw: string, cls: string, name: string, rest: string, p: string, j: nat)
    requires OccursAt(name, p, j)
    ensures exists m: nat :: OccursAt((Span("code-keyword", kw) + " ") + Span(cls, name) + rest, p, m)
  {
    OccursInSpan(cls, name, p, j);
    var k: nat :| OccursAt(Span(cls, name), p, k);
    var head := Span("code-keyword", kw) + " ";
    OccursAfter(head, Span(cls, name), p, k);
    OccursBefore(head + Span(cls, name), rest, p, |head| + k);
  }

  /** A pattern that occurs in `t` occurs in `a + t`. */
  lemma OccursInSuffix(a: string, t: string, p: string)
    requires exists m: nat :: OccursAt(t, p, m)
    ensures exists m: nat :: OccursAt(a + t, p, m)
  {
    var m: nat :| OccursAt(t, p, m);
    OccursAfter(a, t, p, m);
  }

  /** An underscore word of the text, at or after where the scan starts,
      is still in the text the scan produces. */
  lemma {:induction false} ScanKeepsWord(w: Wrapper, s: string, i: nat, lo: nat, p: string)
    requires i <= lo && OccursAt(s, p, lo) && IsUnderscoreWord(p)
    ensures exists m: nat :: OccursAt(Scan(w, s, i), p, m)
    decreases |s| - i, 1
  {
    if i == lo {
      ScanFromWord(w, s, lo, p);
    } else {
      var r := WrapEnd(w, s, i);
      if r.None? {
        ScanKeepsWordAfterChar(w, s, i, lo, p);
      } else if r.value <= lo {
        ScanKeepsWordAfterMatch(w, s, i, r.value, lo, p);
      } else {
        assert s[lo] == s[lo..lo + |p|][0];
        if w == FunctionWrap {
          ScanThroughDeclaration(w, s, i, r.value, lo, p, "def", "code-function");
        } else {
          ScanThroughDeclaration(w, s, i, r.value, lo, p, "class", "code-class");
        }
      }
    }
  }

  /** The scan copies a character where no match starts and goes on. */
  lemma {:induction false} ScanKeepsWordAfterChar(w: Wrapper, s: string, i: nat, lo: nat, p: string)
    requires i < lo && OccursAt(s, p, lo) && IsUnderscoreWord(p)
    requires WrapEnd(w, s, i).None?
    ensures exists m: nat :: OccursAt(Scan(w, s, i), p, m)
    decreases |s| - i, 0
  {
    ScanKeepsWord(w, s, i + 1, lo, p);
    ScanCopiesChar(w, s, i);
    OccursInSuffix([s[i]], Scan(w, s, i + 1), p);
  }

  /** The scan replaces a match that ends before the word and goes on. */
  lemma {:induction false} ScanKeepsWordAfterMatch(w: Wrapper, s: string, i: nat, e: nat, lo: nat, p: string)
    requires i < lo && OccursAt(s, p, lo) && IsUnderscoreWord(p)
    requires WrapEnd(w, s, i) == Some(e) && e <= lo
    ensures exists m: nat :: OccursAt(Scan(w, s, i), p, m)
    decreases |s| - i, 0
  {
    ScanKeepsWord(w, s, e, lo, p);
    ScanReplacesMatch(w, s, i, e);
    OccursInSuffix(Markup(w, s, i, e), Scan(w, s, e), p);
  }

  /** One wrap pass keeps every underscore word of its input. */
  lemma WrapKeepsWord(w: Wrapper, t: string, p: string)
    requires IsUnderscoreWord(p) && exists m: nat :: OccursAt(t, p, m)
    ensures exists m: nat :: OccursAt(Wrap(w, t), p, m)
  {
    var m: nat :| OccursAt(t, p, m);
    ScanKeepsWord(w, t, 0, m, p);
    assert Wrap(w, t) == Scan(w, t, 0);
  }

  /** Every placeholder spells an underscore word: two underscores, a
      capital tag, an underscore, decimal digits and two underscores. */
  lemma PlaceholderIsUnderscoreWord(x: Extractor, k: nat)
    ensures IsUnderscoreWord(Placeholder(x, k))
  {
    var p := Placeholder(x, k);
    var digits := DecimalString(k);
    assert p == "__" + Tag(x) + "_" + digits + "__";
    forall j | 0 <= j < |p| ensures IsWordChar(p[j]) {
      var t := |Tag(x)|;
      if 2 + t + 1 <= j < 2 + t + 1 + |digits| {
        assert p[j] == digits[j - (2 + t + 1)];
      }
    }
  }

  /** Every literal a pass records leaves its placeholder in the text. */
  lemma {:induction false} RenderHasPlaceholders(x: Extractor, ps: seq<Piece>, next: nat, k: nat)
    requires next <= k < next + |HeldTexts(ps)|
    ensures exists m: nat :: OccursAt(Render(x, ps, next), Placeholder(x, k), m)
    decreases |ps|
  {
    assert ps != [];
    var tail := ps[1..];
    match ps[0]
    case Keep(c) =>
      assert HeldTexts(ps) == HeldTexts(tail);
      RenderHasPlaceholders(x, tail, next, k);
      assert Render(x, ps, next) == [c] + Render(x, tail, next);
      OccursInSuffix([c], Render(x, tail, next), Placeholder(x, k));
    case Held(_) =>
      assert HeldTexts(ps) == [ps[0].text] + HeldTexts(tail);
      assert Render(x, ps, next) == Placeholder(x, next) + Render(x, tail, next + 1);
      if k == next {
        OccursSelf(Placeholder(x, k));
        OccursBefore(Placeholder(x, k), Render(x, tail, next + 1), Placeholder(x, k), 0);
      } else {
        RenderHasPlaceholders(x, tail, next + 1, k);
        OccursInSuffix(Placeholder(x, next), Render(x, tail, next + 1), Placeholder(x, k));
      }
  }

  /** After an extraction pass, the placeholder of each literal it recorded
      is in the text. */
  lemma ExtractPassPlaceholders(x: Extractor, text: string, found: seq<string>, k: nat)
    requires |found| <= k < |ExtractPass(x, text, found).found|
    ensures exists m: nat :: OccursAt(ExtractPass(x, text, found).text, Placeholder(x, k), m)
  {
    RenderHasPlaceholders(x, Extract(x, text, 0), |found|, k);
  }

  /** Each recorded comment's placeholder reaches the comment-restoring loop
      intact: it is in the text the wrap passes receive, and they keep it. */
  lemma CommentPlaceholdersReachRestore(source: string, k: nat)
    requires k < |Lift(source).comments|
    ensures exists m: nat :: OccursAt(WrapAll(Lift(source).text), Placeholder(LineComment, k), m)
  {
    var quoted := ExtractPass(Quoted, source, []);
    var triples := ExtractPass(TripleQuoted, quoted.text, quoted.found);
    ExtractPassPlaceholders(LineComment, triples.text, [], k);
    PlaceholderSurvivesWraps(Lift(source).text, LineComment, k);
  }

  /** A placeholder in the text the wrap passes receive is still in the
      text they hand to the restoring loops: no keyword, declaration,
      number or `self` match destroys it. */
  lemma PlaceholderSurvivesWraps(t: string, x: Extractor, k: nat)
    requires exists m: nat :: OccursAt(t, Placeholder(x, k), m)
    ensures exists m: nat :: OccursAt(WrapAll(t), Placeholder(x, k), m)
  {
    var p := Placeholder(x, k);
    PlaceholderIsUnderscoreWord(x, k);
    var t1 := Wrap(KeywordWrap(KeywordList), t);
    WrapKeepsWord(KeywordWrap(KeywordList), t, p);
    var t2 := Wrap(FunctionWrap, t1);
    WrapKeepsWord(FunctionWrap, t1, p);
    var t3 := Wrap(ClassWrap, t2);
    WrapKeepsWord(ClassWrap, t2, p);
    var t4 := Wrap(NumberWrap, t3);
    WrapKeepsWord(NumberWrap, t3, p);
    WrapKeepsWord(SelfWrap, t4, p);
    assert WrapAll(t) == Wrap(SelfWrap, t4);
  }
}
