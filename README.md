# Portfolio page scripts: scroll-driven project cards, typing animation, code highlighter

This project models the behaviour of the script of a personal portfolio page
(`script.js`) and proves properties of that model. It has four parts, one module each.

- `ProjectCards` (`project_cards.dfy`) is the project-card engine.
  - Each card moves through three phases as the projects container scrolls: *entering*, *placing* and *placed*.
  - A card's phase depends only on an integer scroll progress and the card's trigger offset, `index * 1200`.
  - A second pass leaves at most two cards clickable: the card being placed and the last placed (sticky) card.
  - The cards are held in a `CardDeck` class whose array is updated in place, one forEach loop per pass.
  - Each card's final state is tied to the pure per-card function `Settle`, and the lemmas are about that function.
- `ScrollThrottle` (`scroll_throttle.dfy`) is the scroll handler.
  - A `ticking` flag lets at most one animation-frame callback be queued at a time.
  - The browser's frame queue is replaced by an explicit count of queued callbacks.
- `Typewriter` (`typewriter.dfy`) is the typing animation of the code sample.
  - The chain of timer callbacks is unrolled into a loop that records one `Step` per callback.
  - A step records the text shown, whether the highlighter ran, and the delay before the next callback.
  - The loop is proved equal to the closed-form trace `Schedule`.
  - Lemmas give the total delay and the number of highlighter calls, and state when highlighting starts.
- `SyntaxHighlighter` (`highlighter.dfy`) is the regular-expression highlighter.
  - Each pattern is written out as a scanner over `seq<char>` with JavaScript's meaning of `\w`, `\d`, `\s`, `.` and `\b`.
  - A global replace becomes a left-to-right scan that resumes after each match.
  - The passes run in the source's order:
    1. quoted strings, then triple-quoted strings, then `#` comments are lifted into `__STRING_k__` / `__COMMENT_k__` placeholders;
    2. keywords, `def name`, `class name`, numbers and `self` are wrapped in spans;
    3. comment placeholders and then string placeholders are replaced, first occurrence only, by their literal inside a span.
  - `HighlightCodeSyntax` is the imperative pipeline. It is proved equal to the functional `Highlight`.

## Model

| member | source | states |
|---|---|---|
| ProjectCards.ScrollProgress | script.js:58 | The progress is the sentinel -1 exactly when the container's top is below the viewport's bottom; otherwise it is non-negative and equals viewport height minus container top |
| ProjectCards.Settle | script.js:47-163 | After one update, every card carries exactly one phase class. Before the section is reached, every card is entering, hidden, inert, parked and not clickable. Otherwise the phase class is the one the trigger intervals give. The card is clickable, and has pointer events, exactly when it is the placing or the sticky card. It is visible exactly when it is not entering. A placing card's elapsed progress lies in [0, 1200) |
| ProjectCards.SettleForgetsHistory | script.js:80-162 | The state an update leaves a card in depends only on progress, index and card count, never on the card's previous state |
| ProjectCards.SettleIdempotent | script.js:47-163 | Two updates at the same progress leave the cards as one update does |
| ProjectCards.AtMostOnePlacing | script.js:81-85 | At any progress, no two distinct cards are both placing |
| ProjectCards.PlacedPrefix | script.js:81-87 | If a card is placed, every card before it is placed |
| ProjectCards.PhaseMonotone | script.js:81-85 | As progress grows, a placed card stays placed, and a card that has left entering never returns to it |
| ProjectCards.PhaseByQuotient | script.js:81-85 | With q = p / 1200: cards below q are placed, card q is placing, cards above q are entering (each an if-and-only-if) |
| ProjectCards.InteractiveByQuotient | script.js:77-162 | A card is interactive exactly when its index is p / 1200 or one less than min(p / 1200, card count) |
| ProjectCards.AtMostTwoInteractive | script.js:153-162 | At any progress, at most two cards are clickable |
| ProjectCards.CardDeck.constructor | script.js:23-45 | Without a container there are no cards. Otherwise there is one card per markup card, each given the entering class, parked, hidden and inert |
| ProjectCards.CardDeck.Update | script.js:47-163 | Every card's new state is `Settle` of its old state at the current progress |
| ProjectCards.CardDeck.ParkAll | script.js:61-75 | Before the section is reached, every card is parked |
| ProjectCards.CardDeck.PlacePass | script.js:77-151 | Every card gets the first-pass treatment of its interval test. The remembered sticky index is exactly the last placed card, and the placing index exactly the placing card, or -1 |
| ProjectCards.CardDeck.GatePass | script.js:153-162 | Every card is made clickable with pointer events exactly when it is interactive, and inert otherwise |
| ScrollThrottle.ScrollSampler.constructor | script.js:166 | The flag starts down, with no frame callback queued |
| ScrollThrottle.ScrollSampler.OnScroll | script.js:167-175 | A scroll event queues a callback only when none is queued. Afterwards the flag is up and at most one callback is pending |
| ScrollThrottle.ScrollSampler.RunFrame | script.js:169-172 | The queued callback updates every card from the geometry it reads when it runs, then lowers the flag with no callback pending |
| Typewriter.DelayAfter | script.js:284 | The delay after a character is 40 exactly for a line feed and 20 otherwise |
| Typewriter.FirstSpace | script.js:275-280 | The index of the first JavaScript white-space character, or the length when there is none |
| Typewriter.TypeWriter | script.js:260-291 | The callback chain started at index 0 produces exactly the trace `Schedule(text)`: one typing step per character, then a final step |
| Typewriter.ScheduleShows | script.js:261-290 | Step k shows the first k+1 characters. It runs the highlighter exactly when some character up to k is white space, and otherwise shows the raw prefix. The last step shows the whole text highlighted |
| Typewriter.TotalDelayOfSchedule | script.js:283-285 | The delays add up to 20 per character plus 20 per line feed |
| Typewriter.HighlightCallsOfSchedule | script.js:267-290 | The highlighter runs once per character from the first white space on, plus once at the end. Without white space it runs only once, at the end |
| SyntaxHighlighter.RunEnd | script.js:319-330 | The greedy run of `\s`, `\w`, `\d` or `.` characters stops at the first character outside the class |
| SyntaxHighlighter.CloseDelimiter | script.js:304-311 | A quoted body that is found ends right after a repetition of the opening quote(s), and holds no line terminator before it |
| SyntaxHighlighter.LiteralEnd | script.js:304-319 | A match of an extraction pattern is a literal of its kind: a same-quote string, a same-triple-quote string, or a `#` comment that stops at a line terminator or at the end of the text. No literal spans a line break |
| SyntaxHighlighter.Extract | script.js:304-323 | Every piece an extraction pass lifts out is a literal of the pass's kind |
| SyntaxHighlighter.ExtractRoundTrip | script.js:304-323 | An extraction pass only cuts the text: kept characters and lifted literals, in order, give back the text |
| SyntaxHighlighter.DecimalString | script.js:305 | The placeholder number is a non-empty string of decimal digits |
| SyntaxHighlighter.KeywordMatch | script.js:326-327 | A keyword match is one of the alternatives, made of letters only, and followed by a word boundary |
| SyntaxHighlighter.DeclarationMatch | script.js:330-333 | A `def`/`class` match is the keyword at a boundary, a non-empty white-space run, and a whole word as the name |
| SyntaxHighlighter.NumberMatch | script.js:336 | A number match starts with a digit at a boundary, ends at a boundary, and holds only digits and at most one dot, with only digits after it. No longer text of that shape ends at a word boundary, so the match is the longest one |
| SyntaxHighlighter.WrapEnd | script.js:326-339 | Every wrap match starts at a word boundary, on a letter or a digit. Only a `def`/`class` match can contain `_`. A `self` match is exactly the word `self` between word boundaries |
| SyntaxHighlighter.ScanCopies | script.js:326-339 | Where no match starts, a global replace copies the text unchanged |
| SyntaxHighlighter.WrapWithoutMatches | script.js:326-339 | A text in which no match starts comes out of a wrap pass unchanged |
| SyntaxHighlighter.NoMatchInsideWord | script.js:325-339 | No wrap match starts at or inside a word that begins with `_` |
| SyntaxHighlighter.PlaceholderIsUnderscoreWord | script.js:305-321 | Every placeholder is a word that begins with `_` |
| SyntaxHighlighter.WrapKeepsWord | script.js:325-339 | One wrap pass keeps every word of its input that begins with `_` |
| SyntaxHighlighter.PlaceholderSurvivesWraps | script.js:325-339 | No keyword, declaration, number or `self` wrap destroys a placeholder: one present before the wraps is present after them |
| SyntaxHighlighter.RenderHasPlaceholders | script.js:304-323 | Every literal an extraction pass records leaves its numbered placeholder in the text |
| SyntaxHighlighter.ExtractPassPlaceholders | script.js:317-323 | After an extraction pass, the placeholder of each newly recorded literal is in the text |
| SyntaxHighlighter.CommentPlaceholdersReachRestore | script.js:317-344 | Every recorded comment's placeholder is still in the text the comment-restoring loop receives |
| SyntaxHighlighter.IndexOf | script.js:343 | The search returns the leftmost occurrence at or after the start, or none when there is no occurrence |
| SyntaxHighlighter.ReplaceFirstReplacesLeftmost | script.js:341-349 | A string-pattern replace leaves a text without the pattern unchanged, and otherwise replaces exactly the leftmost occurrence |
| SyntaxHighlighter.RestorePlaceholders | script.js:341-349 | The restoring loop puts back the recorded literals in recording order, each into the first occurrence of its placeholder, inside a span of the pass's class |
| SyntaxHighlighter.HighlightCodeSyntax | script.js:294-353 | The imperative pipeline computes exactly `Highlight(source)`: extraction, wraps, then restoration of comments and then strings, in the source's order |
| MatcherProperties.CloseDelimiterFindsFirst | script.js:304 | The lazy body fails exactly when no closing delimiter can be reached before a line terminator, stepping over one character or over a backslash and the character after it. Otherwise it ends at the first closing delimiter so reached |
| MatcherProperties.QuotedLiteralFindsFirst | script.js:304-315 | A quoted or triple-quoted match starts exactly where the opening quote(s) stand and a closing repetition can be reached. It is at least twice the opening long and ends at the first reachable close |
| MatcherProperties.CommentStartsAtHash | script.js:319 | A comment match starts exactly at a `#` |
| MatcherProperties.PlainStringIsLifted | script.js:304 | A quote, a body with neither that quote, a backslash nor a line break, and the same quote again are matched as one string, end to end |
| MatcherProperties.KeywordMatchFindsFirst | script.js:326 | The keyword alternation fails exactly when no alternative at the position is followed by `\b`. Otherwise it ends after the first alternative that is |
| MatcherProperties.KeywordAtUnique | script.js:326 | At most one word of letters matches at a position and is followed by `\b`, so the order of the alternatives never changes the match |
| MatcherProperties.KeywordMatchEndsAfter | script.js:326 | Any alternative that matches at a position, followed by `\b`, is what the alternation matches there |
| MatcherProperties.KeywordIsWrapped | script.js:326-327 | A keyword at a word boundary and followed by one becomes a keyword span, and the pass resumes after it |
| MatcherProperties.DeclarationFound | script.js:330-333 | At any word boundary, the keyword, white space and a whole word make a declaration match that ends at the word's end, with the name starting after the white space |
| MatcherProperties.DeclarationIsWrapped | script.js:330-333 | `def` or `class` at any word boundary, white space and a word become the keyword span, one space (whatever the gap) and a name span holding the whole word, and the pass resumes after the word |
| MatcherProperties.NumberMatchFinds | script.js:336 | A number match starts exactly where a digit stands at a word boundary and the digit run ends at a word boundary |
| MatcherProperties.NumberIsWrapped | script.js:336 | Wherever a number starts, the pass wraps the longest `digits[.digits]` text that ends at a word boundary in one number span (`3.14` is one span), and resumes after it |
| MatcherProperties.SelfIsWrapped | script.js:339 | Wherever `self` stands between word boundaries, the pass wraps it in a self span and resumes after it |
| PipelineProperties.DecimalRoundTrip | script.js:305 | The numeral in a placeholder reads back as the index of its literal |
| PipelineProperties.DecimalInjective | script.js:305 | Different indices give different numerals |
| PipelineProperties.PlaceholderOccursOnlyAsItself | script.js:305-348 | A placeholder occurs inside another only as the whole of it, with the same tag and number. So `__STRING_1__` is never found inside `__STRING_10__` |
| PipelineProperties.ReplaceFirstInserts | script.js:343-348 | Replacing a pattern that occurs puts the replacement where its leftmost occurrence was |
| PipelineProperties.RestoreStepInserts | script.js:341-349 | When placeholder k is in the text, restoring step k inserts the span of literal k where the placeholder's first occurrence was |
| PipelineProperties.RestoreInPlace | script.js:341-349 | When the text before a placeholder holds no `__`, restoring it replaces exactly that placeholder and leaves the text on either side unchanged |
| PipelineProperties.ExtractKeeps | script.js:304-323 | Where no literal starts, an extraction pass copies the characters and records nothing |
| PipelineProperties.ExtractBeforeLiteral | script.js:304-323 | A text whose only literal runs to its end keeps everything before the literal, gets the next placeholder in its place, and records the literal |
| PipelineProperties.HighlightPlainText | script.js:294-353 | A text with no quote, no `#` and nothing for the wrap passes comes out of the highlighter unchanged |
| PipelineProperties.HighlightLoneString | script.js:302-349 | A text that the string pattern matches from end to end, escapes included, comes out verbatim in one string span. Keywords, numbers and `#` inside it are not wrapped |
| PipelineProperties.HighlightLoneComment | script.js:317-344 | A lone comment without quote characters comes out verbatim in one comment span |
| PipelineProperties.PlaceholderCollision | script.js:346-349 | A sample spelling `__STRING_0__` before its first string literal gets that literal restored at its own spelling, and the real placeholder is left in the output |

## Left out

- **Observers and video.** The header IntersectionObservers, the video playback control and the observer that starts the typewriter are not modelled. They are browser event wiring around the core.
- **Event and timer wiring.**
  - The listeners registered at page load (scroll, resize, DOMContentLoaded) are not modelled. A resize event runs `CardDeck.Update` directly.
  - `requestAnimationFrame` is replaced by a count of queued callbacks.
  - `setTimeout` is replaced by recorded delays.
- **Geometry.** Container top and viewport height are integers; browsers report fractional pixels.
  - The `Math.max(0, …)` clamp in the progress formula can never fire, because it applies only when top ≤ height.
- **Card style.**
  - The ease-out curve and the resulting `vh`/`scale(...)` style strings are not computed. A placing card records only its elapsed progress (`Layout.Moving`).
  - The size overrides cleared on a placed card and the forced reflow are folded into `Layout.InFlow`.
- **Trigger offset.** It is modelled as `index * 1200`, the value the initialisation stores. The `parseInt(...) || 0` re-read of the data attribute is not modelled.
- **Highlighting several elements.** The highlighter rewrites every code element on the page. The model highlights one text, because the elements are processed independently.
- **Inner HTML.**
  - The parsing of the produced markup into the element is left out. The result is the markup string.
  - Reading `textContent` back after `innerHTML` is not modelled. Each highlighter call starts from the raw text just assigned.
- **`$` in replacement strings.**
  - The wrap replacements use `$&` and `$1`; the model builds the same text directly.
  - In the restoring loops a literal containing `$&`, `$'`, `` $` ``, `$$` or `$n` would be read as a replacement pattern by JavaScript. The model inserts the literal verbatim.
- **The regular-expression engine.**
  - Only the eight patterns of the pipeline are modelled, each as a hand-written scanner that follows the engine's backtracking order.
  - JavaScript strings are UTF-16 code units, while Dafny's `char` is a Unicode scalar value. Surrogate pairs are not modelled. This also affects the typewriter: a character outside the Basic Multilingual Plane is two typing steps in the page and one in the model, so the step count and the total delay differ for such text.
- **Unused variable.** The highlighter's unused `originalText` variable is not modelled.
- SyntaxHighlighter.CommentPlaceholdersReachRestore: covers comment placeholders only. A string placeholder also goes through the comment extraction, and a `#` comment may swallow it. It then comes back inside the restored comment span, before the string loop runs. That route is proved only for the whole texts of `HighlightLoneString` and `HighlightPlainText`, not in general.
- Typewriter.TypeWriter: covers the animation from index 0 with no highlighting yet, the only way the page starts it. Later calls are unrolled into the loop.
- PipelineProperties.RestoreInPlace: correct restoration is proved only under its hypothesis that no `__` comes before the placeholder. Without it, restoration can go wrong, as the finding below shows.
- PipelineProperties.HighlightLoneComment: covers comments without quote characters. The string pass runs before the comment pass, so a quoted part of a comment such as `# "x"` is lifted first, and the output then nests a string span inside the comment span. That case is not stated.
- PipelineProperties.HighlightLoneString: whole-text lemmas cover plain text, a lone string and a lone comment. A `def foo():` sample through the whole pipeline is not stated; `DeclarationIsWrapped` covers the `def` pass at any word boundary.

## Findings

| source | as written | input that shows it | evidently intended | confidence | as-written member | corrected member |
|---|---|---|---|---|---|---|
| script.js:346-349 | Each string is put back by replacing the first occurrence of its placeholder's text anywhere in the output | `__STRING_0__="x"` comes out as `<span class="code-string">"x"</span>=__STRING_0__` | Each literal comes back where its own placeholder was put, and the sample's own text is left alone | not executed | PipelineProperties.PlaceholderCollision | PipelineProperties.RestoreInPlace |
