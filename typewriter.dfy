/**
 * The typing animation of the code sample: one character per timer tick,
 * a longer pause after a line break, and live highlighting from the first
 * white-space character on.
 *
 * Each timer callback becomes one `Step` of a trace: what the element is
 * left showing, whether the highlighter ran on it, and the delay before
 * the next callback. The last callback shows the whole text highlighted.
 */
module Typewriter {
  import opened SyntaxHighlighter

  /** One call of the typing routine. */
  datatype Step =
    | Typed(shown: string, highlighted: bool, delay: nat)
    | Finished(shown: string)

  /** The pause after typing `c`. */
  function DelayAfter(c: char): (d: nat)
    ensures d == 20 || d == 40
    ensures d == 40 <==> c == '\n'
  {
    if c == '\n' then 40 else 20
  }

  /** The index of the first JavaScript white-space character of `text`,
      or `|text|` when it has none. */
  function FirstSpace(text: string): (r: nat)
    ensures r <= |text|
    ensures forall j :: 0 <= j < r ==> !IsSpace(text[j])
    ensures r < |text| ==> IsSpace(text[r])
  {
    FirstSpaceFrom(text, 0)
  }

  function FirstSpaceFrom(text: string, i: nat): (r: nat)
    requires i <= |text|
    requires forall j :: 0 <= j < i ==> !IsSpace(text[j])
    ensures i <= r <= |text|
    ensures forall j :: 0 <= j < r ==> !IsSpace(text[j])
    ensures r < |text| ==> IsSpace(text[r])
    decreases |text| - i
  {
    if i == |text| || IsSpace(text[i]) then i else FirstSpaceFrom(text, i + 1)
  }

  /** The trace of a whole animation, step by step: step `k` types
      `text[k]`, highlights once a white-space character has been typed,
      and waits according to the character it typed; a final step
      follows. */
  function Schedule(text: string): (steps: seq<Step>)
    ensures |steps| == |text| + 1
  {
    seq(|text|, k requires 0 <= k < |text| =>
      Typed(text[..k + 1], FirstSpace(text) <= k, DelayAfter(text[k])))
    + [Finished(text)]
  }

  /** What the element shows after a step: the highlighter's markup of the
      shown text when it ran, else the raw text. */
  function Display(step: Step): string
  {
    match step
    case Typed(shown, highlighted, _) => if highlighted then Highlight(shown) else shown
    case Finished(shown) => Highlight(shown)
  }

  /** The animation as the page runs it from index 0, with the timer
      callbacks unrolled into a loop that records each step. */
  method TypeWriter(text: string) returns (steps: seq<Step>)
    ensures steps == Schedule(text)
  {
    steps := [];
    var index := 0;
    var hasHighlighted := false;
    while index < |text|
      invariant 0 <= index <= |text|
      invariant hasHighlighted <==> FirstSpace(text) < index
      invariant steps == Schedule(text)[..index]
    {
      var currentText := text[..index + 1];
      var c := text[index];
      var highlighted := false;
      if hasHighlighted {
        highlighted := true;
      } else if IsSpace(c) {
        highlighted := true;
        hasHighlighted := true;
      }
      var delay := if c == '\n' then 40 else 20;
      steps := steps + [Typed(currentText, highlighted, delay)];
      index := index + 1;
    }
    steps := steps + [Finished(text)];
  }

  // ---------------------------------------------------------------------
  // Properties of the trace

  /** The number of line breaks in `text`. */
  function Newlines(text: string): nat
  {
    if text == [] then 0 else (if text[0] == '\n' then 1 else 0) + Newlines(text[1..])
  }

  /** The sum of the delays of the typing steps. */
  function TotalDelay(steps: seq<Step>): nat
  {
    if steps == [] then 0
    else (if steps[0].Typed? then steps[0].delay else 0) + TotalDelay(steps[1..])
  }

  /** How many steps run the highlighter. */
  function HighlightCalls(steps: seq<Step>): nat
  {
    if steps == [] then 0
    else (if steps[0].Finished? || steps[0].highlighted then 1 else 0) + HighlightCalls(steps[1..])
  }

  lemma {:induction false} TotalDelayFrom(text: string, j: nat)
    requires j <= |text|
    ensures TotalDelay(Schedule(text)[j..]) == 20 * (|text| - j) + 20 * Newlines(text[j..])
    decreases |text| - j
  {
    var steps := Schedule(text);
    if j == |text| {
      assert steps[j..] == [Finished(text)];
      assert TotalDelay([Finished(text)][1..]) == 0;
      assert text[j..] == [];
    } else {
      TotalDelayFrom(text, j + 1);
      assert steps[j..][1..] == steps[j + 1..];
      assert text[j..][1..] == text[j + 1..];
    }
  }

  /** The animation lasts 20 per character plus 20 more per line break. */
  lemma TotalDelayOfSchedule(text: string)
    ensures TotalDelay(Schedule(text)) == 20 * |text| + 20 * Newlines(text)
  {
    TotalDelayFrom(text, 0);
    assert Schedule(text)[0..] == Schedule(text);
    assert text[0..] == text;
  }

  lemma {:induction false} HighlightCallsFrom(text: string, j: nat)
    requires j <= |text|
    ensures HighlightCalls(Schedule(text)[j..]) == |text| - (if j < FirstSpace(text) then FirstSpace(text) else j) + 1
    decreases |text| - j
  {
    var steps := Schedule(text);
    if j == |text| {
      assert steps[j..] == [Finished(text)];
      assert HighlightCalls([Finished(text)][1..]) == 0;
    } else {
      HighlightCallsFrom(text, j + 1);
      assert steps[j..][1..] == steps[j + 1..];
    }
  }

  /** The highlighter runs once per character from the first white-space
      character on, plus once at the end; a text without white space is
      highlighted only by the final step. */
  lemma HighlightCallsOfSchedule(text: string)
    ensures HighlightCalls(Schedule(text)) == |text| - FirstSpace(text) + 1
    ensures (forall j :: 0 <= j < |text| ==> !IsSpace(text[j])) ==> HighlightCalls(Schedule(text)) == 1
  {
    HighlightCallsFrom(text, 0);
    assert Schedule(text)[0..] == Schedule(text);
  }

  /** Step `k` shows the first `k + 1` characters, raw until a white-space
      character has been typed and highlighted from then on; the last step
      shows the whole text highlighted. */
  lemma ScheduleShows(text: string, k: nat)
    requires k <= |text|
    ensures k < |text| ==> Schedule(text)[k].Typed? && Schedule(text)[k].shown == text[..k + 1]
    ensures k < |text| ==>
              (Schedule(text)[k].highlighted <==> exists j :: 0 <= j <= k && IsSpace(text[j]))
    ensures k < |text| && !Schedule(text)[k].highlighted ==> Display(Schedule(text)[k]) == text[..k + 1]
    ensures Display(Schedule(text)[|text|]) == Highlight(text)
  {
    if k < |text| && FirstSpace(text) <= k {
      assert IsSpace(text[FirstSpace(text)]);
    }
  }
}
