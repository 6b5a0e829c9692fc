/** The styled text span shared by the markup flattener and the line breaker
    (`TextSpan` in src/deck/html_parser.rs), and the text it displays. */
module Span {
  import opened Wrappers

  datatype TextSpan = TextSpan(
    text: string,
    newTextBlock: bool,
    isBold: bool,
    isItalic: bool,
    isRubyBase: bool,
    rubyText: Option<string>,
    isNewline: bool)
  {
    /** The text shown for this span: its ruby reading when ruby display is on
        and a reading exists, its base text otherwise. */
    function TextToUse(useRuby: bool): (t: string)
      ensures !useRuby ==> t == text
      ensures useRuby && rubyText.Some? ==> t == rubyText.value
      ensures useRuby && rubyText.None? ==> t == text
    {
      if useRuby then rubyText.GetOr(text) else text
    }
  }

  /** `TextSpan::default()`: empty, unstyled, not a marker. */
  const Default := TextSpan("", false, false, false, false, None, false)

  predicate IsMarker(s: TextSpan) {
    s.isNewline
  }

  predicate IsLineFeed(c: char) {
    c == '\n'
  }

  /** Two spans that differ at most in their texts. */
  predicate SameStyle(a: TextSpan, b: TextSpan) {
    && a.newTextBlock == b.newTextBlock
    && a.isBold == b.isBold
    && a.isItalic == b.isItalic
    && a.isRubyBase == b.isRubyBase
    && a.isNewline == b.isNewline
  }

  /** No span of `spans` is a newline marker. */
  ghost predicate NoMarkers(spans: seq<TextSpan>) {
    forall i :: 0 <= i < |spans| ==> !spans[i].isNewline
  }

  /** The `text` fields of `spans`, concatenated. */
  function Texts(spans: seq<TextSpan>): string
  {
    if |spans| == 0 then [] else spans[0].text + Texts(spans[1..])
  }

  /** What a reader sees of `spans`: the displayed text of every span that is
      not a newline marker, in order. */
  function Shown(spans: seq<TextSpan>, useRuby: bool): string
  {
    if |spans| == 0 then []
    else (if spans[0].isNewline then [] else spans[0].TextToUse(useRuby)) + Shown(spans[1..], useRuby)
  }

  /** What a reader sees of a sequence of lines. */
  function ShownLines(lines: seq<seq<TextSpan>>, useRuby: bool): string
  {
    if |lines| == 0 then [] else ShownLines(lines[..|lines| - 1], useRuby) + Shown(lines[|lines| - 1], useRuby)
  }

  lemma {:induction false} ShownAppend(a: seq<TextSpan>, b: seq<TextSpan>, useRuby: bool)
    ensures Shown(a + b, useRuby) == Shown(a, useRuby) + Shown(b, useRuby)
    decreases |a|
  {
    if |a| > 0 {
      assert (a + b)[1..] == a[1..] + b;
      ShownAppend(a[1..], b, useRuby);
    } else {
      assert a + b == b;
    }
  }

  lemma {:induction false} TextsAppend(a: seq<TextSpan>, b: seq<TextSpan>)
    ensures Texts(a + b) == Texts(a) + Texts(b)
    decreases |a|
  {
    if |a| > 0 {
      assert (a + b)[1..] == a[1..] + b;
      TextsAppend(a[1..], b);
    } else {
      assert a + b == b;
    }
  }
}
