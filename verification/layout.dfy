/** The greedy line-break engine of src/ui/font.rs: `find_split_index` and
    `layout_text_binary`, with font measurement abstracted to a width function. */
module Layout {
  import opened Wrappers
  import opened Arith
  import opened Split
  import opened Span

  /** Pixel width of a string drawn bold and/or italic: the font backend. */
  type WidthFn = (string, bool, bool) -> nat

  /** The engine's result; `lines` holds each line's spans left to right. */
  datatype TextLayout = TextLayout(lines: seq<seq<TextSpan>>, totalHeight: int, scrollOffset: int)

  // ---------------------------------------------------------------------
  // Stage 1: embedded '\n' become explicit newline-marker spans
  // ---------------------------------------------------------------------

  /** The text a Stage 1 queue came from: each marker stands for one `'\n'`. */
  function Rebuild(q: seq<TextSpan>): string
  {
    if |q| == 0 then [] else (if q[0].isNewline then "\n" else q[0].text) + Rebuild(q[1..])
  }

  /** A Stage 1 queue: markers carry no text, other spans carry some, and no
      span's text holds a line feed. */
  ghost predicate WellQueued(q: seq<TextSpan>) {
    forall i :: 0 <= i < |q| ==>
      && (q[i].isNewline <==> q[i].text == [])
      && Free(q[i].text, IsLineFeed)
  }

  /** Every span of `q` is `span` with only its text and marker flag changed. */
  ghost predicate ClonesOf(q: seq<TextSpan>, span: TextSpan) {
    forall i :: 0 <= i < |q| ==> q[i] == span.(text := q[i].text, isNewline := q[i].isNewline)
  }

  lemma {:induction false} RebuildAppend(a: seq<TextSpan>, b: seq<TextSpan>)
    ensures Rebuild(a + b) == Rebuild(a) + Rebuild(b)
    decreases |a|
  {
    if |a| > 0 {
      assert (a + b)[1..] == a[1..] + b;
      RebuildAppend(a[1..], b);
    } else {
      assert a + b == b;
    }
  }

  lemma WellQueuedAppend(a: seq<TextSpan>, b: seq<TextSpan>)
    requires WellQueued(a) && WellQueued(b)
    ensures WellQueued(a + b)
  {
    forall i | 0 <= i < |a + b|
      ensures ((a + b)[i].isNewline <==> (a + b)[i].text == []) && Free((a + b)[i].text, IsLineFeed)
    {
      if i >= |a| {
        assert (a + b)[i] == b[i - |a|];
      }
    }
  }

  lemma ClonesOfAppend(a: seq<TextSpan>, b: seq<TextSpan>, span: TextSpan)
    requires ClonesOf(a, span) && ClonesOf(b, span)
    ensures ClonesOf(a + b, span)
  {
    forall i | 0 <= i < |a + b|
      ensures (a + b)[i] == span.(text := (a + b)[i].text, isNewline := (a + b)[i].isNewline)
    {
      if i >= |a| {
        assert (a + b)[i] == b[i - |a|];
      }
    }
  }

  /** Putting a marker cloned from `span` in front of a queue. */
  lemma MarkerCons(span: TextSpan, tail: seq<TextSpan>)
    requires WellQueued(tail) && ClonesOf(tail, span)
    ensures var q := [span.(text := [], isNewline := true)] + tail;
            && WellQueued(q) && ClonesOf(q, span)
            && Rebuild(q) == "\n" + Rebuild(tail)
            && Count(q, IsMarker) == 1 + Count(tail, IsMarker)
            && Shown(q, false) == Shown(tail, false)
  {
    var marker := span.(text := [], isNewline := true);
    assert ([marker] + tail)[1..] == tail;
    WellQueuedAppend([marker], tail);
    ClonesOfAppend([marker], tail, span);
  }

  /** What one `'\n'`-free piece of `span`'s text puts on the queue between
      two markers: a single clone carrying the whole piece, or nothing for an
      empty piece. */
  function Fragment(span: TextSpan, part: string): seq<TextSpan> {
    if part != [] then [span.(text := part, isNewline := false)] else []
  }

  function Fragments(span: TextSpan, parts: seq<string>): seq<seq<TextSpan>> {
    seq(|parts|, i requires 0 <= i < |parts| => Fragment(span, parts[i]))
  }

  lemma FragmentsOne(span: TextSpan, parts: seq<string>)
    requires |parts| == 1
    ensures SplitWhere(Fragment(span, parts[0]), IsMarker) == Fragments(span, parts)
  {
    var head := Fragment(span, parts[0]);
    SplitFreePrefix(head, [], IsMarker);
    assert head + [] == head;
  }

  lemma FragmentsCons(span: TextSpan, parts: seq<string>, tail: seq<TextSpan>)
    requires |parts| >= 2
    requires SplitWhere(tail, IsMarker) == Fragments(span, parts[1..])
    ensures SplitWhere(Fragment(span, parts[0]) + ([span.(text := [], isNewline := true)] + tail), IsMarker)
            == Fragments(span, parts)
  {
    var head := Fragment(span, parts[0]);
    var rest := [span.(text := [], isNewline := true)] + tail;
    SplitFreePrefix(head, rest, IsMarker);
    assert rest[1..] == tail;
    assert SplitWhere(rest, IsMarker) == [[]] + SplitWhere(tail, IsMarker);
    assert head + [] == head;
    assert Fragments(span, parts) == [head] + Fragments(span, parts[1..]);
  }

  /** The queue entries for the `'\n'`-separated pieces of one span's text:
      each non-empty piece as a clone, a marker between consecutive pieces. */
  function Pieces(span: TextSpan, parts: seq<string>): (q: seq<TextSpan>)
    requires |parts| >= 1
    requires forall i :: 0 <= i < |parts| ==> Free(parts[i], IsLineFeed)
    ensures WellQueued(q) && ClonesOf(q, span)
    ensures Count(q, IsMarker) == |parts| - 1
    ensures Shown(q, false) == Concat(parts)
    ensures SplitWhere(q, IsMarker) == Fragments(span, parts)
    decreases |parts|
  {
    var head := Fragment(span, parts[0]);
    if |parts| == 1 then
      FragmentsOne(span, parts);
      head
    else
      var tail := Pieces(span, parts[1..]);
      var marker := span.(text := [], isNewline := true);
      var q := head + ([marker] + tail);
      MarkerCons(span, tail);
      WellQueuedAppend(head, [marker] + tail);
      ClonesOfAppend(head, [marker] + tail, span);
      CountAppend(head, [marker] + tail, IsMarker);
      ShownAppend(head, [marker] + tail, false);
      FragmentsCons(span, parts, tail);
      q
  }

  /** Rebuilding the pieces, a line feed per marker, joins the parts back
      with line feeds. */
  lemma {:induction false} PiecesRebuild(span: TextSpan, parts: seq<string>)
    requires |parts| >= 1
    requires forall i :: 0 <= i < |parts| ==> Free(parts[i], IsLineFeed)
    ensures Rebuild(Pieces(span, parts)) == JoinWith(parts, '\n')
    decreases |parts|
  {
    var head := Fragment(span, parts[0]);
    assert Rebuild(head) == parts[0];
    if |parts| > 1 {
      var tail := Pieces(span, parts[1..]);
      var rest := [span.(text := [], isNewline := true)] + tail;
      PiecesRebuild(span, parts[1..]);
      RebuildAppend(head, rest);
      assert rest[1..] == tail;
    }
  }

  /** Stage 1 for one span (the body of the `for span in spans` loop). */
  function ExpandSpan(span: TextSpan): (q: seq<TextSpan>)
    ensures WellQueued(q) && ClonesOf(q, span)
    ensures Rebuild(q) == span.text
    ensures Count(q, IsMarker) == Count(span.text, IsLineFeed)
    ensures Shown(q, false) == Strip(span.text, IsLineFeed)
    ensures SplitWhere(q, IsMarker) == Fragments(span, SplitWhere(span.text, IsLineFeed))
  {
    var parts := SplitWhere(span.text, IsLineFeed);
    SplitWhereFree(span.text, IsLineFeed);
    JoinSplit(span.text, IsLineFeed, '\n');
    ConcatSplit(span.text, IsLineFeed);
    PiecesRebuild(span, parts);
    Pieces(span, parts)
  }

  /** Stage 1: the work queue for the whole span sequence. */
  function ExpandNewlines(spans: seq<TextSpan>): (q: seq<TextSpan>)
    ensures WellQueued(q)
    ensures Rebuild(q) == Texts(spans)
    ensures Count(q, IsMarker) == Count(Texts(spans), IsLineFeed)
    ensures Shown(q, false) == Strip(Texts(spans), IsLineFeed)
    decreases |spans|
  {
    if |spans| == 0 then []
    else
      var head := ExpandSpan(spans[0]);
      var tail := ExpandNewlines(spans[1..]);
      WellQueuedAppend(head, tail);
      RebuildAppend(head, tail);
      CountAppend(head, tail, IsMarker);
      ShownAppend(head, tail, false);
      CountAppend(spans[0].text, Texts(spans[1..]), IsLineFeed);
      StripAppend(spans[0].text, Texts(spans[1..]), IsLineFeed);
      head + tail
  }

  /** Stage 1 works span by span: the queue of a span list is the queues of
      its spans, in order. */
  lemma {:induction false} ExpandNewlinesPerSpan(a: seq<TextSpan>, b: seq<TextSpan>)
    ensures ExpandNewlines(a + b) == ExpandNewlines(a) + ExpandNewlines(b)
    ensures forall span :: ExpandNewlines([span]) == ExpandSpan(span)
    decreases |a|
  {
    forall span
      ensures ExpandNewlines([span]) == ExpandSpan(span)
    {
      assert [span][1..] == [];
      assert ExpandSpan(span) + [] == ExpandSpan(span);
    }
    if |a| == 0 {
      assert a + b == b;
    } else {
      assert (a + b)[1..] == a[1..] + b;
      ExpandNewlinesPerSpan(a[1..], b);
    }
  }

  // ---------------------------------------------------------------------
  // Measuring
  // ---------------------------------------------------------------------

  /** Summed single-character widths of the first `k` characters of `t`. */
  function PrefixWidth(t: string, k: nat, bold: bool, italic: bool, width: WidthFn): nat
    requires k <= |t|
  {
    if k == 0 then 0 else PrefixWidth(t, k - 1, bold, italic, width) + width([t[k - 1]], bold, italic)
  }

  lemma {:induction false} PrefixWidthMono(t: string, j: nat, k: nat, bold: bool, italic: bool, width: WidthFn)
    requires j <= k <= |t|
    ensures PrefixWidth(t, j, bold, italic, width) <= PrefixWidth(t, k, bold, italic, width)
    decreases k - j
  {
    if j < k {
      PrefixWidthMono(t, j, k - 1, bold, italic, width);
    }
  }

  /** The per-character sum depends only on the characters summed. */
  lemma {:induction false} PrefixWidthOfPrefix(t: string, n: nat, k: nat, bold: bool, italic: bool, width: WidthFn)
    requires k <= n <= |t|
    ensures PrefixWidth(t[..n], k, bold, italic, width) == PrefixWidth(t, k, bold, italic, width)
    decreases k
  {
    if k > 0 {
      PrefixWidthOfPrefix(t, n, k - 1, bold, italic, width);
    }
  }

  /** Measured width of a span's displayed text, in its own style. */
  function SpanWidth(s: TextSpan, useRuby: bool, width: WidthFn): nat {
    width(s.TextToUse(useRuby), s.isBold, s.isItalic)
  }

  /** Summed single-character widths of a span's displayed text. */
  function CharWidths(s: TextSpan, useRuby: bool, width: WidthFn): nat {
    PrefixWidth(s.TextToUse(useRuby), |s.TextToUse(useRuby)|, s.isBold, s.isItalic, width)
  }

  /** Measured widths of the spans of `spans` that are not markers, summed. */
  function SumWidth(spans: seq<TextSpan>, useRuby: bool, width: WidthFn): nat
  {
    if |spans| == 0 then 0
    else (if spans[0].isNewline then 0 else SpanWidth(spans[0], useRuby, width)) + SumWidth(spans[1..], useRuby, width)
  }

  lemma {:induction false} SumWidthAppend(a: seq<TextSpan>, b: seq<TextSpan>, useRuby: bool, width: WidthFn)
    ensures SumWidth(a + b, useRuby, width) == SumWidth(a, useRuby, width) + SumWidth(b, useRuby, width)
    decreases |a|
  {
    if |a| > 0 {
      assert (a + b)[1..] == a[1..] + b;
      SumWidthAppend(a[1..], b, useRuby, width);
    } else {
      assert a + b == b;
    }
  }

  /** The width promise for one produced line: the spans before the last one
      were measured whole and fit together; the last one either fit whole,
      or is a piece whose characters were summed against the space left, or
      is a single character forced alone onto its line. */
  ghost predicate LineFits(line: seq<TextSpan>, maxWidth: nat, useRuby: bool, width: WidthFn) {
    |line| == 0 ||
    var init := line[..|line| - 1];
    var last := line[|line| - 1];
    && SumWidth(init, useRuby, width) <= maxWidth
    && (|| SumWidth(init, useRuby, width) + SpanWidth(last, useRuby, width) <= maxWidth
        || SumWidth(init, useRuby, width) + CharWidths(last, useRuby, width) <= maxWidth
        || (|line| == 1 && |last.TextToUse(useRuby)| == 1))
  }

  lemma WholeLineFits(line: seq<TextSpan>, maxWidth: nat, useRuby: bool, width: WidthFn)
    requires NoMarkers(line)
    requires SumWidth(line, useRuby, width) <= maxWidth
    ensures LineFits(line, maxWidth, useRuby, width)
  {
    if |line| > 0 {
      var init := line[..|line| - 1];
      assert line == init + [line[|line| - 1]];
      SumWidthAppend(init, [line[|line| - 1]], useRuby, width);
    }
  }

  // ---------------------------------------------------------------------
  // Splitting
  // ---------------------------------------------------------------------

  /** The scan of `find_split_index` from character `k` on, `currentWidth`
      being the summed width of the characters before it. */
  function ScanSplit(t: string, k: nat, currentWidth: nat, spaceLeft: nat,
                     bold: bool, italic: bool, width: WidthFn): (r: nat)
    requires k <= |t|
    requires currentWidth == PrefixWidth(t, k, bold, italic, width) <= spaceLeft
    ensures k <= r <= |t|
    ensures PrefixWidth(t, r, bold, italic, width) <= spaceLeft
    ensures forall j :: r < j <= |t| ==> PrefixWidth(t, j, bold, italic, width) > spaceLeft
    decreases |t| - k
  {
    if k == |t| then k
    else
      var charWidth := width([t[k]], bold, italic);
      if currentWidth + charWidth > spaceLeft then
        PrefixWidthExceeds(t, k + 1, spaceLeft, bold, italic, width);
        k
      else
        ScanSplit(t, k + 1, currentWidth + charWidth, spaceLeft, bold, italic, width)
  }

  lemma PrefixWidthExceeds(t: string, k: nat, spaceLeft: nat, bold: bool, italic: bool, width: WidthFn)
    requires k <= |t|
    requires PrefixWidth(t, k, bold, italic, width) > spaceLeft
    ensures forall j :: k <= j <= |t| ==> PrefixWidth(t, j, bold, italic, width) > spaceLeft
  {
    forall j | k <= j <= |t|
      ensures PrefixWidth(t, j, bold, italic, width) > spaceLeft
    {
      PrefixWidthMono(t, k, j, bold, italic, width);
    }
  }

  /** `find_split_index`: a left-to-right scan adding one character's width
      at a time. The result counts the characters of the longest prefix of
      the displayed text whose summed widths stay within `spaceLeft`. */
  function FindSplitIndex(span: TextSpan, spaceLeft: nat, useRuby: bool, width: WidthFn): (k: nat)
    ensures k <= |span.TextToUse(useRuby)|
    ensures PrefixWidth(span.TextToUse(useRuby), k, span.isBold, span.isItalic, width) <= spaceLeft
    ensures forall j :: k < j <= |span.TextToUse(useRuby)| ==>
              PrefixWidth(span.TextToUse(useRuby), j, span.isBold, span.isItalic, width) > spaceLeft
    ensures |span.TextToUse(useRuby)| > 0 ==>
              (k == 0 <==> width([span.TextToUse(useRuby)[0]], span.isBold, span.isItalic) > spaceLeft)
  {
    var t := span.TextToUse(useRuby);
    var k := ScanSplit(t, 0, 0, spaceLeft, span.isBold, span.isItalic, width);
    if |t| > 0 && k > 0 then
      PrefixWidthMono(t, 1, k, span.isBold, span.isItalic, width);
      k
    else
      k
  }

  /** Cuts a span after `k` displayed characters. With ruby display on, only
      the ruby reading is cut: the fitted piece keeps the full base text and
      the remainder's base text becomes empty. */
  function SplitSpan(span: TextSpan, k: nat, useRuby: bool): (pair: (TextSpan, TextSpan))
    requires k <= |span.TextToUse(useRuby)|
    ensures pair.0.TextToUse(useRuby) == span.TextToUse(useRuby)[..k]
    ensures pair.1.TextToUse(useRuby) == span.TextToUse(useRuby)[k..]
    ensures SameStyle(pair.0, span) && SameStyle(pair.1, span)
    ensures useRuby ==> pair.0.text == span.text && pair.1.text == []
    ensures !useRuby ==> pair.0.rubyText == span.rubyText == pair.1.rubyText
  {
    var t := span.TextToUse(useRuby);
    if useRuby then
      (span.(rubyText := Some(t[..k])), span.(rubyText := Some(t[k..]), text := []))
    else
      (span.(text := t[..k]), span.(text := t[k..]))
  }

  // ---------------------------------------------------------------------
  // Stage 2: greedy packing
  // ---------------------------------------------------------------------

  /** The state of the packing loop: finished lines, the open line and its
      measured width, and the work queue. */
  datatype Packing = Packing(lines: seq<seq<TextSpan>>, current: seq<TextSpan>, currentWidth: nat, queue: seq<TextSpan>)

  /** One iteration of the packing loop: the front of the queue is a marker
      (close the line), fits whole (append it), has a prefix that fits (place
      it, close the line, queue the rest), fits not at all after other
      content (close the line, retry it), or fits not at all on an empty
      line (force its first character alone onto the line). */
  function Step(p: Packing, maxWidth: nat, useRuby: bool, width: WidthFn): (r: Packing)
    requires |p.queue| > 0
    ensures |p.lines| <= |r.lines| <= |p.lines| + 1 && r.lines[..|p.lines|] == p.lines
    ensures |r.lines| == |p.lines| ==> r.current == p.current + [p.queue[0]] && r.queue == p.queue[1..]
    ensures |r.lines| == |p.lines| + 1 ==> r.current == [] && r.currentWidth == 0
  {
    var span := p.queue[0];
    var rest := p.queue[1..];
    if span.isNewline then
      Packing(p.lines + [p.current], [], 0, rest)
    else
      var textForLayout := span.TextToUse(useRuby);
      var spaceLeft := SatSub(maxWidth, p.currentWidth);
      var spanWidth := width(textForLayout, span.isBold, span.isItalic);
      if spanWidth <= spaceLeft then
        Packing(p.lines, p.current + [span], p.currentWidth + spanWidth, rest)
      else
        var splitIndex := FindSplitIndex(span, spaceLeft, useRuby, width);
        if splitIndex > 0 then
          var (fit, remaining) := SplitSpan(span, splitIndex, useRuby);
          Packing(p.lines + [p.current + [fit]], [], 0, [remaining] + rest)
        else if |p.current| > 0 then
          Packing(p.lines + [p.current], [], 0, [span] + rest)
        else if |textForLayout| > 0 then
          var (fit, remaining) := SplitSpan(span, 1, useRuby);
          Packing(p.lines + [[fit]], [], 0, if textForLayout[1..] != [] then [remaining] + rest else rest)
        else
          Packing(p.lines + [[]], [], 0, rest)
  }

  /** Termination measure of the packing loop: characters still to place plus
      queue entries. */
  function Load(q: seq<TextSpan>, useRuby: bool): nat {
    |Shown(q, useRuby)| + |q|
  }

  // One-step unfoldings of the recursive measures at the head of a queue.

  lemma ShownCons(s: TextSpan, rest: seq<TextSpan>, useRuby: bool)
    ensures Shown([s] + rest, useRuby) == (if s.isNewline then [] else s.TextToUse(useRuby)) + Shown(rest, useRuby)
  {
    assert ([s] + rest)[1..] == rest;
  }

  lemma SumWidthCons(s: TextSpan, rest: seq<TextSpan>, useRuby: bool, width: WidthFn)
    ensures SumWidth([s] + rest, useRuby, width)
         == (if s.isNewline then 0 else SpanWidth(s, useRuby, width)) + SumWidth(rest, useRuby, width)
  {
    assert ([s] + rest)[1..] == rest;
  }

  lemma CountCons(s: TextSpan, rest: seq<TextSpan>)
    ensures Count([s] + rest, IsMarker) == (if s.isNewline then 1 else 0) + Count(rest, IsMarker)
  {
    assert ([s] + rest)[1..] == rest;
  }

  lemma SegmentsCons(s: TextSpan, rest: seq<TextSpan>)
    ensures var segs := SplitWhere(rest, IsMarker);
            SplitWhere([s] + rest, IsMarker)
            == if s.isNewline then [[]] + segs else [[s] + segs[0]] + segs[1..]
  {
    assert ([s] + rest)[1..] == rest;
  }

  lemma ShownLinesSnoc(lines: seq<seq<TextSpan>>, line: seq<TextSpan>, useRuby: bool)
    ensures ShownLines(lines + [line], useRuby) == ShownLines(lines, useRuby) + Shown(line, useRuby)
  {
    assert (lines + [line])[..|lines|] == lines;
  }

  // The packing loop's invariant, one concern per predicate; `q0` is the
  // Stage 1 queue the loop started from.

  /** Finished lines fit, and the open line is measured correctly. */
  ghost predicate LinesOk(p: Packing, maxWidth: nat, useRuby: bool, width: WidthFn) {
    && DoneOk(p.lines, maxWidth, useRuby, width)
    && NoMarkers(p.current)
    && p.currentWidth == SumWidth(p.current, useRuby, width) <= maxWidth
  }

  /** Lines, open line and queue together still show exactly the start queue. */
  ghost predicate ContentOk(q0: seq<TextSpan>, p: Packing, useRuby: bool) {
    Content(p, useRuby) == Shown(q0, useRuby)
  }

  /** Every marker taken off the queue closed a line. */
  ghost predicate CountOk(q0: seq<TextSpan>, p: Packing) {
    |p.lines| + Count(p.queue, IsMarker) >= Count(q0, IsMarker)
  }

  /** If the whole start queue fits on one line, lines are exactly its
      marker-separated segments. */
  ghost predicate NoWrapOk(q0: seq<TextSpan>, p: Packing, maxWidth: nat, useRuby: bool, width: WidthFn) {
    SumWidth(q0, useRuby, width) <= maxWidth ==>
      && p.currentWidth + SumWidth(p.queue, useRuby, width) <= maxWidth
      && p.lines + [p.current + SplitWhere(p.queue, IsMarker)[0]] + SplitWhere(p.queue, IsMarker)[1..]
         == SplitWhere(q0, IsMarker)
  }

  /** If the start queue opens with an over-wide character, nothing has
      happened yet or the first line is that character alone. */
  ghost predicate OverWideOk(q0: seq<TextSpan>, p: Packing, maxWidth: nat, useRuby: bool, width: WidthFn) {
    OverWideStart(q0, maxWidth, useRuby, width) ==>
      || p == Packing([], [], 0, q0)
      || (|p.lines| >= 1 && p.lines[0] == [SplitSpan(q0[0], 1, useRuby).0])
  }

  ghost predicate PackInv(q0: seq<TextSpan>, p: Packing, maxWidth: nat, useRuby: bool, width: WidthFn) {
    && LinesOk(p, maxWidth, useRuby, width)
    && ContentOk(q0, p, useRuby)
    && CountOk(q0, p)
    && NoWrapOk(q0, p, maxWidth, useRuby, width)
    && OverWideOk(q0, p, maxWidth, useRuby, width)
  }

  /** The queue starts with a span whose first character alone is wider than
      the whole box (so is the span). */
  ghost predicate OverWideStart(q: seq<TextSpan>, maxWidth: nat, useRuby: bool, width: WidthFn) {
    && |q| > 0
    && !q[0].isNewline
    && |q[0].TextToUse(useRuby)| > 0
    && SpanWidth(q[0], useRuby, width) > maxWidth
    && width([q[0].TextToUse(useRuby)[0]], q[0].isBold, q[0].isItalic) > maxWidth
  }

  /** Each step either takes characters or entries off the queue, or keeps
      the queue and empties a non-empty open line. */
  lemma StepDecreases(p: Packing, maxWidth: nat, useRuby: bool, width: WidthFn)
    requires |p.queue| > 0
    ensures var n := Step(p, maxWidth, useRuby, width);
            || Load(n.queue, useRuby) < Load(p.queue, useRuby)
            || (Load(n.queue, useRuby) == Load(p.queue, useRuby) && |p.current| > 0 && n.current == [])
  {
    var span, rest := p.queue[0], p.queue[1..];
    assert p.queue == [span] + rest;
    ShownCons(span, rest, useRuby);
    if !span.isNewline {
      var t := span.TextToUse(useRuby);
      var spaceLeft := SatSub(maxWidth, p.currentWidth);
      var k := FindSplitIndex(span, spaceLeft, useRuby, width);
      if width(t, span.isBold, span.isItalic) > spaceLeft && (k > 0 || (|p.current| == 0 && |t| > 0)) {
        var (fit, remaining) := SplitSpan(span, if k > 0 then k else 1, useRuby);
        ShownCons(remaining, rest, useRuby);
      }
    }
  }

  /** Every finished line is marker-free and fits. */
  ghost predicate DoneOk(lines: seq<seq<TextSpan>>, maxWidth: nat, useRuby: bool, width: WidthFn) {
    forall i :: 0 <= i < |lines| ==> NoMarkers(lines[i]) && LineFits(lines[i], maxWidth, useRuby, width)
  }

  lemma DoneSnoc(lines: seq<seq<TextSpan>>, line: seq<TextSpan>, maxWidth: nat, useRuby: bool, width: WidthFn)
    requires DoneOk(lines, maxWidth, useRuby, width)
    requires NoMarkers(line) && LineFits(line, maxWidth, useRuby, width)
    ensures DoneOk(lines + [line], maxWidth, useRuby, width)
  {
  }

  lemma AppendWhole(current: seq<TextSpan>, span: TextSpan, useRuby: bool, width: WidthFn)
    requires NoMarkers(current) && !span.isNewline
    ensures NoMarkers(current + [span])
    ensures SumWidth(current + [span], useRuby, width) == SumWidth(current, useRuby, width) + SpanWidth(span, useRuby, width)
  {
    SumWidthAppend(current, [span], useRuby, width);
    SumWidthCons(span, [], useRuby, width);
    assert [span] + [] == [span];
  }

  /** A fitted piece of `k` characters closes a line that fits. */
  lemma AppendPiece(current: seq<TextSpan>, span: TextSpan, k: nat, maxWidth: nat, useRuby: bool, width: WidthFn)
    requires NoMarkers(current) && !span.isNewline
    requires SumWidth(current, useRuby, width) <= maxWidth
    requires 0 < k <= |span.TextToUse(useRuby)|
    requires PrefixWidth(span.TextToUse(useRuby), k, span.isBold, span.isItalic, width)
             <= maxWidth - SumWidth(current, useRuby, width)
    ensures var line := current + [SplitSpan(span, k, useRuby).0];
            NoMarkers(line) && LineFits(line, maxWidth, useRuby, width)
  {
    var t := span.TextToUse(useRuby);
    var line := current + [SplitSpan(span, k, useRuby).0];
    PrefixWidthOfPrefix(t, k, k, span.isBold, span.isItalic, width);
    assert line[..|line| - 1] == current;
  }

  lemma ForcedPiece(span: TextSpan, maxWidth: nat, useRuby: bool, width: WidthFn)
    requires !span.isNewline && |span.TextToUse(useRuby)| > 0
    ensures var line := [SplitSpan(span, 1, useRuby).0];
            NoMarkers(line) && LineFits(line, maxWidth, useRuby, width)
  {
    var line := [SplitSpan(span, 1, useRuby).0];
    assert line[..0] == [];
  }

  /** When neither the front span nor its first character fits on an empty
      line, that character alone becomes a finished line, and the rest of
      the span, if any, goes back to the front of the queue. */
  lemma StepForced(p: Packing, maxWidth: nat, useRuby: bool, width: WidthFn)
    requires |p.queue| > 0 && p.current == [] && p.currentWidth == 0
    requires var span := p.queue[0];
             var t := span.TextToUse(useRuby);
             && !span.isNewline && |t| > 0
             && SpanWidth(span, useRuby, width) > maxWidth
             && width([t[0]], span.isBold, span.isItalic) > maxWidth
    ensures var span := p.queue[0];
            var t := span.TextToUse(useRuby);
            var r := Step(p, maxWidth, useRuby, width);
            && r.current == [] && r.currentWidth == 0
            && |r.lines| == |p.lines| + 1 && r.lines[..|p.lines|] == p.lines
            && |r.lines[|p.lines|]| == 1
            && r.lines[|p.lines|][0].TextToUse(useRuby) == [t[0]]
            && SameStyle(r.lines[|p.lines|][0], span)
            && (|t| == 1 ==> r.queue == p.queue[1..])
            && (|t| > 1 ==> && |r.queue| == |p.queue| && r.queue[1..] == p.queue[1..]
                            && r.queue[0].TextToUse(useRuby) == t[1..] && SameStyle(r.queue[0], span))
  {
    var span := p.queue[0];
    var t := span.TextToUse(useRuby);
    assert t[..1] == [t[0]];
    assert FindSplitIndex(span, maxWidth, useRuby, width) == 0;
  }

  lemma StepLines(p: Packing, maxWidth: nat, useRuby: bool, width: WidthFn)
    requires |p.queue| > 0
    requires LinesOk(p, maxWidth, useRuby, width)
    ensures LinesOk(Step(p, maxWidth, useRuby, width), maxWidth, useRuby, width)
  {
    var span := p.queue[0];
    WholeLineFits(p.current, maxWidth, useRuby, width);
    var none: seq<TextSpan> := [];
    WholeLineFits(none, maxWidth, useRuby, width);
    if span.isNewline {
      DoneSnoc(p.lines, p.current, maxWidth, useRuby, width);
    } else {
      var t := span.TextToUse(useRuby);
      var spaceLeft := SatSub(maxWidth, p.currentWidth);
      if width(t, span.isBold, span.isItalic) <= spaceLeft {
        AppendWhole(p.current, span, useRuby, width);
      } else {
        var k := FindSplitIndex(span, spaceLeft, useRuby, width);
        if k > 0 {
          AppendPiece(p.current, span, k, maxWidth, useRuby, width);
          DoneSnoc(p.lines, p.current + [SplitSpan(span, k, useRuby).0], maxWidth, useRuby, width);
        } else if |p.current| > 0 {
          DoneSnoc(p.lines, p.current, maxWidth, useRuby, width);
        } else if |t| > 0 {
          ForcedPiece(span, maxWidth, useRuby, width);
          DoneSnoc(p.lines, [SplitSpan(span, 1, useRuby).0], maxWidth, useRuby, width);
        } else {
          DoneSnoc(p.lines, none, maxWidth, useRuby, width);
        }
      }
    }
  }

  /** Closing the open line moves its text, unchanged, to the finished lines. */
  lemma ContentClose(lines: seq<seq<TextSpan>>, current: seq<TextSpan>, rest: string, useRuby: bool)
    ensures ShownLines(lines + [current], useRuby) + rest == ShownLines(lines, useRuby) + Shown(current, useRuby) + rest
  {
    ShownLinesSnoc(lines, current, useRuby);
  }

  lemma ShownSnoc(current: seq<TextSpan>, span: TextSpan, useRuby: bool)
    requires !span.isNewline
    ensures Shown(current + [span], useRuby) == Shown(current, useRuby) + span.TextToUse(useRuby)
  {
    ShownAppend(current, [span], useRuby);
    assert [span] + [] == [span];
    ShownCons(span, [], useRuby);
  }

  lemma ContentWhole(done: string, current: seq<TextSpan>, span: TextSpan, rest: seq<TextSpan>, useRuby: bool)
    requires !span.isNewline
    ensures done + Shown(current + [span], useRuby) + Shown(rest, useRuby)
         == done + Shown(current, useRuby) + Shown([span] + rest, useRuby)
  {
    ShownSnoc(current, span, useRuby);
    ShownCons(span, rest, useRuby);
    var c, t, r := Shown(current, useRuby), span.TextToUse(useRuby), Shown(rest, useRuby);
    assert done + (c + t) + r == done + c + (t + r);
  }

  /** Placing a fitted piece and queueing the remainder keeps the text. */
  lemma ContentSplit(lines: seq<seq<TextSpan>>, current: seq<TextSpan>, span: TextSpan, fit: TextSpan, remaining: TextSpan,
                     rest: seq<TextSpan>, useRuby: bool)
    requires !span.isNewline && !fit.isNewline && !remaining.isNewline
    requires fit.TextToUse(useRuby) + remaining.TextToUse(useRuby) == span.TextToUse(useRuby)
    ensures ShownLines(lines + [current + [fit]], useRuby) + Shown([remaining] + rest, useRuby)
         == ShownLines(lines, useRuby) + Shown(current, useRuby) + Shown([span] + rest, useRuby)
  {
    ShownLinesSnoc(lines, current + [fit], useRuby);
    ShownCons(remaining, rest, useRuby);
    ShownCons(span, rest, useRuby);
    ShownSnoc(current, fit, useRuby);
    Assoc5(ShownLines(lines, useRuby), Shown(current, useRuby), fit.TextToUse(useRuby),
           remaining.TextToUse(useRuby), Shown(rest, useRuby));
  }

  lemma Assoc5(l: string, c: string, f: string, m: string, r: string)
    ensures (l + (c + f)) + (m + r) == (l + c) + ((f + m) + r)
  {
  }

  /** Everything a packing state still shows: finished lines, open line, queue. */
  function Content(p: Packing, useRuby: bool): string {
    ShownLines(p.lines, useRuby) + Shown(p.current, useRuby) + Shown(p.queue, useRuby)
  }

  lemma ContentOfClose(p: Packing, queue: seq<TextSpan>, useRuby: bool)
    requires Shown(queue, useRuby) == Shown(p.queue, useRuby)
    ensures Content(Packing(p.lines + [p.current], [], 0, queue), useRuby) == Content(p, useRuby)
  {
    ContentClose(p.lines, p.current, Shown(queue, useRuby), useRuby);
  }

  lemma ContentOfWhole(p: Packing, w: nat, useRuby: bool)
    requires |p.queue| > 0 && !p.queue[0].isNewline
    ensures Content(Packing(p.lines, p.current + [p.queue[0]], w, p.queue[1..]), useRuby) == Content(p, useRuby)
  {
    assert p.queue == [p.queue[0]] + p.queue[1..];
    ContentWhole(ShownLines(p.lines, useRuby), p.current, p.queue[0], p.queue[1..], useRuby);
  }

  lemma ContentOfSplit(p: Packing, fit: TextSpan, remaining: TextSpan, useRuby: bool)
    requires |p.queue| > 0 && !p.queue[0].isNewline && !fit.isNewline && !remaining.isNewline
    requires fit.TextToUse(useRuby) + remaining.TextToUse(useRuby) == p.queue[0].TextToUse(useRuby)
    ensures Content(Packing(p.lines + [p.current + [fit]], [], 0, [remaining] + p.queue[1..]), useRuby) == Content(p, useRuby)
  {
    assert p.queue == [p.queue[0]] + p.queue[1..];
    ContentSplit(p.lines, p.current, p.queue[0], fit, remaining, p.queue[1..], useRuby);
  }

  /** The branch `Step` takes for a span that is not a marker and does not fit whole. */
  function SplitAt(p: Packing, maxWidth: nat, useRuby: bool, width: WidthFn): nat
    requires |p.queue| > 0
  {
    FindSplitIndex(p.queue[0], SatSub(maxWidth, p.currentWidth), useRuby, width)
  }

  lemma StepContentFits(p: Packing, maxWidth: nat, useRuby: bool, width: WidthFn)
    requires |p.queue| > 0 && !p.queue[0].isNewline
    requires SpanWidth(p.queue[0], useRuby, width) <= SatSub(maxWidth, p.currentWidth)
    ensures Content(Step(p, maxWidth, useRuby, width), useRuby) == Content(p, useRuby)
  {
    ContentOfWhole(p, p.currentWidth + SpanWidth(p.queue[0], useRuby, width), useRuby);
  }

  lemma StepContentSplit(p: Packing, maxWidth: nat, useRuby: bool, width: WidthFn)
    requires |p.queue| > 0 && !p.queue[0].isNewline
    requires SpanWidth(p.queue[0], useRuby, width) > SatSub(maxWidth, p.currentWidth)
    requires SplitAt(p, maxWidth, useRuby, width) > 0
    ensures Content(Step(p, maxWidth, useRuby, width), useRuby) == Content(p, useRuby)
  {
    var span, k := p.queue[0], SplitAt(p, maxWidth, useRuby, width);
    var t := span.TextToUse(useRuby);
    var (fit, remaining) := SplitSpan(span, k, useRuby);
    assert t[..k] + t[k..] == t;
    ContentOfSplit(p, fit, remaining, useRuby);
  }

  lemma StepContentForced(p: Packing, maxWidth: nat, useRuby: bool, width: WidthFn)
    requires |p.queue| > 0 && !p.queue[0].isNewline
    requires SpanWidth(p.queue[0], useRuby, width) > SatSub(maxWidth, p.currentWidth)
    requires SplitAt(p, maxWidth, useRuby, width) == 0 && |p.current| == 0
    ensures Content(Step(p, maxWidth, useRuby, width), useRuby) == Content(p, useRuby)
  {
    var span, rest := p.queue[0], p.queue[1..];
    var t := span.TextToUse(useRuby);
    if |t| > 0 {
      var (fit, remaining) := SplitSpan(span, 1, useRuby);
      assert t[..1] + t[1..] == t;
      ContentOfSplit(p, fit, remaining, useRuby);
      assert p.current + [fit] == [fit];
      if t[1..] == [] {
        ShownCons(remaining, rest, useRuby);
      }
    } else {
      assert p.queue == [span] + rest;
      ShownCons(span, rest, useRuby);
      ContentOfClose(p, rest, useRuby);
    }
  }

  lemma StepContent(p: Packing, maxWidth: nat, useRuby: bool, width: WidthFn)
    requires |p.queue| > 0
    ensures Content(Step(p, maxWidth, useRuby, width), useRuby) == Content(p, useRuby)
  {
    var span, rest := p.queue[0], p.queue[1..];
    if span.isNewline {
      assert p.queue == [span] + rest;
      ShownCons(span, rest, useRuby);
      ContentOfClose(p, rest, useRuby);
    } else if SpanWidth(span, useRuby, width) <= SatSub(maxWidth, p.currentWidth) {
      StepContentFits(p, maxWidth, useRuby, width);
    } else if SplitAt(p, maxWidth, useRuby, width) > 0 {
      StepContentSplit(p, maxWidth, useRuby, width);
    } else if |p.current| > 0 {
      ContentOfClose(p, p.queue, useRuby);
    } else {
      StepContentForced(p, maxWidth, useRuby, width);
    }
  }

  lemma StepCount(q0: seq<TextSpan>, p: Packing, maxWidth: nat, useRuby: bool, width: WidthFn)
    requires |p.queue| > 0
    requires CountOk(q0, p)
    ensures CountOk(q0, Step(p, maxWidth, useRuby, width))
  {
    var span, rest := p.queue[0], p.queue[1..];
    assert p.queue == [span] + rest;
    CountCons(span, rest);
    if !span.isNewline {
      var t := span.TextToUse(useRuby);
      var spaceLeft := SatSub(maxWidth, p.currentWidth);
      var k := FindSplitIndex(span, spaceLeft, useRuby, width);
      if width(t, span.isBold, span.isItalic) > spaceLeft && (k > 0 || (|p.current| == 0 && |t| > 0)) {
        var (fit, remaining) := SplitSpan(span, if k > 0 then k else 1, useRuby);
        CountCons(remaining, rest);
      }
    }
  }

  lemma StepMarker(p: Packing, maxWidth: nat, useRuby: bool, width: WidthFn)
    requires |p.queue| > 0 && p.queue[0].isNewline
    ensures Step(p, maxWidth, useRuby, width) == Packing(p.lines + [p.current], [], 0, p.queue[1..])
  {
  }

  lemma StepWhole(p: Packing, maxWidth: nat, useRuby: bool, width: WidthFn)
    requires |p.queue| > 0 && !p.queue[0].isNewline
    requires SpanWidth(p.queue[0], useRuby, width) <= SatSub(maxWidth, p.currentWidth)
    ensures Step(p, maxWidth, useRuby, width)
         == Packing(p.lines, p.current + [p.queue[0]], p.currentWidth + SpanWidth(p.queue[0], useRuby, width), p.queue[1..])
  {
  }

  lemma SegmentsAfterWhole(lines: seq<seq<TextSpan>>, cur: seq<TextSpan>, span: TextSpan,
                           segs: seq<seq<TextSpan>>, target: seq<seq<TextSpan>>)
    requires |segs| > 0
    requires lines + [cur + ([span] + segs[0])] + segs[1..] == target
    ensures lines + [(cur + [span]) + segs[0]] + segs[1..] == target
  {
    assert (cur + [span]) + segs[0] == cur + ([span] + segs[0]);
  }

  lemma SegmentsAfterMarker(lines: seq<seq<TextSpan>>, cur: seq<TextSpan>,
                            segs: seq<seq<TextSpan>>, target: seq<seq<TextSpan>>)
    requires |segs| > 0
    requires lines + [cur + []] + segs == target
    ensures (lines + [cur]) + [[] + segs[0]] + segs[1..] == target
  {
    assert cur + [] == cur && [] + segs[0] == segs[0];
    assert [segs[0]] + segs[1..] == segs;
  }

  lemma StepNoWrap(q0: seq<TextSpan>, p: Packing, maxWidth: nat, useRuby: bool, width: WidthFn)
    requires |p.queue| > 0
    requires NoWrapOk(q0, p, maxWidth, useRuby, width)
    ensures NoWrapOk(q0, Step(p, maxWidth, useRuby, width), maxWidth, useRuby, width)
  {
    if SumWidth(q0, useRuby, width) <= maxWidth {
      var span, rest := p.queue[0], p.queue[1..];
      assert p.queue == [span] + rest;
      SumWidthCons(span, rest, useRuby, width);
      SegmentsCons(span, rest);
      var segs := SplitWhere(rest, IsMarker);
      var all := SplitWhere(p.queue, IsMarker);
      if span.isNewline {
        StepMarker(p, maxWidth, useRuby, width);
        assert all[0] == [] && all[1..] == segs;
        SegmentsAfterMarker(p.lines, p.current, segs, SplitWhere(q0, IsMarker));
      } else {
        StepWhole(p, maxWidth, useRuby, width);
        assert all[0] == [span] + segs[0] && all[1..] == segs[1..];
        SegmentsAfterWhole(p.lines, p.current, span, segs, SplitWhere(q0, IsMarker));
      }
    }
  }

  lemma StepOverWide(q0: seq<TextSpan>, p: Packing, maxWidth: nat, useRuby: bool, width: WidthFn)
    requires |p.queue| > 0
    requires OverWideOk(q0, p, maxWidth, useRuby, width)
    ensures OverWideOk(q0, Step(p, maxWidth, useRuby, width), maxWidth, useRuby, width)
  {
    if OverWideStart(q0, maxWidth, useRuby, width) && p == Packing([], [], 0, q0) {
      var span := q0[0];
      var k := FindSplitIndex(span, SatSub(maxWidth, 0), useRuby, width);
      assert k == 0;
    }
  }

  lemma StepKeepsInv(q0: seq<TextSpan>, p: Packing, maxWidth: nat, useRuby: bool, width: WidthFn)
    requires |p.queue| > 0
    requires PackInv(q0, p, maxWidth, useRuby, width)
    ensures PackInv(q0, Step(p, maxWidth, useRuby, width), maxWidth, useRuby, width)
  {
    StepLines(p, maxWidth, useRuby, width);
    StepContent(p, maxWidth, useRuby, width);
    StepCount(q0, p, maxWidth, useRuby, width);
    StepNoWrap(q0, p, maxWidth, useRuby, width);
    StepOverWide(q0, p, maxWidth, useRuby, width);
  }

  lemma PackStart(q0: seq<TextSpan>, maxWidth: nat, useRuby: bool, width: WidthFn)
    ensures PackInv(q0, Packing([], [], 0, q0), maxWidth, useRuby, width)
  {
    var segs := SplitWhere(q0, IsMarker);
    assert [segs[0]] + segs[1..] == segs;
    assert [] + segs[0] == segs[0];
  }

  /** The lines an unwrapped queue yields: one per marker-separated segment,
      without an empty trailing one (unless it is the only one). */
  function DropTrailingEmpty(segs: seq<seq<TextSpan>>): seq<seq<TextSpan>>
  {
    if |segs| > 1 && segs[|segs| - 1] == [] then segs[..|segs| - 1] else segs
  }

  /** The loop's exit: the open line, if any, becomes the last line, and an
      empty result becomes one empty line. */
  function Finish(p: Packing): (lines: seq<seq<TextSpan>>)
    ensures |lines| >= 1
    ensures |p.lines| <= |lines| <= |p.lines| + 1 && lines[..|p.lines|] == p.lines
    ensures |p.current| > 0 ==> lines[|lines| - 1] == p.current
  {
    var done := if |p.current| > 0 then p.lines + [p.current] else p.lines;
    if |done| == 0 then [[]] else done
  }

  lemma FinishLines(p: Packing, maxWidth: nat, useRuby: bool, width: WidthFn)
    requires LinesOk(p, maxWidth, useRuby, width)
    ensures |Finish(p)| >= 1 && DoneOk(Finish(p), maxWidth, useRuby, width)
  {
    WholeLineFits(p.current, maxWidth, useRuby, width);
    var none: seq<TextSpan> := [];
    WholeLineFits(none, maxWidth, useRuby, width);
    if |p.current| > 0 {
      DoneSnoc(p.lines, p.current, maxWidth, useRuby, width);
    }
  }

  lemma FinishContent(p: Packing, useRuby: bool)
    requires p.queue == []
    ensures ShownLines(Finish(p), useRuby) == Content(p, useRuby)
  {
    ShownLinesSnoc(p.lines, p.current, useRuby);
    var none: seq<seq<TextSpan>> := [];
    ShownLinesSnoc(none, [], useRuby);
    assert none + [[]] == [[]];
  }

  lemma FinishNoWrap(q0: seq<TextSpan>, p: Packing, maxWidth: nat, useRuby: bool, width: WidthFn)
    requires p.queue == []
    requires NoWrapOk(q0, p, maxWidth, useRuby, width)
    requires SumWidth(q0, useRuby, width) <= maxWidth
    ensures Finish(p) == DropTrailingEmpty(SplitWhere(q0, IsMarker))
  {
    assert SplitWhere(p.queue, IsMarker) == [[]];
    assert p.current + [] == p.current;
    assert SplitWhere(q0, IsMarker) == p.lines + [p.current];
    if |p.current| == 0 {
      assert SplitWhere(q0, IsMarker)[..|p.lines|] == p.lines;
    }
  }

  /** The packing loop run until the queue is empty. */
  function Pack(p: Packing, maxWidth: nat, useRuby: bool, width: WidthFn): (r: Packing)
    ensures r.queue == []
    ensures |r.lines| >= |p.lines| && r.lines[..|p.lines|] == p.lines
    decreases Load(p.queue, useRuby), if |p.current| == 0 then 0 else 1
  {
    if |p.queue| == 0 then p
    else
      StepDecreases(p, maxWidth, useRuby, width);
      var next := Step(p, maxWidth, useRuby, width);
      var r := Pack(next, maxWidth, useRuby, width);
      assert r.lines[..|p.lines|] == r.lines[..|next.lines|][..|p.lines|];
      r
  }

  /** Running the loop to the end keeps its invariant. */
  lemma {:induction false} PackKeepsInv(q0: seq<TextSpan>, p: Packing, maxWidth: nat, useRuby: bool, width: WidthFn)
    requires PackInv(q0, p, maxWidth, useRuby, width)
    ensures PackInv(q0, Pack(p, maxWidth, useRuby, width), maxWidth, useRuby, width)
    decreases Load(p.queue, useRuby), if |p.current| == 0 then 0 else 1
  {
    if |p.queue| > 0 {
      StepDecreases(p, maxWidth, useRuby, width);
      StepKeepsInv(q0, p, maxWidth, useRuby, width);
      PackKeepsInv(q0, Step(p, maxWidth, useRuby, width), maxWidth, useRuby, width);
    }
  }

  /** The lines `layout_text_binary` produces: Stage 1, the packing loop
      from an empty layout, then the closing steps. */
  function LayoutLines(spans: seq<TextSpan>, maxWidth: nat, useRuby: bool, width: WidthFn): (lines: seq<seq<TextSpan>>)
    ensures |lines| >= 1
  {
    Finish(Pack(Packing([], [], 0, ExpandNewlines(spans)), maxWidth, useRuby, width))
  }

  /** The finished lines: at least one, at least one per embedded line
      feed, each fitting the box without markers, and together showing
      exactly the queue's text (the input's text minus its line feeds when
      ruby is off). */
  lemma LayoutLinesOk(spans: seq<TextSpan>, maxWidth: nat, useRuby: bool, width: WidthFn)
    ensures var lines := LayoutLines(spans, maxWidth, useRuby, width);
      && |lines| >= 1
      && |lines| >= Count(Texts(spans), IsLineFeed)
      && DoneOk(lines, maxWidth, useRuby, width)
      && ShownLines(lines, useRuby) == Shown(ExpandNewlines(spans), useRuby)
      && (!useRuby ==> ShownLines(lines, useRuby) == Strip(Texts(spans), IsLineFeed))
  {
    var q0 := ExpandNewlines(spans);
    var start := Packing([], [], 0, q0);
    PackStart(q0, maxWidth, useRuby, width);
    PackKeepsInv(q0, start, maxWidth, useRuby, width);
    var p := Pack(start, maxWidth, useRuby, width);
    FinishLines(p, maxWidth, useRuby, width);
    FinishContent(p, useRuby);
  }

  /** A queue whose total width fits the box is not wrapped: the lines are
      its line-feed-separated segments, without an empty last one. */
  lemma LayoutNoWrap(spans: seq<TextSpan>, maxWidth: nat, useRuby: bool, width: WidthFn)
    requires SumWidth(ExpandNewlines(spans), useRuby, width) <= maxWidth
    ensures LayoutLines(spans, maxWidth, useRuby, width)
            == DropTrailingEmpty(SplitWhere(ExpandNewlines(spans), IsMarker))
  {
    var q0 := ExpandNewlines(spans);
    var start := Packing([], [], 0, q0);
    PackStart(q0, maxWidth, useRuby, width);
    PackKeepsInv(q0, start, maxWidth, useRuby, width);
    FinishNoWrap(q0, Pack(start, maxWidth, useRuby, width), maxWidth, useRuby, width);
  }

  /** When the first character alone is wider than the box, it is forced
      onto the first line by itself. */
  lemma LayoutOverWide(spans: seq<TextSpan>, maxWidth: nat, useRuby: bool, width: WidthFn)
    requires OverWideStart(ExpandNewlines(spans), maxWidth, useRuby, width)
    ensures var q0 := ExpandNewlines(spans);
            LayoutLines(spans, maxWidth, useRuby, width)[0] == [SplitSpan(q0[0], 1, useRuby).0]
  {
    var q0 := ExpandNewlines(spans);
    var start := Packing([], [], 0, q0);
    PackStart(q0, maxWidth, useRuby, width);
    PackKeepsInv(q0, start, maxWidth, useRuby, width);
    var p := Pack(start, maxWidth, useRuby, width);
    assert p.queue != q0;
  }

  /** `layout_text_binary`: Stage 1 expansion, then greedy packing of the
      queue into lines no wider than `maxWidth`. The loop yields exactly
      `LayoutLines`, so `LayoutLinesOk`, `LayoutNoWrap` and `LayoutOverWide`
      describe its lines; the height follows from their number. */
  method LayoutTextBinary(spans: seq<TextSpan>, maxWidth: nat, useRuby: bool, width: WidthFn, lineHeight: int)
    returns (layout: TextLayout)
    ensures |layout.lines| >= 1
    ensures layout.totalHeight == lineHeight * |layout.lines|
    ensures layout.scrollOffset == 0
    ensures layout.lines == LayoutLines(spans, maxWidth, useRuby, width)
  {
    var queue := ExpandNewlines(spans);
    var packing := Packing([], [], 0, queue);
    while |packing.queue| > 0
      invariant Pack(packing, maxWidth, useRuby, width) == Pack(Packing([], [], 0, queue), maxWidth, useRuby, width)
      decreases Load(packing.queue, useRuby), if |packing.current| == 0 then 0 else 1
    {
      StepDecreases(packing, maxWidth, useRuby, width);
      packing := Step(packing, maxWidth, useRuby, width);
    }
    var lines := Finish(packing);
    layout := TextLayout(lines, lineHeight * |lines|, 0);
  }
}
