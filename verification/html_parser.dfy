/** `process_node` and `parse_html_to_spans` of src/deck/html_parser.rs: a
    markup tree flattened into styled spans, with formatting inherited from
    the enclosing elements. */
module HtmlParser {
  import opened Wrappers
  import opened Span
  import opened HtmlTree

  predicate IsHeading(name: string) {
    name in {"h1", "h2", "h3", "h4", "h5", "h6"}
  }

  /** Elements after which a line feed span is added (unless one ends the
      output already). */
  predicate IsBlock(name: string) {
    IsHeading(name) || name in {"p", "hr", "li", "hr/", "ul"}
  }

  /** The format an element hands its children (`nf`). */
  function TagFormat(name: string, fmt: TextSpan): (nf: TextSpan)
    ensures nf.text == fmt.text && nf.rubyText == fmt.rubyText && nf.isNewline == fmt.isNewline
    ensures nf.isBold <==> fmt.isBold || IsHeading(name) || name == "b"
    ensures nf.isItalic <==> fmt.isItalic || name == "i"
    ensures nf.isRubyBase <==> fmt.isRubyBase || name == "rb"
    ensures nf.newTextBlock <==> fmt.newTextBlock || IsHeading(name) || name == "br" || name == "hr/"
  {
    if IsHeading(name) then fmt.(isBold := true, newTextBlock := true)
    else if name == "br" || name == "hr/" then fmt.(newTextBlock := true)
    else if name == "b" then fmt.(isBold := true)
    else if name == "i" then fmt.(isItalic := true)
    else if name == "rb" then fmt.(isRubyBase := true)
    else fmt
  }

  /** A `"\n"` span in the style of `fmt`. */
  function LineFeedSpan(fmt: TextSpan): TextSpan {
    fmt.(text := "\n")
  }

  predicate EndsWithLineFeed(spans: seq<TextSpan>) {
    |spans| > 0 && spans[|spans| - 1].text == "\n"
  }

  /** `spans` begins with `acc`. */
  predicate Extends(spans: seq<TextSpan>, acc: seq<TextSpan>) {
    |acc| <= |spans| && spans[..|acc|] == acc
  }

  /** `process_node`: appends to `acc` the spans of node `n` in format `fmt`. */
  function ProcessNode(n: Node, fmt: TextSpan, acc: seq<TextSpan>): (r: seq<TextSpan>)
    ensures Extends(r, acc)
    decreases n, 2
  {
    match n
    case Comment(_) => acc
    case Raw(txt) => if Trim(txt) != [] then acc + [fmt.(text := txt)] else acc
    case Tag(name, _) =>
      var inner := ElementBody(n, fmt, acc);
      if IsBlock(name) && !EndsWithLineFeed(inner) then inner + [LineFeedSpan(fmt)] else inner
  }

  /** An element's output before the block line feed: the line feed `br` and
      `hr/` push first, then the ruby span of a `ruby`, or the children in
      the element's format for anything but `br`. */
  function ElementBody(n: Node, fmt: TextSpan, acc: seq<TextSpan>): (r: seq<TextSpan>)
    requires n.Tag?
    ensures Extends(r, acc)
    decreases n, 1
  {
    var nf := TagFormat(n.name, fmt);
    var pushed := if n.name == "br" || n.name == "hr/" then acc + [LineFeedSpan(fmt)] else acc;
    if n.name == "ruby" then pushed + RubySpan(n, nf)
    else if n.name != "br" then ProcessChildren(n, 0, nf, pushed)
    else pushed
  }

  /** The children of element `n` from index `i` on, each in format `fmt`. */
  function ProcessChildren(n: Node, i: nat, fmt: TextSpan, acc: seq<TextSpan>): (r: seq<TextSpan>)
    requires n.Tag? && i <= |n.children|
    ensures Extends(r, acc)
    decreases n, 0, |n.children| - i
  {
    if i == |n.children| then acc
    else
      var next := ProcessNode(n.children[i], fmt, acc);
      var r := ProcessChildren(n, i + 1, fmt, next);
      assert r[..|acc|] == r[..|next|][..|acc|];
      r
  }

  /** The loop over a `ruby` element's children: `rb` children add their
      children's spans (in the ruby element's format) to the base, raw text
      is added to the base as it is, and each `rt` replaces the reading with
      its children's concatenated text. Everything else is ignored. */
  function RubyCollect(n: Node, i: nat, nf: TextSpan, base: seq<TextSpan>, reading: Option<string>)
    : (res: (seq<TextSpan>, Option<string>))
    requires n.Tag? && i <= |n.children|
    ensures Extends(res.0, base)
    decreases n, 0, |n.children| - i
  {
    if i == |n.children| then (base, reading)
    else
      var child := n.children[i];
      var res := match child
        case Tag(childName, _) =>
          if childName == "rb" then RubyCollect(n, i + 1, nf, base + ProcessChildren(child, 0, nf, []), reading)
          else if childName == "rt" then RubyCollect(n, i + 1, nf, base, Some(Texts(ProcessChildren(child, 0, nf, []))))
          else RubyCollect(n, i + 1, nf, base, reading)
        case Raw(txt) => RubyCollect(n, i + 1, nf, base + [nf.(text := txt)], reading)
        case Comment(_) => RubyCollect(n, i + 1, nf, base, reading);
      assert Extends(res.0, base) by {
        if child.Tag? && child.name == "rb" {
          assert res.0[..|base|] == res.0[..|base + ProcessChildren(child, 0, nf, [])|][..|base|];
        } else if child.Raw? {
          assert res.0[..|base|] == res.0[..|base| + 1][..|base|];
        }
      }
      res
  }

  /** The span a `ruby` element emits: none without base spans, else one
      ruby base span holding the base text and the reading. */
  function RubySpan(n: Node, nf: TextSpan): (r: seq<TextSpan>)
    requires n.Tag?
    ensures |r| <= 1
    decreases n, 0, |n.children| + 1
  {
    var (base, reading) := RubyCollect(n, 0, nf, [], None);
    if |base| > 0 then
      [TextSpan(Texts(base), false, nf.isBold, nf.isItalic, true, reading, false)]
    else []
  }

  /** `parse_html_to_spans` after the tree is built: the top-level nodes in
      order, each starting from the default format. */
  function ParseHtmlToSpans(roots: seq<Node>): (r: seq<TextSpan>)
    ensures NoMarkers(r)
  {
    if |roots| == 0 then []
    else
      var before := ParseHtmlToSpans(roots[..|roots| - 1]);
      var r := ProcessNode(roots[|roots| - 1], Default, before);
      NodeInherits(roots[|roots| - 1], Default, before);
      assert NoMarkers(r) by {
        forall k | 0 <= k < |r|
          ensures !r[k].isNewline
        {
          if k < |before| {
            assert r[k] == r[..|before|][k];
          }
        }
      }
      r
  }

  // ---------------------------------------------------------------------
  // Properties
  // ---------------------------------------------------------------------

  /** A span carries every style flag of `fmt` and is a marker only if `fmt` is. */
  predicate Inherits(s: TextSpan, fmt: TextSpan) {
    && (fmt.isBold ==> s.isBold)
    && (fmt.isItalic ==> s.isItalic)
    && (fmt.isRubyBase ==> s.isRubyBase)
    && (s.isNewline ==> fmt.isNewline)
  }

  /** Every span appended after `acc` inherits `fmt`. */
  ghost predicate AddedInherit(r: seq<TextSpan>, acc: seq<TextSpan>, fmt: TextSpan)
    requires |acc| <= |r|
  {
    forall k :: |acc| <= k < |r| ==> Inherits(r[k], fmt)
  }

  lemma {:induction false} NodeInherits(n: Node, fmt: TextSpan, acc: seq<TextSpan>)
    ensures AddedInherit(ProcessNode(n, fmt, acc), acc, fmt)
    decreases n, 2
  {
    if n.Tag? {
      BodyInherits(n, fmt, acc);
    }
  }

  lemma {:induction false} BodyInherits(n: Node, fmt: TextSpan, acc: seq<TextSpan>)
    requires n.Tag?
    ensures AddedInherit(ElementBody(n, fmt, acc), acc, fmt)
    decreases n, 1
  {
    var nf := TagFormat(n.name, fmt);
    var pushed := if n.name == "br" || n.name == "hr/" then acc + [LineFeedSpan(fmt)] else acc;
    var r := ElementBody(n, fmt, acc);
    if n.name != "ruby" && n.name != "br" {
      ChildrenInherit(n, 0, nf, pushed);
      forall k | |acc| <= k < |r|
        ensures Inherits(r[k], fmt)
      {
        if k < |pushed| {
          assert r[k] == r[..|pushed|][k];
        }
      }
    }
  }

  lemma {:induction false} ChildrenInherit(n: Node, i: nat, fmt: TextSpan, acc: seq<TextSpan>)
    requires n.Tag? && i <= |n.children|
    ensures AddedInherit(ProcessChildren(n, i, fmt, acc), acc, fmt)
    decreases n, 0, |n.children| - i
  {
    if i < |n.children| {
      var next := ProcessNode(n.children[i], fmt, acc);
      var r := ProcessChildren(n, i + 1, fmt, next);
      NodeInherits(n.children[i], fmt, acc);
      ChildrenInherit(n, i + 1, fmt, next);
      forall k | |acc| <= k < |r|
        ensures Inherits(r[k], fmt)
      {
        if k < |next| {
          assert r[k] == r[..|next|][k];
        }
      }
    }
  }

  /** Raw text yields one span in the inherited format unless it is all
      whitespace; comments yield nothing. */
  lemma TextAndCommentNodes(txt: string, body: string, fmt: TextSpan, acc: seq<TextSpan>)
    ensures ProcessNode(Raw(txt), fmt, acc) == if AllWhitespace(txt) then acc else acc + [fmt.(text := txt)]
    ensures ProcessNode(Comment(body), fmt, acc) == acc
  {
    TrimEmptyIff(txt);
  }

  /** `br` emits one line feed span in the parent's format and ignores its
      children, whatever they are. */
  lemma BreakIgnoresChildren(children: seq<Node>, fmt: TextSpan, acc: seq<TextSpan>)
    ensures ProcessNode(Tag("br", children), fmt, acc) == acc + [fmt.(text := "\n")]
  {
    assert !IsBlock("br");
  }

  /** `b` and `i` make every span inside them bold or italic; a heading makes
      every span bold except the line feed it may append in the parent's
      format. */
  lemma StyleElements(n: Node, fmt: TextSpan, acc: seq<TextSpan>)
    requires n.Tag?
    ensures var r := ProcessNode(n, fmt, acc);
            && (n.name == "b" ==> forall k :: |acc| <= k < |r| ==> r[k].isBold)
            && (n.name == "i" ==> forall k :: |acc| <= k < |r| ==> r[k].isItalic)
            && (IsHeading(n.name) ==> forall k :: |acc| <= k < |r| - 1 ==> r[k].isBold)
  {
    var nf := TagFormat(n.name, fmt);
    if n.name == "b" || n.name == "i" || IsHeading(n.name) {
      ChildrenInherit(n, 0, nf, acc);
      var inner := ElementBody(n, fmt, acc);
      var r := ProcessNode(n, fmt, acc);
      assert r[..|inner|] == inner;
      forall k | |acc| <= k < |inner|
        ensures r[k] == inner[k]
      {
        assert r[k] == r[..|inner|][k];
      }
    }
  }

  /** A block element's output ends with a line feed span; the element adds
      one (in the parent's format) only when its content does not already
      end with one. */
  lemma BlockLineFeed(n: Node, fmt: TextSpan, acc: seq<TextSpan>)
    requires n.Tag? && IsBlock(n.name)
    ensures var inner := ElementBody(n, fmt, acc);
            var r := ProcessNode(n, fmt, acc);
            && EndsWithLineFeed(r)
            && Extends(r, inner)
            && |r| <= |inner| + 1
            && (|r| > |inner| <==> !EndsWithLineFeed(inner))
            && (|r| > |inner| ==> r[|r| - 1] == LineFeedSpan(fmt))
  {
    var inner := ElementBody(n, fmt, acc);
    assert (inner + [LineFeedSpan(fmt)])[..|inner|] == inner;
  }

  // The base and reading of a `ruby` element, defined child by child.

  /** The base spans the children from index `i` on contribute. */
  function BaseSpans(n: Node, i: nat, nf: TextSpan): seq<TextSpan>
    requires n.Tag? && i <= |n.children|
    decreases n, 0, |n.children| - i
  {
    if i == |n.children| then [] else OwnBase(n.children[i], nf) + BaseSpans(n, i + 1, nf)
  }

  /** What one child of a `ruby` element adds to its base: the spans of an
      `rb` element's children, or raw text as it is. */
  function OwnBase(child: Node, nf: TextSpan): seq<TextSpan> {
    match child
    case Tag(childName, _) => if childName == "rb" then ProcessChildren(child, 0, nf, []) else []
    case Raw(txt) => [nf.(text := txt)]
    case Comment(_) => []
  }

  /** The reading after one child of a `ruby` element: an `rt` element's text
      replaces it. */
  function NextReading(child: Node, nf: TextSpan, reading: Option<string>): Option<string> {
    if child.Tag? && child.name == "rt" then Some(Texts(ProcessChildren(child, 0, nf, []))) else reading
  }

  /** The reading of the last `rt` among the children with index in `[i, j)`. */
  function LastReading(n: Node, i: nat, j: nat, nf: TextSpan): Option<string>
    requires n.Tag? && i <= j <= |n.children|
    decreases n, 0, j - i
  {
    if j == i then None
    else
      var child := n.children[j - 1];
      if child.Tag? && child.name == "rt" then Some(Texts(ProcessChildren(child, 0, nf, [])))
      else LastReading(n, i, j - 1, nf)
  }

  /** Scanning from the front: the last reading in `[i, j)` is the one in
      `[i + 1, j)` if there is one, else that of child `i`. */
  lemma {:induction false} LastReadingFront(n: Node, i: nat, j: nat, nf: TextSpan)
    requires n.Tag? && i < j <= |n.children|
    ensures var child := n.children[i];
            LastReading(n, i, j, nf)
            == if LastReading(n, i + 1, j, nf).Some? then LastReading(n, i + 1, j, nf)
               else if child.Tag? && child.name == "rt" then Some(Texts(ProcessChildren(child, 0, nf, [])))
               else None
    decreases j - i
  {
    if j > i + 1 {
      var last := n.children[j - 1];
      if !(last.Tag? && last.name == "rt") {
        LastReadingFront(n, i, j - 1, nf);
      }
    }
  }

  /** One turn of the collecting loop, by kind of child. */
  lemma RubyCollectStep(n: Node, i: nat, nf: TextSpan, base: seq<TextSpan>, reading: Option<string>)
    requires n.Tag? && i < |n.children|
    ensures var child := n.children[i];
            RubyCollect(n, i, nf, base, reading)
            == if child.Tag? && child.name == "rb" then RubyCollect(n, i + 1, nf, base + ProcessChildren(child, 0, nf, []), reading)
               else if child.Tag? && child.name == "rt" then RubyCollect(n, i + 1, nf, base, Some(Texts(ProcessChildren(child, 0, nf, []))))
               else if child.Raw? then RubyCollect(n, i + 1, nf, base + [nf.(text := child.text)], reading)
               else RubyCollect(n, i + 1, nf, base, reading)
  {
  }

  /** One turn of the collecting loop, as far as the base goes. */
  lemma RubyCollectBaseStep(n: Node, i: nat, nf: TextSpan, base: seq<TextSpan>, reading: Option<string>)
    requires n.Tag? && i < |n.children|
    ensures var child := n.children[i];
            RubyCollect(n, i, nf, base, reading).0
            == RubyCollect(n, i + 1, nf, base + OwnBase(child, nf), NextReading(child, nf, reading)).0
  {
    RubyCollectStep(n, i, nf, base, reading);
    var child := n.children[i];
    if !(child.Tag? && child.name == "rb") && !child.Raw? {
      assert base + OwnBase(child, nf) == base;
    }
  }

  /** The collecting loop gathers exactly the base spans of the remaining
      children after `base`. */
  lemma {:induction false} RubyCollectBase(n: Node, i: nat, nf: TextSpan, base: seq<TextSpan>, reading: Option<string>)
    requires n.Tag? && i <= |n.children|
    ensures RubyCollect(n, i, nf, base, reading).0 == base + BaseSpans(n, i, nf)
    decreases |n.children| - i
  {
    if i == |n.children| {
      assert base + [] == base;
    } else {
      var child := n.children[i];
      var own := OwnBase(child, nf);
      RubyCollectBaseStep(n, i, nf, base, reading);
      RubyCollectBase(n, i + 1, nf, base + own, NextReading(child, nf, reading));
      assert (base + own) + BaseSpans(n, i + 1, nf) == base + (own + BaseSpans(n, i + 1, nf));
    }
  }

  /** The collecting loop ends with the last remaining reading, or with the
      one it started with when no `rt` child remains. */
  lemma {:induction false} RubyCollectReading(n: Node, i: nat, nf: TextSpan, base: seq<TextSpan>, reading: Option<string>)
    requires n.Tag? && i <= |n.children|
    ensures RubyCollect(n, i, nf, base, reading).1
         == if LastReading(n, i, |n.children|, nf).Some? then LastReading(n, i, |n.children|, nf) else reading
    decreases |n.children| - i
  {
    if i < |n.children| {
      var child := n.children[i];
      RubyCollectStep(n, i, nf, base, reading);
      LastReadingFront(n, i, |n.children|, nf);
      if child.Tag? && child.name == "rb" {
        RubyCollectReading(n, i + 1, nf, base + ProcessChildren(child, 0, nf, []), reading);
      } else if child.Tag? && child.name == "rt" {
        RubyCollectReading(n, i + 1, nf, base, Some(Texts(ProcessChildren(child, 0, nf, []))));
      } else if child.Raw? {
        RubyCollectReading(n, i + 1, nf, base + [nf.(text := child.text)], reading);
      } else {
        RubyCollectReading(n, i + 1, nf, base, reading);
      }
    }
  }

  /** A `ruby` element emits at most one span: none when its children give
      no base spans, otherwise a ruby base span in the parent's bold and
      italic whose text is the base spans' texts and whose reading is that
      of the last `rt` child. No line feed follows it. */
  lemma RubyElement(children: seq<Node>, fmt: TextSpan, acc: seq<TextSpan>)
    ensures var n := Tag("ruby", children);
            var base := BaseSpans(n, 0, fmt);
            ProcessNode(n, fmt, acc)
            == acc + if |base| == 0 then []
                     else [TextSpan(Texts(base), false, fmt.isBold, fmt.isItalic, true, LastReading(n, 0, |children|, fmt), false)]
  {
    var n := Tag("ruby", children);
    RubyCollectBase(n, 0, fmt, [], None);
    RubyCollectReading(n, 0, fmt, [], None);
    assert [] + BaseSpans(n, 0, fmt) == BaseSpans(n, 0, fmt);
    assert !IsBlock("ruby") && !IsHeading("ruby");
    assert TagFormat("ruby", fmt) == fmt;
    assert ElementBody(n, fmt, acc) == acc + RubySpan(n, fmt);
    assert ProcessNode(n, fmt, acc) == ElementBody(n, fmt, acc);
  }

  /** The roots are processed in order: the output for a prefix of the roots
      is a prefix of the output for all of them. */
  lemma {:induction false} RootsInOrder(roots: seq<Node>, k: nat)
    requires k <= |roots|
    ensures Extends(ParseHtmlToSpans(roots), ParseHtmlToSpans(roots[..k]))
    decreases |roots|
  {
    if k < |roots| {
      var front := roots[..|roots| - 1];
      RootsInOrder(front, k);
      assert front[..k] == roots[..k];
      var a, b, c := ParseHtmlToSpans(roots[..k]), ParseHtmlToSpans(front), ParseHtmlToSpans(roots);
      assert c[..|a|] == c[..|b|][..|a|];
    } else {
      assert roots[..k] == roots;
    }
  }
}
