/** `html_to_text` and `extract_text` of src/html.rs: the plain text of a
    markup tree, with a line feed after each `br` and `p` element. */
module HtmlText {
  import opened Split
  import opened Span
  import opened HtmlTree

  /** What the `tl` parser hands back: failure, or the document's nodes in
      document order (so the first one is the first top-level node). */
  datatype ParseOutcome = ParseFailed | Parsed(nodes: seq<Node>)

  predicate BreaksLine(name: string) {
    name == "br" || name == "p"
  }

  /** `extract_text`: children first, in order, then the element's own line
      feed; raw text as it is; anything else adds nothing. Apart from line
      feeds the text is the raw texts in document order, with one line feed
      more than they hold for each `br` or `p`, and a `br` or `p` element's
      own line feed comes after everything its children give. */
  function ExtractText(n: Node): (r: string)
    ensures |r| == |RawText(n)| + Breaks(n)
    ensures Strip(r, IsLineFeed) == Strip(RawText(n), IsLineFeed)
    ensures Count(r, IsLineFeed) == Count(RawText(n), IsLineFeed) + Breaks(n)
    ensures n.Tag? && BreaksLine(n.name) ==> |r| > 0 && r[|r| - 1] == '\n'
    ensures n.Tag? ==> ExtractChildren(n, 0) <= r
    decreases n, 1
  {
    match n
    case Tag(name, _) =>
      var inner := ExtractChildren(n, 0);
      var own := if BreaksLine(name) then "\n" else "";
      StripAppend(inner, own, IsLineFeed);
      CountAppend(inner, own, IsLineFeed);
      assert Strip(own, IsLineFeed) == [];
      inner + own
    case Raw(txt) => txt
    case Comment(_) => ""
  }

  /** The same for the children of `n` from index `i` on. */
  function ExtractChildren(n: Node, i: nat): (r: string)
    requires n.Tag? && i <= |n.children|
    ensures |r| == |RawTextFrom(n, i)| + BreaksFrom(n, i)
    ensures Strip(r, IsLineFeed) == Strip(RawTextFrom(n, i), IsLineFeed)
    ensures Count(r, IsLineFeed) == Count(RawTextFrom(n, i), IsLineFeed) + BreaksFrom(n, i)
    decreases n, 0, |n.children| - i
  {
    if i == |n.children| then ""
    else
      var c := n.children[i];
      var head := ExtractText(c);
      var tail := ExtractChildren(n, i + 1);
      StripAppend(head, tail, IsLineFeed);
      CountAppend(head, tail, IsLineFeed);
      StripAppend(RawText(c), RawTextFrom(n, i + 1), IsLineFeed);
      CountAppend(RawText(c), RawTextFrom(n, i + 1), IsLineFeed);
      head + tail
  }

  /** The texts of the children, each as one block, in document order. */
  function ChildTexts(n: Node, i: nat): seq<string>
    requires n.Tag? && i <= |n.children|
  {
    seq(|n.children| - i, k requires 0 <= k < |n.children| - i => ExtractText(n.children[i + k]))
  }

  /** The children's text is their texts glued together in order: no child's
      text is split up or moved past a sibling's. */
  lemma {:induction false} ChildrenInOrder(n: Node, i: nat)
    requires n.Tag? && i <= |n.children|
    ensures ExtractChildren(n, i) == Concat(ChildTexts(n, i))
    decreases |n.children| - i
  {
    var ts := ChildTexts(n, i);
    if i < |n.children| {
      var rest := ChildTexts(n, i + 1);
      assert ts[0] == ExtractText(n.children[i]);
      assert |ts[1..]| == |rest|;
      forall k | 0 <= k < |rest| ensures ts[1..][k] == rest[k] {
        assert ts[1..][k] == ts[k + 1];
      }
      assert ts[1..] == rest;
      ChildrenInOrder(n, i + 1);
      assert Concat(ts) == ts[0] + Concat(ts[1..]);
    } else {
      assert ts == [];
    }
  }

  /** `html_to_text`: the input itself when parsing fails, else the text of
      the first node (empty for an empty document). */
  function HtmlToText(parsed: ParseOutcome, input: string): (r: string)
    ensures parsed.ParseFailed? ==> r == input
    ensures parsed.Parsed? && |parsed.nodes| == 0 ==> r == ""
    ensures parsed.Parsed? && |parsed.nodes| > 0 ==>
              && |r| == |RawText(parsed.nodes[0])| + Breaks(parsed.nodes[0])
              && Strip(r, IsLineFeed) == Strip(RawText(parsed.nodes[0]), IsLineFeed)
              && Count(r, IsLineFeed) == Count(RawText(parsed.nodes[0]), IsLineFeed) + Breaks(parsed.nodes[0])
    ensures parsed.Parsed? && |parsed.nodes| > 0 && parsed.nodes[0].Tag? ==>
              && ExtractChildren(parsed.nodes[0], 0) <= r
              && (BreaksLine(parsed.nodes[0].name) ==> |r| > 0 && r[|r| - 1] == '\n')
  {
    match parsed
    case ParseFailed => input
    case Parsed(nodes) =>
      if |nodes| == 0 then ""
      else
        ExtractText(nodes[0])
  }

  // Reference definitions: the raw texts in document order, and the number
  // of line-breaking elements.

  function RawText(n: Node): string
    decreases n, 1
  {
    match n
    case Tag(_, _) => RawTextFrom(n, 0)
    case Raw(txt) => txt
    case Comment(_) => ""
  }

  function RawTextFrom(n: Node, i: nat): string
    requires n.Tag? && i <= |n.children|
    decreases n, 0, |n.children| - i
  {
    if i == |n.children| then "" else RawText(n.children[i]) + RawTextFrom(n, i + 1)
  }

  function Breaks(n: Node): nat
    decreases n, 1
  {
    match n
    case Tag(name, _) => BreaksFrom(n, 0) + (if BreaksLine(name) then 1 else 0)
    case _ => 0
  }

  function BreaksFrom(n: Node, i: nat): nat
    requires n.Tag? && i <= |n.children|
    decreases n, 0, |n.children| - i
  {
    if i == |n.children| then 0 else Breaks(n.children[i]) + BreaksFrom(n, i + 1)
  }

  /** Without `br` and `p` elements the text is exactly the raw texts in
      document order. */
  lemma {:induction false} ExtractWithoutBreaks(n: Node)
    requires Breaks(n) == 0
    ensures ExtractText(n) == RawText(n)
    decreases n, 1
  {
    if n.Tag? {
      ExtractChildrenWithoutBreaks(n, 0);
      assert ExtractChildren(n, 0) + "" == ExtractChildren(n, 0);
    }
  }

  lemma {:induction false} ExtractChildrenWithoutBreaks(n: Node, i: nat)
    requires n.Tag? && i <= |n.children|
    requires BreaksFrom(n, i) == 0
    ensures ExtractChildren(n, i) == RawTextFrom(n, i)
    decreases n, 0, |n.children| - i
  {
    if i < |n.children| {
      ExtractWithoutBreaks(n.children[i]);
      ExtractChildrenWithoutBreaks(n, i + 1);
    }
  }

  /** Only the first node is walked: the nodes after it never matter. */
  lemma FirstNodeOnly(nodes: seq<Node>, more: seq<Node>, input: string)
    requires |nodes| > 0
    ensures HtmlToText(Parsed(nodes + more), input) == HtmlToText(Parsed(nodes[..1]), input)
  {
    assert (nodes + more)[0] == nodes[..1][0];
  }
}
