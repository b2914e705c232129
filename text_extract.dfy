/**
  extractText over a parsed HTML document.  The document is the tree that
  html.Parse produces, taken as given: each node has a type, its data and its
  children in order (FirstChild, then NextSibling links).
 */
module TextExtract {

  /** The node types of golang.org/x/net/html. */
  datatype NodeType = ErrorNode | TextNode | DocumentNode | ElementNode | CommentNode | DoctypeNode | RawNode

  datatype HtmlNode = HtmlNode(kind: NodeType, data: string, children: seq<HtmlNode>)

  /**
    The text nodes of a document in reading order, as the sequence of their
    data: a text node stands for itself; any other node for the text nodes
    of its children, left to right.
   */
  function Texts(n: HtmlNode): seq<string>
    decreases n, 1
  {
    if n.kind == TextNode then [n.data] else TextsOf(n.children)
  }

  function TextsOf(cs: seq<HtmlNode>): seq<string>
    decreases cs, 0
  {
    if cs == [] then [] else Texts(cs[0]) + TextsOf(cs[1..])
  }

  function Concat(ss: seq<string>): string
    decreases |ss|
  {
    if ss == [] then [] else ss[0] + Concat(ss[1..])
  }

  /** The text of a document: its text nodes' data, concatenated without separators. */
  function DocText(n: HtmlNode): string {
    Concat(Texts(n))
  }

  lemma {:induction false} ConcatAppend(a: seq<string>, b: seq<string>)
    ensures Concat(a + b) == Concat(a) + Concat(b)
    decreases |a|
  {
    if a == [] {
      assert a + b == b;
    } else {
      ConcatAppend(a[1..], b);
      assert (a + b)[1..] == a[1..] + b;
      assert (a + b)[0] == a[0];
    }
  }

  lemma {:induction false} TextsOfAppend(a: seq<HtmlNode>, b: seq<HtmlNode>)
    ensures TextsOf(a + b) == TextsOf(a) + TextsOf(b)
    decreases |a|
  {
    if a == [] {
      assert a + b == b;
    } else {
      TextsOfAppend(a[1..], b);
      assert (a + b)[1..] == a[1..] + b;
      assert (a + b)[0] == a[0];
    }
  }

  /**
    extractText: a text node yields its data; any other node yields its
    children's extractions appended in order.
   */
  method ExtractText(n: HtmlNode) returns (text: string)
    ensures text == DocText(n)
    decreases n
  {
    if n.kind == TextNode {
      TextNodeYieldsData(n);
      return n.data;
    }
    text := "";
    for i := 0 to |n.children|
      invariant text == Concat(TextsOf(n.children[..i]))
    {
      var t := ExtractText(n.children[i]);
      assert n.children[..i + 1] == n.children[..i] + [n.children[i]];
      TextsOfAppend(n.children[..i], [n.children[i]]);
      assert TextsOf([n.children[i]]) == Texts(n.children[i]);
      ConcatAppend(TextsOf(n.children[..i]), Texts(n.children[i]));
      text := text + t;
    }
    assert n.children[..|n.children|] == n.children;
  }

  /** Some text node is reachable from `n` without passing through a text node. */
  predicate HasText(n: HtmlNode)
    decreases n
  {
    n.kind == TextNode || exists i :: 0 <= i < |n.children| && HasText(n.children[i])
  }

  /**
    A subtree has no text exactly when it has no text node; in particular a
    subtree without text nodes yields "".
   */
  lemma {:induction false} NoTextNodes(n: HtmlNode)
    ensures Texts(n) == [] <==> !HasText(n)
    ensures !HasText(n) ==> DocText(n) == ""
    decreases n, 1
  {
    if n.kind != TextNode {
      NoTextNodesOf(n.children);
    }
  }

  lemma {:induction false} NoTextNodesOf(cs: seq<HtmlNode>)
    ensures TextsOf(cs) == [] <==> forall i :: 0 <= i < |cs| ==> !HasText(cs[i])
    decreases cs, 0
  {
    if cs != [] {
      NoTextNodes(cs[0]);
      NoTextNodesOf(cs[1..]);
      assert forall i :: 1 <= i < |cs| ==> cs[i] == cs[1..][i - 1];
    }
  }

  /**
    The children of a non-text node contribute their text left to right:
    splitting the child list splits the extracted text at the same place.
   */
  lemma ChildrenInOrder(kind: NodeType, data: string, left: seq<HtmlNode>, right: seq<HtmlNode>)
    requires kind != TextNode
    ensures DocText(HtmlNode(kind, data, left + right)) ==
      DocText(HtmlNode(kind, data, left)) + DocText(HtmlNode(kind, data, right))
  {
    TextsOfAppend(left, right);
    ConcatAppend(TextsOf(left), TextsOf(right));
  }

  /** A text node yields exactly its data, whatever it holds below it. */
  lemma TextNodeYieldsData(n: HtmlNode)
    requires n.kind == TextNode
    ensures DocText(n) == n.data
  {
    assert Concat([n.data]) == n.data + Concat([]);
  }

  /** `<p>Hello <b>World</b></p>` as html.Parse builds it yields "Hello World". */
  lemma ExampleParagraph()
    ensures
      var b := HtmlNode(ElementNode, "b", [HtmlNode(TextNode, "World", [])]);
      var p := HtmlNode(ElementNode, "p", [HtmlNode(TextNode, "Hello ", []), b]);
      var body := HtmlNode(ElementNode, "body", [p]);
      var doc := HtmlNode(DocumentNode, "", [HtmlNode(ElementNode, "html",
        [HtmlNode(ElementNode, "head", []), body])]);
      DocText(doc) == "Hello World"
  {
    var w := HtmlNode(TextNode, "World", []);
    var h := HtmlNode(TextNode, "Hello ", []);
    var b := HtmlNode(ElementNode, "b", [w]);
    var p := HtmlNode(ElementNode, "p", [h, b]);
    assert Texts(b) == ["World"] by {
      assert TextsOf([w]) == Texts(w) + TextsOf([]);
    }
    assert Texts(p) == ["Hello ", "World"] by {
      assert TextsOf([h, b]) == Texts(h) + TextsOf([b]);
      assert TextsOf([b]) == Texts(b) + TextsOf([]);
    }
    var body := HtmlNode(ElementNode, "body", [p]);
    var head := HtmlNode(ElementNode, "head", []);
    var html := HtmlNode(ElementNode, "html", [head, body]);
    assert Texts(body) == Texts(p) by {
      assert TextsOf([p]) == Texts(p) + TextsOf([]);
    }
    assert Texts(html) == Texts(p) by {
      assert TextsOf([head, body]) == Texts(head) + TextsOf([body]);
      assert TextsOf([body]) == Texts(body) + TextsOf([]);
    }
    var doc := HtmlNode(DocumentNode, "", [html]);
    assert Texts(doc) == Texts(p) by {
      assert TextsOf([html]) == Texts(html) + TextsOf([]);
    }
    assert Concat(["Hello ", "World"]) == "Hello " + ("World" + Concat([]));
  }
}
