/** The editor's document as a tree of DOM nodes: text nodes and elements.
    An element carries its node name (upper case, as the DOM reports it),
    its `data-style` and `data-value` attributes, and its children in order. */
module Dom {

  datatype Option<T> = None | Some(value: T)

  datatype Node =
    | Text(text: string)
    | Elem(tag: string, style: Option<string>, value: Option<string>, children: seq<Node>)

  /** Node name of the elements the editor creates and strips. */
  const SpanTag: string := "SPAN"
  /** Node name of a line break. */
  const BrTag: string := "BR"

  predicate IsSpan(n: Node) {
    n.Elem? && n.tag == SpanTag
  }

  /** Number of `span` elements at any depth of a node sequence. */
  function Spans(xs: seq<Node>): nat
    decreases xs
  {
    if xs == [] then 0 else NodeSpans(xs[0]) + Spans(xs[1..])
  }

  function NodeSpans(n: Node): nat
    decreases n
  {
    match n
    case Text(_) => 0
    case Elem(tag, _, _, kids) => (if tag == SpanTag then 1 else 0) + Spans(kids)
  }

  /** The DOM's `textContent`: the text of every text node, in document order. */
  function TextContent(xs: seq<Node>): string
    decreases xs
  {
    if xs == [] then "" else NodeText(xs[0]) + TextContent(xs[1..])
  }

  function NodeText(n: Node): string
    decreases n
  {
    match n
    case Text(s) => s
    case Elem(_, _, _, kids) => TextContent(kids)
  }

  /** One entry of a document-order walk that skips `span` elements:
      a text node, or the start or end of any other element. */
  datatype Mark =
    | Leaf(text: string)
    | Start(tag: string, style: Option<string>, value: Option<string>)
    | End

  /** Every node other than a `span`, in document order, with the
      boundaries of the non-span elements; `span`s contribute only their
      contents. */
  function Outline(xs: seq<Node>): seq<Mark>
    decreases xs
  {
    if xs == [] then [] else NodeOutline(xs[0]) + Outline(xs[1..])
  }

  function NodeOutline(n: Node): seq<Mark>
    decreases n
  {
    match n
    case Text(s) => [Leaf(s)]
    case Elem(tag, st, v, kids) =>
      if tag == SpanTag then Outline(kids)
      else [Start(tag, st, v)] + Outline(kids) + [End]
  }

  lemma {:induction false} SpansConcat(a: seq<Node>, b: seq<Node>)
    ensures Spans(a + b) == Spans(a) + Spans(b)
    decreases a
  {
    if a == [] {
      assert a + b == b;
    } else {
      assert (a + b)[1..] == a[1..] + b;
      SpansConcat(a[1..], b);
    }
  }

  lemma {:induction false} TextContentConcat(a: seq<Node>, b: seq<Node>)
    ensures TextContent(a + b) == TextContent(a) + TextContent(b)
    decreases a
  {
    if a == [] {
      assert a + b == b;
    } else {
      assert (a + b)[1..] == a[1..] + b;
      TextContentConcat(a[1..], b);
    }
  }

  lemma {:induction false} OutlineConcat(a: seq<Node>, b: seq<Node>)
    ensures Outline(a + b) == Outline(a) + Outline(b)
    decreases a
  {
    if a == [] {
      assert a + b == b;
    } else {
      assert (a + b)[1..] == a[1..] + b;
      OutlineConcat(a[1..], b);
    }
  }
}
