/** The tree edit behind the style buttons: every `span` inside the selected
    fragment is replaced by its own children, then the flattened fragment is
    wrapped in one new `span` carrying the requested `data-style` and
    `data-value`. */
module Restyle {
  import opened Dom

  /** The fragment with every `span`, at any depth, replaced by its children;
      all other nodes stay, in order, with their own contents flattened. */
  function Flatten(xs: seq<Node>): seq<Node>
    decreases xs
  {
    if xs == [] then [] else FlattenNode(xs[0]) + Flatten(xs[1..])
  }

  function FlattenNode(n: Node): seq<Node>
    decreases n
  {
    match n
    case Text(_) => [n]
    case Elem(tag, st, v, kids) =>
      if tag == SpanTag then Flatten(kids) else [Elem(tag, st, v, Flatten(kids))]
  }

  /** One step of the stripping loop: the first `span` in document order is
      replaced by its children. */
  function UnwrapFirst(xs: seq<Node>): seq<Node>
    requires Spans(xs) > 0
    decreases xs
  {
    if NodeSpans(xs[0]) > 0 then UnwrapFirstNode(xs[0]) + xs[1..]
    else [xs[0]] + UnwrapFirst(xs[1..])
  }

  function UnwrapFirstNode(n: Node): seq<Node>
    requires NodeSpans(n) > 0
    decreases n
  {
    match n
    case Elem(tag, st, v, kids) =>
      if tag == SpanTag then kids else [Elem(tag, st, v, UnwrapFirst(kids))]
  }

  lemma {:induction false} FlattenConcat(a: seq<Node>, b: seq<Node>)
    ensures Flatten(a + b) == Flatten(a) + Flatten(b)
    decreases a
  {
    if a == [] {
      assert a + b == b;
    } else {
      assert (a + b)[1..] == a[1..] + b;
      FlattenConcat(a[1..], b);
    }
  }

  /** No `span` survives flattening. */
  lemma {:induction false} FlattenLeavesNoSpans(xs: seq<Node>)
    ensures Spans(Flatten(xs)) == 0
    decreases xs
  {
    if xs != [] {
      FlattenNodeLeavesNoSpans(xs[0]);
      FlattenLeavesNoSpans(xs[1..]);
      SpansConcat(FlattenNode(xs[0]), Flatten(xs[1..]));
    }
  }

  lemma {:induction false} FlattenNodeLeavesNoSpans(n: Node)
    ensures Spans(FlattenNode(n)) == 0
    decreases n
  {
    match n
    case Text(_) =>
      assert [n][1..] == [];
    case Elem(tag, st, v, kids) =>
      FlattenLeavesNoSpans(kids);
      if tag != SpanTag {
        var e := Elem(tag, st, v, Flatten(kids));
        assert [e][1..] == [];
        assert Spans([e]) == NodeSpans(e) + Spans([]);
      }
  }

  /** A fragment without spans is left exactly as it is. */
  lemma {:induction false} FlattenNoSpansUnchanged(xs: seq<Node>)
    requires Spans(xs) == 0
    ensures Flatten(xs) == xs
    decreases xs
  {
    if xs != [] {
      FlattenNoSpansUnchanged(xs[1..]);
      match xs[0]
      case Text(_) =>
      case Elem(tag, st, v, kids) =>
        FlattenNoSpansUnchanged(kids);
      assert xs == [xs[0]] + xs[1..];
    }
  }

  lemma FlattenIdempotent(xs: seq<Node>)
    ensures Flatten(Flatten(xs)) == Flatten(xs)
  {
    FlattenLeavesNoSpans(xs);
    FlattenNoSpansUnchanged(Flatten(xs));
  }

  /** Flattening keeps every text node and every non-span element, in
      document order and with its nesting. */
  lemma {:induction false} FlattenKeepsOutline(xs: seq<Node>)
    ensures Outline(Flatten(xs)) == Outline(xs)
    decreases xs
  {
    if xs != [] {
      FlattenNodeKeepsOutline(xs[0]);
      FlattenKeepsOutline(xs[1..]);
      OutlineConcat(FlattenNode(xs[0]), Flatten(xs[1..]));
    }
  }

  lemma {:induction false} FlattenNodeKeepsOutline(n: Node)
    ensures Outline(FlattenNode(n)) == NodeOutline(n)
    decreases n
  {
    match n
    case Text(_) =>
      assert [n][1..] == [];
    case Elem(tag, st, v, kids) =>
      FlattenKeepsOutline(kids);
      var e := Elem(tag, st, v, Flatten(kids));
      assert [e][1..] == [];
  }

  /** Flattening keeps the text content. */
  lemma {:induction false} FlattenKeepsText(xs: seq<Node>)
    ensures TextContent(Flatten(xs)) == TextContent(xs)
    decreases xs
  {
    if xs != [] {
      FlattenNodeKeepsText(xs[0]);
      FlattenKeepsText(xs[1..]);
      TextContentConcat(FlattenNode(xs[0]), Flatten(xs[1..]));
    }
  }

  lemma {:induction false} FlattenNodeKeepsText(n: Node)
    ensures TextContent(FlattenNode(n)) == NodeText(n)
    decreases n
  {
    match n
    case Text(_) =>
      assert [n][1..] == [];
    case Elem(tag, st, v, kids) =>
      FlattenKeepsText(kids);
      var e := Elem(tag, st, v, Flatten(kids));
      assert [e][1..] == [];
  }

  /** Unwrapping the first span removes exactly one span ... */
  lemma {:induction false} UnwrapFirstCount(xs: seq<Node>)
    requires Spans(xs) > 0
    ensures Spans(UnwrapFirst(xs)) == Spans(xs) - 1
    decreases xs
  {
    if NodeSpans(xs[0]) > 0 {
      UnwrapFirstNodeCount(xs[0]);
      SpansConcat(UnwrapFirstNode(xs[0]), xs[1..]);
    } else {
      UnwrapFirstCount(xs[1..]);
      SpansConcat([xs[0]], UnwrapFirst(xs[1..]));
      assert [xs[0]][1..] == [];
    }
  }

  lemma {:induction false} UnwrapFirstNodeCount(n: Node)
    requires NodeSpans(n) > 0
    ensures Spans(UnwrapFirstNode(n)) == NodeSpans(n) - 1
    decreases n
  {
    match n
    case Elem(tag, st, v, kids) =>
      if tag != SpanTag {
        UnwrapFirstCount(kids);
        var e := Elem(tag, st, v, UnwrapFirst(kids));
        assert [e][1..] == [];
      }
  }

  /** ... and does not change what flattening produces. */
  lemma {:induction false} UnwrapFirstFlatten(xs: seq<Node>)
    requires Spans(xs) > 0
    ensures Flatten(UnwrapFirst(xs)) == Flatten(xs)
    decreases xs
  {
    if NodeSpans(xs[0]) > 0 {
      UnwrapFirstNodeFlatten(xs[0]);
      FlattenConcat(UnwrapFirstNode(xs[0]), xs[1..]);
    } else {
      UnwrapFirstFlatten(xs[1..]);
      FlattenConcat([xs[0]], UnwrapFirst(xs[1..]));
      assert [xs[0]][1..] == [];
    }
  }

  lemma {:induction false} UnwrapFirstNodeFlatten(n: Node)
    requires NodeSpans(n) > 0
    ensures Flatten(UnwrapFirstNode(n)) == FlattenNode(n)
    decreases n
  {
    match n
    case Elem(tag, st, v, kids) =>
      if tag != SpanTag {
        UnwrapFirstFlatten(kids);
        var e := Elem(tag, st, v, UnwrapFirst(kids));
        assert [e][1..] == [];
      }
  }

  /** The "remove previous styling" loop: it visits the fragment's spans in
      document order (their number fixed before the loop starts) and
      replaces each by its children. */
  method StripSpans(fragment: seq<Node>) returns (r: seq<Node>)
    ensures r == Flatten(fragment)
    ensures Spans(r) == 0
  {
    var n := Spans(fragment);
    r := fragment;
    var i := 0;
    while i < n
      invariant 0 <= i <= n
      invariant Spans(r) == n - i
      invariant Flatten(r) == Flatten(fragment)
    {
      UnwrapFirstCount(r);
      UnwrapFirstFlatten(r);
      r := UnwrapFirst(r);
      i := i + 1;
    }
    FlattenNoSpansUnchanged(r);
  }

  /** The new `span` that `data-style`/`data-value` are set on. */
  function Wrap(style: string, value: string, kids: seq<Node>): Node
  {
    Elem(SpanTag, Some(style), Some(value), kids)
  }

  /** What a style button puts in place of the selected fragment. */
  function Restyled(fragment: seq<Node>, style: string, value: string): Node
  {
    Wrap(style, value, Flatten(fragment))
  }

  /** The result is one span with the requested pair and no span beneath it. */
  lemma RestyledShape(fragment: seq<Node>, style: string, value: string)
    ensures var w := Restyled(fragment, style, value);
      IsSpan(w) && w.style == Some(style) && w.value == Some(value) &&
      Spans(w.children) == 0 && NodeSpans(w) == 1
  {
    FlattenLeavesNoSpans(fragment);
  }

  /** Restyling keeps the selected text, and every non-span node of the
      selection in its order. */
  lemma RestyledContent(fragment: seq<Node>, style: string, value: string)
    ensures NodeText(Restyled(fragment, style, value)) == TextContent(fragment)
    ensures NodeOutline(Restyled(fragment, style, value)) == Outline(fragment)
  {
    FlattenKeepsText(fragment);
    FlattenKeepsOutline(fragment);
  }

  /** Styling an already styled fragment discards the earlier style. */
  lemma LastStyleWins(fragment: seq<Node>, s1: string, v1: string, s2: string, v2: string)
    ensures Restyled([Restyled(fragment, s1, v1)], s2, v2) == Restyled(fragment, s2, v2)
  {
    var w := Restyled(fragment, s1, v1);
    assert [w][1..] == [];
    assert Flatten([w]) == Flatten(Flatten(fragment)) + Flatten([]);
    FlattenIdempotent(fragment);
  }

  lemma RestyleIdempotent(fragment: seq<Node>, style: string, value: string)
    ensures Restyled([Restyled(fragment, style, value)], style, value) == Restyled(fragment, style, value)
  {
    LastStyleWins(fragment, style, value, style, value);
  }
}
