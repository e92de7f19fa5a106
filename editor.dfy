/** The editing session: the editable document, the style buttons that
    restyle a selection, the reset button and the export to a fenced
    `ansi` block. */
module Editing {
  import opened Dom
  import opened Restyle
  import opened Ansi

  /** The text the editor shows when the page loads. */
  const InitialText: string := "Enter Your Text Here....."
  /** The text the reset button puts in the editor. */
  const PlaceholderText: string := "Enter your text here..."

  /** The editable element itself: a `div` with no `data-style`. */
  function Root(doc: seq<Node>): Node {
    Elem("DIV", None, None, doc)
  }

  /** A selection: the top-level nodes from `start` up to, not including, `end`. */
  datatype Range = Range(start: nat, end: nat)

  predicate InDocument(r: Range, doc: seq<Node>) {
    r.start <= r.end <= |doc|
  }

  /** The document after the selected nodes are replaced by their restyled
      wrapper. */
  function Spliced(doc: seq<Node>, r: Range, style: string, value: string): seq<Node>
    requires InDocument(r, doc)
  {
    doc[..r.start] + [Restyled(doc[r.start..r.end], style, value)] + doc[r.end..]
  }

  // ---------------------------------------------------------------------
  // Fenced export

  const FenceOpen: string := "```ansi\n"
  const FenceClose: string := "\n```"

  function Fenced(text: string): string {
    FenceOpen + text + FenceClose
  }

  /** How a reader of the message recovers the payload of an `ansi` block. */
  function Unfenced(message: string): Option<string> {
    if |message| >= |FenceOpen| + |FenceClose|
       && message[..|FenceOpen|] == FenceOpen
       && message[|message| - |FenceClose|..] == FenceClose
    then Some(message[|FenceOpen|..|message| - |FenceClose|])
    else None
  }

  lemma FenceRoundTrip(text: string)
    ensures Unfenced(Fenced(text)) == Some(text)
  {
  }

  /** The root element adds nothing of its own to the export. */
  lemma RootSerializesToContent(doc: seq<Node>)
    ensures SerializeNode(Root(doc)) == Serialize(doc)
  {
  }

  // ---------------------------------------------------------------------
  // The session

  class Editor {
    var doc: seq<Node>

    /** Only `span`s carry styles: true of every document the page's own
        operations produce. A restyle of whole top-level nodes of such a
        document replaces the earlier styles of the selection
        (`RestyleReplacesStyles`). */
    ghost predicate Valid()
      reads this
    {
      StylesOnSpans(doc)
    }

    constructor ()
      ensures doc == [Text(InitialText)]
      ensures Valid()
    {
      doc := [Text(InitialText)];
    }

    /** A style button or colour swatch: with no selection nothing happens;
        otherwise the selected nodes, with all their spans unwrapped, are
        replaced by one new span carrying `style` and `value`. A collapsed
        selection inserts an empty span. */
    method ApplyStyle(selection: Option<Range>, style: string, value: string)
      requires selection.Some? ==> InDocument(selection.value, doc)
      modifies this
      ensures selection.None? ==> doc == old(doc)
      ensures selection.Some? ==> doc == Spliced(old(doc), selection.value, style, value)
      ensures old(Valid()) ==> Valid()
      ensures old(Valid()) && selection.Some? ==>
        var r := selection.value;
        var code := SgrCode(Some(style), Some(value));
        var plain := Plain(Pieces(old(doc)[r.start..r.end]));
        NodePieces(doc[r.start]) == if code.Some? then [Open(code.value)] + plain + [Close] else plain
    {
      if selection.None? {
        return;
      }
      var r := selection.value;
      ghost var before := doc;
      var fragment := StripSpans(doc[r.start..r.end]);
      var span := Wrap(style, value, fragment);
      doc := doc[..r.start] + [span] + doc[r.end..];
      if StylesOnSpans(before) {
        SplicedKeepsStylesOnSpans(before, r, style, value);
        SliceStylesOnSpans(before, r.start, r.end);
        RestyleReplacesStyles(before[r.start..r.end], style, value);
      }
    }

    method Reset()
      modifies this
      ensures doc == [Text(PlaceholderText)]
      ensures Valid()
    {
      doc := [Text(PlaceholderText)];
    }

    /** The text put on the clipboard. */
    method Export() returns (message: string)
      ensures message == Fenced(Serialize(doc))
      ensures Unfenced(message) == Some(Serialize(doc))
    {
      var ansi := SerializeNode(Root(doc));
      RootSerializesToContent(doc);
      message := FenceOpen + ansi + FenceClose;
      FenceRoundTrip(ansi);
    }
  }

  // ---------------------------------------------------------------------
  // Properties of a restyle inside the whole document

  /** Only the selection changes: the nodes before and after it stay, and
      the selection becomes one node. */
  lemma SplicedFrame(doc: seq<Node>, r: Range, style: string, value: string)
    requires InDocument(r, doc)
    ensures var d := Spliced(doc, r, style, value);
      |d| == |doc| - (r.end - r.start) + 1 &&
      d[..r.start] == doc[..r.start] &&
      d[r.start] == Restyled(doc[r.start..r.end], style, value) &&
      d[r.start + 1..] == doc[r.end..]
  {
  }

  /** Restyling never changes the document's text. */
  lemma SplicedKeepsText(doc: seq<Node>, r: Range, style: string, value: string)
    requires InDocument(r, doc)
    ensures TextContent(Spliced(doc, r, style, value)) == TextContent(doc)
  {
    var w := Restyled(doc[r.start..r.end], style, value);
    RestyledContent(doc[r.start..r.end], style, value);
    assert [w][1..] == [];
    TextContentConcat(doc[..r.start] + [w], doc[r.end..]);
    TextContentConcat(doc[..r.start], [w]);
    assert doc == doc[..r.start] + doc[r.start..r.end] + doc[r.end..];
    TextContentConcat(doc[..r.start] + doc[r.start..r.end], doc[r.end..]);
    TextContentConcat(doc[..r.start], doc[r.start..r.end]);
  }

  /** The export of the restyled document is the export of the untouched
      nodes around the export of the new wrapper. */
  lemma SplicedSerialize(doc: seq<Node>, r: Range, style: string, value: string)
    requires InDocument(r, doc)
    ensures Serialize(Spliced(doc, r, style, value))
      == Serialize(doc[..r.start]) + SerializeNode(Restyled(doc[r.start..r.end], style, value)) + Serialize(doc[r.end..])
  {
    var w := Restyled(doc[r.start..r.end], style, value);
    assert [w][1..] == [];
    SerializeConcat(doc[..r.start] + [w], doc[r.end..]);
    SerializeConcat(doc[..r.start], [w]);
  }

  /** Restyling the wrapper just produced is the same as restyling the
      original selection directly. */
  lemma RestyleAgainWins(doc: seq<Node>, r: Range, s1: string, v1: string, s2: string, v2: string)
    requires InDocument(r, doc)
    ensures InDocument(Range(r.start, r.start + 1), Spliced(doc, r, s1, v1))
    ensures Spliced(Spliced(doc, r, s1, v1), Range(r.start, r.start + 1), s2, v2) == Spliced(doc, r, s2, v2)
  {
    var d := Spliced(doc, r, s1, v1);
    var w := Restyled(doc[r.start..r.end], s1, v1);
    assert d[r.start..r.start + 1] == [w];
    assert d[..r.start] == doc[..r.start];
    assert d[r.start + 1..] == doc[r.end..];
    LastStyleWins(doc[r.start..r.end], s1, v1, s2, v2);
  }

  // ---------------------------------------------------------------------
  // Restyling whole top-level nodes replaces their earlier styles

  /** Every element that selects an escape code is a `span` (or a line
      break, whose code is never written): what the editor's own operations
      produce. */
  predicate StylesOnSpans(xs: seq<Node>)
    decreases xs
  {
    xs == [] || (NodeStylesOnSpans(xs[0]) && StylesOnSpans(xs[1..]))
  }

  predicate NodeStylesOnSpans(n: Node)
    decreases n
  {
    match n
    case Text(_) => true
    case Elem(tag, st, v, kids) =>
      (tag == SpanTag || tag == BrTag || SgrCode(st, v).None?) && StylesOnSpans(kids)
  }

  /** Flattening such a fragment leaves its text and line breaks and drops
      every escape it had. */
  lemma {:induction false} FlattenDropsEscapes(xs: seq<Node>)
    requires StylesOnSpans(xs)
    ensures Pieces(Flatten(xs)) == Plain(Pieces(xs))
    decreases xs
  {
    if xs != [] {
      FlattenNodeDropsEscapes(xs[0]);
      FlattenDropsEscapes(xs[1..]);
      PiecesConcat(FlattenNode(xs[0]), Flatten(xs[1..]));
      PlainConcat(NodePieces(xs[0]), Pieces(xs[1..]));
    }
  }

  lemma {:induction false} FlattenNodeDropsEscapes(n: Node)
    requires NodeStylesOnSpans(n)
    ensures Pieces(FlattenNode(n)) == Plain(NodePieces(n))
    decreases n
  {
    match n
    case Text(s) =>
      assert [n][1..] == [];
      assert [Chars(s)][1..] == [];
    case Elem(tag, st, v, kids) =>
      FlattenDropsEscapes(kids);
      var e := Elem(tag, st, v, Flatten(kids));
      assert [e][1..] == [];
      if tag == BrTag {
        assert [Chars("\n")][1..] == [];
      } else if tag == SpanTag {
        match SgrCode(st, v)
        case Some(code) =>
          assert [Open(code)][1..] == [];
          assert [Close][1..] == [];
          PlainConcat([Open(code)] + Pieces(kids), [Close]);
          PlainConcat([Open(code)], Pieces(kids));
        case None =>
      }
  }

  /** Restyling an editor-made selection of whole top-level nodes leaves
      exactly one escape pair: the new style's, around the selection's
      plain text. */
  lemma RestyleReplacesStyles(fragment: seq<Node>, style: string, value: string)
    requires StylesOnSpans(fragment)
    ensures var code := SgrCode(Some(style), Some(value));
      NodePieces(Restyled(fragment, style, value))
        == if code.Some? then [Open(code.value)] + Plain(Pieces(fragment)) + [Close]
           else Plain(Pieces(fragment))
  {
    FlattenDropsEscapes(fragment);
  }

  lemma {:induction false} StylesOnSpansConcat(a: seq<Node>, b: seq<Node>)
    ensures StylesOnSpans(a + b) <==> StylesOnSpans(a) && StylesOnSpans(b)
    decreases a
  {
    if a == [] {
      assert a + b == b;
    } else {
      assert (a + b)[1..] == a[1..] + b;
      StylesOnSpansConcat(a[1..], b);
    }
  }

  lemma {:induction false} FlattenKeepsStylesOnSpans(xs: seq<Node>)
    requires StylesOnSpans(xs)
    ensures StylesOnSpans(Flatten(xs))
    decreases xs
  {
    if xs != [] {
      FlattenNodeKeepsStylesOnSpans(xs[0]);
      FlattenKeepsStylesOnSpans(xs[1..]);
      StylesOnSpansConcat(FlattenNode(xs[0]), Flatten(xs[1..]));
    }
  }

  lemma {:induction false} FlattenNodeKeepsStylesOnSpans(n: Node)
    requires NodeStylesOnSpans(n)
    ensures StylesOnSpans(FlattenNode(n))
    decreases n
  {
    match n
    case Text(_) =>
      assert [n][1..] == [];
    case Elem(tag, st, v, kids) =>
      FlattenKeepsStylesOnSpans(kids);
      var e := Elem(tag, st, v, Flatten(kids));
      assert [e][1..] == [];
  }

  lemma {:induction false} SliceStylesOnSpans(xs: seq<Node>, i: nat, j: nat)
    requires i <= j <= |xs| && StylesOnSpans(xs)
    ensures StylesOnSpans(xs[..i]) && StylesOnSpans(xs[i..j]) && StylesOnSpans(xs[j..])
  {
    assert xs == xs[..i] + xs[i..];
    StylesOnSpansConcat(xs[..i], xs[i..]);
    assert xs[i..] == xs[i..j] + xs[j..];
    StylesOnSpansConcat(xs[i..j], xs[j..]);
  }

  /** Styles stay on spans through every restyle, so the replacement
      property holds for every later restyle too. */
  lemma SplicedKeepsStylesOnSpans(doc: seq<Node>, r: Range, style: string, value: string)
    requires InDocument(r, doc) && StylesOnSpans(doc)
    ensures StylesOnSpans(Spliced(doc, r, style, value))
  {
    var frag := doc[r.start..r.end];
    SliceStylesOnSpans(doc, r.start, r.end);
    FlattenKeepsStylesOnSpans(frag);
    var w := Restyled(frag, style, value);
    assert [w][1..] == [];
    assert NodeStylesOnSpans(w);
    StylesOnSpansConcat([w], []);
    StylesOnSpansConcat(doc[..r.start], [w]);
    StylesOnSpansConcat(doc[..r.start] + [w], doc[r.end..]);
  }

  // ---------------------------------------------------------------------
  // Reset

  /** After a reset the export is the placeholder text alone, with no
      escape in it. */
  lemma ResetExport()
    ensures Serialize([Text(PlaceholderText)]) == PlaceholderText
    ensures forall i :: 0 <= i < |PlaceholderText| ==> PlaceholderText[i] != Esc
  {
  }

  // ---------------------------------------------------------------------
  // Worked examples

  /** Plain text followed by a bold word. */
  lemma BoldWordExample()
    ensures Serialize([Text("Hi "), Wrap(BoldStyle, "", [Text("there")])])
      == "Hi " + [Esc, '[', '1', 'm'] + "there" + [Esc, '[', '0', 'm']
  {
    var w := Wrap(BoldStyle, "", [Text("there")]);
    assert [Text("there")][1..] == [];
    assert [w][1..] == [];
    assert [Text("Hi "), w][1..] == [w];
    StyledElement(SpanTag, BoldStyle, Some(""), [Text("there")]);
    assert Serialize([w]) == SerializeNode(w);
    assert Serialize([Text("Hi "), w]) == "Hi " + SerializeNode(w);
  }

  /** Colouring text that was made bold and then underlined keeps only the
      colour: one escape pair with code 34 around the text. */
  lemma RecolorDropsEarlierStyles(t: string)
    ensures var bold := Restyled([Text(t)], BoldStyle, "");
      var underlined := Restyled([bold], UnderlineStyle, "");
      var blue := Restyled([underlined], ColorStyle, "#268bd2");
      blue == Wrap(ColorStyle, "#268bd2", [Text(t)]) &&
      SerializeNode(blue) == [Esc, '[', '3', '4', 'm'] + t + [Esc, '[', '0', 'm']
  {
    var bold := Restyled([Text(t)], BoldStyle, "");
    LastStyleWins([Text(t)], BoldStyle, "", UnderlineStyle, "");
    var underlined := Restyled([bold], UnderlineStyle, "");
    LastStyleWins([Text(t)], UnderlineStyle, "", ColorStyle, "#268bd2");
    FlattenNoSpansUnchanged([Text(t)]);
    assert [Text(t)][1..] == [];
    assert Lower("#268bd2") == "#268bd2";
    StyledElement(SpanTag, ColorStyle, Some("#268bd2"), [Text(t)]);
  }

  /** A colour outside the tables falls back to the default code. */
  lemma UnknownColorExample()
    ensures SgrCode(Some(ColorStyle), Some("#123456")) == Some(37)
    ensures SgrCode(Some(HighlightStyle), Some("#123456")) == Some(43)
  {
    assert Lower("#123456") == "#123456";
  }
}
