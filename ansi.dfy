/** The export serializer: a node tree becomes text with ANSI SGR escapes
    (`ESC [ <code> m` ... `ESC [ 0 m`), using two fixed hex-colour tables. */
module Ansi {
  import opened Dom

  // ---------------------------------------------------------------------
  // Colour tables

  /** Foreground swatches and their SGR codes. */
  const ForegroundTable: map<string, nat> := map[
    "#4f545c" := 30, "#dc322f" := 31, "#859900" := 32, "#b58900" := 33,
    "#268bd2" := 34, "#d33682" := 35, "#2aa198" := 36, "#ffffff" := 37]

  /** Background swatches and their SGR codes. */
  const BackgroundTable: map<string, nat> := map[
    "#002b36" := 40, "#cb4b16" := 41, "#586e75" := 42, "#657b83" := 43,
    "#839496" := 44, "#6c71c4" := 45, "#93a1a1" := 46, "#fdf6e3" := 47]

  /** Colour assumed when `data-value` is absent or empty. */
  const DefaultForeground: string := "#000000"
  const DefaultBackground: string := "#ffff00"
  /** Code used when the colour is not in its table. */
  const FallbackForeground: nat := 37
  const FallbackBackground: nat := 43

  function LowerChar(c: char): char {
    if 'A' <= c <= 'Z' then (c as int + 32) as char else c
  }

  function UpperChar(c: char): char {
    if 'a' <= c <= 'z' then (c as int - 32) as char else c
  }

  /** ASCII lower-casing, character by character. */
  function Lower(s: string): (r: string)
    ensures |r| == |s|
    ensures forall i :: 0 <= i < |s| ==> r[i] == LowerChar(s[i])
  {
    seq(|s|, i requires 0 <= i < |s| => LowerChar(s[i]))
  }

  function Upper(s: string): (r: string)
    ensures |r| == |s|
    ensures forall i :: 0 <= i < |s| ==> r[i] == UpperChar(s[i])
  {
    seq(|s|, i requires 0 <= i < |s| => UpperChar(s[i]))
  }

  /** The colour a `data-value` stands for: the value itself, or the
      default when it is absent or empty. */
  function ColorOrDefault(value: Option<string>, default: string): string {
    if value.None? || value.value == "" then default else value.value
  }

  function ForegroundCode(value: Option<string>): (r: nat)
    ensures 30 <= r <= 37
    ensures var hex := Lower(ColorOrDefault(value, DefaultForeground));
      (hex in ForegroundTable ==> r == ForegroundTable[hex]) &&
      (hex !in ForegroundTable ==> r == FallbackForeground)
  {
    var hex := Lower(ColorOrDefault(value, DefaultForeground));
    if hex in ForegroundTable then ForegroundTable[hex] else FallbackForeground
  }

  function BackgroundCode(value: Option<string>): (r: nat)
    ensures 40 <= r <= 47
    ensures var hex := Lower(ColorOrDefault(value, DefaultBackground));
      (hex in BackgroundTable ==> r == BackgroundTable[hex]) &&
      (hex !in BackgroundTable ==> r == FallbackBackground)
  {
    var hex := Lower(ColorOrDefault(value, DefaultBackground));
    if hex in BackgroundTable then BackgroundTable[hex] else FallbackBackground
  }

  /** An absent or empty colour gets the fallback code: neither default
      colour is in its table. */
  lemma MissingColorFallsBack(value: Option<string>)
    requires value.None? || value.value == ""
    ensures ForegroundCode(value) == FallbackForeground
    ensures BackgroundCode(value) == FallbackBackground
  {
    assert Lower(DefaultForeground) == DefaultForeground;
    assert Lower(DefaultBackground) == DefaultBackground;
  }

  /** The foreground table gives each code from 30 to 37 to exactly one colour. */
  lemma ForegroundTableOneToOne()
    ensures ForegroundTable.Values == {30, 31, 32, 33, 34, 35, 36, 37}
    ensures forall h1, h2 :: h1 in ForegroundTable && h2 in ForegroundTable && h1 != h2 ==>
      ForegroundTable[h1] != ForegroundTable[h2]
  {
    var t := ForegroundTable;
    forall c | c in t.Values ensures 30 <= c <= 37 {
      var h :| h in t && t[h] == c;
    }
    assert t["#4f545c"] == 30 && t["#dc322f"] == 31 && t["#859900"] == 32 && t["#b58900"] == 33;
    assert t["#268bd2"] == 34 && t["#d33682"] == 35 && t["#2aa198"] == 36 && t["#ffffff"] == 37;
  }

  /** The background table gives each code from 40 to 47 to exactly one colour. */
  lemma BackgroundTableOneToOne()
    ensures BackgroundTable.Values == {40, 41, 42, 43, 44, 45, 46, 47}
    ensures forall h1, h2 :: h1 in BackgroundTable && h2 in BackgroundTable && h1 != h2 ==>
      BackgroundTable[h1] != BackgroundTable[h2]
  {
    var t := BackgroundTable;
    forall c | c in t.Values ensures 40 <= c <= 47 {
      var h :| h in t && t[h] == c;
    }
    assert t["#002b36"] == 40 && t["#cb4b16"] == 41 && t["#586e75"] == 42 && t["#657b83"] == 43;
    assert t["#839496"] == 44 && t["#6c71c4"] == 45 && t["#93a1a1"] == 46 && t["#fdf6e3"] == 47;
  }

  predicate NoUpperAscii(s: string) {
    forall i :: 0 <= i < |s| ==> !('A' <= s[i] <= 'Z')
  }

  lemma LowerUpper(s: string)
    requires NoUpperAscii(s)
    ensures Lower(Upper(s)) == s
  {
  }

  /** Colours are matched case-insensitively: a swatch written in upper
      case gets the swatch's code. */
  lemma SwatchCaseInsensitive(hex: string)
    ensures hex in ForegroundTable ==> ForegroundCode(Some(Upper(hex))) == ForegroundTable[hex]
    ensures hex in BackgroundTable ==> BackgroundCode(Some(Upper(hex))) == BackgroundTable[hex]
  {
    if hex in ForegroundTable || hex in BackgroundTable {
      assert NoUpperAscii(hex);
      LowerUpper(hex);
    }
  }

  // ---------------------------------------------------------------------
  // SGR codes

  const BoldStyle: string := "bold"
  const UnderlineStyle: string := "underline"
  const ColorStyle: string := "color"
  const HighlightStyle: string := "highlight"

  /** The SGR code an element's `data-style`/`data-value` pair selects, if any. */
  function SgrCode(style: Option<string>, value: Option<string>): (r: Option<nat>)
    ensures r.Some? <==> style in {Some(BoldStyle), Some(UnderlineStyle), Some(ColorStyle), Some(HighlightStyle)}
    ensures style == Some(BoldStyle) ==> r == Some(1)
    ensures style == Some(UnderlineStyle) ==> r == Some(4)
    ensures style == Some(ColorStyle) ==> r.Some? && 30 <= r.value <= 37 && r.value == ForegroundCode(value)
    ensures style == Some(HighlightStyle) ==> r.Some? && 40 <= r.value <= 47 && r.value == BackgroundCode(value)
  {
    if style == Some(BoldStyle) then Some(1)
    else if style == Some(UnderlineStyle) then Some(4)
    else if style == Some(ColorStyle) then Some(ForegroundCode(value))
    else if style == Some(HighlightStyle) then Some(BackgroundCode(value))
    else None
  }

  function Digit(d: nat): (c: char)
    requires d < 10
    ensures '0' <= c <= '9'
  {
    ('0' as int + d) as char
  }

  predicate AllDigits(s: string) {
    forall i :: 0 <= i < |s| ==> '0' <= s[i] <= '9'
  }

  /** A number's decimal representation, without leading zeros. */
  function Decimal(n: nat): (s: string)
    ensures |s| >= 1 && AllDigits(s)
    ensures (s[0] == '0') <==> n == 0
    decreases n
  {
    if n < 10 then [Digit(n)] else Decimal(n / 10) + [Digit(n % 10)]
  }

  /** Reads a string of decimal digits back as a number. */
  function DecimalValue(s: string): nat
    requires AllDigits(s)
    decreases |s|
  {
    if s == [] then 0
    else DecimalValue(s[..|s| - 1]) * 10 + (s[|s| - 1] as int - '0' as int)
  }

  lemma {:induction false} DecimalRoundTrip(n: nat)
    ensures DecimalValue(Decimal(n)) == n
    decreases n
  {
    if n >= 10 {
      DecimalRoundTrip(n / 10);
      var s := Decimal(n);
      assert s[..|s| - 1] == Decimal(n / 10);
    }
  }

  /** The escape character 0x1B. */
  const Esc: char := 27 as char

  /** The escape that switches on one code. */
  function OpenEscape(code: nat): string {
    [Esc, '['] + Decimal(code) + "m"
  }

  /** The escape that resets all attributes. */
  const CloseEscape: string := [Esc, '[', '0', 'm']

  // ---------------------------------------------------------------------
  // Serializer

  /** Text of a node sequence: each node's text, concatenated in order. */
  function Serialize(xs: seq<Node>): string
    decreases xs
  {
    if xs == [] then "" else SerializeNode(xs[0]) + Serialize(xs[1..])
  }

  /** A text node is its text, a line break is a newline, an element with a
      recognised style wraps its children's text in its own escapes, and any
      other element is its children's text. */
  function SerializeNode(n: Node): string
    decreases n
  {
    match n
    case Text(s) => s
    case Elem(tag, st, v, kids) =>
      if tag == BrTag then "\n"
      else
        var content := Serialize(kids);
        match SgrCode(st, v)
        case Some(code) => OpenEscape(code) + content + CloseEscape
        case None => content
  }

  lemma {:induction false} SerializeConcat(a: seq<Node>, b: seq<Node>)
    ensures Serialize(a + b) == Serialize(a) + Serialize(b)
    decreases a
  {
    if a == [] {
      assert a + b == b;
    } else {
      assert (a + b)[1..] == a[1..] + b;
      SerializeConcat(a[1..], b);
    }
  }

  /** The four styles, written out: one escape with the element's own
      code before its children's text, and a reset after it. */
  lemma StyledElement(tag: string, style: string, value: Option<string>, kids: seq<Node>)
    requires tag != BrTag
    ensures style == BoldStyle ==>
      SerializeNode(Elem(tag, Some(style), value, kids)) == [Esc, '[', '1', 'm'] + Serialize(kids) + CloseEscape
    ensures style == UnderlineStyle ==>
      SerializeNode(Elem(tag, Some(style), value, kids)) == [Esc, '[', '4', 'm'] + Serialize(kids) + CloseEscape
    ensures style == ColorStyle ==>
      SerializeNode(Elem(tag, Some(style), value, kids))
        == [Esc, '[', '3', Digit(ForegroundCode(value) - 30), 'm'] + Serialize(kids) + CloseEscape
    ensures style == HighlightStyle ==>
      SerializeNode(Elem(tag, Some(style), value, kids))
        == [Esc, '[', '4', Digit(BackgroundCode(value) - 40), 'm'] + Serialize(kids) + CloseEscape
  {
    if style == ColorStyle {
      TwoDigits(ForegroundCode(value));
    } else if style == HighlightStyle {
      TwoDigits(BackgroundCode(value));
    }
  }

  lemma TwoDigits(c: nat)
    requires 10 <= c < 100
    ensures OpenEscape(c) == [Esc, '[', Digit(c / 10), Digit(c % 10), 'm']
  {
    assert Decimal(c / 10) == [Digit(c / 10)];
  }

  /** An element without a recognised style adds nothing of its own. */
  lemma PlainElement(tag: string, style: Option<string>, value: Option<string>, kids: seq<Node>)
    requires tag != BrTag
    requires style !in {Some(BoldStyle), Some(UnderlineStyle), Some(ColorStyle), Some(HighlightStyle)}
    ensures SerializeNode(Elem(tag, style, value, kids)) == Serialize(kids)
  {
  }

  // ---------------------------------------------------------------------
  // The output as a sequence of pieces, and its balance

  /** A piece of serializer output: literal text, one opening escape, or
      the closing reset. */
  datatype Piece = Chars(text: string) | Open(code: nat) | Close

  function Pieces(xs: seq<Node>): seq<Piece>
    decreases xs
  {
    if xs == [] then [] else NodePieces(xs[0]) + Pieces(xs[1..])
  }

  function NodePieces(n: Node): seq<Piece>
    decreases n
  {
    match n
    case Text(s) => [Chars(s)]
    case Elem(tag, st, v, kids) =>
      if tag == BrTag then [Chars("\n")]
      else match SgrCode(st, v)
        case Some(code) => [Open(code)] + Pieces(kids) + [Close]
        case None => Pieces(kids)
  }

  lemma {:induction false} PiecesConcat(a: seq<Node>, b: seq<Node>)
    ensures Pieces(a + b) == Pieces(a) + Pieces(b)
    decreases a
  {
    if a == [] {
      assert a + b == b;
    } else {
      assert (a + b)[1..] == a[1..] + b;
      PiecesConcat(a[1..], b);
    }
  }

  /** The literal text pieces only, every escape dropped. */
  function Plain(ps: seq<Piece>): (r: seq<Piece>)
    ensures forall i :: 0 <= i < |r| ==> r[i].Chars?
    decreases |ps|
  {
    if ps == [] then []
    else (if ps[0].Chars? then [ps[0]] else []) + Plain(ps[1..])
  }

  lemma {:induction false} PlainConcat(a: seq<Piece>, b: seq<Piece>)
    ensures Plain(a + b) == Plain(a) + Plain(b)
    decreases |a|
  {
    if a == [] {
      assert a + b == b;
    } else {
      assert (a + b)[1..] == a[1..] + b;
      PlainConcat(a[1..], b);
    }
  }

  function RenderPiece(p: Piece): string {
    match p
    case Chars(s) => s
    case Open(code) => OpenEscape(code)
    case Close => CloseEscape
  }

  function Render(ps: seq<Piece>): string
    decreases |ps|
  {
    if ps == [] then "" else RenderPiece(ps[0]) + Render(ps[1..])
  }

  lemma {:induction false} RenderConcat(a: seq<Piece>, b: seq<Piece>)
    ensures Render(a + b) == Render(a) + Render(b)
    decreases |a|
  {
    if a == [] {
      assert a + b == b;
    } else {
      assert (a + b)[1..] == a[1..] + b;
      RenderConcat(a[1..], b);
    }
  }

  /** The serializer writes out exactly the pieces of the tree. */
  lemma {:induction false} SerializeRendersPieces(xs: seq<Node>)
    ensures Serialize(xs) == Render(Pieces(xs))
    decreases xs
  {
    if xs != [] {
      SerializeNodeRendersPieces(xs[0]);
      SerializeRendersPieces(xs[1..]);
      RenderConcat(NodePieces(xs[0]), Pieces(xs[1..]));
    }
  }

  lemma {:induction false} SerializeNodeRendersPieces(n: Node)
    ensures SerializeNode(n) == Render(NodePieces(n))
    decreases n
  {
    match n
    case Text(s) =>
      assert [Chars(s)][1..] == [];
    case Elem(tag, st, v, kids) =>
      if tag == BrTag {
        assert [Chars("\n")][1..] == [];
      } else {
        SerializeRendersPieces(kids);
        match SgrCode(st, v)
        case Some(code) =>
          var ps := Pieces(kids);
          assert [Close][1..] == [];
          assert [Open(code)][1..] == [];
          RenderConcat([Open(code)] + ps, [Close]);
          RenderConcat([Open(code)], ps);
        case None =>
      }
  }

  /** Opening escapes minus closing ones. */
  function Depth(ps: seq<Piece>): int
    decreases |ps|
  {
    if ps == [] then 0
    else (match ps[0] case Open(_) => 1 case Close => -1 case Chars(_) => 0) + Depth(ps[1..])
  }

  /** Every close matches an earlier open, and every open is closed. */
  predicate Balanced(ps: seq<Piece>) {
    Depth(ps) == 0 && forall k :: 0 <= k <= |ps| ==> Depth(ps[..k]) >= 0
  }

  lemma {:induction false} DepthConcat(a: seq<Piece>, b: seq<Piece>)
    ensures Depth(a + b) == Depth(a) + Depth(b)
    decreases |a|
  {
    if a == [] {
      assert a + b == b;
    } else {
      assert (a + b)[1..] == a[1..] + b;
      DepthConcat(a[1..], b);
    }
  }

  lemma BalancedConcat(a: seq<Piece>, b: seq<Piece>)
    requires Balanced(a) && Balanced(b)
    ensures Balanced(a + b)
  {
    DepthConcat(a, b);
    forall k | 0 <= k <= |a + b|
      ensures Depth((a + b)[..k]) >= 0
    {
      if k <= |a| {
        assert (a + b)[..k] == a[..k];
      } else {
        assert (a + b)[..k] == a + b[..k - |a|];
        DepthConcat(a, b[..k - |a|]);
      }
    }
  }

  lemma BalancedWrap(code: nat, a: seq<Piece>)
    requires Balanced(a)
    ensures Balanced([Open(code)] + a + [Close])
  {
    var w := [Open(code)] + a + [Close];
    assert [Close][1..] == [];
    assert [Open(code)][1..] == [];
    DepthConcat([Open(code)] + a, [Close]);
    DepthConcat([Open(code)], a);
    forall k | 0 <= k <= |w|
      ensures Depth(w[..k]) >= 0
    {
      if k == 0 {
        assert w[..k] == [];
      } else if k <= |a| + 1 {
        assert w[..k] == [Open(code)] + a[..k - 1];
        DepthConcat([Open(code)], a[..k - 1]);
      } else {
        assert w[..k] == w;
      }
    }
  }

  /** Escapes in the output nest properly: each styled element opens once
      and closes once, around exactly its own children. */
  lemma {:induction false} PiecesBalanced(xs: seq<Node>)
    ensures Balanced(Pieces(xs))
    decreases xs
  {
    if xs == [] {
      var e: seq<Piece> := [];
      assert forall k :: 0 <= k <= |e| ==> e[..k] == e;
    } else {
      NodePiecesBalanced(xs[0]);
      PiecesBalanced(xs[1..]);
      BalancedConcat(NodePieces(xs[0]), Pieces(xs[1..]));
    }
  }

  lemma {:induction false} NodePiecesBalanced(n: Node)
    ensures Balanced(NodePieces(n))
    decreases n
  {
    match n
    case Text(s) =>
      OneTextBalanced(s);
    case Elem(tag, st, v, kids) =>
      if tag == BrTag {
        OneTextBalanced("\n");
      } else {
        PiecesBalanced(kids);
        match SgrCode(st, v)
        case Some(code) => BalancedWrap(code, Pieces(kids));
        case None =>
      }
  }

  lemma OneTextBalanced(s: string)
    ensures Balanced([Chars(s)])
  {
  }
}
