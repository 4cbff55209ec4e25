/**
 * The layout normaliser (figma/client.go:255-389): whether a node has a
 * layout at all, and the CSS-like layout record built from its raw fields.
 *
 * The source also passes the parent node to buildLayoutData, but never
 * reads it; the model leaves that argument out.
 */
module LayoutNormalizer {
  import opened Wrappers
  import opened Types
  import opened Format

  // ---------------------------------------------------------------------
  // Translation tables (the switch statements of lines 266-305 and 359-366)
  // ---------------------------------------------------------------------

  type SwitchTable = seq<(string, string)>

  /** primaryAxisAlignItems to justifyContent, lines 266-277. */
  const JustifyTable: SwitchTable :=
    [("MIN", "flex-start"), ("CENTER", "center"), ("MAX", "flex-end"), ("SPACE_BETWEEN", "space-between")]

  /** counterAxisAlignItems to alignItems, lines 279-290. */
  const AlignItemsTable: SwitchTable :=
    [("MIN", "flex-start"), ("CENTER", "center"), ("MAX", "flex-end"), ("BASELINE", "baseline")]

  /** layoutAlign to alignSelf, lines 292-305. */
  const AlignSelfTable: SwitchTable :=
    [("INHERIT", "auto"), ("MIN", "flex-start"), ("CENTER", "center"), ("MAX", "flex-end"), ("STRETCH", "stretch")]

  /** layoutPositioning to position, lines 359-366. */
  const PositionTable: SwitchTable :=
    [("AUTO", "relative"), ("ABSOLUTE", "absolute")]

  /** No raw value is listed twice and no two raw values share a translation. */
  predicate OneToOne(table: SwitchTable) {
    forall i, j :: 0 <= i < j < |table| ==> table[i].0 != table[j].0 && table[i].1 != table[j].1
  }

  /**
   * The case of a switch that `raw` selects; None when no case matches, in
   * which case the source sets no key.
   */
  function Translate(table: SwitchTable, raw: string): (r: Option<string>)
    ensures r.Some? ==> (raw, r.value) in table
    ensures r.None? ==> forall i :: 0 <= i < |table| ==> table[i].0 != raw
  {
    if table == [] then None
    else if table[0].0 == raw then Some(table[0].1)
    else Translate(table[1..], raw)
  }

  /** In a one-to-one table, translation hits exactly the listed pairs. */
  lemma {:induction false} TranslateExact(table: SwitchTable, raw: string, css: string)
    requires OneToOne(table)
    ensures Translate(table, raw) == Some(css) <==> (raw, css) in table
  {
    if table != [] && table[0].0 != raw && (raw, css) in table {
      var i :| 0 <= i < |table| && table[i] == (raw, css);
      assert table[1..][i - 1] == table[i];
      TranslateExact(table[1..], raw, css);
    }
  }

  /** The four switches list each raw value and each word once. */
  lemma TablesOneToOne()
    ensures OneToOne(JustifyTable)
    ensures OneToOne(AlignItemsTable)
    ensures OneToOne(AlignSelfTable)
    ensures OneToOne(PositionTable)
  {
  }

  // ---------------------------------------------------------------------
  // hasLayoutProperties, lines 372-389
  // ---------------------------------------------------------------------

  predicate AnyPadding(n: FigmaNode) {
    n.paddingTop.Some? || n.paddingRight.Some? || n.paddingBottom.Some? || n.paddingLeft.Some?
  }

  predicate AllPadding(n: FigmaNode) {
    n.paddingTop.Some? && n.paddingRight.Some? && n.paddingBottom.Some? && n.paddingLeft.Some?
  }

  /**
   * The node carries at least one of the sixteen layout triggers. Every key
   * buildLayoutData sets beyond the default mode comes from one of them, so
   * a node without triggers loses nothing by carrying no layout.
   */
  function HasLayoutProperties(n: FigmaNode): (b: bool)
    ensures !b ==> BuildLayout(n) == EmptyLayout
  {
    || n.layoutMode != ""
    || n.primaryAxisAlignItems != ""
    || n.counterAxisAlignItems != ""
    || n.layoutAlign != ""
    || n.layoutWrap != ""
    || n.itemSpacing.Some?
    || AnyPadding(n)
    || n.layoutSizingHorizontal != ""
    || n.layoutSizingVertical != ""
    || n.layoutPositioning != ""
    || n.layoutGrow.Some?
    || |n.overflowDirection| > 0
    || n.absoluteBoundingBox.Some?
  }

  // ---------------------------------------------------------------------
  // buildLayoutData, lines 255-369, one key at a time
  // ---------------------------------------------------------------------

  /** Lines 259-263: the lower-cased layout mode, or "none". */
  function Mode(n: FigmaNode): (r: string)
    ensures n.layoutMode == "" ==> r == "none"
    ensures n.layoutMode != "" ==> |r| == |n.layoutMode| && forall i :: 0 <= i < |r| ==> !IsUpper(r[i])
    ensures n.layoutMode != "" ==> forall i :: 0 <= i < |r| ==> r[i] == LowerChar(n.layoutMode[i])
  {
    if n.layoutMode != "" then Lower(n.layoutMode) else "none"
  }

  /** Lines 307-309. */
  function Wrap(n: FigmaNode): (r: Option<bool>)
    ensures r.Some? <==> n.layoutWrap != ""
    ensures r == Some(true) <==> n.layoutWrap == "WRAP"
  {
    if n.layoutWrap != "" then Some(n.layoutWrap == "WRAP") else None
  }

  /**
   * Lines 328-337: padding only when all four sides are present, one value
   * when they are all equal, else top, right, bottom and left.
   */
  function Padding(n: FigmaNode): (r: Option<string>)
    ensures r.Some? <==> AllPadding(n)
  {
    if !AnyPadding(n) then None
    else if !AllPadding(n) then None
    else
      var top, right, bottom, left :=
        n.paddingTop.value, n.paddingRight.value, n.paddingBottom.value, n.paddingLeft.value;
      if top == right && right == bottom && bottom == left then Some(Px(top))
      else Some(PxList([top, right, bottom, left]))
  }

  /** The values the padding string carries, read back, are the rounded sides. */
  lemma PaddingReadsBack(n: FigmaNode)
    requires AllPadding(n)
    ensures var top, right, bottom, left :=
      n.paddingTop.value, n.paddingRight.value, n.paddingBottom.value, n.paddingLeft.value;
      if top == right == bottom == left then
        ParsePxList(Padding(n).value) == Some([RoundToInt(top)])
      else
        ParsePxList(Padding(n).value) == Some(RoundAll([top, right, bottom, left]))
  {
    var top, right, bottom, left :=
      n.paddingTop.value, n.paddingRight.value, n.paddingBottom.value, n.paddingLeft.value;
    if top == right == bottom == left {
      assert PxList([top]) == Px(top);
      assert RoundAll([top]) == [RoundToInt(top)];
    } else {
    }
  }

  /** Lines 340-349: each sizing direction lower-cased, when present. */
  function SizingOf(n: FigmaNode): (r: Option<Sizing>)
    ensures r.Some? <==> (n.layoutSizingHorizontal != "" || n.layoutSizingVertical != "")
    ensures r.Some? ==> (r.value.horizontal.Some? <==> n.layoutSizingHorizontal != "")
    ensures r.Some? ==> (r.value.vertical.Some? <==> n.layoutSizingVertical != "")
    ensures r.Some? && r.value.horizontal.Some? ==> r.value.horizontal.value == Lower(n.layoutSizingHorizontal)
    ensures r.Some? && r.value.vertical.Some? ==> r.value.vertical.value == Lower(n.layoutSizingVertical)
  {
    if n.layoutSizingHorizontal != "" || n.layoutSizingVertical != "" then
      Some(Sizing(
        if n.layoutSizingHorizontal != "" then Some(Lower(n.layoutSizingHorizontal)) else None,
        if n.layoutSizingVertical != "" then Some(Lower(n.layoutSizingVertical)) else None))
    else None
  }

  /** Lines 351-357: each overflow direction lower-cased, in order. */
  function OverflowScroll(n: FigmaNode): (r: Option<seq<string>>)
    ensures r.Some? <==> |n.overflowDirection| > 0
    ensures r.Some? ==> |r.value| == |n.overflowDirection|
    ensures r.Some? ==> forall i :: 0 <= i < |r.value| ==> r.value[i] == Lower(n.overflowDirection[i])
  {
    if |n.overflowDirection| > 0 then
      Some(seq(|n.overflowDirection|, i requires 0 <= i < |n.overflowDirection| => Lower(n.overflowDirection[i])))
    else None
  }

  /** An empty raw enum sets no key, like an unrecognised one. */
  function TranslateField(table: SwitchTable, raw: string): Option<string> {
    if raw != "" then Translate(table, raw) else None
  }

  /**
   * buildLayoutData: the layout record of one node. Each key is set exactly
   * when its source field is present (padding: all four sides), and an enum
   * key holds a case its switch lists for the raw value.
   */
  function BuildLayout(n: FigmaNode): (r: Layout)
    ensures n.layoutMode == "" ==> r.mode == "none"
    ensures n.layoutMode != "" ==> |r.mode| == |n.layoutMode|
    ensures n.layoutMode != "" ==> forall i :: 0 <= i < |r.mode| ==> r.mode[i] == LowerChar(n.layoutMode[i])
    ensures r.justifyContent.Some? ==> (n.primaryAxisAlignItems, r.justifyContent.value) in JustifyTable
    ensures r.alignItems.Some? ==> (n.counterAxisAlignItems, r.alignItems.value) in AlignItemsTable
    ensures r.alignSelf.Some? ==> (n.layoutAlign, r.alignSelf.value) in AlignSelfTable
    ensures r.position.Some? ==> (n.layoutPositioning, r.position.value) in PositionTable
    ensures r.wrap.Some? <==> n.layoutWrap != ""
    ensures r.gap.Some? <==> n.itemSpacing.Some?
    ensures r.locationRelativeToParent.Some? <==> n.absoluteBoundingBox.Some?
    ensures r.dimensions.Some? <==> n.absoluteBoundingBox.Some?
    ensures r.padding.Some? <==> AllPadding(n)
    ensures r.sizing.Some? <==> (n.layoutSizingHorizontal != "" || n.layoutSizingVertical != "")
    ensures r.overflowScroll.Some? <==> |n.overflowDirection| > 0
  {
    Layout(
      mode := Mode(n),
      justifyContent := TranslateField(JustifyTable, n.primaryAxisAlignItems),
      alignItems := TranslateField(AlignItemsTable, n.counterAxisAlignItems),
      alignSelf := TranslateField(AlignSelfTable, n.layoutAlign),
      wrap := Wrap(n),
      gap := if n.itemSpacing.Some? then Some(Px(n.itemSpacing.value)) else None,
      locationRelativeToParent :=
        if n.absoluteBoundingBox.Some? then
          Some(Pair(n.absoluteBoundingBox.value.x, n.absoluteBoundingBox.value.y))
        else None,
      dimensions :=
        if n.absoluteBoundingBox.Some? then
          Some(Pair(n.absoluteBoundingBox.value.width, n.absoluteBoundingBox.value.height))
        else None,
      padding := Padding(n),
      sizing := SizingOf(n),
      overflowScroll := OverflowScroll(n),
      position := TranslateField(PositionTable, n.layoutPositioning))
  }

  /** The record with only `mode`, which is what a node without layout fields would get. */
  const EmptyLayout: Layout :=
    Layout("none", None, None, None, None, None, None, None, None, None, None, None)

  /**
   * The converse fails: layoutGrow (line 386), an unrecognised alignment or
   * positioning word, or a partial padding triggers a layout that carries
   * nothing but the default mode.
   */
  lemma TriggerWithoutContent()
    ensures var n := BareNode("1:1", "frame", "FRAME").(layoutGrow := Some(1.0));
      HasLayoutProperties(n) && BuildLayout(n) == EmptyLayout
    ensures var n := BareNode("1:1", "frame", "FRAME").(paddingTop := Some(8.0));
      HasLayoutProperties(n) && BuildLayout(n) == EmptyLayout
    ensures var n := BareNode("1:1", "frame", "FRAME").(layoutAlign := "FILL");
      HasLayoutProperties(n) && BuildLayout(n) == EmptyLayout
  {
    assert Translate(AlignSelfTable, "FILL") == None;
  }

  /**
   * The translated keys: each is set exactly when its raw value is a listed
   * case, to that case's word.
   */
  lemma LayoutTranslations(n: FigmaNode, css: string)
    ensures BuildLayout(n).justifyContent == Some(css) <==> (n.primaryAxisAlignItems, css) in JustifyTable
    ensures BuildLayout(n).alignItems == Some(css) <==> (n.counterAxisAlignItems, css) in AlignItemsTable
    ensures BuildLayout(n).alignSelf == Some(css) <==> (n.layoutAlign, css) in AlignSelfTable
    ensures BuildLayout(n).position == Some(css) <==> (n.layoutPositioning, css) in PositionTable
  {
    TablesOneToOne();
    TranslateExact(JustifyTable, n.primaryAxisAlignItems, css);
    TranslateExact(AlignItemsTable, n.counterAxisAlignItems, css);
    TranslateExact(AlignSelfTable, n.layoutAlign, css);
    TranslateExact(PositionTable, n.layoutPositioning, css);
  }

  /**
   * The pass-through keys: gap is the rounded spacing, and the bounding box
   * is copied as it is, in absolute coordinates, whatever the key's name says.
   */
  lemma LayoutPassThrough(n: FigmaNode)
    ensures BuildLayout(n).gap.Some? <==> n.itemSpacing.Some?
    ensures n.itemSpacing.Some? ==> ParsePx(BuildLayout(n).gap.value) == Some(RoundToInt(n.itemSpacing.value))
    ensures BuildLayout(n).locationRelativeToParent.Some? <==> n.absoluteBoundingBox.Some?
    ensures n.absoluteBoundingBox.Some? ==>
      var b := n.absoluteBoundingBox.value;
      && BuildLayout(n).locationRelativeToParent == Some(Pair(b.x, b.y))
      && BuildLayout(n).dimensions == Some(Pair(b.width, b.height))
  {
    if n.itemSpacing.Some? {
      PxRoundTrip(n.itemSpacing.value);
    }
  }

  /** `%.0fpx` of a one-digit whole number is that digit followed by `px`. */
  lemma PxOfDigit(d: nat)
    requires d < 10
    ensures Px(d as real) == [DigitChar(d)] + "px"
  {
    assert (d as real).Floor == d;
    assert RoundHalfEven(d as real) == d;
  }

  /** A frame whose four padding sides are the given values. */
  function PaddedFrame(top: real, right: real, bottom: real, left: real): (n: FigmaNode)
    ensures AllPadding(n)
    ensures n.paddingTop == Some(top) && n.paddingRight == Some(right)
    ensures n.paddingBottom == Some(bottom) && n.paddingLeft == Some(left)
  {
    BareNode("1:1", "frame", "FRAME").(
      paddingTop := Some(top), paddingRight := Some(right), paddingBottom := Some(bottom), paddingLeft := Some(left))
  }

  /** Four equal sides of 8 collapse to one value. */
  lemma UniformPaddingExample()
    ensures Padding(PaddedFrame(8.0, 8.0, 8.0, 8.0)) == Some("8px")
  {
    PxEight();
  }

  lemma PxEight()
    ensures Px(8.0) == "8px"
  {
    PxOfDigit(8);
    assert DigitChar(8) == '8';
    assert [DigitChar(8)] + "px" == "8px";
  }

  lemma PxFour()
    ensures Px(4.0) == "4px"
  {
    PxOfDigit(4);
    assert DigitChar(4) == '4';
    assert [DigitChar(4)] + "px" == "4px";
  }

  /** Four tokens are joined with single spaces. */
  lemma JoinFour(a: string, b: string, c: string, d: string)
    ensures Join([a, b, c, d]) == a + " " + b + " " + c + " " + d
  {
    assert [a, b, c, d][1..] == [b, c, d];
    assert [b, c, d][1..] == [c, d];
    assert [c, d][1..] == [d];
    assert Join([c, d]) == c + " " + d;
    assert Join([b, c, d]) == b + " " + (c + " " + d);
    assert Join([a, b, c, d]) == a + " " + (b + " " + (c + " " + d));
  }

  /** Unequal sides are listed top, right, bottom, left. */
  lemma MixedPaddingExample()
    ensures Padding(PaddedFrame(8.0, 4.0, 8.0, 4.0)) == Some("8px 4px 8px 4px")
  {
    var xs := [8.0, 4.0, 8.0, 4.0];
    assert Padding(PaddedFrame(8.0, 4.0, 8.0, 4.0)) == Some(Join(PxAll(xs)));
    PxEight();
    PxFour();
    assert PxAll(xs) == ["8px", "4px", "8px", "4px"];
    JoinFour("8px", "4px", "8px", "4px");
    MixedPaddingText();
  }

  lemma MixedPaddingText()
    ensures "8px" + " " + ("4px" + " " + ("8px" + " " + "4px")) == "8px 4px 8px 4px"
  {
  }
}
