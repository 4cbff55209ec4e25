/**
 * The node simplifier (figma/client.go:158-252, parseNode, with isVisible at
 * lines 392-397): a pre-order walk that turns each visible raw node into a
 * simplified node, moving its style fragments into the shared style table.
 *
 * The Go code passes the table by reference and mutates it; here the table
 * is threaded through the walk, each call taking the table as it stands and
 * returning it with the entries the call added.
 */
module Simplifier {
  import opened Wrappers
  import opened JsonValue
  import opened Types
  import opened Format
  import opened VarId
  import opened StyleTable
  import opened LayoutNormalizer

  // ---------------------------------------------------------------------
  // Visibility, lines 392-397
  // ---------------------------------------------------------------------

  /** A node is visible unless its `visible` flag is present and false. */
  function IsVisible(n: FigmaNode): (b: bool)
    ensures n.visible.Some? ==> (b <==> n.visible.value)
    ensures n.visible.None? ==> b
  {
    n.visible != Some(false)
  }

  /** The visible nodes of `cs`, in their original order. */
  function Visible(cs: seq<FigmaNode>): (r: seq<FigmaNode>)
    ensures |r| <= |cs|
  {
    if cs == [] then []
    else if IsVisible(cs[0]) then [cs[0]] + Visible(cs[1..])
    else Visible(cs[1..])
  }

  /** The visible list holds exactly the visible children. */
  lemma {:induction false} VisibleMembers(cs: seq<FigmaNode>)
    ensures forall x :: x in Visible(cs) ==> x in cs && IsVisible(x)
    ensures forall x :: x in cs && IsVisible(x) ==> x in Visible(cs)
  {
    if cs != [] {
      VisibleMembers(cs[1..]);
      forall x | x in cs && IsVisible(x) ensures x in Visible(cs) {
        if x != cs[0] {
          assert x in cs[1..];
        }
      }
    }
  }

  /**
   * `ix` lists where the visible nodes of `cs` sit: strictly increasing
   * positions, the k-th holding the k-th visible node, with a position for
   * every visible node and none for a hidden one.
   */
  predicate PositionsOf(cs: seq<FigmaNode>, ix: seq<nat>) {
    && |ix| == |Visible(cs)|
    && (forall k :: 0 <= k < |ix| ==> ix[k] < |cs| && cs[ix[k]] == Visible(cs)[k])
    && (forall k, l :: 0 <= k < l < |ix| ==> ix[k] < ix[l])
    && (forall i :: 0 <= i < |cs| ==> (IsVisible(cs[i]) <==> i in ix))
  }

  function Shift(ix: seq<nat>): (r: seq<nat>)
    ensures |r| == |ix|
    ensures forall k :: 0 <= k < |ix| ==> r[k] == ix[k] + 1
  {
    seq(|ix|, k requires 0 <= k < |ix| => ix[k] + 1)
  }

  /** The positions a step puts in front of the rest's, shifted by one. */
  function Cons(cs: seq<FigmaNode>, rest: seq<nat>): seq<nat>
    requires cs != []
  {
    (if IsVisible(cs[0]) then [0] else []) + Shift(rest)
  }

  /**
   * The index bookkeeping of one step, for any element type: if `rest`
   * places the kept elements of the tail, then the head's position (when
   * kept) followed by `rest` shifted by one places the kept elements of
   * the whole sequence.
   */
  lemma StepPlaces<T>(cs: seq<T>, kept: seq<T>, keptTail: seq<T>, rest: seq<nat>, keepHead: bool)
    requires cs != []
    requires kept == (if keepHead then [cs[0]] else []) + keptTail
    requires |rest| == |keptTail|
    requires forall k :: 0 <= k < |rest| ==> rest[k] < |cs| - 1 && cs[1..][rest[k]] == keptTail[k]
    ensures var ix := (if keepHead then [0] else []) + Shift(rest);
      |ix| == |kept| && forall k :: 0 <= k < |ix| ==> ix[k] < |cs| && cs[ix[k]] == kept[k]
  {
    var ix := (if keepHead then [0] else []) + Shift(rest);
    var h := if keepHead then 1 else 0;
    forall k | 0 <= k < |ix| ensures ix[k] < |cs| && cs[ix[k]] == kept[k] {
      if k >= h {
        assert ix[k] == rest[k - h] + 1;
        assert kept[k] == keptTail[k - h];
        assert cs[rest[k - h] + 1] == cs[1..][rest[k - h]];
      }
    }
  }

  lemma PositionsStepContent(cs: seq<FigmaNode>, rest: seq<nat>)
    requires cs != []
    requires PositionsOf(cs[1..], rest)
    ensures |Cons(cs, rest)| == |Visible(cs)|
    ensures forall k :: 0 <= k < |Cons(cs, rest)| ==> Cons(cs, rest)[k] < |cs| && cs[Cons(cs, rest)[k]] == Visible(cs)[k]
  {
    StepPlaces(cs, Visible(cs), Visible(cs[1..]), rest, IsVisible(cs[0]));
  }

  lemma PositionsStepOrder(cs: seq<FigmaNode>, rest: seq<nat>)
    requires cs != []
    requires PositionsOf(cs[1..], rest)
    ensures forall k, l :: 0 <= k < l < |Cons(cs, rest)| ==> Cons(cs, rest)[k] < Cons(cs, rest)[l]
  {
  }

  lemma ShiftMember(ix: seq<nat>, m: nat)
    ensures m + 1 in Shift(ix) <==> m in ix
    ensures 0 !in Shift(ix)
  {
    if m in ix {
      var k :| 0 <= k < |ix| && ix[k] == m;
      assert Shift(ix)[k] == m + 1;
    }
  }

  lemma PositionsStepCover(cs: seq<FigmaNode>, rest: seq<nat>)
    requires cs != []
    requires PositionsOf(cs[1..], rest)
    ensures forall i :: 0 <= i < |cs| ==> (IsVisible(cs[i]) <==> i in Cons(cs, rest))
  {
    var sh := Shift(rest);
    var tail := cs[1..];
    forall i | 0 <= i < |cs| ensures IsVisible(cs[i]) <==> i in Cons(cs, rest) {
      if i == 0 {
        ShiftMember(rest, 0);
      } else {
        ShiftMember(rest, i - 1);
        assert cs[i] == tail[i - 1];
      }
    }
  }

  /** Where the visible nodes sit in `cs`, so `Visible` keeps the original order. */
  function VisiblePositions(cs: seq<FigmaNode>): (ix: seq<nat>)
    ensures PositionsOf(cs, ix)
  {
    if cs == [] then []
    else
      var rest := VisiblePositions(cs[1..]);
      PositionsStepContent(cs, rest);
      PositionsStepOrder(cs, rest);
      PositionsStepCover(cs, rest);
      Cons(cs, rest)
  }

  // ---------------------------------------------------------------------
  // Style fragments, lines 171-190
  // ---------------------------------------------------------------------

  datatype Category = TextStyleCat | FillCat | StrokeCat | EffectCat

  const Categories: seq<Category> := [TextStyleCat, FillCat, StrokeCat, EffectCat]

  /** The identifier prefix each category is interned under. */
  function Prefix(c: Category): string {
    match c
    case TextStyleCat => "style"
    case FillCat => "fill"
    case StrokeCat => "stroke"
    case EffectCat => "effect"
  }

  /** What Go marshals the `strokes` slice to: null when it is nil. */
  function StrokeColors(n: FigmaNode): Json {
    if n.strokes.Some? then JArr(n.strokes.value) else JNull
  }

  function StrokeCount(n: FigmaNode): nat {
    if n.strokes.Some? then |n.strokes.value| else 0
  }

  /**
   * The stroke bundle of lines 180-184: an object with exactly the keys
   * colors, weight and align. A nil stroke slice marshals as null, a present
   * one (even empty) as an array.
   */
  function StrokeBundle(n: FigmaNode): (r: Json)
    ensures r.JObj? && r.fields.Keys == {"colors", "weight", "align"}
    ensures r.fields["weight"] == JNum(n.strokeWeight) && r.fields["align"] == JStr(n.strokeAlign)
    ensures n.strokes.None? ==> r.fields["colors"] == JNull
    ensures n.strokes.Some? ==> r.fields["colors"] == JArr(n.strokes.value)
  {
    JObj(map["colors" := StrokeColors(n), "weight" := JNum(n.strokeWeight), "align" := JStr(n.strokeAlign)])
  }

  /**
   * The value a node interns for a category, if any: the text-style map
   * when non-empty, the fills when non-empty, the stroke bundle when there
   * are strokes or a positive weight, the effects when non-empty.
   */
  function Fragment(n: FigmaNode, c: Category): (r: Option<Json>)
    ensures c == StrokeCat ==> (r.Some? <==> StrokeCount(n) > 0 || n.strokeWeight > 0.0)
    ensures c != StrokeCat && r.Some? ==> r.value.JObj? || r.value.JArr?
    ensures c == TextStyleCat ==> (r.Some? <==> |n.style| > 0)
    ensures c == FillCat ==> (r.Some? <==> |n.fills| > 0)
    ensures c == EffectCat ==> (r.Some? <==> |n.effects| > 0)
  {
    match c
    case TextStyleCat => if |n.style| > 0 then Some(JObj(n.style)) else None
    case FillCat => if |n.fills| > 0 then Some(JArr(n.fills)) else None
    case StrokeCat => if StrokeCount(n) > 0 || n.strokeWeight > 0.0 then Some(StrokeBundle(n)) else None
    case EffectCat => if |n.effects| > 0 then Some(JArr(n.effects)) else None
  }

  /** The reference a simplified node holds for a category. */
  function RefOf(s: SimplifiedNode, c: Category): Option<string> {
    match c
    case TextStyleCat => s.textStyle
    case FillCat => s.fills
    case StrokeCat => s.strokes
    case EffectCat => s.effects
  }

  /** A key the simplifier can create: some category's prefix and a six-letter suffix. */
  predicate IsStyleKey(k: string) {
    exists c :: c in Categories && IsVarId(k, Prefix(c))
  }

  /** The invariant of the style table throughout one build. */
  predicate WellFormed(t: Table) {
    && DistinctKeys(t)
    && Deduplicated(t)
    && forall i :: 0 <= i < |t| ==> IsStyleKey(t[i].key)
  }

  // ---------------------------------------------------------------------
  // Fields that do not touch the table, lines 159-168 and 192-233
  // ---------------------------------------------------------------------

  /** Lines 166-168. */
  function TextOf(n: FigmaNode): (r: Option<string>)
    ensures r.Some? <==> n.characters != ""
    ensures r.Some? ==> r.value == n.characters
  {
    if n.characters != "" then Some(n.characters) else None
  }

  /** Lines 193-195: opacity is kept only when present and not fully opaque. */
  function OpacityOf(n: FigmaNode): (r: Option<real>)
    ensures r.Some? <==> n.opacity.Some? && n.opacity.value != 1.0
    ensures r.Some? ==> r == n.opacity
  {
    if n.opacity.Some? && n.opacity.value != 1.0 then n.opacity else None
  }

  /**
   * Lines 198-204: a uniform radius wins; otherwise exactly four corner
   * radii give a four-value string, and any other count gives none.
   */
  function BorderRadiusOf(n: FigmaNode): (r: Option<string>)
    ensures n.cornerRadius.Some? ==> r.Some? && ParsePx(r.value) == Some(RoundToInt(n.cornerRadius.value))
    ensures n.cornerRadius.None? ==> (r.Some? <==> |n.rectangleCornerRadii| == 4)
    ensures n.cornerRadius.None? && r.Some? ==>
      ParsePxList(r.value) == Some(RoundAll(n.rectangleCornerRadii))
  {
    if n.cornerRadius.Some? then
      PxRoundTrip(n.cornerRadius.value);
      Some(Px(n.cornerRadius.value))
    else if |n.rectangleCornerRadii| == 4 then
      Some(PxList(n.rectangleCornerRadii))
    else None
  }

  /** Lines 207-212: the layout record, attached exactly when a trigger is present. */
  function LayoutOf(n: FigmaNode): (r: Option<Layout>)
    ensures r.Some? <==> HasLayoutProperties(n)
    ensures r.Some? ==> (r.value.padding.Some? <==> AllPadding(n))
  {
    if HasLayoutProperties(n) then Some(BuildLayout(n)) else None
  }

  /** Lines 215-217. */
  function ComponentIdOf(n: FigmaNode): (r: Option<string>)
    ensures r.Some? <==> n.componentId != ""
    ensures r.Some? ==> r.value == n.componentId
  {
    if n.componentId != "" then Some(n.componentId) else None
  }

  /** `%v` of `m[key]`, or "" when the key is missing (lines 224-229). */
  function FieldText(m: map<string, Json>, key: string): string {
    if key in m then ToStr(m[key]) else ""
  }

  /** The triple lines 223-229 build from one property entry. */
  function PropOf(entry: (string, Json)): ComponentProperty
    requires entry.1.JObj?
  {
    ComponentProperty(entry.0, FieldText(entry.1.fields, "value"), FieldText(entry.1.fields, "type"))
  }

  /**
   * Lines 220-233: one name/value/type triple per entry that is itself an
   * object, in the order the map is visited; other entries are skipped.
   */
  function ComponentProps(props: seq<(string, Json)>): (r: seq<ComponentProperty>)
    ensures |r| <= |props|
    ensures (forall i :: 0 <= i < |props| ==> props[i].1.JObj?) ==> |r| == |props|
    ensures (forall i :: 0 <= i < |props| ==> !props[i].1.JObj?) ==> r == []
  {
    if props == [] then []
    else
      var rest := ComponentProps(props[1..]);
      if props[0].1.JObj? then [PropOf(props[0])] + rest else rest
  }

  /**
   * The properties are exactly the triples of the object-valued entries:
   * each output comes from one, and each one gives an output.
   */
  lemma {:induction false} ComponentPropsExact(props: seq<(string, Json)>)
    ensures forall p :: p in ComponentProps(props) ==>
      exists i :: 0 <= i < |props| && props[i].1.JObj? && p == PropOf(props[i])
    ensures forall i :: 0 <= i < |props| && props[i].1.JObj? ==> PropOf(props[i]) in ComponentProps(props)
  {
    if props != [] {
      var tail := props[1..];
      ComponentPropsExact(tail);
      var rest := ComponentProps(tail);
      forall p | p in ComponentProps(props)
        ensures exists i :: 0 <= i < |props| && props[i].1.JObj? && p == PropOf(props[i])
      {
        if p in rest {
          var j :| 0 <= j < |tail| && tail[j].1.JObj? && p == PropOf(tail[j]);
          assert props[j + 1] == tail[j];
        } else {
          assert props[0].1.JObj? && p == PropOf(props[0]);
        }
      }
      forall i | 0 <= i < |props| && props[i].1.JObj? ensures PropOf(props[i]) in ComponentProps(props) {
        if i > 0 {
          assert props[i] == tail[i - 1];
        }
      }
    }
  }

  /** Lines 247-249. */
  function RewriteType(nodeType: string): (r: string)
    ensures nodeType == "VECTOR" <==> r == "IMAGE-SVG" && nodeType != "IMAGE-SVG"
    ensures nodeType != "VECTOR" ==> r == nodeType
  {
    if nodeType == "VECTOR" then "IMAGE-SVG" else nodeType
  }

  // ---------------------------------------------------------------------
  // One node's own fields, lines 159-233
  // ---------------------------------------------------------------------

  /** findOrCreateVar for a fragment that may be absent (the `if len(...) > 0` guards). */
  function Intern(frag: Option<Json>, prefix: string, t: Table): (r: (Option<string>, Table))
    requires |t| < IdSpace
    ensures r.0.Some? <==> frag.Some?
    ensures t <= r.1 && |r.1| <= |t| + 1
  {
    match frag
    case None => (None, t)
    case Some(v) =>
      RoomForId(t, prefix);
      var (k, t') := FindOrCreateVar(t, v, prefix);
      (Some(k), t')
  }

  /**
   * Every field of the simplified node except its children, with the type
   * still as in the source; the four fragments are interned in the source's
   * order: text style, fills, strokes, effects.
   */
  function SimplifyFields(n: FigmaNode, t: Table): (r: (SimplifiedNode, Table))
    requires |t| + 4 <= IdSpace
    ensures t <= r.1 && |r.1| <= |t| + 4
    ensures r.0.children == []
  {
    var (textStyle, t1) := Intern(Fragment(n, TextStyleCat), Prefix(TextStyleCat), t);
    var (fills, t2) := Intern(Fragment(n, FillCat), Prefix(FillCat), t1);
    var (strokes, t3) := Intern(Fragment(n, StrokeCat), Prefix(StrokeCat), t2);
    var (effects, t4) := Intern(Fragment(n, EffectCat), Prefix(EffectCat), t3);
    var s := SimplifiedNode(
      id := n.id,
      name := n.name,
      nodeType := n.nodeType,
      text := TextOf(n),
      textStyle := textStyle,
      fills := fills,
      strokes := strokes,
      effects := effects,
      opacity := OpacityOf(n),
      borderRadius := BorderRadiusOf(n),
      layout := LayoutOf(n),
      componentId := ComponentIdOf(n),
      componentProperties := ComponentProps(n.componentProperties),
      children := []);
    (s, t4)
  }

  // ---------------------------------------------------------------------
  // The walk, lines 235-251
  // ---------------------------------------------------------------------

  /** The number of nodes of a subtree, visible or not. */
  function Count(n: FigmaNode): nat
    decreases n
  {
    1 + CountAll(n.children)
  }

  function CountAll(cs: seq<FigmaNode>): nat
    decreases cs
  {
    if cs == [] then 0 else Count(cs[0]) + CountAll(cs[1..])
  }

  /**
   * parseNode: the node's own fields, then its visible children in order,
   * then the VECTOR rewrite. Each node adds at most four entries, so a table
   * with room for four per node never exhausts the identifier space.
   */
  function ParseNode(n: FigmaNode, t: Table): (r: (SimplifiedNode, Table))
    requires |t| + 4 * Count(n) <= IdSpace
    ensures t <= r.1 && |r.1| <= |t| + 4 * Count(n)
    decreases n
  {
    var (fields, t1) := SimplifyFields(n, t);
    var (kids, t2) := ParseChildren(n.children, t1);
    (fields.(children := kids, nodeType := RewriteType(n.nodeType)), t2)
  }

  /** The loop of lines 237-243: visible children only, left to right. */
  function ParseChildren(cs: seq<FigmaNode>, t: Table): (r: (seq<SimplifiedNode>, Table))
    requires |t| + 4 * CountAll(cs) <= IdSpace
    ensures t <= r.1 && |r.1| <= |t| + 4 * CountAll(cs)
    ensures |r.0| == |Visible(cs)|
    decreases cs
  {
    if cs == [] then ([], t)
    else if !IsVisible(cs[0]) then ParseChildren(cs[1..], t)
    else
      var (c, t1) := ParseNode(cs[0], t);
      var (rest, t2) := ParseChildren(cs[1..], t1);
      ([c] + rest, t2)
  }

  // ---------------------------------------------------------------------
  // Reference definitions the walk is proved against
  // ---------------------------------------------------------------------

  /**
   * The simplified tree with every style reference left out, defined
   * without any table: the visible children mapped one by one.
   */
  function Outline(n: FigmaNode): SimplifiedNode
    decreases n
  {
    var vs := Visible(n.children);
    VisibleMembers(n.children);
    SimplifiedNode(
      id := n.id,
      name := n.name,
      nodeType := RewriteType(n.nodeType),
      text := TextOf(n),
      textStyle := None,
      fills := None,
      strokes := None,
      effects := None,
      opacity := OpacityOf(n),
      borderRadius := BorderRadiusOf(n),
      layout := LayoutOf(n),
      componentId := ComponentIdOf(n),
      componentProperties := ComponentProps(n.componentProperties),
      children := seq(|vs|, i requires 0 <= i < |vs| => assert vs[i] in n.children; Outline(vs[i])))
  }

  /** A simplified tree with its style references dropped. */
  function Erase(s: SimplifiedNode): SimplifiedNode
    decreases s
  {
    s.(textStyle := None, fills := None, strokes := None, effects := None,
       children := seq(|s.children|, i requires 0 <= i < |s.children| => Erase(s.children[i])))
  }

  /** Each reference is present exactly when the node has that fragment, and names it in `t`. */
  predicate RefMatches(s: SimplifiedNode, n: FigmaNode, t: Table, c: Category) {
    && (RefOf(s, c).Some? <==> Fragment(n, c).Some?)
    && (RefOf(s, c).Some? ==> Get(t, RefOf(s, c).value) == Fragment(n, c))
  }

  predicate RefsMatch(s: SimplifiedNode, n: FigmaNode, t: Table) {
    && RefMatches(s, n, t, TextStyleCat)
    && RefMatches(s, n, t, FillCat)
    && RefMatches(s, n, t, StrokeCat)
    && RefMatches(s, n, t, EffectCat)
  }

  /**
   * `s` simplifies `n` as far as the table is concerned: its references
   * resolve in `t` to `n`'s fragments, and its children do the same for
   * the visible children of `n`, in order.
   */
  predicate Faithful(s: SimplifiedNode, n: FigmaNode, t: Table)
    decreases n
  {
    RefsMatch(s, n, t) && FaithfulAll(s.children, n.children, t)
  }

  predicate FaithfulAll(ss: seq<SimplifiedNode>, cs: seq<FigmaNode>, t: Table)
    decreases cs
  {
    if cs == [] then ss == []
    else if !IsVisible(cs[0]) then FaithfulAll(ss, cs[1..], t)
    else |ss| > 0 && Faithful(ss[0], cs[0], t) && FaithfulAll(ss[1..], cs[1..], t)
  }

  /** The fragments of one node. */
  function LocalFragments(n: FigmaNode): set<Json> {
    set c | c in Categories && Fragment(n, c).Some? :: Fragment(n, c).value
  }

  /** The fragments of a node and of its visible descendants. */
  function Fragments(n: FigmaNode): set<Json>
    decreases n
  {
    LocalFragments(n) + FragmentsAll(n.children)
  }

  function FragmentsAll(cs: seq<FigmaNode>): set<Json>
    decreases cs
  {
    if cs == [] then {}
    else (if IsVisible(cs[0]) then Fragments(cs[0]) else {}) + FragmentsAll(cs[1..])
  }

  /** Entries `t'` holds beyond `t` keep within a set of values. */
  predicate NewValuesIn(t: Table, t': Table, values: set<Json>)
    requires t <= t'
  {
    forall i :: |t| <= i < |t'| ==> t'[i].value in values
  }
}
