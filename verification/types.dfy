/**
 * The records of types/figma.go: the raw node tree the design API returns,
 * the two response shapes, and the simplified tree the engine produces.
 *
 * Go's conventions carry over as follows. A pointer field (`*float64`,
 * `*bool`, `*BoundingBox`) is an `Option`. A string field whose zero value
 * means "absent" stays a string and "absent" is `""`. A Go map whose
 * iteration order the code observes (`ComponentProperties`) is a sequence of
 * entries in that iteration order; one whose order is never observed is a
 * `map`.
 */
module Types {
  import opened Wrappers
  import opened JsonValue

  datatype BoundingBox = BoundingBox(x: real, y: real, width: real, height: real)

  /** types/figma.go:103-140, one raw design node. */
  datatype FigmaNode = FigmaNode(
    id: string,
    name: string,
    nodeType: string,
    visible: Option<bool>,
    absoluteBoundingBox: Option<BoundingBox>,
    characters: string,
    style: map<string, Json>,
    fills: seq<Json>,
    /** None when the document has no (or a null) `strokes` array. */
    strokes: Option<seq<Json>>,
    strokeWeight: real,
    strokeAlign: string,
    effects: seq<Json>,
    opacity: Option<real>,
    cornerRadius: Option<real>,
    rectangleCornerRadii: seq<real>,
    componentId: string,
    /** The component-property map, in the order a range loop visits it. */
    componentProperties: seq<(string, Json)>,
    children: seq<FigmaNode>,
    layoutMode: string,
    primaryAxisAlignItems: string,
    counterAxisAlignItems: string,
    layoutAlign: string,
    layoutWrap: string,
    itemSpacing: Option<real>,
    paddingTop: Option<real>,
    paddingRight: Option<real>,
    paddingBottom: Option<real>,
    paddingLeft: Option<real>,
    layoutSizingHorizontal: string,
    layoutSizingVertical: string,
    layoutPositioning: string,
    layoutGrow: Option<real>,
    overflowDirection: seq<string>,
    preserveRatio: bool)

  /** A node with the given identity and every optional field absent. */
  function BareNode(id: string, name: string, nodeType: string): (n: FigmaNode)
    ensures n.id == id && n.name == name && n.nodeType == nodeType
    ensures n.visible.None? && n.children == []
  {
    FigmaNode(id, name, nodeType, None, None, "", map[], [], None, 0.0, "", [], None, None, [], "", [], [],
              "", "", "", "", "", None, None, None, None, None, "", "", "", None, [], false)
  }

  /** types/figma.go:97-101, one requested subtree of a node-set response. */
  datatype NodeWrapper = NodeWrapper(
    document: FigmaNode,
    components: map<string, Json>,
    componentSets: map<string, Json>)

  /** types/figma.go:79-86, the whole-document response. */
  datatype FileResponse = FileResponse(
    name: string,
    lastModified: string,
    thumbnailUrl: string,
    document: FigmaNode,
    components: map<string, Json>,
    componentSets: map<string, Json>)

  /** types/figma.go:88-95, the node-set response, keyed by requested node id. */
  datatype NodeResponse = NodeResponse(
    name: string,
    lastModified: string,
    thumbnailUrl: string,
    nodes: map<string, NodeWrapper>,
    components: map<string, Json>,
    componentSets: map<string, Json>)

  /** A layout's position or size pair, copied from the bounding box. */
  datatype Pair = Pair(first: real, second: real)

  datatype Sizing = Sizing(horizontal: Option<string>, vertical: Option<string>)

  /**
   * The layout map buildLayoutData fills (figma/client.go:255-369), one
   * optional field per key it may set; `mode` is always set.
   */
  datatype Layout = Layout(
    mode: string,
    justifyContent: Option<string>,
    alignItems: Option<string>,
    alignSelf: Option<string>,
    wrap: Option<bool>,
    gap: Option<string>,
    locationRelativeToParent: Option<Pair>,
    dimensions: Option<Pair>,
    padding: Option<string>,
    sizing: Option<Sizing>,
    overflowScroll: Option<seq<string>>,
    position: Option<string>)

  /** types/figma.go:40-44. */
  datatype ComponentProperty = ComponentProperty(name: string, value: string, propType: string)

  /** types/figma.go:15-31, one node of the compact tree. */
  datatype SimplifiedNode = SimplifiedNode(
    id: string,
    name: string,
    nodeType: string,
    text: Option<string>,
    textStyle: Option<string>,
    fills: Option<string>,
    strokes: Option<string>,
    effects: Option<string>,
    opacity: Option<real>,
    borderRadius: Option<string>,
    layout: Option<Layout>,
    componentId: Option<string>,
    componentProperties: seq<ComponentProperty>,
    children: seq<SimplifiedNode>)
}
