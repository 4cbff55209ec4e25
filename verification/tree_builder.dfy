/**
 * The two entry points that turn a decoded API response into a simplified
 * design (figma/client.go:88-155): the whole-document form and the node-set
 * form. Decoding the JSON body is not modelled; both start from the decoded
 * response.
 *
 * In the node-set form the source ranges twice over the response's node map,
 * once to merge component maps and once to simplify the documents. Go leaves
 * the order of each range unspecified, so each order is a parameter here:
 * any enumeration of the map's keys.
 */
module TreeBuilder {
  import opened JsonValue
  import opened Types
  import opened VarId
  import opened StyleTable
  import opened Simplifier
  import opened SimplifierProofs

  /** types/figma.go:5-13; `globalVars` is the one style table of the build. */
  datatype SimplifiedDesign = SimplifiedDesign(
    name: string,
    lastModified: string,
    thumbnailUrl: string,
    nodes: seq<SimplifiedNode>,
    components: map<string, Json>,
    componentSets: map<string, Json>,
    globalVars: Table)

  // ---------------------------------------------------------------------
  // Whole-document form, lines 88-113
  // ---------------------------------------------------------------------

  /**
   * The document root itself is not simplified: its visible children are,
   * in order, all against one table that starts empty.
   */
  function BuildFromFile(resp: FileResponse): (d: SimplifiedDesign)
    requires 4 * CountAll(resp.document.children) <= IdSpace
    ensures d.name == resp.name && d.lastModified == resp.lastModified && d.thumbnailUrl == resp.thumbnailUrl
    ensures d.components == resp.components && d.componentSets == resp.componentSets
    ensures |d.nodes| == |Visible(resp.document.children)|
    ensures |d.globalVars| <= 4 * CountAll(resp.document.children)
  {
    var (nodes, styles) := ParseChildren(resp.document.children, []);
    SimplifiedDesign(resp.name, resp.lastModified, resp.thumbnailUrl, nodes,
                     resp.components, resp.componentSets, styles)
  }

  /**
   * A whole-document build: every top-level node is the outline of the
   * matching visible child with references that resolve in the design's
   * table, and the table holds exactly the distinct fragments of the
   * visible tree, each under one well-formed key.
   */
  lemma BuildFromFileSound(resp: FileResponse)
    requires 4 * CountAll(resp.document.children) <= IdSpace
    ensures var d := BuildFromFile(resp);
            && WellFormed(d.globalVars)
            && FaithfulAll(d.nodes, resp.document.children, d.globalVars)
            && (forall i :: 0 <= i < |d.nodes| ==> Erase(d.nodes[i]) == Outline(Visible(resp.document.children)[i]))
            && Values(d.globalVars) == FragmentsAll(resp.document.children)
            && |d.globalVars| == |FragmentsAll(resp.document.children)|
  {
    var cs := resp.document.children;
    assert WellFormed([]);
    ParseChildrenSound(cs, []);
    ParseChildrenOutline(cs, []);
    ChildrenTableExact(cs);
  }

  /**
   * One table per build: across all the top-level nodes of a whole-document
   * design, two style references anywhere are the same key exactly when
   * their fragments are equal.
   */
  lemma FileDeduplicated(resp: FileResponse, p: (SimplifiedNode, FigmaNode), c1: Category,
                         q: (SimplifiedNode, FigmaNode), c2: Category)
    requires 4 * CountAll(resp.document.children) <= IdSpace
    requires var d := BuildFromFile(resp);
             p in NodePairsAll(d.nodes, resp.document.children)
             && q in NodePairsAll(d.nodes, resp.document.children)
    requires Fragment(p.1, c1).Some? && Fragment(q.1, c2).Some?
    ensures var d := BuildFromFile(resp);
            && RefOf(p.0, c1).Some?
            && Get(d.globalVars, RefOf(p.0, c1).value) == Fragment(p.1, c1)
            && (RefOf(p.0, c1) == RefOf(q.0, c2) <==> Fragment(p.1, c1) == Fragment(q.1, c2))
  {
    var d := BuildFromFile(resp);
    BuildFromFileSound(resp);
    FaithfulEverywhereAll(d.nodes, resp.document.children, d.globalVars);
    ReferencesShareIffEqual(p.0, p.1, c1, q.0, q.1, c2, d.globalVars);
  }

  // ---------------------------------------------------------------------
  // Node-set form, lines 116-155
  // ---------------------------------------------------------------------

  /** `order` lists every key of `keys` exactly once: one possible range order. */
  predicate Enumerates(order: seq<string>, keys: set<string>) {
    && (forall i, j :: 0 <= i < j < |order| ==> order[i] != order[j])
    && (forall k :: k in keys ==> k in order)
    && (forall i :: 0 <= i < |order| ==> order[i] in keys)
  }

  /** The wrappers' documents in the given order. */
  function Documents(nodes: map<string, NodeWrapper>, order: seq<string>): (r: seq<FigmaNode>)
    requires forall i :: 0 <= i < |order| ==> order[i] in nodes
    ensures |r| == |order|
    ensures forall i :: 0 <= i < |order| ==> r[i] == nodes[order[i]].document
  {
    seq(|order|, i requires 0 <= i < |order| => nodes[order[i]].document)
  }

  /**
   * Copying the maps into one, in order, entry by entry (lines 131-139):
   * a later map overwrites what an earlier one put under the same key.
   */
  function MergeMaps(ms: seq<map<string, Json>>): (r: map<string, Json>)
    ensures forall k :: k in r ==> exists i :: 0 <= i < |ms| && k in ms[i]
  {
    if ms == [] then map[] else MergeMaps(ms[..|ms| - 1]) + ms[|ms| - 1]
  }

  /**
   * Last write wins: a key is in the merge exactly when some map has it,
   * and its value is the one from the last map that has it.
   */
  lemma {:induction false} MergeLastWins(ms: seq<map<string, Json>>, k: string, i: nat)
    requires i < |ms| && k in ms[i]
    requires forall j :: i < j < |ms| ==> k !in ms[j]
    ensures k in MergeMaps(ms) && MergeMaps(ms)[k] == ms[i][k]
  {
    if i < |ms| - 1 {
      MergeLastWins(ms[..|ms| - 1], k, i);
    }
  }

  /** When the maps agree on every key they share, the order of the merge does not matter. */
  lemma MergeAgreeing(ms: seq<map<string, Json>>, k: string, i: nat)
    requires i < |ms| && k in ms[i]
    requires forall a, b :: 0 <= a < |ms| && 0 <= b < |ms| && k in ms[a] && k in ms[b] ==> ms[a][k] == ms[b][k]
    ensures k in MergeMaps(ms) && MergeMaps(ms)[k] == ms[i][k]
  {
    var last :| i <= last < |ms| && k in ms[last] && forall j :: last < j < |ms| ==> k !in ms[j] by {
      LastHolder(ms, k, i);
    }
    MergeLastWins(ms, k, last);
  }

  /** A key that some map holds is in the merge. */
  lemma MergeHasKey(ms: seq<map<string, Json>>, k: string, i: nat)
    requires i < |ms| && k in ms[i]
    ensures k in MergeMaps(ms)
  {
    LastHolder(ms, k, i);
    var last :| i <= last < |ms| && k in ms[last] && forall j :: last < j < |ms| ==> k !in ms[j];
    MergeLastWins(ms, k, last);
  }

  /** Some map at or after `i` is the last one holding `k`. */
  lemma {:induction false} LastHolder(ms: seq<map<string, Json>>, k: string, i: nat)
    requires i < |ms| && k in ms[i]
    ensures exists last :: i <= last < |ms| && k in ms[last] && forall j :: last < j < |ms| ==> k !in ms[j]
    decreases |ms| - i
  {
    if exists j :: i < j < |ms| && k in ms[j] {
      var j :| i < j < |ms| && k in ms[j];
      LastHolder(ms, k, j);
    } else {
      assert forall j :: i < j < |ms| ==> k !in ms[j];
    }
  }

  function ComponentMaps(nodes: map<string, NodeWrapper>, order: seq<string>): (r: seq<map<string, Json>>)
    requires forall i :: 0 <= i < |order| ==> order[i] in nodes
    ensures |r| == |order|
    ensures forall i :: 0 <= i < |order| ==> r[i] == nodes[order[i]].components
  {
    seq(|order|, i requires 0 <= i < |order| => nodes[order[i]].components)
  }

  function ComponentSetMaps(nodes: map<string, NodeWrapper>, order: seq<string>): (r: seq<map<string, Json>>)
    requires forall i :: 0 <= i < |order| ==> order[i] in nodes
    ensures |r| == |order|
    ensures forall i :: 0 <= i < |order| ==> r[i] == nodes[order[i]].componentSets
  {
    seq(|order|, i requires 0 <= i < |order| => nodes[order[i]].componentSets)
  }

  /**
   * The node-set form: components and component sets are merged from the
   * wrappers (the response's top-level maps are not used), then each
   * visible wrapped document is simplified, in `parseOrder`, against one
   * shared table that starts empty.
   */
  function BuildFromNodes(resp: NodeResponse, mergeOrder: seq<string>, parseOrder: seq<string>): (d: SimplifiedDesign)
    requires Enumerates(mergeOrder, resp.nodes.Keys)
    requires Enumerates(parseOrder, resp.nodes.Keys)
    requires 4 * CountAll(Documents(resp.nodes, parseOrder)) <= IdSpace
    ensures d.name == resp.name && d.lastModified == resp.lastModified && d.thumbnailUrl == resp.thumbnailUrl
    ensures forall k :: k in d.components <==> exists id :: id in resp.nodes && k in resp.nodes[id].components
    ensures forall k :: k in d.componentSets <==> exists id :: id in resp.nodes && k in resp.nodes[id].componentSets
    ensures |d.nodes| == |Visible(Documents(resp.nodes, parseOrder))|
  {
    var components := MergeMaps(ComponentMaps(resp.nodes, mergeOrder));
    var componentSets := MergeMaps(ComponentSetMaps(resp.nodes, mergeOrder));
    MergedKeys(resp.nodes, mergeOrder);
    var (nodes, styles) := ParseChildren(Documents(resp.nodes, parseOrder), []);
    SimplifiedDesign(resp.name, resp.lastModified, resp.thumbnailUrl, nodes, components, componentSets, styles)
  }

  /** The merged maps' keys are the union of the wrappers' keys. */
  lemma MergedKeys(nodes: map<string, NodeWrapper>, order: seq<string>)
    requires Enumerates(order, nodes.Keys)
    ensures forall k :: k in MergeMaps(ComponentMaps(nodes, order)) <==>
      exists id :: id in nodes && k in nodes[id].components
    ensures forall k :: k in MergeMaps(ComponentSetMaps(nodes, order)) <==>
      exists id :: id in nodes && k in nodes[id].componentSets
  {
    var cm, sm := ComponentMaps(nodes, order), ComponentSetMaps(nodes, order);
    forall k | exists id :: id in nodes && k in nodes[id].components
      ensures k in MergeMaps(cm)
    {
      var id :| id in nodes && k in nodes[id].components;
      var i :| 0 <= i < |order| && order[i] == id;
      assert k in cm[i];
      MergeHasKey(cm, k, i);
    }
    forall k | exists id :: id in nodes && k in nodes[id].componentSets
      ensures k in MergeMaps(sm)
    {
      var id :| id in nodes && k in nodes[id].componentSets;
      var i :| 0 <= i < |order| && order[i] == id;
      assert k in sm[i];
      MergeHasKey(sm, k, i);
    }
  }

  /**
   * Each merged component is the one from the wrapper that the merge
   * visited last among those holding its key.
   */
  lemma BuildFromNodesComponents(resp: NodeResponse, mergeOrder: seq<string>, parseOrder: seq<string>, k: string, i: nat)
    requires Enumerates(mergeOrder, resp.nodes.Keys)
    requires Enumerates(parseOrder, resp.nodes.Keys)
    requires 4 * CountAll(Documents(resp.nodes, parseOrder)) <= IdSpace
    requires i < |mergeOrder| && k in resp.nodes[mergeOrder[i]].components
    requires forall j :: i < j < |mergeOrder| ==> k !in resp.nodes[mergeOrder[j]].components
    ensures BuildFromNodes(resp, mergeOrder, parseOrder).components[k] == resp.nodes[mergeOrder[i]].components[k]
  {
    MergeLastWins(ComponentMaps(resp.nodes, mergeOrder), k, i);
  }

  /**
   * Each merged component set is the one from the wrapper that the merge
   * visited last among those holding its key.
   */
  lemma BuildFromNodesComponentSets(resp: NodeResponse, mergeOrder: seq<string>, parseOrder: seq<string>, k: string, i: nat)
    requires Enumerates(mergeOrder, resp.nodes.Keys)
    requires Enumerates(parseOrder, resp.nodes.Keys)
    requires 4 * CountAll(Documents(resp.nodes, parseOrder)) <= IdSpace
    requires i < |mergeOrder| && k in resp.nodes[mergeOrder[i]].componentSets
    requires forall j :: i < j < |mergeOrder| ==> k !in resp.nodes[mergeOrder[j]].componentSets
    ensures BuildFromNodes(resp, mergeOrder, parseOrder).componentSets[k] == resp.nodes[mergeOrder[i]].componentSets[k]
  {
    MergeLastWins(ComponentSetMaps(resp.nodes, mergeOrder), k, i);
  }

  /**
   * A node-set build: each top-level node is the outline of the matching
   * visible document, references resolve in the one shared table, and the
   * table holds exactly the distinct fragments of all visible documents.
   */
  lemma BuildFromNodesSound(resp: NodeResponse, mergeOrder: seq<string>, parseOrder: seq<string>)
    requires Enumerates(mergeOrder, resp.nodes.Keys)
    requires Enumerates(parseOrder, resp.nodes.Keys)
    requires 4 * CountAll(Documents(resp.nodes, parseOrder)) <= IdSpace
    ensures var d := BuildFromNodes(resp, mergeOrder, parseOrder);
            var docs := Documents(resp.nodes, parseOrder);
            && WellFormed(d.globalVars)
            && FaithfulAll(d.nodes, docs, d.globalVars)
            && (forall i :: 0 <= i < |d.nodes| ==> Erase(d.nodes[i]) == Outline(Visible(docs)[i]))
            && Values(d.globalVars) == FragmentsAll(docs)
            && |d.globalVars| == |FragmentsAll(docs)|
  {
    var docs := Documents(resp.nodes, parseOrder);
    assert WellFormed([]);
    ParseChildrenSound(docs, []);
    ParseChildrenOutline(docs, []);
    ChildrenTableExact(docs);
  }

  /**
   * One table per build: across all the top-level nodes of a node-set
   * design, two style references anywhere are the same key exactly when
   * their fragments are equal.
   */
  lemma DesignDeduplicated(resp: NodeResponse, mergeOrder: seq<string>, parseOrder: seq<string>,
                           p: (SimplifiedNode, FigmaNode), c1: Category, q: (SimplifiedNode, FigmaNode), c2: Category)
    requires Enumerates(mergeOrder, resp.nodes.Keys)
    requires Enumerates(parseOrder, resp.nodes.Keys)
    requires 4 * CountAll(Documents(resp.nodes, parseOrder)) <= IdSpace
    requires var d := BuildFromNodes(resp, mergeOrder, parseOrder);
             p in NodePairsAll(d.nodes, Documents(resp.nodes, parseOrder))
             && q in NodePairsAll(d.nodes, Documents(resp.nodes, parseOrder))
    requires Fragment(p.1, c1).Some? && Fragment(q.1, c2).Some?
    ensures var d := BuildFromNodes(resp, mergeOrder, parseOrder);
            && RefOf(p.0, c1).Some?
            && Get(d.globalVars, RefOf(p.0, c1).value) == Fragment(p.1, c1)
            && (RefOf(p.0, c1) == RefOf(q.0, c2) <==> Fragment(p.1, c1) == Fragment(q.1, c2))
  {
    var d := BuildFromNodes(resp, mergeOrder, parseOrder);
    BuildFromNodesSound(resp, mergeOrder, parseOrder);
    FaithfulEverywhereAll(d.nodes, Documents(resp.nodes, parseOrder), d.globalVars);
    ReferencesShareIffEqual(p.0, p.1, c1, q.0, q.1, c2, d.globalVars);
  }
}
