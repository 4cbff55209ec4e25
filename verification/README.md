# Figma tree simplifier and style interner, in Dafny

This project models the core of a Go server that turns Figma design
documents into a compact tree for language-model tools. Two parts are
modelled. The first is the node simplifier, `parseNode` in
`figma/client.go`. It walks the raw node tree, drops hidden nodes and keeps
a few fields verbatim. It rewrites `VECTOR` nodes to `IMAGE-SVG`. It turns
alignment enums, padding, sizing and overflow into a CSS-like layout record.
It moves every style fragment into one shared style table: the text style,
the fills, a stroke bundle and the effects. The second part is the style
interner, `findOrCreateVar` / `generateVarId`. It stores each distinct
fragment once, under a fresh key `prefix_XXXXXX`. It returns the existing
key when an equal fragment is already stored. Around these sit the two entry
points, `parseFigmaFileResponse` and `parseFigmaNodeResponse`. They run the
walk over a whole document or over a set of requested subtrees, with one
table per build. The node-set entry point also merges the component tables
of the subtrees.

Layout of the project:

- `wrappers.dfy`: `Option`.
- `json_value.dfy`: decoded JSON values.
- `format.dfy`: `%.0f` with `px` and space-separated `px` lists, each with a parser and a proved round trip; ASCII lower-casing; the `%v` text of property values.
- `var_id.dfy`: the identifier alphabet, the enumeration of suffixes, and the pigeonhole argument that a free identifier always exists.
- `types.dfy`: the records of `types/figma.go`, namely `FigmaNode`, `NodeWrapper`, the two response shapes, `SimplifiedNode`, the layout record and component properties.
- `style_table.dfy`: the table and the interner.
- `layout.dfy`: `hasLayoutProperties` and `buildLayoutData`.
- `simplifier.dfy`: `isVisible` and `parseNode`. It also holds the reference definitions the walk is proved against: `Outline`, a table-free simplified tree, and `Faithful`, "every reference resolves to its node's fragment".
- `simplifier_proofs.dfy`: what the walk guarantees.
- `tree_builder.dfy`: `SimplifiedDesign` and the two entry points.

Modelling conventions:

- **Style table.** The table is a sequence of entries. The sequence stands for one visiting order of the Go map, so "the first entry the range loop meets" is well defined. Once the table holds no duplicate value, which the interner maintains, the answer no longer depends on that order (`FindUnique`).
- **Equality of fragments.** The source compares fragments by their `json.Marshal` text. Marshal sorts map keys, and every decoded number is a float64, so equal text means structurally equal JSON. The model compares `Json` values structurally.
- **Random suffixes.** `rand.Intn` is replaced by a deterministic search through the suffixes. Suffix number `n` is `n` written with six base-62 digits. `CandidatesAreVarIds` proves that this enumeration produces exactly the identifiers the random generator can produce. The model therefore picks one identifier the source could have picked, not necessarily the same one.
- **Threading the table.** The Go walk mutates one map by reference. The model threads the table through the walk: each call returns the table with its new entries appended.

## Model

| member | source | states |
|---|---|---|
| VarId.AlphabetCharIsListed | figma/client.go:420 | letter number d of the suffix alphabet is character d of the source's 62-character literal |
| VarId.CandidatesAreVarIds | figma/client.go:423-426 | every enumerated candidate has the shape prefix, `_`, six alphabet characters; every string of that shape is some candidate |
| VarId.CandidateInjective | figma/client.go:423-426 | distinct suffix numbers give distinct identifiers |
| VarId.FreeCandidateExists | figma/client.go:422-431 | if fewer than 62^6 names are taken, some candidate is free, so the retry loop ends |
| StyleTable.Get | figma/client.go:428 | a key is found exactly when it is in the table, and what is found is stored under it |
| StyleTable.Find | figma/client.go:402-410 | the scan finds a key exactly when some entry holds the value, and that key holds it |
| StyleTable.FindUnique | figma/client.go:405-410 | in a table without duplicate values the scan returns the one key holding the value, whatever the visiting order |
| StyleTable.SameValueSameKey | figma/client.go:405-410 | in a well-formed table two keys holding the same value are the same key |
| StyleTable.RoomForId | figma/client.go:422-431 | a table with fewer than 62^6 entries leaves a free identifier under every prefix |
| StyleTable.GenerateVarId | figma/client.go:419-432 | the identifier has the shape prefix, `_`, six alphabet characters and is not yet a key of the table |
| StyleTable.FindOrCreateVar | figma/client.go:400-416 | a stored value returns its key and leaves the table unchanged; otherwise the value is appended under a new key of the identifier shape |
| StyleTable.FindOrCreateVarSound | figma/client.go:400-416 | keys and values stay distinct; the old entries are a prefix; the returned key maps to the value; as a Go map the table is the old one updated at that key only |
| StyleTable.DistinctValuesCount | figma/client.go:405-415 | a table without duplicate values holds as many distinct values as entries |
| StyleTable.AppendedValuesCount | figma/client.go:405-415 | a deduplicated extension that holds all of a set of values and adds only values from it grows by exactly the number of those values it lacked |
| Format.RoundHalfEven | figma/client.go:199 | the integer `%.0f` rounds to is within one half of the value, and ties go to the even neighbour |
| Format.FormatFixed0 | figma/client.go:199 | the `%.0f` text starts with `-` exactly for negative values; the rest is digits without a leading zero that denote the magnitude rounded half to even |
| Format.Px | figma/client.go:199 | the text ends in `px` and holds no space, so it is one token of a list |
| Format.PxRoundTrip | figma/client.go:199 | reading a `%.0fpx` string back gives the rounded value, with its sign |
| Format.PxList | figma/client.go:201-203 | reading the space-separated `%.0fpx` list back gives the rounded values, in order; a single value gives its `Px` text |
| Format.SplitJoin | figma/client.go:201-203 | splitting the joined list at spaces gives back its space-free tokens |
| Format.LowerProperties | figma/client.go:260 | lower-casing leaves no upper-case letter, changes nothing else, and is idempotent |
| Format.ToStr | figma/client.go:224-229 | the `%v` text of a string is the string; of a boolean `true` or `false` accordingly; of null `<nil>`; of an integral number, a sign exactly for negatives and digits that read back as the value |
| LayoutNormalizer.Translate | figma/client.go:266-305 | a raw enum value translates only to a case listed for it; it translates to nothing when no case lists it |
| LayoutNormalizer.TranslateExact | figma/client.go:266-305 | in a table without repeats, translation gives a word exactly when the pair is one of the switch's cases |
| LayoutNormalizer.TablesOneToOne | figma/client.go:266-366 | the four switch tables repeat neither a raw value nor a word |
| LayoutNormalizer.LayoutTranslations | figma/client.go:266-366 | justifyContent, alignItems, alignSelf and position are set exactly when the raw value is a listed case, to that case's word |
| LayoutNormalizer.Mode | figma/client.go:259-263 | the mode is `none` without a layout mode, else the layout mode lower-cased character by character, with no upper-case letter left |
| LayoutNormalizer.Wrap | figma/client.go:307-309 | wrap is present exactly when layoutWrap is set, and true exactly when it is `WRAP` |
| LayoutNormalizer.Padding | figma/client.go:328-337 | padding is emitted exactly when all four sides are present |
| LayoutNormalizer.PaddingReadsBack | figma/client.go:328-337 | four equal sides read back as one rounded value; otherwise top, right, bottom, left |
| LayoutNormalizer.UniformPaddingExample | figma/client.go:330-331 | four sides of 8 give `8px` |
| LayoutNormalizer.MixedPaddingExample | figma/client.go:332-334 | sides 8, 4, 8, 4 give `8px 4px 8px 4px` |
| LayoutNormalizer.SizingOf | figma/client.go:340-349 | sizing is present exactly when either direction is set; it holds exactly the set directions, each as its lower-cased raw value |
| LayoutNormalizer.OverflowScroll | figma/client.go:351-357 | overflow is present when directions are listed; each is lower-cased, in order |
| LayoutNormalizer.LayoutPassThrough | figma/client.go:311-325 | gap is the rounded item spacing; the absolute bounding box is copied into location and dimensions |
| LayoutNormalizer.HasLayoutProperties | figma/client.go:372-389 | a node without any trigger field would get only the default mode, so skipping it loses nothing |
| LayoutNormalizer.BuildLayout | figma/client.go:255-369 | the mode is the lower-cased layout mode or `none`; each translated field is a pair of its switch; wrap, gap, location, dimensions, padding, sizing and overflow are present exactly when their source fields are |
| LayoutNormalizer.TriggerWithoutContent | figma/client.go:372-389 | layoutGrow, a partial padding or an unknown alignment triggers a layout holding nothing but the default mode |
| Simplifier.IsVisible | figma/client.go:392-397 | a node is visible exactly when its flag is absent or true |
| Simplifier.Visible | figma/client.go:237-238 | filtering keeps no more children than it is given (which ones, and in what order, is stated by the next two rows) |
| Simplifier.VisibleMembers | figma/client.go:237-238 | the visible list holds exactly the visible children: every node in it is a visible child, and every visible child is in it |
| Simplifier.VisiblePositions | figma/client.go:237-243 | visible children keep their original order: strictly increasing positions, one per visible node, none for a hidden one |
| Simplifier.Fragment | figma/client.go:171-190 | text style, fills and effects are interned when non-empty; the stroke bundle is interned exactly when there are strokes or the weight is positive |
| Simplifier.TextOf | figma/client.go:166-168 | text is present exactly when the characters are non-empty, and equals them |
| Simplifier.OpacityOf | figma/client.go:193-195 | opacity is kept exactly when present and not 1.0 |
| Simplifier.BorderRadiusOf | figma/client.go:198-204 | a uniform radius wins and reads back as its rounded value; else exactly four corner radii give a four-value string reading back as the rounded corners |
| Simplifier.LayoutOf | figma/client.go:207-212 | a layout is attached exactly when the node has a layout trigger; it has padding exactly when all four sides are present |
| Simplifier.ComponentIdOf | figma/client.go:215-217 | the component id is present exactly when non-empty |
| Simplifier.StrokeBundle | figma/client.go:179-186 | the bundle is an object with exactly the keys colors, weight and align; colors is null without strokes, else the stroke list; weight and align are copied |
| Simplifier.ComponentProps | figma/client.go:220-233 | at most one property per entry; one per entry when every value is an object; none when no value is |
| Simplifier.ComponentPropsExact | figma/client.go:220-233 | every property is the name, `%v` value and `%v` type of some object-valued entry, and every object-valued entry gives one; other entries give none |
| Simplifier.RewriteType | figma/client.go:247-249 | the type becomes IMAGE-SVG exactly for VECTOR, and is otherwise unchanged |
| Simplifier.Intern | figma/client.go:171-190 | a reference is produced exactly when there is a fragment; the table only grows, by at most one entry |
| Simplifier.SimplifyFields | figma/client.go:159-233 | one node's own fields add at most four entries to the table, and only append |
| Simplifier.ParseNode | figma/client.go:158-252 | the walk only appends to the table, at most four entries per node |
| Simplifier.ParseChildren | figma/client.go:236-244 | one simplified node per visible child; the table only grows |
| SimplifierProofs.InternSound | figma/client.go:171-190 | interning keeps the table well-formed; the reference names the fragment; nothing else is added |
| SimplifierProofs.SimplifyFieldsSound | figma/client.go:171-190 | the four references resolve to the node's fragments; the table stays well-formed, holds them all and gains nothing else |
| SimplifierProofs.ParseNodeSound | figma/client.go:158-252 | at every visible depth each reference resolves to the fragment of the raw node it came from; the table stays well-formed, holds every visible fragment and gains nothing else |
| SimplifierProofs.ParseChildrenSound | figma/client.go:236-244 | the same for a sibling list, matching simplified nodes to visible children in order |
| SimplifierProofs.ParseNodeOutline | figma/client.go:158-252 | with references dropped, the result is the table-free outline: fields copied, VECTOR rewritten, visible children in order |
| SimplifierProofs.ParseChildrenOutline | figma/client.go:236-244 | the k-th simplified child is the outline of the k-th visible child |
| SimplifierProofs.ShapeIndependentOfTable | figma/client.go:158-252 | two runs from different tables differ only in reference names |
| SimplifierProofs.SkipInvisible | figma/client.go:237-238 | filtering hidden nodes out first changes neither the result nor the table |
| SimplifierProofs.TypeRewriteIsLast | figma/client.go:246-249 | a VECTOR node gives the same table and tree as any other type, except its own type reads IMAGE-SVG |
| SimplifierProofs.ReferencesShareIffEqual | figma/client.go:400-416 | two resolved references, from any categories, are equal exactly when their fragments are |
| SimplifierProofs.FaithfulEverywhere | figma/client.go:235-244 | resolution holds at every node of the simplified tree |
| SimplifierProofs.TreeDeduplicated | figma/client.go:171-190 | anywhere in one simplified tree, two references are the same key exactly when their fragments are equal |
| SimplifierProofs.TableGrowthExact | figma/client.go:400-416 | the table grows by exactly the number of distinct visible fragments it did not hold before |
| SimplifierProofs.ChildrenTableExact | figma/client.go:100-110 | from an empty table, the table ends up holding exactly the distinct visible fragments, one entry each |
| TreeBuilder.BuildFromFile | figma/client.go:88-113 | metadata and component tables are copied; one node per visible child of the document root |
| TreeBuilder.BuildFromFileSound | figma/client.go:88-113 | every top-level node is the outline of its visible child; its references resolve in the design's table, which holds exactly the distinct visible fragments |
| TreeBuilder.FileDeduplicated | figma/client.go:100-110 | across the whole document, two references are the same key exactly when their fragments are equal |
| TreeBuilder.MergeMaps | figma/client.go:131-143 | every merged key comes from some merged map |
| TreeBuilder.MergeLastWins | figma/client.go:131-143 | a key's merged value comes from the last map holding it |
| TreeBuilder.MergeAgreeing | figma/client.go:131-143 | when the maps agree on every shared key, the merged value is the value in any map holding the key, so the merge order does not matter |
| TreeBuilder.MergeHasKey | figma/client.go:131-143 | a key held by any merged map is in the merge |
| TreeBuilder.MergedKeys | figma/client.go:131-143 | the merged keys are exactly the union of the wrappers' keys |
| TreeBuilder.BuildFromNodes | figma/client.go:116-155 | metadata is copied; components and component sets are the union of the wrappers' tables, not the top-level ones; one node per visible document |
| TreeBuilder.BuildFromNodesComponents | figma/client.go:131-143 | each merged component is the one from the last wrapper the merge visits that holds its key |
| TreeBuilder.BuildFromNodesComponentSets | figma/client.go:138-142 | each merged component set is the one from the last wrapper the merge visits that holds its key |
| TreeBuilder.BuildFromNodesSound | figma/client.go:145-152 | every top-level node is the outline of its visible document; references resolve in the one shared table, which holds exactly the distinct visible fragments of all documents |
| TreeBuilder.DesignDeduplicated | figma/client.go:145-152 | across all requested subtrees, two references are the same key exactly when their fragments are equal |

## Left out

- Decoding the HTTP body and its decoding errors (lines 89-92 and 117-120) are left out. Both entry points start from the decoded response.
- The `parent` argument of `parseNode` and `buildLayoutData` is dropped, because neither function reads it.
- `parseNode` never returns nil, so the `node != nil` checks (lines 106, 148, 239) always pass and are not modelled.
- The `Styles` field of `SimplifiedNode` is never set by the source and is not modelled.
- The layout is kept as a record rather than its `json.Marshal` string. Marshal of this map cannot fail on decoded finite numbers, so the `err == nil` branch of line 209 always holds.
- Numbers are exact reals. Float64 rounding, `-0` and NaN are not modelled. Rounding follows `%.0f`: ties go to even, and the text for any negative value starts with `-`.
- ToStr (the `%v` of component-property values) is exact for strings, booleans, null and integral numbers of magnitude below 10^6. Other numbers, arrays and objects print as a fixed placeholder, because Go's `%g` and map formatting are not modelled.
- Lower is ASCII-only. `strings.ToLower` also folds non-ASCII letters.
- GenerateVarId: random draws are replaced by the first free suffix in base-62 order. The model promises only what the source promises: some identifier of the right shape that is not yet taken.
- ParseNode, ParseChildren, BuildFromFile and BuildFromNodes require room in the identifier space: 4 entries per node, up to 62^6 in all. The source would loop forever in `generateVarId` once a prefix's 62^6 identifiers are used up. A table cannot reach that size here.
- ComponentProps: the property map is a sequence in the order Go's range happens to visit it. The source's output order depends on that unspecified order.
- BuildFromNodes takes the two range orders over the node map (merge loop, parse loop) as parameters. Each must list every key once, and the two may differ. Which order Go picks is not modelled.
- BuildFromFile: an absent `components` map in a whole-document response is the empty map here, although Go would emit `null` for it.
- Image download, the HTTP client, the MCP tool layer and the server are not part of this model.

## Notes on the code

- **Node-set order.** `parseFigmaNodeResponse` ranges over the node map twice, once to merge component tables and once to build nodes. Go leaves both orders unspecified, so the model takes both as parameters, and a component key held by two wrappers takes the value from whichever the merge visits last.
- **Keys shared across categories.** The interner's scan compares values only and ignores the prefix. A fill list equal to an effect list therefore reuses the earlier key, whatever its prefix. `ReferencesShareIffEqual` and `TreeDeduplicated` state this across categories.
