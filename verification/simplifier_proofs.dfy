/**
 * What the walk of figma/client.go:158-252 guarantees about the simplified
 * tree and the style table it fills.
 */
module SimplifierProofs {
  import opened Wrappers
  import opened JsonValue
  import opened Types
  import opened VarId
  import opened StyleTable
  import opened LayoutNormalizer
  import opened Simplifier

  // ---------------------------------------------------------------------
  // One fragment, one node
  // ---------------------------------------------------------------------

  /** A key the interner creates is a style key, so the table stays well-formed. */
  lemma FindOrCreateVarWellFormed(t: Table, v: Json, c: Category)
    requires WellFormed(t)
    requires v in Values(t) || FreeIdExists(t, Prefix(c))
    ensures WellFormed(FindOrCreateVar(t, v, Prefix(c)).1)
  {
    var r := FindOrCreateVar(t, v, Prefix(c));
    FindOrCreateVarSound(t, v, Prefix(c));
    if v !in Values(t) {
      assert IsStyleKey(r.0) by {
        assert c in Categories && IsVarId(r.0, Prefix(c));
      }
      AppendStyleKey(t, Entry(r.0, v));
    }
  }

  /** Appending an entry under a style key, with keys and values still distinct, keeps a table well-formed. */
  lemma AppendStyleKey(t: Table, e: Entry)
    requires WellFormed(t)
    requires DistinctKeys(t + [e]) && Deduplicated(t + [e])
    requires IsStyleKey(e.key)
    ensures WellFormed(t + [e])
  {
    forall i | 0 <= i < |t + [e]| ensures IsStyleKey((t + [e])[i].key) {
      if i < |t| {
        assert (t + [e])[i] == t[i];
      }
    }
  }

  /** The interner adds nothing but the value it was given. */
  lemma FindOrCreateVarAddsOnly(t: Table, v: Json, prefix: string)
    requires v in Values(t) || FreeIdExists(t, prefix)
    ensures t <= FindOrCreateVar(t, v, prefix).1
    ensures NewValuesIn(t, FindOrCreateVar(t, v, prefix).1, {v})
  {
  }

  /**
   * Interning one fragment keeps the table well-formed, the reference it
   * returns names the fragment, and the only value it may add is the
   * fragment itself.
   */
  lemma InternSound(frag: Option<Json>, c: Category, t: Table)
    requires |t| < IdSpace
    requires WellFormed(t)
    ensures WellFormed(Intern(frag, Prefix(c), t).1)
    ensures frag.Some? ==> Get(Intern(frag, Prefix(c), t).1, Intern(frag, Prefix(c), t).0.value) == frag
    ensures frag.Some? ==> frag.value in Values(Intern(frag, Prefix(c), t).1)
    ensures NewValuesIn(t, Intern(frag, Prefix(c), t).1, if frag.Some? then {frag.value} else {})
  {
    if frag.Some? {
      var v := frag.value;
      RoomForId(t, Prefix(c));
      var r := FindOrCreateVar(t, v, Prefix(c));
      assert Intern(frag, Prefix(c), t) == (Some(r.0), r.1);
      FindOrCreateVarWellFormed(t, v, c);
      FindOrCreateVarSound(t, v, Prefix(c));
      FindOrCreateVarAddsOnly(t, v, Prefix(c));
      assert Entry(r.0, v) in r.1;
    }
  }

  /** Entries added on top of entries added: the new values of both steps. */
  lemma NewValuesChain(t: Table, t1: Table, t2: Table, a: set<Json>, b: set<Json>)
    requires t <= t1 <= t2
    requires NewValuesIn(t, t1, a) && NewValuesIn(t1, t2, b)
    ensures NewValuesIn(t, t2, a + b)
  {
    forall i | |t| <= i < |t2| ensures t2[i].value in a + b {
      if i < |t1| {
        assert t2[i] == t1[i];
      }
    }
  }

  /** A prefix's values stay in every extension. */
  lemma ValuesGrow(t: Table, t': Table)
    requires t <= t'
    ensures Values(t) <= Values(t')
  {
    forall v | v in Values(t) ensures v in Values(t') {
      var e :| e in t && e.value == v;
      var i :| 0 <= i < |t| && t[i] == e;
      assert t'[i] == e;
    }
  }

  /** A reference that resolves in a table resolves the same way after appends. */
  lemma RefMatchesGrow(s: SimplifiedNode, n: FigmaNode, t: Table, t': Table, c: Category)
    requires t <= t'
    requires RefMatches(s, n, t, c)
    ensures RefMatches(s, n, t', c)
  {
    if RefOf(s, c).Some? {
      GetPrefix(t, t', RefOf(s, c).value);
    }
  }

  lemma RefsMatchGrow(s: SimplifiedNode, n: FigmaNode, t: Table, t': Table)
    requires t <= t'
    requires RefsMatch(s, n, t)
    ensures RefsMatch(s, n, t')
  {
    RefMatchesGrow(s, n, t, t', TextStyleCat);
    RefMatchesGrow(s, n, t, t', FillCat);
    RefMatchesGrow(s, n, t, t', StrokeCat);
    RefMatchesGrow(s, n, t, t', EffectCat);
  }

  /**
   * Where the interning of a node's fragments stands after the categories
   * in `done`: the table is well-formed and extends `t0` by fragments of the
   * node only, and each finished category's reference names its fragment.
   */
  predicate InternedSoFar(s: SimplifiedNode, n: FigmaNode, t0: Table, t: Table, done: set<Category>) {
    && WellFormed(t)
    && t0 <= t
    && NewValuesIn(t0, t, LocalFragments(n))
    && forall c :: c in done ==> RefMatches(s, n, t, c)
  }

  /** One interning step (one `if len(...) > 0` block of lines 171-190). */
  lemma InternStep(s: SimplifiedNode, n: FigmaNode, c: Category, t0: Table, t: Table, done: set<Category>)
    requires |t| < IdSpace
    requires InternedSoFar(s, n, t0, t, done)
    requires RefOf(s, c) == Intern(Fragment(n, c), Prefix(c), t).0
    ensures InternedSoFar(s, n, t0, Intern(Fragment(n, c), Prefix(c), t).1, done + {c})
  {
    var frag := Fragment(n, c);
    var r := Intern(frag, Prefix(c), t);
    InternSound(frag, c, t);
    if frag.Some? {
      assert c in Categories;
    }
    NewValuesChain(t0, t, r.1, LocalFragments(n), LocalFragments(n));
    DoneGrow(s, n, t, r.1, done);
  }

  /** The finished categories keep resolving after appends. */
  lemma DoneGrow(s: SimplifiedNode, n: FigmaNode, t: Table, t': Table, done: set<Category>)
    requires t <= t'
    requires forall c :: c in done ==> RefMatches(s, n, t, c)
    ensures forall c :: c in done ==> RefMatches(s, n, t', c)
  {
    forall c | c in done ensures RefMatches(s, n, t', c) {
      RefMatchesGrow(s, n, t, t', c);
    }
  }

  /** The four interning steps of lines 171-190, one after the other. */
  lemma SimplifyFieldsSteps(n: FigmaNode, t: Table)
    requires |t| + 4 <= IdSpace
    ensures var r1 := Intern(Fragment(n, TextStyleCat), Prefix(TextStyleCat), t);
            var r2 := Intern(Fragment(n, FillCat), Prefix(FillCat), r1.1);
            var r3 := Intern(Fragment(n, StrokeCat), Prefix(StrokeCat), r2.1);
            var r4 := Intern(Fragment(n, EffectCat), Prefix(EffectCat), r3.1);
            && SimplifyFields(n, t).1 == r4.1
            && RefOf(SimplifyFields(n, t).0, TextStyleCat) == r1.0
            && RefOf(SimplifyFields(n, t).0, FillCat) == r2.0
            && RefOf(SimplifyFields(n, t).0, StrokeCat) == r3.0
            && RefOf(SimplifyFields(n, t).0, EffectCat) == r4.0
  {
  }

  /** The four steps together, for any node holding their references. */
  lemma InternFourSound(s: SimplifiedNode, n: FigmaNode, t: Table)
    requires |t| + 4 <= IdSpace
    requires WellFormed(t)
    requires var r1 := Intern(Fragment(n, TextStyleCat), Prefix(TextStyleCat), t);
             var r2 := Intern(Fragment(n, FillCat), Prefix(FillCat), r1.1);
             var r3 := Intern(Fragment(n, StrokeCat), Prefix(StrokeCat), r2.1);
             && RefOf(s, TextStyleCat) == r1.0
             && RefOf(s, FillCat) == r2.0
             && RefOf(s, StrokeCat) == r3.0
             && RefOf(s, EffectCat) == Intern(Fragment(n, EffectCat), Prefix(EffectCat), r3.1).0
    ensures var r1 := Intern(Fragment(n, TextStyleCat), Prefix(TextStyleCat), t);
            var r2 := Intern(Fragment(n, FillCat), Prefix(FillCat), r1.1);
            var r3 := Intern(Fragment(n, StrokeCat), Prefix(StrokeCat), r2.1);
            InternedSoFar(s, n, t, Intern(Fragment(n, EffectCat), Prefix(EffectCat), r3.1).1, {TextStyleCat, FillCat, StrokeCat, EffectCat})
  {
    var r1 := Intern(Fragment(n, TextStyleCat), Prefix(TextStyleCat), t);
    var r2 := Intern(Fragment(n, FillCat), Prefix(FillCat), r1.1);
    var r3 := Intern(Fragment(n, StrokeCat), Prefix(StrokeCat), r2.1);
    InternStep(s, n, TextStyleCat, t, t, {});
    InternStep(s, n, FillCat, t, r1.1, {TextStyleCat});
    InternStep(s, n, StrokeCat, t, r2.1, {TextStyleCat, FillCat});
    InternStep(s, n, EffectCat, t, r3.1, {TextStyleCat, FillCat, StrokeCat});
  }

  /** A table in which every reference of a node resolves holds every fragment of the node. */
  lemma ResolvedFragmentsHeld(s: SimplifiedNode, n: FigmaNode, t: Table)
    requires RefsMatch(s, n, t)
    ensures LocalFragments(n) <= Values(t)
  {
    forall v | v in LocalFragments(n) ensures v in Values(t) {
      var c :| c in Categories && Fragment(n, c).Some? && Fragment(n, c).value == v;
      assert RefMatches(s, n, t, c);
    }
  }

  /**
   * One node's own fields (lines 171-190): the four references resolve to
   * the node's fragments in the table the node leaves behind, the table
   * stays well-formed, it then holds every fragment of the node, and it
   * gains no value that is not one of them.
   */
  lemma SimplifyFieldsSound(n: FigmaNode, t: Table)
    requires |t| + 4 <= IdSpace
    requires WellFormed(t)
    ensures WellFormed(SimplifyFields(n, t).1)
    ensures RefsMatch(SimplifyFields(n, t).0, n, SimplifyFields(n, t).1)
    ensures LocalFragments(n) <= Values(SimplifyFields(n, t).1)
    ensures NewValuesIn(t, SimplifyFields(n, t).1, LocalFragments(n))
  {
    SimplifyFieldsSteps(n, t);
    InternFourSound(SimplifyFields(n, t).0, n, t);
    ResolvedFragmentsHeld(SimplifyFields(n, t).0, n, SimplifyFields(n, t).1);
  }

  // ---------------------------------------------------------------------
  // The whole walk
  // ---------------------------------------------------------------------

  /** A faithful tree stays faithful when the table grows by appends. */
  lemma {:induction false} FaithfulGrow(s: SimplifiedNode, n: FigmaNode, t: Table, t': Table)
    requires t <= t'
    requires Faithful(s, n, t)
    ensures Faithful(s, n, t')
    decreases n
  {
    RefsMatchGrow(s, n, t, t');
    FaithfulAllGrow(s.children, n.children, t, t');
  }

  lemma {:induction false} FaithfulAllGrow(ss: seq<SimplifiedNode>, cs: seq<FigmaNode>, t: Table, t': Table)
    requires t <= t'
    requires FaithfulAll(ss, cs, t)
    ensures FaithfulAll(ss, cs, t')
    decreases cs
  {
    if cs == [] {
    } else if !IsVisible(cs[0]) {
      FaithfulAllGrow(ss, cs[1..], t, t');
    } else {
      FaithfulGrow(ss[0], cs[0], t, t');
      FaithfulAllGrow(ss[1..], cs[1..], t, t');
    }
  }

  /**
   * parseNode: starting from a well-formed table, every style reference in
   * the simplified tree resolves to the fragment of the raw node it came
   * from, at every visible depth; the table stays well-formed (distinct keys,
   * no value twice, every key `prefix_XXXXXX`), holds every fragment of the
   * visible tree, and gains nothing else.
   */
  lemma {:induction false} ParseNodeSound(n: FigmaNode, t: Table)
    requires |t| + 4 * Count(n) <= IdSpace
    requires WellFormed(t)
    ensures WellFormed(ParseNode(n, t).1)
    ensures Faithful(ParseNode(n, t).0, n, ParseNode(n, t).1)
    ensures Fragments(n) <= Values(ParseNode(n, t).1)
    ensures NewValuesIn(t, ParseNode(n, t).1, Fragments(n))
    decreases n, 1
  {
    var (fields, t1) := SimplifyFields(n, t);
    SimplifyFieldsSound(n, t);
    var (kids, t2) := ParseChildren(n.children, t1);
    ParseChildrenSound(n.children, t1);
    var s := ParseNode(n, t).0;
    assert s == fields.(children := kids, nodeType := RewriteType(n.nodeType));
    RefsMatchGrow(fields, n, t1, t2);
    assert RefsMatch(s, n, t2);
    ValuesGrow(t1, t2);
    NewValuesChain(t, t1, t2, LocalFragments(n), FragmentsAll(n.children));
  }

  lemma {:induction false} ParseChildrenSound(cs: seq<FigmaNode>, t: Table)
    requires |t| + 4 * CountAll(cs) <= IdSpace
    requires WellFormed(t)
    ensures WellFormed(ParseChildren(cs, t).1)
    ensures FaithfulAll(ParseChildren(cs, t).0, cs, ParseChildren(cs, t).1)
    ensures FragmentsAll(cs) <= Values(ParseChildren(cs, t).1)
    ensures NewValuesIn(t, ParseChildren(cs, t).1, FragmentsAll(cs))
    decreases cs, 0
  {
    if cs == [] {
    } else if !IsVisible(cs[0]) {
      ParseChildrenSound(cs[1..], t);
    } else {
      var (c, t1) := ParseNode(cs[0], t);
      ParseNodeSound(cs[0], t);
      var (rest, t2) := ParseChildren(cs[1..], t1);
      ParseChildrenSound(cs[1..], t1);
      FaithfulGrow(c, cs[0], t1, t2);
      ValuesGrow(t1, t2);
      NewValuesChain(t, t1, t2, Fragments(cs[0]), FragmentsAll(cs[1..]));
      var ss := ParseChildren(cs, t).0;
      assert ss == [c] + rest;
      assert ss[0] == c && ss[1..] == rest;
    }
  }

  /**
   * The shape of the simplified tree does not depend on the table: with the
   * references dropped it is the table-free reference `Outline`.
   */
  lemma {:induction false} ParseNodeOutline(n: FigmaNode, t: Table)
    requires |t| + 4 * Count(n) <= IdSpace
    ensures Erase(ParseNode(n, t).0) == Outline(n)
    decreases n, 1
  {
    var (fields, t1) := SimplifyFields(n, t);
    var (kids, t2) := ParseChildren(n.children, t1);
    ParseChildrenOutline(n.children, t1);
    var vs := Visible(n.children);
    var s := ParseNode(n, t).0;
    assert s.children == kids;
    assert Erase(s).children == Outline(n).children;
  }

  lemma {:induction false} ParseChildrenOutline(cs: seq<FigmaNode>, t: Table)
    requires |t| + 4 * CountAll(cs) <= IdSpace
    ensures |ParseChildren(cs, t).0| == |Visible(cs)|
    ensures forall i :: 0 <= i < |Visible(cs)| ==> Erase(ParseChildren(cs, t).0[i]) == Outline(Visible(cs)[i])
    decreases cs, 0
  {
    if cs == [] {
    } else if !IsVisible(cs[0]) {
      ParseChildrenOutline(cs[1..], t);
    } else {
      var (c, t1) := ParseNode(cs[0], t);
      ParseNodeOutline(cs[0], t);
      var (rest, t2) := ParseChildren(cs[1..], t1);
      ParseChildrenOutline(cs[1..], t1);
      assert ParseChildren(cs, t).0 == [c] + rest;
      assert Visible(cs) == [cs[0]] + Visible(cs[1..]);
      ConsAgree(Erase, Outline, c, rest, cs[0], Visible(cs[1..]));
    }
  }

  /** Index-wise agreement under `f` and `g` survives putting one agreeing pair in front. */
  lemma ConsAgree<A, B, C>(f: A -> C, g: B -> C, x: A, xs: seq<A>, y: B, ys: seq<B>)
    requires f(x) == g(y)
    requires |xs| == |ys|
    requires forall i :: 0 <= i < |ys| ==> f(xs[i]) == g(ys[i])
    ensures forall i :: 0 <= i < |ys| + 1 ==> f(([x] + xs)[i]) == g(([y] + ys)[i])
  {
    forall i | 0 <= i < |ys| + 1 ensures f(([x] + xs)[i]) == g(([y] + ys)[i]) {
      if i > 0 {
        assert ([x] + xs)[i] == xs[i - 1] && ([y] + ys)[i] == ys[i - 1];
      }
    }
  }

  /** Two runs from different tables produce the same tree up to the reference names. */
  lemma ShapeIndependentOfTable(n: FigmaNode, t1: Table, t2: Table)
    requires |t1| + 4 * Count(n) <= IdSpace
    requires |t2| + 4 * Count(n) <= IdSpace
    ensures Erase(ParseNode(n, t1).0) == Erase(ParseNode(n, t2).0)
  {
    ParseNodeOutline(n, t1);
    ParseNodeOutline(n, t2);
  }

  /** Skipping hidden nodes first changes nothing: a hidden subtree adds no node and no entry. */
  lemma {:induction false} SkipInvisible(cs: seq<FigmaNode>, t: Table)
    requires |t| + 4 * CountAll(cs) <= IdSpace
    ensures CountAll(Visible(cs)) <= CountAll(cs)
    ensures ParseChildren(Visible(cs), t) == ParseChildren(cs, t)
    decreases cs
  {
    if cs == [] {
    } else if !IsVisible(cs[0]) {
      SkipInvisible(cs[1..], t);
    } else {
      var vs := Visible(cs);
      var rest := Visible(cs[1..]);
      assert vs == [cs[0]] + rest;
      assert vs[0] == cs[0] && vs[1..] == rest;
      assert CountAll(vs) == Count(cs[0]) + CountAll(rest);
      var t1 := ParseNode(cs[0], t).1;
      SkipInvisible(cs[1..], t1);
    }
  }

  /** The layout record never reads the node's type. */
  lemma LayoutIgnoresType(n: FigmaNode, ty: string)
    ensures LayoutOf(n.(nodeType := ty)) == LayoutOf(n)
  {
    var a := n.(nodeType := ty);
    assert HasLayoutProperties(a) == HasLayoutProperties(n);
    assert Mode(a) == Mode(n);
    assert Wrap(a) == Wrap(n);
    assert Padding(a) == Padding(n);
    assert SizingOf(a) == SizingOf(n);
    assert OverflowScroll(a) == OverflowScroll(n);
    assert BuildLayout(a) == BuildLayout(n);
  }

  /** A node's own fields and its interning never read its type either. */
  lemma SimplifyFieldsIgnoresType(n: FigmaNode, ty: string, t: Table)
    requires |t| + 4 <= IdSpace
    ensures SimplifyFields(n.(nodeType := ty), t).1 == SimplifyFields(n, t).1
    ensures SimplifyFields(n.(nodeType := ty), t).0 == SimplifyFields(n, t).0.(nodeType := ty)
  {
    var a := n.(nodeType := ty);
    forall c | c in Categories ensures Fragment(a, c) == Fragment(n, c) {
      assert StrokeBundle(a) == StrokeBundle(n);
    }
    LayoutIgnoresType(n, ty);
    assert BorderRadiusOf(a) == BorderRadiusOf(n);
  }

  /**
   * The VECTOR rewrite (lines 247-249) happens after everything else: a
   * VECTOR node yields the same table and the same tree as the node with any
   * other type, except that its own type reads IMAGE-SVG.
   */
  lemma TypeRewriteIsLast(n: FigmaNode, ty: string, t: Table)
    requires |t| + 4 * Count(n) <= IdSpace
    requires ty != "VECTOR"
    ensures Count(n.(nodeType := "VECTOR")) == Count(n) == Count(n.(nodeType := ty))
    ensures ParseNode(n.(nodeType := "VECTOR"), t).1 == ParseNode(n.(nodeType := ty), t).1
    ensures ParseNode(n.(nodeType := ty), t).0.nodeType == ty
    ensures ParseNode(n.(nodeType := "VECTOR"), t).0
         == ParseNode(n.(nodeType := ty), t).0.(nodeType := "IMAGE-SVG")
  {
    var a, b := n.(nodeType := "VECTOR"), n.(nodeType := ty);
    assert a.children == b.children == n.children;
    SimplifyFieldsIgnoresType(n, "VECTOR", t);
    SimplifyFieldsIgnoresType(n, ty, t);
  }

  // ---------------------------------------------------------------------
  // Deduplication across the whole tree
  // ---------------------------------------------------------------------

  /**
   * Two references into a well-formed table, from any nodes and any
   * categories, are equal exactly when the fragments they stand for are.
   */
  lemma ReferencesShareIffEqual(s1: SimplifiedNode, n1: FigmaNode, c1: Category,
                                s2: SimplifiedNode, n2: FigmaNode, c2: Category, t: Table)
    requires WellFormed(t)
    requires RefMatches(s1, n1, t, c1) && RefMatches(s2, n2, t, c2)
    requires Fragment(n1, c1).Some? && Fragment(n2, c2).Some?
    ensures RefOf(s1, c1) == RefOf(s2, c2) <==> Fragment(n1, c1) == Fragment(n2, c2)
  {
    if Fragment(n1, c1) == Fragment(n2, c2) {
      SameValueSameKey(t, RefOf(s1, c1).value, RefOf(s2, c2).value);
    }
  }

  /** The pairs (simplified node, raw node) of a tree, pre-order, visible nodes only. */
  function NodePairs(s: SimplifiedNode, n: FigmaNode): seq<(SimplifiedNode, FigmaNode)>
    decreases n
  {
    [(s, n)] + NodePairsAll(s.children, n.children)
  }

  function NodePairsAll(ss: seq<SimplifiedNode>, cs: seq<FigmaNode>): seq<(SimplifiedNode, FigmaNode)>
    decreases cs
  {
    if cs == [] then []
    else if !IsVisible(cs[0]) then NodePairsAll(ss, cs[1..])
    else if ss == [] then []
    else NodePairs(ss[0], cs[0]) + NodePairsAll(ss[1..], cs[1..])
  }

  /** Faithfulness holds at every node of the tree, not just at the root. */
  lemma {:induction false} FaithfulEverywhere(s: SimplifiedNode, n: FigmaNode, t: Table)
    requires Faithful(s, n, t)
    ensures forall p :: p in NodePairs(s, n) ==> RefsMatch(p.0, p.1, t)
    decreases n, 1
  {
    FaithfulEverywhereAll(s.children, n.children, t);
  }

  lemma {:induction false} FaithfulEverywhereAll(ss: seq<SimplifiedNode>, cs: seq<FigmaNode>, t: Table)
    requires FaithfulAll(ss, cs, t)
    ensures forall p :: p in NodePairsAll(ss, cs) ==> RefsMatch(p.0, p.1, t)
    decreases cs, 0
  {
    if cs == [] {
    } else if !IsVisible(cs[0]) {
      FaithfulEverywhereAll(ss, cs[1..], t);
    } else {
      FaithfulEverywhere(ss[0], cs[0], t);
      FaithfulEverywhereAll(ss[1..], cs[1..], t);
    }
  }

  /**
   * The style table deduplicates across the whole tree: any two style
   * references anywhere in one simplified tree are the same identifier
   * exactly when the fragments behind them are equal.
   */
  lemma TreeDeduplicated(n: FigmaNode, t: Table, p: (SimplifiedNode, FigmaNode), c1: Category,
                         q: (SimplifiedNode, FigmaNode), c2: Category)
    requires |t| + 4 * Count(n) <= IdSpace
    requires WellFormed(t)
    requires p in NodePairs(ParseNode(n, t).0, n) && q in NodePairs(ParseNode(n, t).0, n)
    requires Fragment(p.1, c1).Some? && Fragment(q.1, c2).Some?
    ensures RefOf(p.0, c1).Some? && RefOf(q.0, c2).Some?
    ensures Get(ParseNode(n, t).1, RefOf(p.0, c1).value) == Fragment(p.1, c1)
    ensures RefOf(p.0, c1) == RefOf(q.0, c2) <==> Fragment(p.1, c1) == Fragment(q.1, c2)
  {
    var r := ParseNode(n, t);
    ParseNodeSound(n, t);
    FaithfulEverywhere(r.0, n, r.1);
    ReferencesShareIffEqual(p.0, p.1, c1, q.0, q.1, c2, r.1);
  }

  /**
   * The table grows by exactly the number of distinct fragments of the
   * visible tree that it did not hold before: one entry per new value.
   */
  lemma TableGrowthExact(n: FigmaNode, t: Table)
    requires |t| + 4 * Count(n) <= IdSpace
    requires WellFormed(t)
    ensures |ParseNode(n, t).1| == |t| + |Fragments(n) - Values(t)|
  {
    ParseNodeSound(n, t);
    AppendedValuesCount(t, ParseNode(n, t).1, Fragments(n));
  }

  /**
   * A sequence of siblings walked from an empty table: the table ends up
   * holding exactly the distinct fragments of the visible subtrees, one
   * entry each.
   */
  lemma ChildrenTableExact(cs: seq<FigmaNode>)
    requires 4 * CountAll(cs) <= IdSpace
    ensures Values(ParseChildren(cs, []).1) == FragmentsAll(cs)
    ensures |ParseChildren(cs, []).1| == |FragmentsAll(cs)|
  {
    assert WellFormed([]);
    ParseChildrenSound(cs, []);
    FilledFromEmpty(ParseChildren(cs, []).1, FragmentsAll(cs));
  }
}
