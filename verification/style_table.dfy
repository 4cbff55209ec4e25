/**
 * The style-variable table and its interner (figma/client.go:399-432,
 * findOrCreateVar and generateVarId).
 *
 * The source keeps the table in a Go map and scans it with a range loop,
 * whose order Go leaves unspecified. The model keeps the entries in a
 * sequence that stands for one such visiting order; `Find` returns the first
 * entry the scan meets. Once the table holds no two equal values, which the
 * interner maintains, the order stops mattering (`FindUnique`).
 */
module StyleTable {
  import opened Wrappers
  import opened JsonValue
  import opened VarId

  datatype Entry = Entry(key: string, value: Json)

  type Table = seq<Entry>

  function Keys(t: Table): set<string> {
    set e | e in t :: e.key
  }

  function Values(t: Table): set<Json> {
    set e | e in t :: e.value
  }

  /** No key occurs twice, as in any Go map. */
  predicate DistinctKeys(t: Table) {
    forall i, j :: 0 <= i < j < |t| ==> t[i].key != t[j].key
  }

  /** No value occurs twice: the table's deduplication invariant. */
  predicate Deduplicated(t: Table) {
    forall i, j :: 0 <= i < j < |t| ==> t[i].value != t[j].value
  }

  /** The value stored under `k`. */
  function Get(t: Table, k: string): (r: Option<Json>)
    ensures r.Some? <==> k in Keys(t)
    ensures r.Some? ==> Entry(k, r.value) in t
  {
    if t == [] then None
    else if t[0].key == k then Some(t[0].value)
    else Get(t[1..], k)
  }

  /** The table as the Go map it stands for. */
  function ToMap(t: Table): (m: map<string, Json>)
    ensures m.Keys == Keys(t)
  {
    if t == [] then map[] else ToMap(t[..|t| - 1])[t[|t| - 1].key := t[|t| - 1].value]
  }

  lemma {:induction false} ToMapAgreesWithGet(t: Table, k: string)
    requires DistinctKeys(t)
    requires k in Keys(t)
    ensures Get(t, k) == Some(ToMap(t)[k])
  {
    var last := t[|t| - 1];
    var init := t[..|t| - 1];
    if k != last.key {
      assert k in Keys(init) by {
        var e :| e in t && e.key == k;
        assert e in init;
      }
      ToMapAgreesWithGet(init, k);
      GetPrefix(init, t, k);
    } else {
      var e :| e in t && e.key == k;
      var i :| 0 <= i < |t| && t[i] == e;
      assert i == |t| - 1;
      GetAt(t, |t| - 1);
    }
  }

  /** The key of the first entry holding `v`: the scan of lines 405-410. */
  function Find(t: Table, v: Json): (r: Option<string>)
    ensures r.Some? <==> v in Values(t)
    ensures r.Some? ==> Entry(r.value, v) in t
  {
    if t == [] then None
    else if t[0].value == v then Some(t[0].key)
    else Find(t[1..], v)
  }

  /** Get reads each entry of a key-distinct table back. */
  lemma {:induction false} GetAt(t: Table, i: nat)
    requires DistinctKeys(t)
    requires i < |t|
    ensures Get(t, t[i].key) == Some(t[i].value)
  {
    if i > 0 {
      assert t[0].key != t[i].key;
      assert t[1..][i - 1] == t[i];
      GetAt(t[1..], i - 1);
    }
  }

  /** Appending entries never changes what Get finds for an existing key. */
  lemma {:induction false} GetPrefix(t: Table, t': Table, k: string)
    requires t <= t'
    requires k in Keys(t)
    ensures Get(t', k) == Get(t, k)
  {
    if t[0].key != k {
      var e :| e in t && e.key == k;
      assert e in t[1..];
      GetPrefix(t[1..], t'[1..], k);
    }
  }

  /**
   * In a deduplicated table the scan's answer does not depend on the order
   * of the entries: it is the key of the one entry holding `v`.
   */
  lemma {:induction false} FindUnique(t: Table, i: nat)
    requires Deduplicated(t)
    requires i < |t|
    ensures Find(t, t[i].value) == Some(t[i].key)
  {
    if i > 0 {
      assert t[0].value != t[i].value;
      assert t[1..][i - 1] == t[i];
      FindUnique(t[1..], i - 1);
    }
  }

  /** A table without duplicate values holds as many values as entries. */
  lemma {:induction false} DistinctValuesCount(t: Table)
    requires Deduplicated(t)
    ensures |Values(t)| == |t|
  {
    if t != [] {
      DistinctValuesCount(t[1..]);
      assert Values(t) == {t[0].value} + Values(t[1..]);
    }
  }

  /**
   * A deduplicated table that extends `t` by values of `f` only, and holds
   * all of `f`, has exactly one new entry per value of `f` that `t` lacked.
   */
  lemma AppendedValuesCount(t: Table, t': Table, f: set<Json>)
    requires t <= t'
    requires Deduplicated(t')
    requires forall i :: |t| <= i < |t'| ==> t'[i].value in f
    requires f <= Values(t')
    ensures |t'| == |t| + |f - Values(t)|
  {
    var u := t'[|t|..];
    assert Deduplicated(u) by {
      forall i, j | 0 <= i < j < |u| ensures u[i].value != u[j].value {
        assert u[i] == t'[|t| + i] && u[j] == t'[|t| + j];
      }
    }
    DistinctValuesCount(u);
    forall v | v in Values(u) ensures v in f - Values(t) {
      var j :| 0 <= j < |u| && u[j].value == v;
      assert t'[|t| + j] == u[j];
    }
    forall v | v in f - Values(t) ensures v in Values(u) {
      var i :| 0 <= i < |t'| && t'[i].value == v;
      assert i >= |t|;
      assert u[i - |t|] == t'[i];
    }
    assert Values(u) == f - Values(t);
  }

  /**
   * A deduplicated table built from the empty one by values of `f` only,
   * and holding all of `f`, holds exactly `f`, one entry per value.
   */
  lemma FilledFromEmpty(t': Table, f: set<Json>)
    requires Deduplicated(t')
    requires forall i :: 0 <= i < |t'| ==> t'[i].value in f
    requires f <= Values(t')
    ensures Values(t') == f
    ensures |t'| == |f|
  {
    AppendedValuesCount([], t', f);
    assert Values([]) == {};
    assert f - {} == f;
  }

  /** In a well-formed table, two keys holding equal values are the same key. */
  lemma SameValueSameKey(t: Table, k1: string, k2: string)
    requires DistinctKeys(t) && Deduplicated(t)
    requires Get(t, k1).Some? && Get(t, k1) == Get(t, k2)
    ensures k1 == k2
  {
    var i :| 0 <= i < |t| && t[i] == Entry(k1, Get(t, k1).value);
    var j :| 0 <= j < |t| && t[j] == Entry(k2, Get(t, k2).value);
  }

  /**
   * The source's generator terminates exactly when some identifier under
   * `prefix` is still free.
   */
  predicate FreeIdExists(t: Table, prefix: string) {
    exists n :: 0 <= n < IdSpace && Candidate(prefix, n) !in Keys(t)
  }

  lemma {:induction false} KeysSize(t: Table)
    ensures |Keys(t)| <= |t|
  {
    if t != [] {
      KeysSize(t[1..]);
      assert Keys(t) == {t[0].key} + Keys(t[1..]);
    }
  }

  /** A table with fewer than 62^6 entries leaves every prefix a free identifier. */
  lemma RoomForId(t: Table, prefix: string)
    requires |t| < IdSpace
    ensures FreeIdExists(t, prefix)
  {
    KeysSize(t);
    FreeCandidateExists(prefix, Keys(t));
  }

  /** The first free candidate at or after number `n`. */
  function FirstFreeFrom(t: Table, prefix: string, n: nat): (id: string)
    requires n <= IdSpace
    requires exists m :: n <= m < IdSpace && Candidate(prefix, m) !in Keys(t)
    ensures IsVarId(id, prefix)
    ensures id !in Keys(t)
    decreases IdSpace - n
  {
    CandidatesAreVarIds(prefix);
    if Candidate(prefix, n) !in Keys(t) then Candidate(prefix, n)
    else FirstFreeFrom(t, prefix, n + 1)
  }

  /**
   * generateVarId (lines 419-432): an identifier `prefix_XXXXXX` not yet in
   * the table. The retry loop over random suffixes becomes a search over the
   * enumeration of the same suffixes.
   */
  function GenerateVarId(t: Table, prefix: string): (id: string)
    requires FreeIdExists(t, prefix)
    ensures IsVarId(id, prefix)
    ensures id !in Keys(t)
  {
    FirstFreeFrom(t, prefix, 0)
  }

  /**
   * findOrCreateVar (lines 400-416). When the table already holds `v` the
   * key found is returned and the table is unchanged; otherwise `v` is
   * stored under a fresh identifier, which is returned.
   */
  function FindOrCreateVar(t: Table, v: Json, prefix: string): (r: (string, Table))
    requires v in Values(t) || FreeIdExists(t, prefix)
    ensures v in Values(t) ==> r.1 == t && Entry(r.0, v) in t
    ensures v !in Values(t) ==>
      && r.1 == t + [Entry(r.0, v)]
      && r.0 !in Keys(t)
      && IsVarId(r.0, prefix)
  {
    match Find(t, v)
    case Some(k) => (k, t)
    case None =>
      var id := GenerateVarId(t, prefix);
      (id, t + [Entry(id, v)])
  }

  /** Appending an entry under a new key extends the map by that key. */
  lemma ToMapAppend(t: Table, e: Entry)
    ensures ToMap(t + [e]) == ToMap(t)[e.key := e.value]
  {
    assert (t + [e])[..|t|] == t;
  }

  /** Updating the map with an entry it already holds changes nothing. */
  lemma ToMapHolds(t: Table, i: nat)
    requires DistinctKeys(t)
    requires i < |t|
    ensures ToMap(t)[t[i].key := t[i].value] == ToMap(t)
  {
    GetAt(t, i);
    ToMapAgreesWithGet(t, t[i].key);
  }

  /** Appending an entry with a new key and a new value keeps the table well-formed. */
  lemma AppendFresh(t: Table, e: Entry)
    requires DistinctKeys(t) && Deduplicated(t)
    requires e.key !in Keys(t) && e.value !in Values(t)
    ensures DistinctKeys(t + [e]) && Deduplicated(t + [e])
    ensures Get(t + [e], e.key) == Some(e.value)
  {
    forall i | 0 <= i < |t| ensures t[i].key != e.key && t[i].value != e.value {
      assert t[i] in t;
    }
    GetAt(t + [e], |t|);
  }

  /**
   * The interner keeps the table a well-formed Go map with no duplicate
   * value, the returned key maps to `v`, and every entry already present
   * keeps its key and value.
   */
  lemma FindOrCreateVarSound(t: Table, v: Json, prefix: string)
    requires v in Values(t) || FreeIdExists(t, prefix)
    requires DistinctKeys(t) && Deduplicated(t)
    ensures DistinctKeys(FindOrCreateVar(t, v, prefix).1)
    ensures Deduplicated(FindOrCreateVar(t, v, prefix).1)
    ensures t <= FindOrCreateVar(t, v, prefix).1
    ensures |FindOrCreateVar(t, v, prefix).1| <= |t| + 1
    ensures Get(FindOrCreateVar(t, v, prefix).1, FindOrCreateVar(t, v, prefix).0) == Some(v)
    ensures ToMap(FindOrCreateVar(t, v, prefix).1)
         == ToMap(t)[FindOrCreateVar(t, v, prefix).0 := v]
  {
    var r := FindOrCreateVar(t, v, prefix);
    if v in Values(t) {
      var i :| 0 <= i < |t| && t[i] == Entry(r.0, v);
      GetAt(t, i);
      ToMapHolds(t, i);
    } else {
      AppendFresh(t, Entry(r.0, v));
      ToMapAppend(t, Entry(r.0, v));
    }
  }
}
