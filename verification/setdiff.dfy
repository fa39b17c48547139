/** The Set differ of analyze_plan.py: given the before and after values of a
    Set-type attribute and its schema definition, decide which elements were
    added, removed or modified and which only moved, recursing into nested
    Set-type attributes.

    The source's three globals become explicit: `CONFIG.ignore_case` and the
    two host functions the model cannot see live in `Config`, and every
    warning the source appends to `CONFIG.warnings` is returned alongside the
    result. An exception the source would raise is a `Failure`. */
module SetDiff {
  import opened Wrappers
  import opened JsonValue
  import opened Text
  import opened Seqs
  import opened Normalize

  /** The run configuration. `render` is Python's `str()` of a non-string key
      value; `digest` is the string form of the hash of the element's
      key-sorted JSON text, a deterministic function of its content. */
  datatype Config = Config(ignoreCase: bool, render: Json -> string, digest: Json -> string)

  datatype Side = BeforeSide | AfterSide

  /** The advisory messages the source appends to `CONFIG.warnings`. */
  datatype Warning =
    | DuplicateKey(key: string, side: Side, path: string)
    | SensitiveAttribute(attr: string, address: string)

  /** The Set differ only ever raises duplicate-key warnings. */
  type DuplicateWarning = w: Warning | w.DuplicateKey? witness DuplicateKey([], BeforeSide, [])

  /** The exceptions the source raises on inputs it does not expect. */
  datatype PyError =
    | UnhashableElement(path: string)   // `set(...)` over a list or dict element
    | UnhashableKeyAttr(path: string)   // `key_attr in element` with a list or dict `_key`
    | NotAnObject(address: string)      // `.get` on a plan value that is not a dict
    | NotIterable(address: string)      // `name in v` on a sensitivity marker that is a bool or number

  datatype FieldDiff = FieldDiff(before: Json, after: Json)

  /** One entry of `modified`: the display key and the non-Set field diffs. */
  datatype Modified = Modified(key: string, diffs: map<string, FieldDiff>)

  /** `SetAttributeChange`. The source's `primitive_added`/`primitive_removed`
      are lists built from Python sets; here they are sets of the elements'
      equality representatives. */
  datatype SetChange = SetChange(
    attrName: string,
    path: string,
    orderOnly: nat,
    added: seq<string>,
    removed: seq<string>,
    modified: seq<Modified>,
    nested: seq<SetChange>,
    isPrimitive: bool,
    primAdded: set<Json>,
    primRemoved: set<Json>)

  /** The test the source applies before keeping a change (order-only count,
      added, removed, modified, nested, primitive added or removed). */
  predicate HasFinding(c: SetChange) {
    c.orderOnly > 0 || |c.added| > 0 || |c.removed| > 0 || |c.modified| > 0
    || |c.nested| > 0 || |c.primAdded| > 0 || |c.primRemoved| > 0
  }

  /** A change together with the warnings produced while computing it. */
  datatype Analysis = Analysis(change: SetChange, warnings: seq<DuplicateWarning>)

  /** The dotted path of an attribute below `path`; a top-level attribute's
      path is its name. */
  function JoinPath(path: string, name: string): string {
    if path == "" then name else path + "." + name
  }

  // ---------------------------------------------------------------------
  // Schema definitions

  /** The pair `get_attr_config` returns: the `_key` value (None when
      absent) and the nested Set-type attribute definitions. */
  datatype AttrConfig = AttrConfig(keyAttr: Json, nested: map<string, Json>)

  /** `get_attr_config`: a null definition has no key, a string names the key
      field, an object carries `_key` plus nested definitions, and anything
      else degrades to "no key, no nested attributes". */
  function GetAttrConfig(def: Json): (c: AttrConfig)
    ensures def.JNull? ==> c == AttrConfig(JNull, map[])
    ensures def.JStr? ==> c == AttrConfig(def, map[])
    ensures def.JObj? ==> c.keyAttr == Get(def.fields, "_key")
    ensures def.JObj? ==> c.nested.Keys == def.fields.Keys - {"_key"}
    ensures def.JObj? ==> forall k :: k in c.nested ==> c.nested[k] == def.fields[k]
    ensures !def.JNull? && !def.JStr? && !def.JObj? ==> c == AttrConfig(JNull, map[])
    ensures "_key" !in c.nested
    ensures forall k :: k in c.nested ==> c.nested[k] < def
  {
    match def
    case JNull => AttrConfig(JNull, map[])
    case JStr(_) => AttrConfig(def, map[])
    case JObj(m) => AttrConfig(Get(m, "_key"), map k | k in m && k != "_key" :: m[k])
    case _ => AttrConfig(JNull, map[])
  }

  // ---------------------------------------------------------------------
  // Element keys

  /** A `_key` value that is unhashable, so testing it for membership in an
      element raises TypeError. */
  predicate UnhashableKey(keyAttr: Json) {
    Truthy(keyAttr) && (keyAttr.JList? || keyAttr.JObj?)
  }

  /** Whether the element's key field is used: the key attribute must be
      truthy and present in the element, and since element keys are strings
      only a non-empty string `_key` can be found. */
  predicate UsesKeyField(keyAttr: Json, e: map<string, Json>) {
    keyAttr.JStr? && keyAttr.s != "" && keyAttr.s in e
  }

  /** The key `get_element_key` returns when it does not raise. */
  function KeyOf(cfg: Config, e: map<string, Json>, keyAttr: Json): string {
    if UsesKeyField(keyAttr, e) then
      var v := e[keyAttr.s];
      if v.JStr? then (if cfg.ignoreCase then ToLower(v.s) else v.s) else cfg.render(v)
    else
      cfg.digest(JObj(e))
  }

  /** `get_element_key`: the key field's value (lower-cased when the run
      ignores case), or the content digest when the field is not configured
      or missing. */
  function ElementKey(cfg: Config, e: map<string, Json>, keyAttr: Json, path: string): (r: Result<string, PyError>)
    ensures r.Failure? <==> UnhashableKey(keyAttr)
    ensures UsesKeyField(keyAttr, e) && e[keyAttr.s].JStr? && !cfg.ignoreCase
            ==> r == Success(e[keyAttr.s].s)
    ensures UsesKeyField(keyAttr, e) && e[keyAttr.s].JStr? && cfg.ignoreCase
            ==> r == Success(ToLower(e[keyAttr.s].s))
    ensures UsesKeyField(keyAttr, e) && !e[keyAttr.s].JStr? ==> r == Success(cfg.render(e[keyAttr.s]))
    ensures !UsesKeyField(keyAttr, e) && !UnhashableKey(keyAttr) ==> r == Success(cfg.digest(JObj(e)))
  {
    if UnhashableKey(keyAttr) then Failure(UnhashableKeyAttr(path)) else Success(KeyOf(cfg, e, keyAttr))
  }

  /** With case folding on, elements whose key strings differ only in case
      are matched with each other. */
  lemma CaseInsensitiveKeysMatch(cfg: Config, e1: map<string, Json>, e2: map<string, Json>, field: string)
    requires cfg.ignoreCase && field != ""
    requires field in e1 && field in e2 && e1[field].JStr? && e2[field].JStr?
    requires ToLower(e1[field].s) == ToLower(e2[field].s)
    ensures ElementKey(cfg, e1, JStr(field), "") == ElementKey(cfg, e2, JStr(field), "")
  {
  }

  /** The key shown for an element: the key itself when a key attribute is
      configured, otherwise the placeholder `(element)`. */
  function DisplayKey(keyAttr: Json, key: string): string {
    if Truthy(keyAttr) then key else "(element)"
  }

  // ---------------------------------------------------------------------
  // Coercions

  /** The list a Set attribute's value is diffed as: a falsy value is the
      empty list, a list is itself, and any other value is a one-element
      list. */
  function AsList(v: Json): (r: seq<Json>)
    ensures v.JList? ==> r == v.items
    ensures !v.JList? ==> (r == [] <==> !Truthy(v))
    ensures !v.JList? && Truthy(v) ==> r == [v]
    ensures forall x :: x in r && !v.JList? ==> x == v
  {
    if !Truthy(v) then [] else if v.JList? then v.items else [v]
  }

  /** Some element is neither None nor a dict. */
  predicate HasPrimitive(xs: seq<Json>) {
    exists v :: v in xs && !v.JNull? && !v.JObj?
  }

  predicate IsObject(v: Json) {
    v.JObj?
  }

  // ---------------------------------------------------------------------
  // Primitive sets

  /** Python's `set()` raises on a list or dict element. */
  predicate Unhashable(v: Json) {
    v.JList? || v.JObj?
  }

  /** The representative of a primitive element inside the normalised Python
      set: lower-cased when the run ignores case, up to Python equality. */
  function PrimKey(ignoreCase: bool, v: Json): Json {
    Canon(if ignoreCase && v.JStr? then JStr(ToLower(v.s)) else v)
  }

  function PrimSet(ignoreCase: bool, xs: seq<Json>): set<Json> {
    set v | v in xs :: PrimKey(ignoreCase, v)
  }

  /** `analyze_primitive_set`: set difference in both directions after
      normalisation; the common elements count as order-only only when
      nothing was added or removed. */
  function AnalyzePrimitiveSet(cfg: Config, bl: seq<Json>, al: seq<Json>, name: string, fullPath: string)
    : (r: Result<SetChange, PyError>)
    ensures r.Failure? <==> exists v :: v in bl + al && Unhashable(v)
    ensures r.Success? ==> r.value.isPrimitive && r.value.attrName == name && r.value.path == fullPath
    ensures r.Success? ==> r.value.added == [] && r.value.removed == [] && r.value.modified == [] && r.value.nested == []
    ensures r.Success? ==> r.value.primAdded == PrimSet(cfg.ignoreCase, al) - PrimSet(cfg.ignoreCase, bl)
    ensures r.Success? ==> r.value.primRemoved == PrimSet(cfg.ignoreCase, bl) - PrimSet(cfg.ignoreCase, al)
    ensures r.Success? ==> (r.value.orderOnly > 0 <==> PrimSet(cfg.ignoreCase, bl) == PrimSet(cfg.ignoreCase, al) != {})
    ensures r.Success? && r.value.orderOnly > 0 ==> r.value.orderOnly == |PrimSet(cfg.ignoreCase, bl)|
  {
    if exists v :: v in bl + al && Unhashable(v) then
      Failure(UnhashableElement(fullPath))
    else
      var b := PrimSet(cfg.ignoreCase, bl);
      var a := PrimSet(cfg.ignoreCase, al);
      var removed := b - a;
      var added := a - b;
      var common := b * a;
      var orderOnly := if common != {} && removed == {} && added == {} then |common| else 0;
      assert removed == {} && added == {} ==> common == b by {
        if removed == {} && added == {} {
          assert forall x :: x in b ==> x in a;
        }
      }
      Success(SetChange(name, fullPath, orderOnly, [], [], [], [], true, added, removed))
  }

  /** Element by element: an after element is reported added exactly when no
      before element normalises to the same value, and symmetrically for
      removed; every reported value comes from an element of its side. */
  lemma PrimitiveMembership(cfg: Config, bl: seq<Json>, al: seq<Json>, name: string, fullPath: string)
    requires AnalyzePrimitiveSet(cfg, bl, al, name, fullPath).Success?
    ensures var c := AnalyzePrimitiveSet(cfg, bl, al, name, fullPath).value;
            && (forall v :: v in al ==>
                  (PrimKey(cfg.ignoreCase, v) in c.primAdded
                   <==> forall w :: w in bl ==> PrimKey(cfg.ignoreCase, w) != PrimKey(cfg.ignoreCase, v)))
            && (forall v :: v in bl ==>
                  (PrimKey(cfg.ignoreCase, v) in c.primRemoved
                   <==> forall w :: w in al ==> PrimKey(cfg.ignoreCase, w) != PrimKey(cfg.ignoreCase, v)))
            && (forall x :: x in c.primAdded ==> exists v :: v in al && PrimKey(cfg.ignoreCase, v) == x)
            && (forall x :: x in c.primRemoved ==> exists v :: v in bl && PrimKey(cfg.ignoreCase, v) == x)
  {
    var c := AnalyzePrimitiveSet(cfg, bl, al, name, fullPath).value;
    var b, a := PrimSet(cfg.ignoreCase, bl), PrimSet(cfg.ignoreCase, al);
    forall v | v in al
      ensures PrimKey(cfg.ignoreCase, v) in c.primAdded
              <==> forall w :: w in bl ==> PrimKey(cfg.ignoreCase, w) != PrimKey(cfg.ignoreCase, v)
    {
      assert PrimKey(cfg.ignoreCase, v) in a;
    }
    forall v | v in bl
      ensures PrimKey(cfg.ignoreCase, v) in c.primRemoved
              <==> forall w :: w in al ==> PrimKey(cfg.ignoreCase, w) != PrimKey(cfg.ignoreCase, v)
    {
      assert PrimKey(cfg.ignoreCase, v) in b;
    }
  }

  /** A permutation of a primitive set is order-only: nothing added or
      removed, and every distinct element counted. */
  lemma PrimitivePermutationIsOrderOnly(cfg: Config, bl: seq<Json>, al: seq<Json>, name: string, fullPath: string)
    requires multiset(bl) == multiset(al) && |bl| > 0
    requires forall v :: v in bl ==> !Unhashable(v)
    ensures var r := AnalyzePrimitiveSet(cfg, bl, al, name, fullPath);
            && r.Success?
            && r.value.primAdded == {} && r.value.primRemoved == {}
            && r.value.orderOnly == |PrimSet(cfg.ignoreCase, bl)| > 0
  {
    assert forall v :: v in bl <==> v in al by {
      forall v ensures v in bl <==> v in al {
        assert v in bl <==> v in multiset(bl);
        assert v in al <==> v in multiset(al);
      }
    }
    assert PrimSet(cfg.ignoreCase, bl) == PrimSet(cfg.ignoreCase, al);
    assert PrimKey(cfg.ignoreCase, bl[0]) in PrimSet(cfg.ignoreCase, bl);
  }

  // ---------------------------------------------------------------------
  // Keyed composite elements

  /** The two dicts `before_map`/`after_map` of `analyze_set_attribute`, with
      their insertion order and the keys reported as duplicates. */
  datatype KeyIndex = KeyIndex(byKey: map<string, map<string, Json>>, order: seq<string>, duplicates: seq<string>)

  /** The number of dict elements in a list. */
  function CountObjects(xs: seq<Json>): (n: nat)
    ensures n <= |xs|
  {
    Count(xs, IsObject)
  }

  /** The key of a dict element at position `i`. */
  function KeyAt(cfg: Config, xs: seq<Json>, keyAttr: Json, i: int): string
    requires 0 <= i < |xs| && xs[i].JObj?
  {
    KeyOf(cfg, xs[i].fields, keyAttr)
  }

  /** The dict element at position `i` is the last one carrying its key. */
  predicate LastWithKey(cfg: Config, xs: seq<Json>, keyAttr: Json, i: int)
    requires 0 <= i < |xs| && xs[i].JObj?
  {
    forall j :: i < j < |xs| && xs[j].JObj? ==> KeyAt(cfg, xs, keyAttr, j) != KeyAt(cfg, xs, keyAttr, i)
  }

  /** No two dict elements share a key. */
  predicate KeysDistinct(cfg: Config, xs: seq<Json>, keyAttr: Json) {
    forall i, j :: 0 <= i < j < |xs| && xs[i].JObj? && xs[j].JObj? ==> KeyAt(cfg, xs, keyAttr, i) != KeyAt(cfg, xs, keyAttr, j)
  }

  /** The insertion order lists each stored key exactly once. */
  ghost predicate OrderListsKeys(r: KeyIndex) {
    (forall k :: k in r.byKey <==> k in r.order) && Distinct(r.order)
  }

  /** Every dict element's key is stored. */
  ghost predicate CoversElements(cfg: Config, xs: seq<Json>, keyAttr: Json, r: KeyIndex) {
    forall i :: 0 <= i < |xs| && xs[i].JObj? ==> KeyAt(cfg, xs, keyAttr, i) in r.byKey
  }

  /** Every stored key belongs to some dict element. */
  ghost predicate KeysWitnessed(cfg: Config, xs: seq<Json>, keyAttr: Json, r: KeyIndex) {
    forall k :: k in r.byKey ==> exists i :: 0 <= i < |xs| && xs[i].JObj? && KeyAt(cfg, xs, keyAttr, i) == k
  }

  /** The element stored under a key is the last one carrying it. */
  ghost predicate LastWins(cfg: Config, xs: seq<Json>, keyAttr: Json, r: KeyIndex) {
    forall i :: 0 <= i < |xs| && xs[i].JObj? && LastWithKey(cfg, xs, keyAttr, i)
      ==> KeyAt(cfg, xs, keyAttr, i) in r.byKey && r.byKey[KeyAt(cfg, xs, keyAttr, i)] == xs[i].fields
  }

  /** One iteration of the indexing loop: a dict element is stored under its
      key, replacing an earlier one, which is then reported as a duplicate. */
  function AddElement(cfg: Config, prev: KeyIndex, e: Json, keyAttr: Json): KeyIndex {
    if !e.JObj? then prev
    else
      var k := KeyOf(cfg, e.fields, keyAttr);
      if k in prev.byKey then KeyIndex(prev.byKey[k := e.fields], prev.order, prev.duplicates + [k])
      else KeyIndex(prev.byKey[k := e.fields], prev.order + [k], prev.duplicates)
  }

  /** The indexing loops of `analyze_set_attribute`: every dict element is
      stored under its key, the last element with a given key
      is the one kept, and each earlier one yields a duplicate report. */
  function IndexElements(cfg: Config, xs: seq<Json>, keyAttr: Json): (r: KeyIndex)
    ensures forall k :: k in r.byKey <==> k in r.order
    ensures Distinct(r.order)
    ensures forall i :: 0 <= i < |xs| && xs[i].JObj? ==> KeyAt(cfg, xs, keyAttr, i) in r.byKey
    ensures forall k :: k in r.byKey ==> exists i :: 0 <= i < |xs| && xs[i].JObj? && KeyAt(cfg, xs, keyAttr, i) == k
    ensures forall i :: 0 <= i < |xs| && xs[i].JObj? && LastWithKey(cfg, xs, keyAttr, i)
              ==> r.byKey[KeyAt(cfg, xs, keyAttr, i)] == xs[i].fields
    ensures |r.duplicates| + |r.order| == CountObjects(xs)
    ensures KeysDistinct(cfg, xs, keyAttr) ==> r.duplicates == []
    decreases |xs|
  {
    if |xs| == 0 then KeyIndex(map[], [], [])
    else
      var prev := IndexElements(cfg, xs[..|xs| - 1], keyAttr);
      var r := AddElement(cfg, prev, xs[|xs| - 1], keyAttr);
      StepOrder(cfg, prev, xs[|xs| - 1], keyAttr);
      StepCovers(cfg, xs, keyAttr, prev);
      StepWitnessed(cfg, xs, keyAttr, prev);
      StepLastWins(cfg, xs, keyAttr, prev);
      StepCounts(cfg, xs, keyAttr, prev);
      StepNoDuplicates(cfg, xs, keyAttr, prev);
      r
  }

  lemma StepOrder(cfg: Config, prev: KeyIndex, e: Json, keyAttr: Json)
    requires OrderListsKeys(prev)
    ensures OrderListsKeys(AddElement(cfg, prev, e, keyAttr))
  {
  }

  lemma PrefixKeys(cfg: Config, xs: seq<Json>, keyAttr: Json)
    requires |xs| > 0
    ensures forall i :: 0 <= i < |xs| - 1 ==> xs[..|xs| - 1][i] == xs[i]
    ensures forall i :: 0 <= i < |xs| - 1 && xs[i].JObj? ==> KeyAt(cfg, xs[..|xs| - 1], keyAttr, i) == KeyAt(cfg, xs, keyAttr, i)
  {
  }

  lemma StepCovers(cfg: Config, xs: seq<Json>, keyAttr: Json, prev: KeyIndex)
    requires |xs| > 0
    requires CoversElements(cfg, xs[..|xs| - 1], keyAttr, prev)
    ensures CoversElements(cfg, xs, keyAttr, AddElement(cfg, prev, xs[|xs| - 1], keyAttr))
  {
    PrefixKeys(cfg, xs, keyAttr);
    var r := AddElement(cfg, prev, xs[|xs| - 1], keyAttr);
    forall i | 0 <= i < |xs| && xs[i].JObj?
      ensures KeyAt(cfg, xs, keyAttr, i) in r.byKey
    {
      if i < |xs| - 1 {
        assert KeyAt(cfg, xs[..|xs| - 1], keyAttr, i) in prev.byKey;
      }
    }
  }

  lemma StepWitnessed(cfg: Config, xs: seq<Json>, keyAttr: Json, prev: KeyIndex)
    requires |xs| > 0
    requires KeysWitnessed(cfg, xs[..|xs| - 1], keyAttr, prev)
    ensures KeysWitnessed(cfg, xs, keyAttr, AddElement(cfg, prev, xs[|xs| - 1], keyAttr))
  {
    PrefixKeys(cfg, xs, keyAttr);
    var n := |xs| - 1;
    var r := AddElement(cfg, prev, xs[n], keyAttr);
    forall k | k in r.byKey
      ensures exists i :: 0 <= i < |xs| && xs[i].JObj? && KeyAt(cfg, xs, keyAttr, i) == k
    {
      if xs[n].JObj? && k == KeyAt(cfg, xs, keyAttr, n) {
      } else {
        var i :| 0 <= i < n && xs[..n][i].JObj? && KeyAt(cfg, xs[..n], keyAttr, i) == k;
        assert KeyAt(cfg, xs, keyAttr, i) == k;
      }
    }
  }

  lemma StepLastWins(cfg: Config, xs: seq<Json>, keyAttr: Json, prev: KeyIndex)
    requires |xs| > 0
    requires LastWins(cfg, xs[..|xs| - 1], keyAttr, prev)
    ensures LastWins(cfg, xs, keyAttr, AddElement(cfg, prev, xs[|xs| - 1], keyAttr))
  {
    PrefixKeys(cfg, xs, keyAttr);
    var n := |xs| - 1;
    var init := xs[..n];
    var r := AddElement(cfg, prev, xs[n], keyAttr);
    forall i | 0 <= i < |xs| && xs[i].JObj? && LastWithKey(cfg, xs, keyAttr, i)
      ensures KeyAt(cfg, xs, keyAttr, i) in r.byKey && r.byKey[KeyAt(cfg, xs, keyAttr, i)] == xs[i].fields
    {
      if i < n {
        assert LastWithKey(cfg, init, keyAttr, i) by {
          forall j | i < j < n && init[j].JObj?
            ensures KeyAt(cfg, init, keyAttr, j) != KeyAt(cfg, init, keyAttr, i)
          {
            assert KeyAt(cfg, xs, keyAttr, j) != KeyAt(cfg, xs, keyAttr, i);
          }
        }
        assert KeyAt(cfg, init, keyAttr, i) in prev.byKey;
        if xs[n].JObj? {
          assert KeyAt(cfg, xs, keyAttr, n) != KeyAt(cfg, xs, keyAttr, i);
        }
      }
    }
  }

  lemma StepCounts(cfg: Config, xs: seq<Json>, keyAttr: Json, prev: KeyIndex)
    requires |xs| > 0
    requires OrderListsKeys(prev)
    requires |prev.duplicates| + |prev.order| == CountObjects(xs[..|xs| - 1])
    ensures var r := AddElement(cfg, prev, xs[|xs| - 1], keyAttr);
            |r.duplicates| + |r.order| == CountObjects(xs)
  {
    var n := |xs| - 1;
    assert xs == xs[..n] + [xs[n]];
    CountConcat(xs[..n], [xs[n]], IsObject);
  }

  lemma StepNoDuplicates(cfg: Config, xs: seq<Json>, keyAttr: Json, prev: KeyIndex)
    requires |xs| > 0
    requires KeysWitnessed(cfg, xs[..|xs| - 1], keyAttr, prev)
    requires KeysDistinct(cfg, xs[..|xs| - 1], keyAttr) ==> prev.duplicates == []
    ensures KeysDistinct(cfg, xs, keyAttr) ==> AddElement(cfg, prev, xs[|xs| - 1], keyAttr).duplicates == []
  {
    PrefixKeys(cfg, xs, keyAttr);
    var n := |xs| - 1;
    var init := xs[..n];
    if KeysDistinct(cfg, xs, keyAttr) {
      assert KeysDistinct(cfg, init, keyAttr) by {
        forall i, j | 0 <= i < j < n && init[i].JObj? && init[j].JObj?
          ensures KeyAt(cfg, init, keyAttr, i) != KeyAt(cfg, init, keyAttr, j)
        {
          assert KeyAt(cfg, xs, keyAttr, i) != KeyAt(cfg, xs, keyAttr, j);
        }
      }
    }
  }

  /** The element keys of one side in first-seen order, split by whether the
      other side has them. */
  function OnlyIn(side: KeyIndex, other: KeyIndex): (r: seq<string>)
    requires forall k :: k in side.byKey <==> k in side.order
    requires Distinct(side.order)
    ensures Distinct(r)
    ensures Elements(r) == side.byKey.Keys - other.byKey.Keys
    ensures |r| == |side.byKey.Keys - other.byKey.Keys|
  {
    var r := Filter(side.order, k => k !in other.byKey);
    DistinctCardinality(r);
    r
  }

  function InBoth(side: KeyIndex, other: KeyIndex): (r: seq<string>)
    requires forall k :: k in side.byKey <==> k in side.order
    requires Distinct(side.order)
    ensures Distinct(r)
    ensures Elements(r) == side.byKey.Keys * other.byKey.Keys
    ensures |r| == |side.byKey.Keys * other.byKey.Keys|
    ensures forall k :: k in r ==> k in side.byKey && k in other.byKey
  {
    var r := Filter(side.order, k => k in other.byKey);
    DistinctCardinality(r);
    r
  }

  // ---------------------------------------------------------------------
  // Element comparison

  /** The two results of `compare_elements`. */
  datatype Comparison = Comparison(diffs: map<string, FieldDiff>, nestedNames: seq<string>)

  /** A nested Set field whose before and after values differ. */
  predicate NestedDiffers(b: map<string, Json>, a: map<string, Json>, nested: map<string, Json>, k: string) {
    k in nested && !PyEq(Get(b, k), Get(a, k))
  }

  /** The names among `ks`, in order, of nested Set fields that differ. */
  function DifferingNested(ks: seq<string>, b: map<string, Json>, a: map<string, Json>, nested: map<string, Json>)
    : (r: seq<string>)
    ensures forall k :: k in r <==> k in ks && NestedDiffers(b, a, nested, k)
    ensures Distinct(ks) ==> Distinct(r)
    ensures (forall k :: k in ks ==> !NestedDiffers(b, a, nested, k)) ==> r == []
  {
    if |ks| == 0 then []
    else
      var rest := DifferingNested(ks[1..], b, a, nested);
      if NestedDiffers(b, a, nested, ks[0]) then [ks[0]] + rest else rest
  }

  /** The non-Set field diffs of a pair of elements. */
  function FieldDiffs(ignoreCase: bool, b: map<string, Json>, a: map<string, Json>, nested: map<string, Json>)
    : (r: map<string, FieldDiff>)
    ensures forall k :: k in r <==>
              (k in b || k in a) && k !in nested && !ValuesEquivalent(ignoreCase, Get(b, k), Get(a, k))
    ensures forall k :: k in r ==> r[k] == FieldDiff(Get(b, k), Get(a, k))
  {
    map k | k in b.Keys + a.Keys && k !in nested && !ValuesEquivalent(ignoreCase, Get(b, k), Get(a, k))
      :: FieldDiff(Get(b, k), Get(a, k))
  }

  /** Outside both elements every field reads as None on both sides. */
  lemma AbsentFieldsAgree(b: map<string, Json>, a: map<string, Json>, nested: map<string, Json>, k: string)
    requires NestedDiffers(b, a, nested, k)
    ensures k in b.Keys + a.Keys
  {
  }

  /** `compare_elements`: non-Set fields are compared by equivalence and
      recorded as before/after diffs; nested Set fields are listed when their
      values differ at all (Python `!=`). */
  function CompareElements(ignoreCase: bool, b: map<string, Json>, a: map<string, Json>, nested: map<string, Json>)
    : (r: Comparison)
    ensures forall k :: k in r.diffs <==>
              (k in b || k in a) && k !in nested && !ValuesEquivalent(ignoreCase, Get(b, k), Get(a, k))
    ensures forall k :: k in r.diffs ==> r.diffs[k] == FieldDiff(Get(b, k), Get(a, k))
    ensures forall k :: k in r.nestedNames <==> NestedDiffers(b, a, nested, k)
    ensures Distinct(r.nestedNames)
  {
    Comparison(FieldDiffs(ignoreCase, b, a, nested), NestedNames(b, a, nested))
  }

  /** The differing nested Set fields of a pair, in key order. */
  function NestedNames(b: map<string, Json>, a: map<string, Json>, nested: map<string, Json>): (r: seq<string>)
    ensures forall k :: k in r <==> NestedDiffers(b, a, nested, k)
    ensures Distinct(r)
  {
    var ordered := SortedSeq(b.Keys + a.Keys);
    assert Distinct(ordered);
    forall k | NestedDiffers(b, a, nested, k)
      ensures k in ordered
    {
      AbsentFieldsAgree(b, a, nested, k);
    }
    DifferingNested(ordered, b, a, nested)
  }

  /** Two elements that are equal in Python's sense have no field diffs and
      no differing nested Set fields. */
  lemma EqualElementsHaveNoDifferences(ignoreCase: bool, b: map<string, Json>, a: map<string, Json>, nested: map<string, Json>)
    requires PyEq(JObj(b), JObj(a))
    ensures CompareElements(ignoreCase, b, a, nested) == Comparison(map[], [])
  {
    var cb, ca := Canon(JObj(b)), Canon(JObj(a));
    assert b.Keys == a.Keys;
    forall k | k in b
      ensures PyEq(b[k], a[k])
    {
      assert cb.fields[k] == Canon(b[k]);
      assert ca.fields[k] == Canon(a[k]);
    }
    forall k
      ensures PyEq(Get(b, k), Get(a, k)) && ValuesEquivalent(ignoreCase, Get(b, k), Get(a, k))
    {
      PyEqImpliesEquivalent(ignoreCase, Get(b, k), Get(a, k));
    }
    var r := CompareElements(ignoreCase, b, a, nested);
    assert r.diffs == map[];
  }

  // ---------------------------------------------------------------------
  // What the matched-pair loop reports, key by key

  /** The comparison of a matched pair's two elements under the attribute's
      nested Set fields. */
  function PairComparison(cfg: Config, def: Json, be: map<string, Json>, ae: map<string, Json>): Comparison {
    CompareElements(cfg.ignoreCase, be, ae, GetAttrConfig(def).nested)
  }

  /** A matched pair reported as modified: the two elements are not equal
      and some non-Set field is not equivalent. */
  predicate ModifiedPair(cfg: Config, def: Json, be: map<string, Json>, ae: map<string, Json>) {
    !PyEq(JObj(be), JObj(ae)) && |PairComparison(cfg, def, be, ae).diffs| > 0
  }

  /** A matched pair counted as order-only: the two elements are equal, or
      no field differs after normalisation and no nested Set field differs. */
  predicate OrderOnlyPair(cfg: Config, def: Json, be: map<string, Json>, ae: map<string, Json>) {
    || PyEq(JObj(be), JObj(ae))
    || (|PairComparison(cfg, def, be, ae).diffs| == 0 && PairComparison(cfg, def, be, ae).nestedNames == [])
  }

  /** The `modified` entry of a matched pair: its display key and its field
      diffs. */
  function ModifiedEntry(cfg: Config, def: Json, key: string, be: map<string, Json>, ae: map<string, Json>): Modified {
    Modified(DisplayKey(GetAttrConfig(def).keyAttr, key), PairComparison(cfg, def, be, ae).diffs)
  }

  /** The `modified` entries of the common keys, in key order. */
  function ModifiedEntries(cfg: Config, def: Json, keys: seq<string>,
                           bm: map<string, map<string, Json>>, am: map<string, map<string, Json>>): seq<Modified>
    requires forall k :: k in keys ==> k in bm && k in am
  {
    if |keys| == 0 then []
    else
      var k := keys[0];
      (if ModifiedPair(cfg, def, bm[k], am[k]) then [ModifiedEntry(cfg, def, k, bm[k], am[k])] else [])
      + ModifiedEntries(cfg, def, keys[1..], bm, am)
  }

  /** The number of common keys counted as order-only. */
  function OrderOnlyCount(cfg: Config, def: Json, keys: seq<string>,
                          bm: map<string, map<string, Json>>, am: map<string, map<string, Json>>): nat
    requires forall k :: k in keys ==> k in bm && k in am
  {
    if |keys| == 0 then 0
    else
      var k := keys[0];
      (if OrderOnlyPair(cfg, def, bm[k], am[k]) then 1 else 0) + OrderOnlyCount(cfg, def, keys[1..], bm, am)
  }

  // ---------------------------------------------------------------------
  // The recursive differ

  /** What the matched-pair loop adds to the change. */
  datatype Pairs = Pairs(orderOnly: nat, modified: seq<Modified>, nested: seq<SetChange>, warnings: seq<DuplicateWarning>)

  /** The nested changes kept for one matched pair. */
  datatype NestedChanges = NestedChanges(changes: seq<SetChange>, warnings: seq<DuplicateWarning>)

  /** Both sides consist of dicts and Nones only, so the keyed path runs. */
  predicate IsComposite(beforeV: Json, afterV: Json) {
    !HasPrimitive(AsList(beforeV)) && !HasPrimitive(AsList(afterV))
  }

  /** `analyze_set_attribute`: a list holding anything but dicts and Nones
      is diffed as a primitive set; otherwise elements are matched by key. */
  function AnalyzeSetAttribute(cfg: Config, beforeV: Json, afterV: Json, def: Json, name: string, path: string)
    : (r: Result<Analysis, PyError>)
    ensures r.Success? ==> r.value.change.attrName == name && r.value.change.path == JoinPath(path, name)
    ensures r.Success? ==> forall c :: c in r.value.change.nested ==> HasFinding(c)
    ensures r.Success? ==> forall m :: m in r.value.change.modified ==> |m.diffs| > 0
    ensures !IsComposite(beforeV, afterV) ==>
              (r.Failure? <==> exists v :: v in AsList(beforeV) + AsList(afterV) && Unhashable(v))
    ensures r.Success? && !IsComposite(beforeV, afterV) ==>
              && r.value.warnings == []
              && AnalyzePrimitiveSet(cfg, AsList(beforeV), AsList(afterV), name, JoinPath(path, name))
                 == Success(r.value.change)
    ensures && IsComposite(beforeV, afterV) && UnhashableKey(GetAttrConfig(def).keyAttr)
            && (exists v :: v in AsList(beforeV) + AsList(afterV) && v.JObj?)
            ==> r == Failure(UnhashableKeyAttr(JoinPath(path, name)))
    ensures r.Success? && IsComposite(beforeV, afterV) ==>
              KeyedOutcome(cfg, AsList(beforeV), AsList(afterV), def, JoinPath(path, name), r.value)
    decreases def, 3, 0
  {
    var fullPath := JoinPath(path, name);
    var bl, al := AsList(beforeV), AsList(afterV);
    if HasPrimitive(bl) || HasPrimitive(al) then
      var c :- AnalyzePrimitiveSet(cfg, bl, al, name, fullPath);
      Success(Analysis(c, []))
    else
      AnalyzeKeyed(cfg, bl, al, def, name, fullPath)
  }

  /** What the keyed path promises: the duplicate-key warnings of the before
      side, then of the after side, come first; keys only before are
      removed, keys only after are added (as themselves when there is a key
      attribute); each common key is counted at most once, either as
      order-only or as modified. */
  predicate KeyedOutcome(cfg: Config, bl: seq<Json>, al: seq<Json>, def: Json, fullPath: string, a: Analysis) {
    var bi, ai := IndexElements(cfg, bl, GetAttrConfig(def).keyAttr), IndexElements(cfg, al, GetAttrConfig(def).keyAttr);
    && !a.change.isPrimitive
    && |bi.duplicates| + |ai.duplicates| <= |a.warnings|
    && a.warnings[..|bi.duplicates| + |ai.duplicates|]
       == DuplicateWarnings(bi.duplicates, BeforeSide, fullPath) + DuplicateWarnings(ai.duplicates, AfterSide, fullPath)
    && a.change.primAdded == {} && a.change.primRemoved == {}
    && |a.change.removed| == |bi.byKey.Keys - ai.byKey.Keys|
    && |a.change.added| == |ai.byKey.Keys - bi.byKey.Keys|
    && a.change.orderOnly + |a.change.modified| <= |bi.byKey.Keys * ai.byKey.Keys|
    && (Truthy(GetAttrConfig(def).keyAttr) ==>
          Elements(a.change.removed) == bi.byKey.Keys - ai.byKey.Keys
          && Elements(a.change.added) == ai.byKey.Keys - bi.byKey.Keys)
  }

  /** The keyed path of `analyze_set_attribute`: index both sides by
      element key, warn about duplicate keys, report the keys found on one
      side only, and compare the elements of the common keys. */
  function AnalyzeKeyed(cfg: Config, bl: seq<Json>, al: seq<Json>, def: Json, name: string, fullPath: string)
    : (r: Result<Analysis, PyError>)
    ensures UnhashableKey(GetAttrConfig(def).keyAttr) && (exists v :: v in bl + al && v.JObj?)
            ==> r == Failure(UnhashableKeyAttr(fullPath))
    ensures r.Success? ==> r.value.change.attrName == name && r.value.change.path == fullPath
    ensures r.Success? ==> forall c :: c in r.value.change.nested ==> HasFinding(c)
    ensures r.Success? ==> forall m :: m in r.value.change.modified ==> |m.diffs| > 0
    ensures r.Success? ==> KeyedOutcome(cfg, bl, al, def, fullPath, r.value)
    decreases def, 2, 0
  {
    var conf := GetAttrConfig(def);
    if UnhashableKey(conf.keyAttr) && (exists v :: v in bl + al && v.JObj?) then
      Failure(UnhashableKeyAttr(fullPath))
    else
      var bi := IndexElements(cfg, bl, conf.keyAttr);
      var ai := IndexElements(cfg, al, conf.keyAttr);
      var removedKeys := OnlyIn(bi, ai);
      var addedKeys := OnlyIn(ai, bi);
      var common := InBoth(bi, ai);
      var pairs :- CompareCommon(cfg, def, common, bi.byKey, ai.byKey, fullPath);
      var dups := DuplicateWarnings(bi.duplicates, BeforeSide, fullPath)
                  + DuplicateWarnings(ai.duplicates, AfterSide, fullPath);
      var warnings := dups + pairs.warnings;
      assert warnings[..|dups|] == dups;
      var removed := Display(conf.keyAttr, removedKeys);
      var added := Display(conf.keyAttr, addedKeys);
      var a := Analysis(SetChange(name, fullPath, pairs.orderOnly, added, removed, pairs.modified,
                                  pairs.nested, false, {}, {}), warnings);
      KeyedOutcomeOf(cfg, bl, al, def, fullPath, pairs, a);
      Success(a)
  }

  /** The keyed path's result, assembled from the indexes and the pair
      loop, has the keyed outcome. */
  lemma KeyedOutcomeOf(cfg: Config, bl: seq<Json>, al: seq<Json>, def: Json, fullPath: string, pairs: Pairs, a: Analysis)
    requires var keyAttr := GetAttrConfig(def).keyAttr;
             var bi, ai := IndexElements(cfg, bl, keyAttr), IndexElements(cfg, al, keyAttr);
             && pairs.orderOnly + |pairs.modified| <= |InBoth(bi, ai)|
             && a.change == SetChange(a.change.attrName, a.change.path, pairs.orderOnly,
                                      Display(keyAttr, OnlyIn(ai, bi)), Display(keyAttr, OnlyIn(bi, ai)),
                                      pairs.modified, pairs.nested, false, {}, {})
             && var dups := DuplicateWarnings(bi.duplicates, BeforeSide, fullPath)
                            + DuplicateWarnings(ai.duplicates, AfterSide, fullPath);
                a.warnings == dups + pairs.warnings
    ensures KeyedOutcome(cfg, bl, al, def, fullPath, a)
  {
    var keyAttr := GetAttrConfig(def).keyAttr;
    var bi, ai := IndexElements(cfg, bl, keyAttr), IndexElements(cfg, al, keyAttr);
    var dups := DuplicateWarnings(bi.duplicates, BeforeSide, fullPath)
                + DuplicateWarnings(ai.duplicates, AfterSide, fullPath);
    assert a.warnings[..|dups|] == dups;
  }

  /** The display keys of a list of element keys. */
  function Display(keyAttr: Json, keys: seq<string>): (r: seq<string>)
    ensures |r| == |keys|
    ensures Truthy(keyAttr) ==> r == keys
    ensures !Truthy(keyAttr) ==> forall i :: 0 <= i < |r| ==> r[i] == "(element)"
  {
    if Truthy(keyAttr) then keys else seq(|keys|, i requires 0 <= i < |keys| => DisplayKey(keyAttr, keys[i]))
  }

  /** One warning per key that occurred again on one side, naming the key,
      the side and the attribute path. */
  function DuplicateWarnings(keys: seq<string>, side: Side, path: string): (r: seq<DuplicateWarning>)
    ensures |r| == |keys|
    ensures forall i :: 0 <= i < |keys| ==> r[i] == DuplicateKey(keys[i], side, path)
  {
    seq(|keys|, i requires 0 <= i < |keys| => DuplicateKey(keys[i], side, path))
  }

  /** The loop over common keys, in key order. */
  function CompareCommon(cfg: Config, def: Json, keys: seq<string>,
                         bm: map<string, map<string, Json>>, am: map<string, map<string, Json>>, path: string)
    : (r: Result<Pairs, PyError>)
    requires forall k :: k in keys ==> k in bm && k in am
    ensures r.Success? ==> r.value.orderOnly + |r.value.modified| <= |keys|
    ensures r.Success? ==> forall c :: c in r.value.nested ==> HasFinding(c)
    ensures r.Success? ==> forall m :: m in r.value.modified ==> |m.diffs| > 0
    ensures r.Success? ==> r.value.modified == ModifiedEntries(cfg, def, keys, bm, am)
    ensures r.Success? ==> r.value.orderOnly == OrderOnlyCount(cfg, def, keys, bm, am)
    decreases def, 1, |keys| + 2
  {
    if |keys| == 0 then Success(Pairs(0, [], [], []))
    else
      var k := keys[0];
      var p :- ComparePair(cfg, def, k, bm[k], am[k], path);
      var rest :- CompareCommon(cfg, def, keys[1..], bm, am, path);
      Success(Pairs(p.orderOnly + rest.orderOnly, p.modified + rest.modified,
                    p.nested + rest.nested, p.warnings + rest.warnings))
  }

  /** One matched pair: equal elements are order-only, anything else goes
      through `CompareUnequal`. */
  function ComparePair(cfg: Config, def: Json, key: string, be: map<string, Json>, ae: map<string, Json>, path: string)
    : (r: Result<Pairs, PyError>)
    ensures r.Success? ==> r.value.orderOnly + |r.value.modified| <= 1
    ensures r.Success? ==> forall c :: c in r.value.nested ==> HasFinding(c)
    ensures r.Success? ==> forall m :: m in r.value.modified ==> |m.diffs| > 0
    ensures PyEq(JObj(be), JObj(ae)) ==> r == Success(Pairs(1, [], [], []))
    ensures r.Success? ==>
              r.value.modified == (if ModifiedPair(cfg, def, be, ae) then [ModifiedEntry(cfg, def, key, be, ae)] else [])
    ensures r.Success? ==> r.value.orderOnly == (if OrderOnlyPair(cfg, def, be, ae) then 1 else 0)
    decreases def, 1, 1
  {
    if PyEq(JObj(be), JObj(ae)) then Success(Pairs(1, [], [], []))
    else CompareUnequal(cfg, def, key, be, ae, path)
  }

  /** A matched pair that is not equal: non-Set field differences make it
      modified; without them it is order-only only when no nested Set field
      differs either. */
  function CompareUnequal(cfg: Config, def: Json, key: string, be: map<string, Json>, ae: map<string, Json>, path: string)
    : (r: Result<Pairs, PyError>)
    ensures r.Success? ==> r.value.orderOnly + |r.value.modified| <= 1
    ensures r.Success? ==> forall c :: c in r.value.nested ==> HasFinding(c)
    ensures r.Success? ==> forall m :: m in r.value.modified ==> |m.diffs| > 0
    ensures r.Success? ==>
              var cmp := CompareElements(cfg.ignoreCase, be, ae, GetAttrConfig(def).nested);
              && (|r.value.modified| == 1 <==> |cmp.diffs| > 0)
              && (r.value.orderOnly == 1 <==> |cmp.diffs| == 0 && cmp.nestedNames == [])
    ensures r.Success? ==>
              var cmp := PairComparison(cfg, def, be, ae);
              && r.value.modified == (if |cmp.diffs| > 0 then [ModifiedEntry(cfg, def, key, be, ae)] else [])
              && r.value.orderOnly == (if |cmp.diffs| == 0 && cmp.nestedNames == [] then 1 else 0)
    decreases def, 1, 0
  {
    var conf := GetAttrConfig(def);
    var cmp := CompareElements(cfg.ignoreCase, be, ae, conf.nested);
    var n :- NestedLoop(cfg, def, cmp.nestedNames, be, ae, path);
    Success(Classify(DisplayKey(conf.keyAttr, key), cmp, n))
  }

  /** The verdict on an unequal pair once its nested fields are analysed:
      modified when a non-Set field differs, order-only when nothing at all
      differs, neither when only nested Set fields differ. */
  function Classify(display: string, cmp: Comparison, n: NestedChanges): (r: Pairs)
    ensures |r.modified| == 1 <==> |cmp.diffs| > 0
    ensures |r.modified| == 1 ==> r.modified[0] == Modified(display, cmp.diffs)
    ensures forall m :: m in r.modified ==> |m.diffs| > 0
    ensures r.orderOnly == 1 <==> |cmp.diffs| == 0 && cmp.nestedNames == []
    ensures r.orderOnly + |r.modified| <= 1
    ensures r.nested == n.changes && r.warnings == n.warnings
  {
    if |cmp.diffs| > 0 then
      Pairs(0, [Modified(display, cmp.diffs)], n.changes, n.warnings)
    else if |cmp.nestedNames| == 0 then
      Pairs(1, [], n.changes, n.warnings)
    else
      Pairs(0, [], n.changes, n.warnings)
  }

  /** The recursion into nested Set fields: a nested change is attached
      only when it carries a finding. */
  function NestedLoop(cfg: Config, def: Json, names: seq<string>, be: map<string, Json>, ae: map<string, Json>, path: string)
    : (r: Result<NestedChanges, PyError>)
    requires forall n :: n in names ==> n in GetAttrConfig(def).nested
    ensures r.Success? ==> |r.value.changes| <= |names|
    ensures r.Success? ==> forall c :: c in r.value.changes ==> HasFinding(c)
    decreases def, 0, |names|
  {
    if |names| == 0 then Success(NestedChanges([], []))
    else
      var n := names[0];
      var child := GetAttrConfig(def).nested[n];
      var a :- AnalyzeSetAttribute(cfg, Get(be, n), Get(ae, n), child, n, path);
      var rest :- NestedLoop(cfg, def, names[1..], be, ae, path);
      var kept := if HasFinding(a.change) then [a.change] else [];
      Success(NestedChanges(kept + rest.changes, a.warnings + rest.warnings))
  }

  // ---------------------------------------------------------------------
  // The pair loop, key by key

  /** Every common key whose pair is modified has its entry in the loop's
      `modified` list, and every entry there belongs to such a key. */
  lemma ModifiedEntriesMembers(cfg: Config, def: Json, keys: seq<string>,
                               bm: map<string, map<string, Json>>, am: map<string, map<string, Json>>)
    requires forall k :: k in keys ==> k in bm && k in am
    ensures forall k :: k in keys && ModifiedPair(cfg, def, bm[k], am[k]) ==>
              ModifiedEntry(cfg, def, k, bm[k], am[k]) in ModifiedEntries(cfg, def, keys, bm, am)
    ensures forall m :: m in ModifiedEntries(cfg, def, keys, bm, am) ==>
              exists k :: k in keys && ModifiedPair(cfg, def, bm[k], am[k]) && m == ModifiedEntry(cfg, def, k, bm[k], am[k])
  {
    ModifiedEntriesComplete(cfg, def, keys, bm, am);
    ModifiedEntriesSound(cfg, def, keys, bm, am);
  }

  /** Every key whose pair is modified has its entry. */
  lemma {:induction false} ModifiedEntriesComplete(cfg: Config, def: Json, keys: seq<string>,
                                                   bm: map<string, map<string, Json>>, am: map<string, map<string, Json>>)
    requires forall k :: k in keys ==> k in bm && k in am
    ensures forall k :: k in keys && ModifiedPair(cfg, def, bm[k], am[k]) ==>
              ModifiedEntry(cfg, def, k, bm[k], am[k]) in ModifiedEntries(cfg, def, keys, bm, am)
    decreases |keys|
  {
    if |keys| > 0 {
      ModifiedEntriesComplete(cfg, def, keys[1..], bm, am);
      forall k | k in keys
        ensures k == keys[0] || k in keys[1..]
      {
      }
    }
  }

  /** Every entry belongs to a key whose pair is modified. */
  lemma {:induction false} ModifiedEntriesSound(cfg: Config, def: Json, keys: seq<string>,
                                                bm: map<string, map<string, Json>>, am: map<string, map<string, Json>>)
    requires forall k :: k in keys ==> k in bm && k in am
    ensures forall m :: m in ModifiedEntries(cfg, def, keys, bm, am) ==>
              exists k :: k in keys && ModifiedPair(cfg, def, bm[k], am[k]) && m == ModifiedEntry(cfg, def, k, bm[k], am[k])
    decreases |keys|
  {
    if |keys| > 0 {
      ModifiedEntriesSound(cfg, def, keys[1..], bm, am);
      forall k | k in keys[1..]
        ensures k in keys
      {
      }
    }
  }

  /** The test `ModifiedPair` as a test on keys common to both maps. */
  function ModifiedKey(cfg: Config, def: Json, bm: map<string, map<string, Json>>, am: map<string, map<string, Json>>)
    : string -> bool
  {
    k => k in bm && k in am && ModifiedPair(cfg, def, bm[k], am[k])
  }

  /** The test `OrderOnlyPair` as a test on keys common to both maps. */
  function OrderOnlyKey(cfg: Config, def: Json, bm: map<string, map<string, Json>>, am: map<string, map<string, Json>>)
    : string -> bool
  {
    k => k in bm && k in am && OrderOnlyPair(cfg, def, bm[k], am[k])
  }

  /** Over distinct keys, the loop reports one modified entry per modified
      pair. */
  lemma {:induction false} ModifiedEntriesCount(cfg: Config, def: Json, keys: seq<string>,
                                                bm: map<string, map<string, Json>>, am: map<string, map<string, Json>>)
    requires forall k :: k in keys ==> k in bm && k in am
    requires Distinct(keys)
    ensures |ModifiedEntries(cfg, def, keys, bm, am)| == |Select(Elements(keys), ModifiedKey(cfg, def, bm, am))|
    decreases |keys|
  {
    if |keys| > 0 {
      DistinctTail(keys);
      ModifiedEntriesCount(cfg, def, keys[1..], bm, am);
      SizeStep(keys, ModifiedKey(cfg, def, bm, am));
    }
  }

  /** Over distinct keys, the loop's order-only count is the number of
      order-only pairs. */
  lemma {:induction false} OrderOnlyCountIsSize(cfg: Config, def: Json, keys: seq<string>,
                                                bm: map<string, map<string, Json>>, am: map<string, map<string, Json>>)
    requires forall k :: k in keys ==> k in bm && k in am
    requires Distinct(keys)
    ensures OrderOnlyCount(cfg, def, keys, bm, am) == |Select(Elements(keys), OrderOnlyKey(cfg, def, bm, am))|
    decreases |keys|
  {
    if |keys| > 0 {
      DistinctTail(keys);
      OrderOnlyCountIsSize(cfg, def, keys[1..], bm, am);
      SizeStep(keys, OrderOnlyKey(cfg, def, bm, am));
    }
  }

  /** On the keyed path, the modified entries and the order-only count are
      those of the pair loop over the common keys. */
  lemma KeyedPairs(cfg: Config, bl: seq<Json>, al: seq<Json>, def: Json, name: string, fullPath: string)
    requires AnalyzeKeyed(cfg, bl, al, def, name, fullPath).Success?
    ensures var keyAttr := GetAttrConfig(def).keyAttr;
            var bi, ai := IndexElements(cfg, bl, keyAttr), IndexElements(cfg, al, keyAttr);
            var c := AnalyzeKeyed(cfg, bl, al, def, name, fullPath).value.change;
            && c.modified == ModifiedEntries(cfg, def, InBoth(bi, ai), bi.byKey, ai.byKey)
            && c.orderOnly == OrderOnlyCount(cfg, def, InBoth(bi, ai), bi.byKey, ai.byKey)
  {
  }

  /** On the keyed path, a common key is reported as modified, with its
      non-Set field diffs, exactly when its two elements differ in a
      non-Set field; each such key gives one entry, and the order-only
      count is the number of common keys whose elements are equal or
      differ in nothing the differ looks at. */
  lemma KeyedModified(cfg: Config, bl: seq<Json>, al: seq<Json>, def: Json, name: string, fullPath: string)
    requires AnalyzeKeyed(cfg, bl, al, def, name, fullPath).Success?
    ensures var keyAttr := GetAttrConfig(def).keyAttr;
            var bm, am := IndexElements(cfg, bl, keyAttr).byKey, IndexElements(cfg, al, keyAttr).byKey;
            var c := AnalyzeKeyed(cfg, bl, al, def, name, fullPath).value.change;
            && (forall k :: k in bm && k in am && ModifiedPair(cfg, def, bm[k], am[k]) ==>
                  Modified(DisplayKey(keyAttr, k), PairComparison(cfg, def, bm[k], am[k]).diffs) in c.modified)
            && (forall m :: m in c.modified ==>
                  exists k :: k in bm && k in am && ModifiedPair(cfg, def, bm[k], am[k]) && m == ModifiedEntry(cfg, def, k, bm[k], am[k]))
            && |c.modified| == |Select(bm.Keys * am.Keys, ModifiedKey(cfg, def, bm, am))|
            && c.orderOnly == |Select(bm.Keys * am.Keys, OrderOnlyKey(cfg, def, bm, am))|
  {
    var keyAttr := GetAttrConfig(def).keyAttr;
    var bi, ai := IndexElements(cfg, bl, keyAttr), IndexElements(cfg, al, keyAttr);
    KeyedPairs(cfg, bl, al, def, name, fullPath);
    CommonKeysModified(cfg, def, InBoth(bi, ai), bi.byKey, ai.byKey);
    CommonKeysCounted(cfg, def, InBoth(bi, ai), bi.byKey, ai.byKey);
  }

  /** `analyze_set_attribute` on dicts: the modified entries and the
      order-only count are those of `KeyedModified`, over the elements of
      both sides indexed by key. */
  lemma SetAttributeModified(cfg: Config, beforeV: Json, afterV: Json, def: Json, name: string, path: string)
    requires IsComposite(beforeV, afterV)
    requires AnalyzeSetAttribute(cfg, beforeV, afterV, def, name, path).Success?
    ensures var keyAttr := GetAttrConfig(def).keyAttr;
            var bm := IndexElements(cfg, AsList(beforeV), keyAttr).byKey;
            var am := IndexElements(cfg, AsList(afterV), keyAttr).byKey;
            var c := AnalyzeSetAttribute(cfg, beforeV, afterV, def, name, path).value.change;
            && (forall k :: k in bm && k in am && ModifiedPair(cfg, def, bm[k], am[k]) ==>
                  Modified(DisplayKey(keyAttr, k), PairComparison(cfg, def, bm[k], am[k]).diffs) in c.modified)
            && (forall m :: m in c.modified ==>
                  exists k :: k in bm && k in am && ModifiedPair(cfg, def, bm[k], am[k]) && m == ModifiedEntry(cfg, def, k, bm[k], am[k]))
            && |c.modified| == |Select(bm.Keys * am.Keys, ModifiedKey(cfg, def, bm, am))|
            && c.orderOnly == |Select(bm.Keys * am.Keys, OrderOnlyKey(cfg, def, bm, am))|
  {
    SetAttributeIsKeyed(cfg, beforeV, afterV, def, name, path);
    KeyedModified(cfg, AsList(beforeV), AsList(afterV), def, name, JoinPath(path, name));
  }

  /** On dicts, `analyze_set_attribute` is its keyed path. */
  lemma SetAttributeIsKeyed(cfg: Config, beforeV: Json, afterV: Json, def: Json, name: string, path: string)
    requires IsComposite(beforeV, afterV)
    ensures AnalyzeSetAttribute(cfg, beforeV, afterV, def, name, path)
            == AnalyzeKeyed(cfg, AsList(beforeV), AsList(afterV), def, name, JoinPath(path, name))
  {
  }

  /** The pair loop over keys that list the common keys of two maps: its
      entries are those of the common keys with a modified pair. */
  lemma CommonKeysModified(cfg: Config, def: Json, keys: seq<string>,
                           bm: map<string, map<string, Json>>, am: map<string, map<string, Json>>)
    requires forall k :: k in keys <==> k in bm && k in am
    ensures forall k :: k in bm && k in am && ModifiedPair(cfg, def, bm[k], am[k]) ==>
              ModifiedEntry(cfg, def, k, bm[k], am[k]) in ModifiedEntries(cfg, def, keys, bm, am)
    ensures forall m :: m in ModifiedEntries(cfg, def, keys, bm, am) ==>
              exists k :: k in bm && k in am && ModifiedPair(cfg, def, bm[k], am[k]) && m == ModifiedEntry(cfg, def, k, bm[k], am[k])
  {
    ModifiedEntriesMembers(cfg, def, keys, bm, am);
  }

  /** The pair loop over keys that list the common keys of two maps, each
      once: it reports one entry per modified pair and counts the order-only
      pairs. */
  lemma CommonKeysCounted(cfg: Config, def: Json, keys: seq<string>,
                          bm: map<string, map<string, Json>>, am: map<string, map<string, Json>>)
    requires Distinct(keys) && forall k :: k in keys <==> k in bm && k in am
    ensures |ModifiedEntries(cfg, def, keys, bm, am)| == |Select(bm.Keys * am.Keys, ModifiedKey(cfg, def, bm, am))|
    ensures OrderOnlyCount(cfg, def, keys, bm, am) == |Select(bm.Keys * am.Keys, OrderOnlyKey(cfg, def, bm, am))|
  {
    assert Elements(keys) == bm.Keys * am.Keys;
    ModifiedEntriesCount(cfg, def, keys, bm, am);
    OrderOnlyCountIsSize(cfg, def, keys, bm, am);
  }

  // ---------------------------------------------------------------------
  // Reordering is reported as order-only

  /** Common keys whose elements are identical on both sides all count as
      order-only, with nothing modified and nothing nested. */
  lemma {:induction false} IdenticalPairsAreOrderOnly(cfg: Config, def: Json, keys: seq<string>,
                                                      bm: map<string, map<string, Json>>,
                                                      am: map<string, map<string, Json>>, path: string)
    requires forall k :: k in keys ==> k in bm && k in am && bm[k] == am[k]
    ensures CompareCommon(cfg, def, keys, bm, am, path) == Success(Pairs(|keys|, [], [], []))
    decreases |keys|
  {
    if |keys| > 0 {
      var k := keys[0];
      IdenticalPairsAreOrderOnly(cfg, def, keys[1..], bm, am, path);
      assert PyEq(JObj(bm[k]), JObj(am[k]));
      CompareCommonCons(cfg, def, keys, bm, am, path);
    }
  }

  /** One step of the loop over common keys, when the first pair and the
      rest both succeed: each part of the result is the first pair's part
      followed by the rest's. */
  lemma CompareCommonCons(cfg: Config, def: Json, keys: seq<string>,
                          bm: map<string, map<string, Json>>, am: map<string, map<string, Json>>, path: string)
    requires |keys| > 0 && forall k :: k in keys ==> k in bm && k in am
    requires ComparePair(cfg, def, keys[0], bm[keys[0]], am[keys[0]], path).Success?
    requires CompareCommon(cfg, def, keys[1..], bm, am, path).Success?
    ensures var r := CompareCommon(cfg, def, keys, bm, am, path);
            var p := ComparePair(cfg, def, keys[0], bm[keys[0]], am[keys[0]], path).value;
            var rest := CompareCommon(cfg, def, keys[1..], bm, am, path).value;
            && r.Success?
            && r.value.orderOnly == p.orderOnly + rest.orderOnly
            && r.value.modified == p.modified + rest.modified
            && r.value.nested == p.nested + rest.nested
            && r.value.warnings == p.warnings + rest.warnings
  {
  }

  /** With distinct keys, every dict element is stored and nothing is
      reported as a duplicate. */
  lemma DistinctKeysIndexSize(cfg: Config, xs: seq<Json>, keyAttr: Json)
    requires KeysDistinct(cfg, xs, keyAttr)
    ensures var r := IndexElements(cfg, xs, keyAttr);
            r.duplicates == [] && |r.byKey.Keys| == CountObjects(xs)
  {
    var r := IndexElements(cfg, xs, keyAttr);
    DistinctCardinality(r.order);
    assert Elements(r.order) == r.byKey.Keys;
  }

  /** Two lists holding the same elements, each with distinct keys, index to
      the same key-to-element map. */
  lemma PermutationSameIndex(cfg: Config, bl: seq<Json>, al: seq<Json>, keyAttr: Json)
    requires multiset(bl) == multiset(al)
    requires KeysDistinct(cfg, bl, keyAttr) && KeysDistinct(cfg, al, keyAttr)
    ensures IndexElements(cfg, bl, keyAttr).byKey == IndexElements(cfg, al, keyAttr).byKey
  {
    var bm, am := IndexElements(cfg, bl, keyAttr).byKey, IndexElements(cfg, al, keyAttr).byKey;
    forall k | k in bm
      ensures k in am && am[k] == bm[k]
    {
      SameElementSameEntry(cfg, bl, al, keyAttr, k);
    }
    forall k | k in am
      ensures k in bm
    {
      SameElementSameEntry(cfg, al, bl, keyAttr, k);
    }
    MapsAgree(bm, am);
  }

  lemma MapsAgree<K, V>(m1: map<K, V>, m2: map<K, V>)
    requires forall k :: k in m1 ==> k in m2 && m2[k] == m1[k]
    requires forall k :: k in m2 ==> k in m1
    ensures m1 == m2
  {
  }

  /** One direction of `PermutationSameIndex`, for a single key. */
  lemma SameElementSameEntry(cfg: Config, xs: seq<Json>, ys: seq<Json>, keyAttr: Json, k: string)
    requires multiset(xs) == multiset(ys)
    requires KeysDistinct(cfg, xs, keyAttr) && KeysDistinct(cfg, ys, keyAttr)
    requires k in IndexElements(cfg, xs, keyAttr).byKey
    ensures k in IndexElements(cfg, ys, keyAttr).byKey
    ensures IndexElements(cfg, ys, keyAttr).byKey[k] == IndexElements(cfg, xs, keyAttr).byKey[k]
  {
    var xi, yi := IndexElements(cfg, xs, keyAttr), IndexElements(cfg, ys, keyAttr);
    var i :| 0 <= i < |xs| && xs[i].JObj? && KeyAt(cfg, xs, keyAttr, i) == k;
    assert LastWithKey(cfg, xs, keyAttr, i);
    assert xs[i] in multiset(ys);
    var j :| 0 <= j < |ys| && ys[j] == xs[i];
    assert KeyAt(cfg, ys, keyAttr, j) == k;
    assert LastWithKey(cfg, ys, keyAttr, j);
  }

  /** A Set attribute whose after list reorders its before list, with no two
      dict elements sharing a key, is pure reordering: nothing added,
      removed, modified or nested, no warning, and every element counted as
      order-only. */
  lemma PermutationIsOrderOnly(cfg: Config, bl: seq<Json>, al: seq<Json>, def: Json, name: string, path: string)
    requires multiset(bl) == multiset(al)
    requires IsComposite(JList(bl), JList(al))
    requires !UnhashableKey(GetAttrConfig(def).keyAttr)
    requires KeysDistinct(cfg, bl, GetAttrConfig(def).keyAttr) && KeysDistinct(cfg, al, GetAttrConfig(def).keyAttr)
    ensures var r := AnalyzeSetAttribute(cfg, JList(bl), JList(al), def, name, path);
            && r.Success?
            && r.value.change.added == [] && r.value.change.removed == []
            && r.value.change.modified == [] && r.value.change.nested == []
            && r.value.warnings == []
            && r.value.change.orderOnly == CountObjects(bl)
  {
    var keyAttr := GetAttrConfig(def).keyAttr;
    assert AsList(JList(bl)) == bl && AsList(JList(al)) == al;
    var bi, ai := IndexElements(cfg, bl, keyAttr), IndexElements(cfg, al, keyAttr);
    PermutationSameIndex(cfg, bl, al, keyAttr);
    DistinctKeysIndexSize(cfg, bl, keyAttr);
    DistinctKeysIndexSize(cfg, al, keyAttr);
    var common := InBoth(bi, ai);
    IdenticalPairsAreOrderOnly(cfg, def, common, bi.byKey, ai.byKey, JoinPath(path, name));
    assert |OnlyIn(bi, ai)| == 0 && |OnlyIn(ai, bi)| == 0;
  }

  /** A pair of elements that differ only in one nested Set field, whose
      after list reorders the before list: the pair is neither modified nor
      order-only itself, and it carries one nested change that counts every
      dict element as order-only. */
  lemma NestedReorderIsNestedFinding(cfg: Config, def: Json, key: string, be: map<string, Json>,
                                     n: string, bl: seq<Json>, al: seq<Json>, path: string)
    requires n in GetAttrConfig(def).nested && Get(be, n) == JList(bl)
    requires !PyEq(JList(bl), JList(al))
    requires var child := GetAttrConfig(GetAttrConfig(def).nested[n]).keyAttr;
             && multiset(bl) == multiset(al)
             && IsComposite(JList(bl), JList(al))
             && !UnhashableKey(child)
             && KeysDistinct(cfg, bl, child) && KeysDistinct(cfg, al, child)
    requires CountObjects(bl) > 0
    ensures var r := ComparePair(cfg, def, key, be, be[n := JList(al)], path);
            && r.Success?
            && r.value.orderOnly == 0 && r.value.modified == [] && r.value.warnings == []
            && |r.value.nested| == 1
            && var c := r.value.nested[0];
               && c.attrName == n && c.orderOnly == CountObjects(bl)
               && c.added == [] && c.removed == [] && c.modified == [] && c.nested == []
  {
    var ae := be[n := JList(al)];
    var nested := GetAttrConfig(def).nested;
    OnlyOneNestedDiffers(cfg.ignoreCase, be, n, JList(al), nested);
    if PyEq(JObj(be), JObj(ae)) {
      EqualElementsHaveNoDifferences(cfg.ignoreCase, be, ae, nested);
      assert false;
    }
    assert ComparePair(cfg, def, key, be, ae, path) == CompareUnequal(cfg, def, key, be, ae, path);
    ReorderedChildIsKept(cfg, def, be, ae, n, bl, al, path);
    UnequalPairUnfolds(cfg, def, key, be, ae, path);
  }

  /** `CompareUnequal` classifies the pair once its nested loop succeeds. */
  lemma UnequalPairUnfolds(cfg: Config, def: Json, key: string, be: map<string, Json>, ae: map<string, Json>, path: string)
    requires var cmp := CompareElements(cfg.ignoreCase, be, ae, GetAttrConfig(def).nested);
             NestedLoop(cfg, def, cmp.nestedNames, be, ae, path).Success?
    ensures var cmp := CompareElements(cfg.ignoreCase, be, ae, GetAttrConfig(def).nested);
            var n := NestedLoop(cfg, def, cmp.nestedNames, be, ae, path);
            CompareUnequal(cfg, def, key, be, ae, path)
            == Success(Classify(DisplayKey(GetAttrConfig(def).keyAttr, key), cmp, n.value))
  {
  }

  /** The nested loop over the single reordered field keeps its change. */
  lemma ReorderedChildIsKept(cfg: Config, def: Json, be: map<string, Json>, ae: map<string, Json>,
                             n: string, bl: seq<Json>, al: seq<Json>, path: string)
    requires n in GetAttrConfig(def).nested && Get(be, n) == JList(bl) && Get(ae, n) == JList(al)
    requires var child := GetAttrConfig(GetAttrConfig(def).nested[n]).keyAttr;
             && multiset(bl) == multiset(al)
             && IsComposite(JList(bl), JList(al))
             && !UnhashableKey(child)
             && KeysDistinct(cfg, bl, child) && KeysDistinct(cfg, al, child)
    requires CountObjects(bl) > 0
    ensures var r := NestedLoop(cfg, def, [n], be, ae, path);
            && r.Success? && r.value.warnings == [] && |r.value.changes| == 1
            && var c := r.value.changes[0];
               && c.attrName == n && c.orderOnly == CountObjects(bl)
               && c.added == [] && c.removed == [] && c.modified == [] && c.nested == []
  {
    var child := GetAttrConfig(def).nested[n];
    PermutationIsOrderOnly(cfg, bl, al, child, n, path);
    NestedLoopOne(cfg, def, n, be, ae, path);
  }

  /** The nested loop over one field with a finding keeps that field's
      change and its warnings. */
  lemma NestedLoopOne(cfg: Config, def: Json, n: string, be: map<string, Json>, ae: map<string, Json>, path: string)
    requires n in GetAttrConfig(def).nested
    requires var a := AnalyzeSetAttribute(cfg, Get(be, n), Get(ae, n), GetAttrConfig(def).nested[n], n, path);
             a.Success? && HasFinding(a.value.change)
    ensures var a := AnalyzeSetAttribute(cfg, Get(be, n), Get(ae, n), GetAttrConfig(def).nested[n], n, path);
            var r := NestedLoop(cfg, def, [n], be, ae, path);
            r.Success? && r.value.changes == [a.value.change] && r.value.warnings == a.value.warnings
  {
    var names := [n];
    assert names[0] == n;
    NestedLoopAfterOne(cfg, def, n, be, ae, path);
    NestedLoopCons(cfg, def, names, be, ae, path);
    assert NestedLoop(cfg, def, names, be, ae, path).value.changes
           == (if HasFinding(AnalyzeSetAttribute(cfg, Get(be, n), Get(ae, n), GetAttrConfig(def).nested[n], n, path).value.change)
               then [AnalyzeSetAttribute(cfg, Get(be, n), Get(ae, n), GetAttrConfig(def).nested[n], n, path).value.change] else []) + [];
  }

  /** Every nested field the loop visits is analysed without error, and
      every analysis with a finding is attached. */
  lemma {:induction false} NestedLoopKeepsFindings(cfg: Config, def: Json, names: seq<string>,
                                                   be: map<string, Json>, ae: map<string, Json>, path: string)
    requires forall n :: n in names ==> n in GetAttrConfig(def).nested
    requires NestedLoop(cfg, def, names, be, ae, path).Success?
    ensures forall n :: n in names ==>
              var a := AnalyzeSetAttribute(cfg, Get(be, n), Get(ae, n), GetAttrConfig(def).nested[n], n, path);
              a.Success? && (HasFinding(a.value.change) ==> a.value.change in NestedLoop(cfg, def, names, be, ae, path).value.changes)
    decreases |names|
  {
    if |names| > 0 {
      NestedLoopHeadKept(cfg, def, names, be, ae, path);
      NestedLoopTailKept(cfg, def, names, be, ae, path);
      NestedLoopKeepsFindings(cfg, def, names[1..], be, ae, path);
      forall n | n in names
        ensures n == names[0] || n in names[1..]
      {
      }
    }
  }

  /** The first field of a successful nested loop is analysed without
      error, and its change is attached when it has a finding. */
  lemma NestedLoopHeadKept(cfg: Config, def: Json, names: seq<string>, be: map<string, Json>, ae: map<string, Json>, path: string)
    requires |names| > 0 && forall n :: n in names ==> n in GetAttrConfig(def).nested
    requires NestedLoop(cfg, def, names, be, ae, path).Success?
    ensures var a := AnalyzeSetAttribute(cfg, Get(be, names[0]), Get(ae, names[0]),
                                         GetAttrConfig(def).nested[names[0]], names[0], path);
            a.Success? && (HasFinding(a.value.change) ==> a.value.change in NestedLoop(cfg, def, names, be, ae, path).value.changes)
  {
    NestedLoopParts(cfg, def, names, be, ae, path);
    NestedLoopCons(cfg, def, names, be, ae, path);
  }

  /** The changes kept for the later fields are kept by the whole loop. */
  lemma NestedLoopTailKept(cfg: Config, def: Json, names: seq<string>, be: map<string, Json>, ae: map<string, Json>, path: string)
    requires |names| > 0 && forall n :: n in names ==> n in GetAttrConfig(def).nested
    requires NestedLoop(cfg, def, names, be, ae, path).Success?
    ensures NestedLoop(cfg, def, names[1..], be, ae, path).Success?
    ensures forall c :: c in NestedLoop(cfg, def, names[1..], be, ae, path).value.changes ==>
              c in NestedLoop(cfg, def, names, be, ae, path).value.changes
  {
    NestedLoopParts(cfg, def, names, be, ae, path);
    NestedLoopCons(cfg, def, names, be, ae, path);
  }

  /** A successful nested loop analysed its first field and the rest
      without error. */
  lemma NestedLoopParts(cfg: Config, def: Json, names: seq<string>, be: map<string, Json>, ae: map<string, Json>, path: string)
    requires |names| > 0 && forall n :: n in names ==> n in GetAttrConfig(def).nested
    requires NestedLoop(cfg, def, names, be, ae, path).Success?
    ensures AnalyzeSetAttribute(cfg, Get(be, names[0]), Get(ae, names[0]), GetAttrConfig(def).nested[names[0]], names[0], path).Success?
    ensures NestedLoop(cfg, def, names[1..], be, ae, path).Success?
  {
  }

  /** After its only field, the nested loop over one field has nothing left
      to do. */
  lemma NestedLoopAfterOne(cfg: Config, def: Json, n: string, be: map<string, Json>, ae: map<string, Json>, path: string)
    ensures NestedLoop(cfg, def, [n][1..], be, ae, path) == Success(NestedChanges([], []))
  {
    assert [n][1..] == [];
    NestedLoopEmpty(cfg, def, be, ae, path);
  }

  lemma NestedLoopEmpty(cfg: Config, def: Json, be: map<string, Json>, ae: map<string, Json>, path: string)
    ensures NestedLoop(cfg, def, [], be, ae, path) == Success(NestedChanges([], []))
  {
  }

  /** One step of the nested loop, when the first field and the rest both
      succeed. */
  lemma NestedLoopCons(cfg: Config, def: Json, names: seq<string>, be: map<string, Json>, ae: map<string, Json>, path: string)
    requires |names| > 0 && forall n :: n in names ==> n in GetAttrConfig(def).nested
    requires AnalyzeSetAttribute(cfg, Get(be, names[0]), Get(ae, names[0]), GetAttrConfig(def).nested[names[0]], names[0], path).Success?
    requires NestedLoop(cfg, def, names[1..], be, ae, path).Success?
    ensures var a := AnalyzeSetAttribute(cfg, Get(be, names[0]), Get(ae, names[0]), GetAttrConfig(def).nested[names[0]], names[0], path).value;
            var rest := NestedLoop(cfg, def, names[1..], be, ae, path).value;
            var r := NestedLoop(cfg, def, names, be, ae, path);
            && r.Success?
            && r.value.changes == (if HasFinding(a.change) then [a.change] else []) + rest.changes
            && r.value.warnings == a.warnings + rest.warnings
  {
  }

  /** Changing one nested Set field to an unequal value gives no field diff
      and that field as the only differing nested field. */
  lemma OnlyOneNestedDiffers(ignoreCase: bool, be: map<string, Json>, n: string, v: Json, nested: map<string, Json>)
    requires n in nested && !PyEq(Get(be, n), v)
    ensures CompareElements(ignoreCase, be, be[n := v], nested) == Comparison(map[], [n])
  {
    NoDiffsAfterNestedUpdate(ignoreCase, be, n, v, nested);
    NestedNamesAfterUpdate(ignoreCase, be, n, v, nested);
  }

  /** Updating only a nested Set field leaves no field diff. */
  lemma NoDiffsAfterNestedUpdate(ignoreCase: bool, be: map<string, Json>, n: string, v: Json, nested: map<string, Json>)
    requires n in nested
    ensures CompareElements(ignoreCase, be, be[n := v], nested).diffs == map[]
  {
    var d := CompareElements(ignoreCase, be, be[n := v], nested).diffs;
    forall k | k != n
      ensures ValuesEquivalent(ignoreCase, Get(be, k), Get(be[n := v], k))
    {
      PyEqImpliesEquivalent(ignoreCase, Get(be, k), Get(be[n := v], k));
    }
    assert d.Keys == {};
  }

  /** Updating a nested Set field to an unequal value makes it the only
      differing nested field. */
  lemma NestedNamesAfterUpdate(ignoreCase: bool, be: map<string, Json>, n: string, v: Json, nested: map<string, Json>)
    requires n in nested && !PyEq(Get(be, n), v)
    ensures CompareElements(ignoreCase, be, be[n := v], nested).nestedNames == [n]
  {
    var names := CompareElements(ignoreCase, be, be[n := v], nested).nestedNames;
    assert n in names;
    OnlyElement(names, n);
  }

  /** A duplicate-free sequence whose only member is `x` is `[x]`. */
  lemma OnlyElement<T>(s: seq<T>, x: T)
    requires Distinct(s) && x in s && forall y :: y in s ==> y == x
    ensures s == [x]
  {
    DistinctCardinality(s);
    assert Elements(s) == {x};
    assert s[0] in s;
  }
}
