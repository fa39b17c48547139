/** `analyze_resource_change` of analyze_plan.py: decide whether one entry of
    the plan's `resource_changes` is analysed at all, classify its actions,
    run the Set differ over every Set-type attribute the schema lists for the
    resource type, and collect the other top-level attributes that changed.

    The loaded attribute schema (`AZURERM_SET_ATTRIBUTES`) is a parameter,
    and the warnings the source appends to the global list are returned. */
module ResourceAnalysis {
  import opened Wrappers
  import opened JsonValue
  import opened Text
  import opened Seqs
  import opened SetDiff

  /** The fields of one `resource_changes` entry the analyzer reads
      (`type`, `address`, `change.actions`, `change.before`, ...). */
  datatype PlanEntry = PlanEntry(
    resourceType: string,
    address: string,
    actions: seq<string>,
    before: Json,
    after: Json,
    afterUnknown: Json,
    beforeSensitive: Json,
    afterSensitive: Json)

  /** The `--include` and `--exclude` substring filters. */
  datatype Filters = Filters(includes: seq<string>, excludes: seq<string>)

  /** Resource type to Set-type attribute name to attribute definition. */
  type Schema = map<string, map<string, Json>>

  /** `ResourceChange`. */
  datatype ResourceChange = ResourceChange(
    address: string,
    resourceType: string,
    actions: seq<string>,
    setChanges: seq<SetChange>,
    otherChanges: seq<string>,
    isReplace: bool,
    isCreate: bool,
    isDelete: bool)

  /** The resource change, or `None` for a skipped entry, with the warnings
      raised while analysing it. */
  datatype Outcome = Outcome(resource: Option<ResourceChange>, warnings: seq<Warning>)

  const ProviderPrefix: string := "azurerm_"

  // ---------------------------------------------------------------------
  // Which entries are analysed

  /** Some filter string occurs in the resource type. */
  predicate AnyOccurs(filters: seq<string>, resourceType: string) {
    exists i :: 0 <= i < |filters| && Contains(resourceType, filters[i])
  }

  /** The entries the analyzer returns `None` for: no-ops, resources of
      other providers, and types the filters reject. */
  predicate Skipped(e: PlanEntry, f: Filters) {
    || e.actions == ["no-op"]
    || !StartsWith(e.resourceType, ProviderPrefix)
    || (|f.includes| > 0 && !AnyOccurs(f.includes, e.resourceType))
    || (|f.excludes| > 0 && AnyOccurs(f.excludes, e.resourceType))
  }

  predicate IsCreate(actions: seq<string>) {
    actions == ["create"]
  }

  predicate IsDelete(actions: seq<string>) {
    actions == ["delete"]
  }

  /** A replacement deletes and creates, in either order. */
  predicate IsReplace(actions: seq<string>) {
    "delete" in actions && "create" in actions
  }

  // ---------------------------------------------------------------------
  // Plan values

  /** A plan value with a falsy value replaced by the empty dict. */
  function OrEmpty(v: Json): (r: Json)
    ensures Truthy(v) ==> r == v
    ensures !Truthy(v) ==> r == JObj(map[])
  {
    if Truthy(v) then v else JObj(map[])
  }

  /** The members of `v or {}`, or the AttributeError that `.get` raises
      when it is not a dict. */
  function AsDict(v: Json, address: string): (r: Result<map<string, Json>, PyError>)
    ensures r.Success? <==> !Truthy(v) || v.JObj?
    ensures v.JObj? ==> r == Success(v.fields)
    ensures !Truthy(v) ==> r == Success(map[])
  {
    var n := OrEmpty(v);
    if n.JObj? then Success(n.fields) else Failure(NotAnObject(address))
  }

  /** The members of `v or {}` when it is a dict, and nothing otherwise. */
  function Members(v: Json): map<string, Json> {
    if v.JObj? then v.fields else map[]
  }

  /** Python's `name in v` on `v or {}`: key membership for a dict, element
      membership for a list, substring search for a string; a true boolean
      or a non-zero number raises TypeError. */
  function In(v: Json, name: string, address: string): (r: Result<bool, PyError>)
    ensures v.JObj? ==> r == Success(name in v.fields)
    ensures !Truthy(v) ==> r == Success(false)
    ensures r.Failure? <==> Truthy(v) && IsNumber(v)
  {
    match OrEmpty(v)
    case JObj(m) => Success(name in m)
    case JList(xs) => Success(exists i :: 0 <= i < |xs| && PyEq(xs[i], JStr(name)))
    case JStr(s) => Success(Contains(s, name))
    case _ => Failure(NotIterable(address))
  }

  /** Looking up `name` in a sensitivity marker: the member or `None` for a
      dict or a falsy marker, an AttributeError for anything else. */
  function DictGet(v: Json, name: string, address: string): (r: Result<Json, PyError>)
    ensures r.Success? <==> !Truthy(v) || v.JObj?
    ensures r.Success? ==> r.value == Get(Members(v), name)
  {
    var d :- AsDict(v, address);
    Success(Get(d, name))
  }

  /** The sensitivity test: the name occurs in either marker and one of the
      markers holds a truthy value for it. */
  function IsSensitive(bs: Json, as_: Json, name: string, address: string): (r: Result<bool, PyError>)
    ensures bs.JObj? && as_.JObj? ==>
              r == Success(Truthy(Get(bs.fields, name)) || Truthy(Get(as_.fields, name)))
    ensures !Truthy(bs) && !Truthy(as_) ==> r == Success(false)
    ensures (bs.JObj? || !Truthy(bs)) && (as_.JObj? || !Truthy(as_)) ==>
              r == Success(Truthy(Get(Members(bs), name)) || Truthy(Get(Members(as_), name)))
  {
    var inBefore :- In(bs, name, address);
    var inEither :- if inBefore then Success(true) else In(as_, name, address);
    if !inEither then Success(false)
    else
      var gb :- DictGet(bs, name, address);
      if Truthy(gb) then Success(true)
      else
        var ga :- DictGet(as_, name, address);
        Success(Truthy(ga))
  }

  // ---------------------------------------------------------------------
  // The attribute loop

  /** The per-resource context of the attribute loop. */
  datatype Context = Context(
    address: string,
    before: map<string, Json>,
    after: map<string, Json>,
    afterUnknown: Json,
    beforeSensitive: Json,
    afterSensitive: Json)

  /** An attribute the loop hands to the Set differ: present on some side,
      changed under Python's `==`, and a list on some side. */
  predicate Considered(bv: Json, av: Json) {
    !(bv.JNull? && av.JNull?) && !PyEq(bv, av) && (bv.JList? || av.JList?)
  }

  predicate ConsideredIn(ctx: Context, name: string) {
    Considered(Get(ctx.before, name), Get(ctx.after, name))
  }

  /** The Set changes kept so far and the warnings raised so far. */
  datatype LoopState = LoopState(changes: seq<SetChange>, warnings: seq<Warning>)

  /** `analyzed_attrs`: the attributes whose change was kept. */
  function Analyzed(changes: seq<SetChange>): set<string> {
    set c | c in changes :: c.attrName
  }

  /** The analysis of one considered attribute. */
  function AnalyzeAttr(cfg: Config, ctx: Context, attrs: map<string, Json>, name: string): Result<Analysis, PyError>
    requires name in attrs
  {
    AnalyzeSetAttribute(cfg, Get(ctx.before, name), Get(ctx.after, name), attrs[name], name, "")
  }

  /** The loop over the schema's attributes for the resource type. */
  function AttrLoop(cfg: Config, ctx: Context, attrs: map<string, Json>, names: seq<string>)
    : (r: Result<LoopState, PyError>)
    requires forall n :: n in names ==> n in attrs
    ensures r.Success? ==> forall c :: c in r.value.changes ==>
              && c.attrName in names
              && HasFinding(c)
              && ConsideredIn(ctx, c.attrName)
    decreases |names|
  {
    if |names| == 0 then Success(LoopState([], []))
    else
      var name := names[0];
      var sensitive :- IsSensitive(ctx.beforeSensitive, ctx.afterSensitive, name, ctx.address);
      var w := if sensitive then [SensitiveAttribute(name, ctx.address)] else [];
      if !ConsideredIn(ctx, name) then
        var rest :- AttrLoop(cfg, ctx, attrs, names[1..]);
        Success(LoopState(rest.changes, w + rest.warnings))
      else
        var _ :- DictGet(ctx.afterUnknown, name, ctx.address);
        var an :- AnalyzeAttr(cfg, ctx, attrs, name);
        var kept := if HasFinding(an.change) then [an.change] else [];
        var rest :- AttrLoop(cfg, ctx, attrs, names[1..]);
        KeptThenRest(ctx, names, kept, rest.changes);
        Success(LoopState(kept + rest.changes, w + an.warnings + rest.warnings))
  }

  /** The changes kept for the first attribute followed by those of the
      rest of the loop all satisfy the loop's postcondition. */
  lemma KeptThenRest(ctx: Context, names: seq<string>, kept: seq<SetChange>, rest: seq<SetChange>)
    requires |names| > 0
    requires forall c :: c in kept ==> c.attrName == names[0] && HasFinding(c) && ConsideredIn(ctx, c.attrName)
    requires forall c :: c in rest ==> c.attrName in names[1..] && HasFinding(c) && ConsideredIn(ctx, c.attrName)
    ensures forall c :: c in kept + rest ==> c.attrName in names && HasFinding(c) && ConsideredIn(ctx, c.attrName)
  {
    forall c | c in kept + rest
      ensures c.attrName in names
    {
      if c in rest {
        assert c.attrName in names[1..];
      }
    }
  }

  /** The change the loop keeps for one attribute, if any. */
  function Kept(cfg: Config, ctx: Context, attrs: map<string, Json>, name: string): seq<SetChange>
    requires name in attrs
  {
    if ConsideredIn(ctx, name) then
      var an := AnalyzeAttr(cfg, ctx, attrs, name);
      if an.Success? && HasFinding(an.value.change) then [an.value.change] else []
    else []
  }

  /** One turn of the loop: the first attribute's kept change, then the
      rest. */
  lemma AttrLoopUnfold(cfg: Config, ctx: Context, attrs: map<string, Json>, names: seq<string>)
    requires forall n :: n in names ==> n in attrs
    requires |names| > 0 && AttrLoop(cfg, ctx, attrs, names).Success?
    ensures AttrLoop(cfg, ctx, attrs, names[1..]).Success?
    ensures ConsideredIn(ctx, names[0]) ==> AnalyzeAttr(cfg, ctx, attrs, names[0]).Success?
    ensures AttrLoop(cfg, ctx, attrs, names).value.changes
         == Kept(cfg, ctx, attrs, names[0]) + AttrLoop(cfg, ctx, attrs, names[1..]).value.changes
  {
  }

  lemma AnalyzedConcat(xs: seq<SetChange>, ys: seq<SetChange>)
    ensures Analyzed(xs + ys) == Analyzed(xs) + Analyzed(ys)
  {
    assert forall c :: c in xs + ys <==> c in xs || c in ys;
  }

  /** Every considered attribute is analysed without error, and it is kept
      exactly when its analysis has a finding. */
  lemma {:induction false} AttrLoopKeepsFindings(cfg: Config, ctx: Context, attrs: map<string, Json>, names: seq<string>, name: string)
    requires forall n :: n in names ==> n in attrs
    requires AttrLoop(cfg, ctx, attrs, names).Success?
    requires name in names && ConsideredIn(ctx, name)
    ensures AnalyzeAttr(cfg, ctx, attrs, name).Success?
    ensures HasFinding(AnalyzeAttr(cfg, ctx, attrs, name).value.change)
            <==> name in Analyzed(AttrLoop(cfg, ctx, attrs, names).value.changes)
    decreases |names|
  {
    AttrLoopUnfold(cfg, ctx, attrs, names);
    AnalyzedConcat(Kept(cfg, ctx, attrs, names[0]), AttrLoop(cfg, ctx, attrs, names[1..]).value.changes);
    KeptNames(cfg, ctx, attrs, names[0], name);
    if name in names[1..] {
      AttrLoopKeepsFindings(cfg, ctx, attrs, names[1..], name);
    } else {
      NotInLoop(cfg, ctx, attrs, names[1..], name);
    }
  }

  /** The change kept for one attribute carries that attribute's name, and
      it is kept exactly when its analysis has a finding. */
  lemma KeptNames(cfg: Config, ctx: Context, attrs: map<string, Json>, first: string, name: string)
    requires first in attrs && name in attrs
    requires ConsideredIn(ctx, first) ==> AnalyzeAttr(cfg, ctx, attrs, first).Success?
    ensures first != name ==> name !in Analyzed(Kept(cfg, ctx, attrs, first))
    ensures first == name && ConsideredIn(ctx, name) ==>
              (name in Analyzed(Kept(cfg, ctx, attrs, first)) <==> HasFinding(AnalyzeAttr(cfg, ctx, attrs, name).value.change))
  {
  }

  /** An attribute the loop never visits is not recorded as analysed. */
  lemma NotInLoop(cfg: Config, ctx: Context, attrs: map<string, Json>, names: seq<string>, name: string)
    requires forall n :: n in names ==> n in attrs
    requires AttrLoop(cfg, ctx, attrs, names).Success? && name !in names
    ensures name !in Analyzed(AttrLoop(cfg, ctx, attrs, names).value.changes)
  {
  }

  /** The sensitivity warning the loop raises for one attribute, if any. */
  function SensitiveWarnings(ctx: Context, name: string): (r: seq<Warning>)
    ensures forall w :: w in r ==> w == SensitiveAttribute(name, ctx.address)
  {
    if IsSensitive(ctx.beforeSensitive, ctx.afterSensitive, name, ctx.address) == Success(true)
    then [SensitiveAttribute(name, ctx.address)] else []
  }

  /** The differ's warnings for one attribute, when the loop analyses it;
      the differ only raises duplicate-key warnings. */
  function AnalysisWarnings(cfg: Config, ctx: Context, attrs: map<string, Json>, name: string): (r: seq<Warning>)
    requires name in attrs
    ensures forall w :: w in r ==> w.DuplicateKey?
  {
    if ConsideredIn(ctx, name) then
      var an := AnalyzeAttr(cfg, ctx, attrs, name);
      if an.Success? then an.value.warnings else []
    else []
  }

  /** One turn of the loop, for its warnings: the first attribute's
      sensitivity warning, then its differ warnings, then the rest. */
  lemma AttrLoopWarningsUnfold(cfg: Config, ctx: Context, attrs: map<string, Json>, names: seq<string>)
    requires forall n :: n in names ==> n in attrs
    requires |names| > 0 && AttrLoop(cfg, ctx, attrs, names).Success?
    ensures AttrLoop(cfg, ctx, attrs, names[1..]).Success?
    ensures ConsideredIn(ctx, names[0]) ==> AnalyzeAttr(cfg, ctx, attrs, names[0]).Success?
    ensures AttrLoop(cfg, ctx, attrs, names).value.warnings
         == SensitiveWarnings(ctx, names[0]) + AnalysisWarnings(cfg, ctx, attrs, names[0])
            + AttrLoop(cfg, ctx, attrs, names[1..]).value.warnings
  {
  }

  /** An attribute the loop visits has a sensitivity warning exactly when
      the sensitivity markers flag it. */
  lemma {:induction false} AttrLoopSensitive(cfg: Config, ctx: Context, attrs: map<string, Json>, names: seq<string>)
    requires forall n :: n in names ==> n in attrs
    requires AttrLoop(cfg, ctx, attrs, names).Success?
    ensures forall n :: n in names ==>
              (SensitiveAttribute(n, ctx.address) in AttrLoop(cfg, ctx, attrs, names).value.warnings
               <==> IsSensitive(ctx.beforeSensitive, ctx.afterSensitive, n, ctx.address) == Success(true))
    decreases |names|
  {
    if |names| > 0 {
      var ws := AttrLoop(cfg, ctx, attrs, names).value.warnings;
      AttrLoopWarningsUnfold(cfg, ctx, attrs, names);
      AttrLoopSensitive(cfg, ctx, attrs, names[1..]);
      AttrLoopWarningSources(cfg, ctx, attrs, names[1..]);
      forall n | n in names
        ensures SensitiveAttribute(n, ctx.address) in ws
                <==> IsSensitive(ctx.beforeSensitive, ctx.afterSensitive, n, ctx.address) == Success(true)
      {
        var w := SensitiveAttribute(n, ctx.address);
        assert w !in AnalysisWarnings(cfg, ctx, attrs, names[0]);
        if n !in names[1..] {
          assert n == names[0];
          assert w !in AttrLoop(cfg, ctx, attrs, names[1..]).value.warnings;
        }
      }
    }
  }

  /** The differ's warnings for every attribute the loop analyses are among
      the loop's warnings. */
  lemma {:induction false} AttrLoopKeepsWarnings(cfg: Config, ctx: Context, attrs: map<string, Json>, names: seq<string>)
    requires forall n :: n in names ==> n in attrs
    requires AttrLoop(cfg, ctx, attrs, names).Success?
    ensures forall n :: n in names && ConsideredIn(ctx, n) ==>
              AnalyzeAttr(cfg, ctx, attrs, n).Success?
              && forall w :: w in AnalyzeAttr(cfg, ctx, attrs, n).value.warnings ==>
                   w in AttrLoop(cfg, ctx, attrs, names).value.warnings
    decreases |names|
  {
    if |names| > 0 {
      AttrLoopWarningsUnfold(cfg, ctx, attrs, names);
      AttrLoopKeepsWarnings(cfg, ctx, attrs, names[1..]);
      forall n | n in names
        ensures n == names[0] || n in names[1..]
      {
      }
    }
  }

  /** Every warning of the loop is a sensitivity warning for a visited
      attribute of this resource or a differ warning of an analysed one. */
  lemma {:induction false} AttrLoopWarningSources(cfg: Config, ctx: Context, attrs: map<string, Json>, names: seq<string>)
    requires forall n :: n in names ==> n in attrs
    requires AttrLoop(cfg, ctx, attrs, names).Success?
    ensures forall w :: w in AttrLoop(cfg, ctx, attrs, names).value.warnings ==>
              || (w.SensitiveAttribute? && w.address == ctx.address && w.attr in names)
              || (exists n :: n in names && w in AnalysisWarnings(cfg, ctx, attrs, n))
    decreases |names|
  {
    if |names| > 0 {
      AttrLoopWarningsUnfold(cfg, ctx, attrs, names);
      AttrLoopWarningSources(cfg, ctx, attrs, names[1..]);
      forall n | n in names[1..]
        ensures n in names
      {
      }
    }
  }

  // ---------------------------------------------------------------------
  // Other changes

  /** A top-level attribute reported as an "other" change. */
  predicate IsOtherChange(b: map<string, Json>, a: map<string, Json>, analyzed: set<string>, k: string) {
    k !in analyzed && !StartsWith(k, "_") && !PyEq(Get(b, k), Get(a, k))
  }

  function OtherTest(b: map<string, Json>, a: map<string, Json>, analyzed: set<string>): string -> bool {
    k => IsOtherChange(b, a, analyzed, k)
  }

  /** The keys of either side that were not analysed as a Set, are not
      internal and differ, each once. */
  function OtherChanges(b: map<string, Json>, a: map<string, Json>, analyzed: set<string>): (r: seq<string>)
    ensures forall k :: k in r <==> (k in b || k in a) && IsOtherChange(b, a, analyzed, k)
    ensures Distinct(r)
  {
    var keys := SortedSeq(b.Keys + a.Keys);
    AscendingDistinct(keys);
    Filter(keys, OtherTest(b, a, analyzed))
  }

  lemma AscendingDistinct(s: seq<string>)
    requires StrictlyAscending(s)
    ensures Distinct(s)
  {
    forall i, j | 0 <= i < j < |s|
      ensures s[i] != s[j]
    {
    }
  }

  // ---------------------------------------------------------------------
  // The whole entry

  /** The Set-type attributes the schema lists for a resource type. */
  function SetAttributes(schema: Schema, resourceType: string): map<string, Json> {
    if resourceType in schema then schema[resourceType] else map[]
  }

  /** The context of a resource whose before and after values are dicts. */
  function ContextOf(e: PlanEntry, b: map<string, Json>, a: map<string, Json>): Context {
    Context(e.address, b, a, e.afterUnknown, e.beforeSensitive, e.afterSensitive)
  }

  /** `analyze_resource_change`. */
  function AnalyzeResourceChange(cfg: Config, schema: Schema, f: Filters, e: PlanEntry)
    : (r: Result<Outcome, PyError>)
    ensures Skipped(e, f) ==> r == Success(Outcome(None, []))
    ensures r.Success? ==> (r.value.resource.Some? <==> !Skipped(e, f))
    ensures r.Failure? ==> !Skipped(e, f) && !IsCreate(e.actions) && !IsDelete(e.actions)
    ensures r.Success? && r.value.resource.Some? ==>
              var rc := r.value.resource.value;
              && rc.address == e.address && rc.resourceType == e.resourceType && rc.actions == e.actions
              && (rc.isReplace <==> IsReplace(e.actions))
              && (rc.isCreate <==> IsCreate(e.actions))
              && (rc.isDelete <==> IsDelete(e.actions))
    ensures !Skipped(e, f) && (IsCreate(e.actions) || IsDelete(e.actions)) ==>
              && r.Success? && r.value.warnings == []
              && r.value.resource.value.setChanges == [] && r.value.resource.value.otherChanges == []
    ensures (&& !Skipped(e, f) && !IsCreate(e.actions) && !IsDelete(e.actions)
             && ((Truthy(e.before) && !e.before.JObj?) || (Truthy(e.after) && !e.after.JObj?)))
            ==> r.Failure?
  {
    if Skipped(e, f) then Success(Outcome(None, []))
    else
      var base := ResourceChange(e.address, e.resourceType, e.actions, [], [],
                                 IsReplace(e.actions), IsCreate(e.actions), IsDelete(e.actions));
      if base.isCreate || base.isDelete then Success(Outcome(Some(base), []))
      else
        var b :- AsDict(e.before, e.address);
        var a :- AsDict(e.after, e.address);
        var attrs := SetAttributes(schema, e.resourceType);
        var loop :- AttrLoop(cfg, ContextOf(e, b, a), attrs, SortedSeq(attrs.Keys));
        var others := OtherChanges(b, a, Analyzed(loop.changes));
        Success(Outcome(Some(base.(setChanges := loop.changes, otherChanges := others)), loop.warnings))
  }

  /** What an analysed update or replacement reports: each Set change is a
      finding on a listed, changed attribute with a list on some side, and
      the other changes are exactly the changed, non-internal keys that no
      Set change covers. */
  lemma ResourceChangeContents(cfg: Config, schema: Schema, f: Filters, e: PlanEntry)
    requires !Skipped(e, f) && !IsCreate(e.actions) && !IsDelete(e.actions)
    requires AnalyzeResourceChange(cfg, schema, f, e).Success?
    ensures var rc := AnalyzeResourceChange(cfg, schema, f, e).value.resource.value;
            var b, a := Members(e.before), Members(e.after);
            && (forall c :: c in rc.setChanges ==>
                  c.attrName in SetAttributes(schema, e.resourceType) && HasFinding(c)
                  && Considered(Get(b, c.attrName), Get(a, c.attrName)))
            && (forall k :: k in rc.otherChanges <==>
                  (k in b || k in a) && IsOtherChange(b, a, Analyzed(rc.setChanges), k))
  {
    var attrs := SetAttributes(schema, e.resourceType);
    var b, a := Members(e.before), Members(e.after);
    assert AsDict(e.before, e.address) == Success(b);
    assert AsDict(e.after, e.address) == Success(a);
  }

  /** An analysed update or replacement warns that a schema-listed
      attribute is sensitive exactly when the sensitivity markers flag it. */
  lemma ResourceChangeSensitive(cfg: Config, schema: Schema, f: Filters, e: PlanEntry)
    requires !Skipped(e, f) && !IsCreate(e.actions) && !IsDelete(e.actions)
    requires AnalyzeResourceChange(cfg, schema, f, e).Success?
    ensures var ws := AnalyzeResourceChange(cfg, schema, f, e).value.warnings;
            forall n :: n in SetAttributes(schema, e.resourceType) ==>
              (SensitiveAttribute(n, e.address) in ws
               <==> IsSensitive(e.beforeSensitive, e.afterSensitive, n, e.address) == Success(true))
  {
    var attrs := SetAttributes(schema, e.resourceType);
    var b, a := Members(e.before), Members(e.after);
    assert AsDict(e.before, e.address) == Success(b);
    assert AsDict(e.after, e.address) == Success(a);
    AttrLoopSensitive(cfg, ContextOf(e, b, a), attrs, SortedSeq(attrs.Keys));
  }

  /** An update whose before and after values are equal reports nothing:
      no Set change and no other change. */
  lemma UnchangedResourceReportsNothing(cfg: Config, schema: Schema, f: Filters, e: PlanEntry)
    requires !Skipped(e, f) && !IsCreate(e.actions) && !IsDelete(e.actions)
    requires e.before == e.after
    requires AnalyzeResourceChange(cfg, schema, f, e).Success?
    ensures AnalyzeResourceChange(cfg, schema, f, e).value.resource.value.setChanges == []
    ensures AnalyzeResourceChange(cfg, schema, f, e).value.resource.value.otherChanges == []
  {
    var rc := AnalyzeResourceChange(cfg, schema, f, e).value.resource.value;
    var b := Members(e.before);
    ResourceChangeContents(cfg, schema, f, e);
    EmptyIfUnsatisfiable(rc.setChanges, ChangedOnBothSides(b));
    EmptyIfUnsatisfiable(rc.otherChanges, OtherOnBothSides(b, Analyzed(rc.setChanges)));
  }

  function ChangedOnBothSides(b: map<string, Json>): SetChange -> bool {
    (c: SetChange) => Considered(Get(b, c.attrName), Get(b, c.attrName))
  }

  function OtherOnBothSides(b: map<string, Json>, analyzed: set<string>): string -> bool {
    k => IsOtherChange(b, b, analyzed, k)
  }
}
