/** The plan-level summary of analyze_plan.py: `collect_all_changes`, which
    sorts every node of a Set change tree into an order-only or an actual
    bucket, the counting loop of `analyze_plan`, and `determine_exit_code`. */
module PlanSummary {
  import opened Wrappers
  import opened Seqs
  import opened SetDiff
  import opened ResourceAnalysis

  // ---------------------------------------------------------------------
  // Exit codes

  const ExitNoChanges: int := 0
  const ExitOrderOnly: int := 0
  const ExitSetChanges: int := 1
  const ExitResourceReplace: int := 2
  const ExitError: int := 3

  // ---------------------------------------------------------------------
  // collect_all_changes

  /** A node of a change tree with its dotted display name. */
  datatype Entry = Entry(display: string, change: SetChange)

  /** The order-only list and the actual-change list. */
  datatype Buckets = Buckets(orderOnly: seq<Entry>, actual: seq<Entry>)

  /** `has_actual_change`: elements added, removed or modified. Nested
      changes and the order-only count do not count. */
  predicate HasActualChange(c: SetChange) {
    |c.added| > 0 || |c.removed| > 0 || |c.modified| > 0 || |c.primAdded| > 0 || |c.primRemoved| > 0
  }

  predicate IsOrderOnlyEntry(x: Entry) {
    x.change.orderOnly > 0 && !HasActualChange(x.change)
  }

  predicate IsActualEntry(x: Entry) {
    HasActualChange(x.change)
  }

  function OrderOnlyTest(): Entry -> bool {
    x => IsOrderOnlyEntry(x)
  }

  function ActualTest(): Entry -> bool {
    x => IsActualEntry(x)
  }

  /** The display name of a node: the prefix, which is empty at the root
      and ends in a dot below it, followed by the attribute name. */
  function DisplayName(prefix: string, c: SetChange): string {
    prefix + c.attrName
  }

  function Join(x: Buckets, y: Buckets): Buckets {
    Buckets(x.orderOnly + y.orderOnly, x.actual + y.actual)
  }

  /** The bucket a single node goes to, if any. */
  function Own(x: Entry): (r: Buckets)
    ensures r.orderOnly == Filter([x], OrderOnlyTest())
    ensures r.actual == Filter([x], ActualTest())
  {
    if x.change.orderOnly > 0 && !HasActualChange(x.change) then Buckets([x], [])
    else if HasActualChange(x.change) then Buckets([], [x])
    else Buckets([], [])
  }

  /** `collect_all_changes`: the node itself, then its nested changes in
      order, each under the node's display name and a dot. */
  function Collect(c: SetChange, prefix: string): (r: Buckets)
    ensures forall x :: x in r.orderOnly ==> IsOrderOnlyEntry(x)
    ensures forall x :: x in r.actual ==> IsActualEntry(x)
    decreases c, 1
  {
    var name := DisplayName(prefix, c);
    Join(Own(Entry(name, c)), CollectChildren(c, 0, name + "."))
  }

  /** The nested changes of `c` from position `i` on. */
  function CollectChildren(c: SetChange, i: nat, prefix: string): (r: Buckets)
    ensures forall x :: x in r.orderOnly ==> IsOrderOnlyEntry(x)
    ensures forall x :: x in r.actual ==> IsActualEntry(x)
    decreases c, 0, |c.nested| - i
  {
    if i >= |c.nested| then Buckets([], [])
    else Join(Collect(c.nested[i], prefix), CollectChildren(c, i + 1, prefix))
  }

  /** Every node of the tree in pre-order, with its display name: the
      reference the buckets are checked against. */
  function Flatten(c: SetChange, prefix: string): seq<Entry>
    decreases c, 1
  {
    var name := DisplayName(prefix, c);
    [Entry(name, c)] + FlattenChildren(c, 0, name + ".")
  }

  function FlattenChildren(c: SetChange, i: nat, prefix: string): seq<Entry>
    decreases c, 0, |c.nested| - i
  {
    if i >= |c.nested| then [] else Flatten(c.nested[i], prefix) + FlattenChildren(c, i + 1, prefix)
  }

  /** The buckets are the pre-order list of all nodes filtered by the two
      tests: no node is lost, none is counted twice, and none lands in both
      buckets. */
  lemma {:induction false} CollectIsFilteredFlatten(c: SetChange, prefix: string)
    ensures Collect(c, prefix).orderOnly == Filter(Flatten(c, prefix), OrderOnlyTest())
    ensures Collect(c, prefix).actual == Filter(Flatten(c, prefix), ActualTest())
    decreases c, 1
  {
    var name := DisplayName(prefix, c);
    CollectChildrenIsFilteredFlatten(c, 0, name + ".");
    FilterConcat([Entry(name, c)], FlattenChildren(c, 0, name + "."), OrderOnlyTest());
    FilterConcat([Entry(name, c)], FlattenChildren(c, 0, name + "."), ActualTest());
  }

  lemma {:induction false} CollectChildrenIsFilteredFlatten(c: SetChange, i: nat, prefix: string)
    ensures CollectChildren(c, i, prefix).orderOnly == Filter(FlattenChildren(c, i, prefix), OrderOnlyTest())
    ensures CollectChildren(c, i, prefix).actual == Filter(FlattenChildren(c, i, prefix), ActualTest())
    decreases c, 0, |c.nested| - i
  {
    if i < |c.nested| {
      var first, rest := Flatten(c.nested[i], prefix), FlattenChildren(c, i + 1, prefix);
      assert FlattenChildren(c, i, prefix) == first + rest;
      CollectIsFilteredFlatten(c.nested[i], prefix);
      CollectChildrenIsFilteredFlatten(c, i + 1, prefix);
      FilterConcat(first, rest, OrderOnlyTest());
      FilterConcat(first, rest, ActualTest());
    }
  }

  /** Some node of the tree adds, removes or modifies elements. */
  predicate AnyActual(c: SetChange)
    decreases c, 1
  {
    HasActualChange(c) || AnyActualFrom(c, 0)
  }

  predicate AnyActualFrom(c: SetChange, i: nat)
    decreases c, 0, |c.nested| - i
  {
    i < |c.nested| && (AnyActual(c.nested[i]) || AnyActualFrom(c, i + 1))
  }

  /** The actual bucket is non-empty exactly when some node of the tree has
      an actual change. */
  lemma {:induction false} ActualIffAnyActual(c: SetChange, prefix: string)
    ensures |Collect(c, prefix).actual| > 0 <==> AnyActual(c)
    decreases c, 1
  {
    var name := DisplayName(prefix, c);
    ActualFromIffAnyActual(c, 0, name + ".");
  }

  lemma {:induction false} ActualFromIffAnyActual(c: SetChange, i: nat, prefix: string)
    ensures |CollectChildren(c, i, prefix).actual| > 0 <==> AnyActualFrom(c, i)
    decreases c, 0, |c.nested| - i
  {
    if i < |c.nested| {
      ActualIffAnyActual(c.nested[i], prefix);
      ActualFromIffAnyActual(c, i + 1, prefix);
    }
  }

  // ---------------------------------------------------------------------
  // The counting loop of analyze_plan

  /** `AnalysisResult`. */
  datatype Summary = Summary(
    resources: seq<ResourceChange>,
    orderOnly: nat,
    actual: nat,
    replace: nat,
    create: nat,
    delete: nat,
    other: nat,
    warnings: seq<Warning>)

  /** The analysed resources and the warnings, entry by entry, stopping at
      the first entry that raises. */
  datatype Gathered = Gathered(resources: seq<ResourceChange>, warnings: seq<Warning>)

  function Gather(cfg: Config, schema: Schema, f: Filters, entries: seq<PlanEntry>): (r: Result<Gathered, PyError>)
    ensures r.Success? ==> forall rc :: rc in r.value.resources ==> rc.address in AddressesOf(entries)
    ensures r.Success? ==> |r.value.resources| <= |entries|
    decreases |entries|
  {
    if |entries| == 0 then Success(Gathered([], []))
    else
      var init := entries[..|entries| - 1];
      var g :- Gather(cfg, schema, f, init);
      var o :- AnalyzeResourceChange(cfg, schema, f, entries[|entries| - 1]);
      assert forall e :: e in init ==> e in entries;
      Success(Next(g, o))
  }

  /** The resources and warnings after one more entry. */
  function Next(g: Gathered, o: Outcome): Gathered {
    Gathered(g.resources + OptionToSeq(o.resource), g.warnings + o.warnings)
  }

  function AddressesOf(entries: seq<PlanEntry>): set<string> {
    set e | e in entries :: e.address
  }

  function OptionToSeq<T>(o: Option<T>): (r: seq<T>)
    ensures o.None? <==> r == []
    ensures o.Some? ==> r == [o.value]
  {
    if o.Some? then [o.value] else []
  }

  /** The classification counted for a resource: replacement first, then a
      pure create, then a pure delete. */
  predicate CountsAsReplace(rc: ResourceChange) {
    rc.isReplace
  }

  predicate CountsAsCreate(rc: ResourceChange) {
    !rc.isReplace && rc.isCreate
  }

  predicate CountsAsDelete(rc: ResourceChange) {
    !rc.isReplace && !rc.isCreate && rc.isDelete
  }

  function ReplaceTest(): ResourceChange -> bool {
    rc => CountsAsReplace(rc)
  }

  function CreateTest(): ResourceChange -> bool {
    rc => CountsAsCreate(rc)
  }

  function DeleteTest(): ResourceChange -> bool {
    rc => CountsAsDelete(rc)
  }

  /** The order-only and actual counts of a list of Set changes, each
      collected from the root with an empty prefix. */
  function OrderOnlyOf(cs: seq<SetChange>): nat {
    if |cs| == 0 then 0 else OrderOnlyOf(cs[..|cs| - 1]) + |Collect(cs[|cs| - 1], "").orderOnly|
  }

  function ActualOf(cs: seq<SetChange>): nat {
    if |cs| == 0 then 0 else ActualOf(cs[..|cs| - 1]) + |Collect(cs[|cs| - 1], "").actual|
  }

  function SumOrderOnly(rs: seq<ResourceChange>): nat {
    if |rs| == 0 then 0 else SumOrderOnly(rs[..|rs| - 1]) + OrderOnlyOf(rs[|rs| - 1].setChanges)
  }

  function SumActual(rs: seq<ResourceChange>): nat {
    if |rs| == 0 then 0 else SumActual(rs[..|rs| - 1]) + ActualOf(rs[|rs| - 1].setChanges)
  }

  function SumOther(rs: seq<ResourceChange>): nat {
    if |rs| == 0 then 0 else SumOther(rs[..|rs| - 1]) + |rs[|rs| - 1].otherChanges|
  }

  /** The summary of a list of analysed resources. */
  function Summarize(g: Gathered): Summary {
    var rs := g.resources;
    Summary(rs, SumOrderOnly(rs), SumActual(rs), Count(rs, ReplaceTest()), Count(rs, CreateTest()),
            Count(rs, DeleteTest()), SumOther(rs), g.warnings)
  }

  /** Appending a resource adds its classification to the counts. */
  lemma CountAppend(rs: seq<ResourceChange>, rc: ResourceChange, p: ResourceChange -> bool)
    ensures Count(rs + [rc], p) == Count(rs, p) + (if p(rc) then 1 else 0)
  {
    CountConcat(rs, [rc], p);
    assert [rc][1..] == [];
  }

  /** Appending a resource adds its own figures to every count. */
  lemma SummarizeAppend(rs: seq<ResourceChange>, rc: ResourceChange)
    ensures Count(rs + [rc], ReplaceTest()) == Count(rs, ReplaceTest()) + (if rc.isReplace then 1 else 0)
    ensures Count(rs + [rc], CreateTest()) == Count(rs, CreateTest()) + (if CountsAsCreate(rc) then 1 else 0)
    ensures Count(rs + [rc], DeleteTest()) == Count(rs, DeleteTest()) + (if CountsAsDelete(rc) then 1 else 0)
    ensures SumOrderOnly(rs + [rc]) == SumOrderOnly(rs) + OrderOnlyOf(rc.setChanges)
    ensures SumActual(rs + [rc]) == SumActual(rs) + ActualOf(rc.setChanges)
    ensures SumOther(rs + [rc]) == SumOther(rs) + |rc.otherChanges|
  {
    CountAppend(rs, rc, ReplaceTest());
    CountAppend(rs, rc, CreateTest());
    CountAppend(rs, rc, DeleteTest());
    assert (rs + [rc])[..|rs|] == rs;
  }

  /** One more entry: its resource, if any, and its warnings are appended. */
  lemma GatherStep(cfg: Config, schema: Schema, f: Filters, entries: seq<PlanEntry>, i: nat, g: Gathered)
    requires i < |entries|
    requires Gather(cfg, schema, f, entries[..i]) == Success(g)
    ensures AnalyzeResourceChange(cfg, schema, f, entries[i]).Failure? ==>
              Gather(cfg, schema, f, entries[..i + 1]) == Failure(AnalyzeResourceChange(cfg, schema, f, entries[i]).error)
    ensures AnalyzeResourceChange(cfg, schema, f, entries[i]).Success? ==>
              var o := AnalyzeResourceChange(cfg, schema, f, entries[i]).value;
              Gather(cfg, schema, f, entries[..i + 1]) == Success(Next(g, o))
  {
    assert entries[..i + 1][..i] == entries[..i];
  }

  /** The body of the counting loop for one kept resource:
      append it, count it as a replacement, else a creation, else a
      deletion, and add its other changes and the buckets of each of its Set
      changes. */
  function AddResource(s: Summary, rc: ResourceChange): Summary {
    s.(resources := s.resources + [rc],
       replace := s.replace + (if rc.isReplace then 1 else 0),
       create := s.create + (if CountsAsCreate(rc) then 1 else 0),
       delete := s.delete + (if CountsAsDelete(rc) then 1 else 0),
       other := s.other + |rc.otherChanges|,
       orderOnly := s.orderOnly + OrderOnlyOf(rc.setChanges),
       actual := s.actual + ActualOf(rc.setChanges))
  }

  /** One turn of the loop for an entry's outcome. */
  function Step(s: Summary, o: Outcome): Summary {
    var counted := if o.resource.Some? then AddResource(s, o.resource.value) else s;
    counted.(warnings := s.warnings + o.warnings)
  }

  /** Counting entry by entry agrees with counting the whole list. */
  lemma StepSummarizes(g: Gathered, o: Outcome)
    ensures Step(Summarize(g), o) == Summarize(Next(g, o))
  {
    var n := Next(g, o);
    if o.resource.Some? {
      SummarizeAppend(g.resources, o.resource.value);
    } else {
      assert n.resources == g.resources;
    }
  }

  /** `analyze_plan`: analyse every entry in order, stop at the first that
      raises, and count the kept resources. */
  method AnalyzePlan(cfg: Config, schema: Schema, f: Filters, entries: seq<PlanEntry>)
    returns (r: Result<Summary, PyError>)
    ensures Gather(cfg, schema, f, entries).Failure? ==> r == Failure(Gather(cfg, schema, f, entries).error)
    ensures Gather(cfg, schema, f, entries).Success? ==> r == Success(Summarize(Gather(cfg, schema, f, entries).value))
  {
    var result := Summary([], 0, 0, 0, 0, 0, 0, []);
    ghost var g := Gathered([], []);
    var i := 0;
    while i < |entries|
      invariant 0 <= i <= |entries|
      invariant Gather(cfg, schema, f, entries[..i]) == Success(g)
      invariant result == Summarize(g)
    {
      var o := AnalyzeResourceChange(cfg, schema, f, entries[i]);
      GatherStep(cfg, schema, f, entries, i, g);
      if o.Failure? {
        GatherStopsAtFailure(cfg, schema, f, entries, i + 1);
        return Failure(o.error);
      }
      StepSummarizes(g, o.value);
      result := Step(result, o.value);
      g := Next(g, o.value);
      i := i + 1;
    }
    assert entries[..i] == entries;
    return Success(result);
  }

  /** Once a prefix fails, every longer prefix fails with the same error. */
  lemma {:induction false} GatherStopsAtFailure(cfg: Config, schema: Schema, f: Filters, entries: seq<PlanEntry>, n: nat)
    requires 0 < n <= |entries|
    requires Gather(cfg, schema, f, entries[..n]).Failure?
    ensures Gather(cfg, schema, f, entries) == Gather(cfg, schema, f, entries[..n])
    decreases |entries| - n
  {
    if n < |entries| {
      assert entries[..n + 1][..n] == entries[..n];
      GatherStopsAtFailure(cfg, schema, f, entries, n + 1);
    } else {
      assert entries[..n] == entries;
    }
  }

  // ---------------------------------------------------------------------
  // determine_exit_code

  function DetermineExitCode(s: Summary): (code: int)
    ensures code in {ExitNoChanges, ExitSetChanges, ExitResourceReplace}
  {
    if s.replace > 0 then ExitResourceReplace
    else if s.actual > 0 || s.create > 0 || s.delete > 0 then ExitSetChanges
    else ExitNoChanges
  }

  /** Some Set change of the resource has an actual change somewhere in its
      tree. */
  predicate HasActualSetChange(rc: ResourceChange) {
    exists c :: c in rc.setChanges && AnyActual(c)
  }

  lemma {:induction false} ActualOfPositive(cs: seq<SetChange>)
    ensures ActualOf(cs) > 0 <==> exists c :: c in cs && AnyActual(c)
    decreases |cs|
  {
    if |cs| > 0 {
      var init, last := cs[..|cs| - 1], cs[|cs| - 1];
      ActualOfPositive(init);
      ActualIffAnyActual(last, "");
      assert cs == init + [last];
      assert forall c :: c in cs <==> c in init || c == last;
    }
  }

  lemma {:induction false} SumActualPositive(rs: seq<ResourceChange>)
    ensures SumActual(rs) > 0 <==> exists rc :: rc in rs && HasActualSetChange(rc)
    decreases |rs|
  {
    if |rs| > 0 {
      var init, last := rs[..|rs| - 1], rs[|rs| - 1];
      SumActualPositive(init);
      ActualOfPositive(last.setChanges);
      assert rs == init + [last];
      assert SumActual(rs) == SumActual(init) + ActualOf(last.setChanges);
      assert ActualOf(last.setChanges) > 0 <==> HasActualSetChange(last);
      assert last in rs;
      if exists rc :: rc in init && HasActualSetChange(rc) {
        var rc :| rc in init && HasActualSetChange(rc);
        assert rc in rs;
      }
      if exists rc :: rc in rs && HasActualSetChange(rc) {
        var rc :| rc in rs && HasActualSetChange(rc);
        if rc != last {
          assert rc in init;
        }
      }
    }
  }

  /** Some element of `rs` passes `p`. */
  lemma CountPositiveIn(rs: seq<ResourceChange>, p: ResourceChange -> bool)
    ensures Count(rs, p) > 0 <==> exists rc :: rc in rs && p(rc)
  {
    CountPositive(rs, p);
    if exists rc :: rc in rs && p(rc) {
      var rc :| rc in rs && p(rc);
      var i :| 0 <= i < |rs| && rs[i] == rc;
    }
  }

  /** The exit code of a run: 2 when some kept resource is replaced; else 1
      when some resource is created or deleted outright or some Set change
      has an actual change at any depth; else 0, however many order-only
      changes there are. */
  lemma ExitCodeMeaning(g: Gathered)
    ensures var code := DetermineExitCode(Summarize(g));
            var rs := g.resources;
            && (code == ExitResourceReplace <==> exists rc :: rc in rs && rc.isReplace)
            && (code == ExitSetChanges <==>
                  && (forall rc :: rc in rs ==> !rc.isReplace)
                  && exists rc :: rc in rs && (rc.isCreate || rc.isDelete || HasActualSetChange(rc)))
            && (code == ExitNoChanges <==>
                  forall rc :: rc in rs ==> !rc.isReplace && !rc.isCreate && !rc.isDelete && !HasActualSetChange(rc))
  {
    var rs := g.resources;
    CountPositiveIn(rs, ReplaceTest());
    CountPositiveIn(rs, CreateTest());
    CountPositiveIn(rs, DeleteTest());
    SumActualPositive(rs);
  }
}
