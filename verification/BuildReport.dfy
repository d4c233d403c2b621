/** The expectations of `check_build.py` and the accounts of its report. */
module BuildReport {
  import Bytes
  import opened ElfEvidence
  import opened Wrappers

  /** The number of entries in CHECKS; a check is its index. */
  const CHECKS: nat := 12
  type Check = nat

  datatype Mode = Present | Absent | Ignore

  datatype Override = Override(pattern: string, changes: map<Check, Mode>)

  /** What a unit of an artifact turned out to be. */
  datatype Outcome = Code(evidence: Evidence) | Metadata | Unreadable

  datatype Unit = Unit(member: string, outcome: Outcome)

  datatype Artifact = Artifact(name: string, units: seq<Unit>)

  /** The checks' rules, the configured expectations and fnmatch. */
  datatype Policy = Policy(rules: Check -> Rule, modes: map<Check, Mode>, overrides: seq<Override>,
                           matches: (string, string) -> bool)

  // ---------------------------------------------------------------------
  // effective_modes and policy_failed
  // ---------------------------------------------------------------------

  predicate Applies(p: Policy, o: Override, name: string, member: string) {
    p.matches(name, o.pattern) || (member != "" && p.matches(name + "(" + member + ")", o.pattern))
  }

  /** Mode of a check behind the first n overrides: the last that applies and has one. */
  function ModeAfter(p: Policy, n: nat, name: string, member: string, check: Check): Mode
    requires n <= |p.overrides|
  {
    if n == 0 then (if check in p.modes then p.modes[check] else Ignore)
    else
      var o := p.overrides[n - 1];
      if Applies(p, o, name, member) && check in o.changes then o.changes[check]
      else ModeAfter(p, n - 1, name, member, check)
  }

  function ModeFor(p: Policy, name: string, member: string, check: Check): Mode {
    ModeAfter(p, |p.overrides|, name, member, check)
  }

  /** Override i matches the file, or the member in it, and speaks of the check. */
  predicate Speaks(p: Policy, i: int, name: string, member: string, check: Check) {
    && 0 <= i < |p.overrides| && check in p.overrides[i].changes
    && (p.matches(name, p.overrides[i].pattern)
        || (member != "" && p.matches(name + "(" + member + ")", p.overrides[i].pattern)))
  }

  lemma {:induction false} LastOfFirst(p: Policy, n: nat, name: string, member: string, check: Check, i: int)
    requires n <= |p.overrides|
    ensures i < n && Speaks(p, i, name, member, check) && (forall j :: i < j < n ==> !Speaks(p, j, name, member, check))
            ==> ModeAfter(p, n, name, member, check) == p.overrides[i].changes[check]
    ensures (forall j :: 0 <= j < n ==> !Speaks(p, j, name, member, check))
            ==> ModeAfter(p, n, name, member, check) == if check in p.modes then p.modes[check] else Ignore
  {
    if n > 0 {
      LastOfFirst(p, n - 1, name, member, check, i);
      assert Speaks(p, n - 1, name, member, check) <==>
             Applies(p, p.overrides[n - 1], name, member) && check in p.overrides[n - 1].changes;
      hide Applies;
    }
  }

  /** The last override that matches an item and speaks of a check decides, and where
      none does the general mode stands, which is to ignore when there is none. */
  lemma LastMatchWins(p: Policy, name: string, member: string, check: Check, i: int)
    ensures Speaks(p, i, name, member, check) && (forall j :: i < j ==> !Speaks(p, j, name, member, check))
            ==> ModeFor(p, name, member, check) == p.overrides[i].changes[check]
    ensures (forall j :: !Speaks(p, j, name, member, check))
            ==> ModeFor(p, name, member, check) == if check in p.modes then p.modes[check] else Ignore
  {
    LastOfFirst(p, |p.overrides|, name, member, check, i);
  }

  /** `effective_modes`. */
  method EffectiveModes(p: Policy, name: string, member: string) returns (effective: map<Check, Mode>)
    ensures forall check :: Get(effective, check) == ModeFor(p, name, member, check)
  {
    effective := p.modes;
    for i := 0 to |p.overrides|
      invariant forall check :: Get(effective, check) == ModeAfter(p, i, name, member, check)
    {
      if Applies(p, p.overrides[i], name, member) {
        effective := effective + p.overrides[i].changes;
      }
    }
  }

  /** `effective.get(check, "ignore")`. */
  function Get(modes: map<Check, Mode>, check: Check): Mode { if check in modes then modes[check] else Ignore }

  /** `policy_failed`: an expectation is met only by its own conclusive state. */
  predicate PolicyFailed(mode: Mode, state: State) {
    (mode == Present && state != Found) || (mode == Absent && state != NotSeen)
  }

  // ---------------------------------------------------------------------
  // What the accounts should be
  // ---------------------------------------------------------------------

  /** A check item: an object, a binary or an archive member with code in it. */
  datatype Item = Item(name: string, member: string, evidence: Evidence)

  function ItemOf(name: string, unit: Unit): seq<Item> {
    if unit.outcome.Code? then [Item(name, unit.member, unit.outcome.evidence)] else []
  }

  function UnitItems(name: string, units: seq<Unit>): seq<Item> {
    if units == [] then [] else UnitItems(name, units[..|units| - 1]) + ItemOf(name, units[|units| - 1])
  }

  function Items(artifacts: seq<Artifact>): seq<Item> {
    if artifacts == [] then []
    else
      var last := artifacts[|artifacts| - 1];
      Items(artifacts[..|artifacts| - 1]) + UnitItems(last.name, last.units)
  }

  function Units(artifacts: seq<Artifact>): seq<Unit> {
    if artifacts == [] then []
    else Units(artifacts[..|artifacts| - 1]) + artifacts[|artifacts| - 1].units
  }

  /** The item fails the check. */
  ghost predicate Fails(p: Policy, item: Item, c: Check) {
    PolicyFailed(ModeFor(p, item.name, item.member, c), StateOf(p.rules(c), item.evidence))
  }

  ghost predicate FailsSome(p: Policy, item: Item) { exists c: nat :: c < CHECKS && Fails(p, item, c) }

  /** How many items are in a state, fail a check, fail it under a file's name or
      under one of several, and fail some check. */
  ghost function InState(p: Policy, items: seq<Item>, c: Check, state: State): nat {
    if items == [] then 0
    else
      var last := items[|items| - 1];
      InState(p, items[..|items| - 1], c, state) + One(StateOf(p.rules(c), last.evidence) == state)
  }

  ghost function Failing(p: Policy, items: seq<Item>, c: Check): nat {
    if items == [] then 0
    else Failing(p, items[..|items| - 1], c) + One(Fails(p, items[|items| - 1], c))
  }

  ghost function FailingUnder(p: Policy, items: seq<Item>, c: Check, names: set<string>): nat {
    if items == [] then 0
    else
      var last := items[|items| - 1];
      FailingUnder(p, items[..|items| - 1], c, names) + One(Fails(p, last, c) && last.name in names)
  }

  ghost function FailedItems(p: Policy, items: seq<Item>): nat {
    if items == [] then 0
    else FailedItems(p, items[..|items| - 1]) + One(FailsSome(p, items[|items| - 1]))
  }

  /** The first item of a file that fails a check. */
  ghost function FirstUnder(p: Policy, items: seq<Item>, c: Check, name: string): Option<Item> {
    if items == [] then None
    else
      var last := items[|items| - 1];
      var earlier := FirstUnder(p, items[..|items| - 1], c, name);
      if earlier.Some? then earlier else if Fails(p, last, c) && last.name == name then Some(last) else None
  }

  ghost function ModesUsed(p: Policy, items: seq<Item>, c: Check): set<Mode> {
    set item | item in items :: ModeFor(p, item.name, item.member, c)
  }

  /** The files with a failing item. */
  ghost function FailingNames(p: Policy, items: seq<Item>): set<string> {
    set item | item in items && FailsSome(p, item) :: item.name
  }

  ghost predicate SomeUnitFails(p: Policy, name: string, units: seq<Unit>) {
    exists item :: item in UnitItems(name, units) && FailsSome(p, item)
  }

  ghost predicate FileFails(p: Policy, a: Artifact) { SomeUnitFails(p, a.name, a.units) }

  ghost function FailingFiles(p: Policy, artifacts: seq<Artifact>): nat {
    if artifacts == [] then 0
    else FailingFiles(p, artifacts[..|artifacts| - 1]) + One(FileFails(p, artifacts[|artifacts| - 1]))
  }

  // ---------------------------------------------------------------------
  // The accounts make_report keeps
  // ---------------------------------------------------------------------

  /** counts, failures_by_check and used_modes of one check. */
  datatype Row = Row(counts: map<State, nat>, failures: map<string, (nat, Item)>, used: set<Mode>)

  ghost predicate RowFits(p: Policy, row: Row, c: Check, items: seq<Item>) {
    CountsFit(p, row.counts, c, items) && FailuresFit(p, row.failures, c, items) && row.used == ModesUsed(p, items, c)
  }

  ghost predicate CountsFit(p: Policy, counts: map<State, nat>, c: Check, items: seq<Item>) {
    forall state :: state in counts && counts[state] == InState(p, items, c, state)
  }

  ghost predicate FailuresFit(p: Policy, failures: map<string, (nat, Item)>, c: Check, items: seq<Item>) {
    && (forall name :: name in failures <==> FirstUnder(p, items, c, name).Some?)
    && (forall name :: name in failures ==>
          failures[name] == (FailingUnder(p, items, c, {name}), FirstUnder(p, items, c, name).value))
  }

  ghost predicate RowsFit(p: Policy, rows: seq<Row>, items: seq<Item>) {
    |rows| == CHECKS && forall c :: 0 <= c < CHECKS ==> RowFits(p, rows[c], c, items)
  }

  const EMPTY_ROW := Row(map[Found := 0, SymbolOnly := 0, NotSeen := 0, Unknown := 0], map[], {})

  /** One more failing item of a file. */
  function Noted(failures: map<string, (nat, Item)>, item: Item): map<string, (nat, Item)> {
    if item.name in failures then failures[item.name := (failures[item.name].0 + 1, failures[item.name].1)]
    else failures[item.name := (1, item)]
  }

  lemma CountsNext(p: Policy, counts: map<State, nat>, c: Check, items: seq<Item>, item: Item)
    requires CountsFit(p, counts, c, items)
    ensures var state := StateOf(p.rules(c), item.evidence);
            state in counts && CountsFit(p, counts[state := counts[state] + 1], c, items + [item])
  {
    assert (items + [item])[..|items|] == items;
    hide StateOf;
  }

  lemma FailuresNext(p: Policy, failures: map<string, (nat, Item)>, c: Check, items: seq<Item>, item: Item)
    requires FailuresFit(p, failures, c, items)
    ensures FailuresFit(p, if Fails(p, item, c) then Noted(failures, item) else failures, c, items + [item])
  {
    var after := if Fails(p, item, c) then Noted(failures, item) else failures;
    var now := items + [item];
    assert now[..|items|] == items;
    FirstIffUnder(p, items, c, item.name);
    hide Fails;
    forall name
      ensures name in after <==> FirstUnder(p, now, c, name).Some?
      ensures name in after ==> after[name] == (FailingUnder(p, now, c, {name}), FirstUnder(p, now, c, name).value) {
      assert FailingUnder(p, now, c, {name})
             == FailingUnder(p, items, c, {name}) + One(Fails(p, item, c) && item.name in {name});
    }
  }

  lemma RowNext(p: Policy, row: Row, c: Check, items: seq<Item>, item: Item)
    requires RowFits(p, row, c, items)
    ensures var (mode, state) := (ModeFor(p, item.name, item.member, c), StateOf(p.rules(c), item.evidence));
            && state in row.counts
            && RowFits(p, Row(row.counts[state := row.counts[state] + 1],
                              if PolicyFailed(mode, state) then Noted(row.failures, item) else row.failures,
                              row.used + {mode}), c, items + [item])
  {
    CountsNext(p, row.counts, c, items, item);
    FailuresNext(p, row.failures, c, items, item);
    hide CountsFit, FailuresFit, StateOf, ModeFor, PolicyFailed, Noted;
    var now := items + [item];
    assert ModesUsed(p, now, c) == ModesUsed(p, items, c) + {ModeFor(p, item.name, item.member, c)} by {
      assert now == items + [item];
    }
  }

  lemma {:induction false} FirstIffUnder(p: Policy, items: seq<Item>, c: Check, name: string)
    ensures FirstUnder(p, items, c, name).Some? <==> FailingUnder(p, items, c, {name}) > 0
  {
    hide Fails;
    if items != [] { FirstIffUnder(p, items[..|items| - 1], c, name); }
  }

  /** The loop over CHECKS for one item. */
  method CountItem(p: Policy, item: Item, rows: seq<Row>, ghost items: seq<Item>)
    returns (counted: seq<Row>, itemFailed: bool)
    requires RowsFit(p, rows, items)
    ensures RowsFit(p, counted, items + [item]) && (itemFailed <==> FailsSome(p, item))
  {
    hide RowFits, StateOf, ModeFor, PolicyFailed;
    var itemModes := EffectiveModes(p, item.name, item.member);
    counted, itemFailed := rows, false;
    for check := 0 to CHECKS
      invariant |counted| == CHECKS
      invariant forall c :: 0 <= c < check ==> RowFits(p, counted[c], c, items + [item])
      invariant forall c :: check <= c < CHECKS ==> RowFits(p, counted[c], c, items)
      invariant itemFailed <==> exists c: nat :: c < check && Fails(p, item, c)
    {
      var mode := Get(itemModes, check);
      var state, proof := Detect(p.rules(check), item.evidence);
      var row := counted[check];
      RowNext(p, row, check, items, item);
      var counts := row.counts[state := row.counts[state] + 1];
      var entries := row.failures;
      if PolicyFailed(mode, state) {
        assert Fails(p, item, check);
        itemFailed := true;
        if item.name in entries {
          var (count, first) := entries[item.name];
          entries := entries[item.name := (count + 1, first)];
        } else {
          entries := entries[item.name := (1, item)];
        }
      }
      counted := counted[check := Row(counts, entries, row.used + {mode})];
    }
  }

  // ---------------------------------------------------------------------
  // Files and units
  // ---------------------------------------------------------------------

  datatype Sort = MetadataUnit | UnreadableUnit | Member | UnreadableMember | ReadableMember

  predicate IsOf(u: Unit, sort: Sort) {
    match sort
    case MetadataUnit => u.outcome.Metadata?
    case UnreadableUnit => u.outcome.Unreadable?
    case Member => u.member != ""
    case UnreadableMember => u.member != "" && u.outcome.Unreadable?
    case ReadableMember => u.member != "" && !u.outcome.Unreadable?
  }

  function Tally(units: seq<Unit>, sort: Sort): nat {
    if units == [] then 0 else Tally(units[..|units| - 1], sort) + One(IsOf(units[|units| - 1], sort))
  }

  function ReadableFiles(artifacts: seq<Artifact>): nat {
    if artifacts == [] then 0
    else
      ReadableFiles(artifacts[..|artifacts| - 1]) + One(Tally(artifacts[|artifacts| - 1].units, UnreadableUnit) == 0)
  }

  /** The locals of make_report. */
  datatype Accounts = Accounts(rows: seq<Row>, codeItems: nat, failedItems: nat, skipped: nat, errors: nat,
                               memberChecked: nat, memberInspected: nat, memberErrors: nat)

  /** They account for the items and the units of everything so far. */
  ghost predicate Fits(p: Policy, a: Accounts, items: seq<Item>, units: seq<Unit>) {
    && RowsFit(p, a.rows, items)
    && a.codeItems == |items| && a.failedItems == FailedItems(p, items)
    && a.skipped == Tally(units, MetadataUnit) && a.errors == Tally(units, UnreadableUnit)
    && a.memberChecked == Tally(units, Member) && a.memberInspected == Tally(units, ReadableMember)
    && a.memberErrors == Tally(units, UnreadableMember)
  }

  lemma TallyNext(units: seq<Unit>, unit: Unit, sort: Sort)
    ensures Tally(units + [unit], sort) == Tally(units, sort) + One(IsOf(unit, sort))
  {
    assert (units + [unit])[..|units|] == units;
  }

  /** The loop body for one unit. */
  method CountUnit(p: Policy, name: string, unit: Unit, a: Accounts, ghost items: seq<Item>, ghost units: seq<Unit>)
    returns (b: Accounts, itemFailed: bool)
    requires Fits(p, a, items, units)
    ensures Fits(p, b, items + ItemOf(name, unit), units + [unit])
    ensures itemFailed <==> unit.outcome.Code? && FailsSome(p, Item(name, unit.member, unit.outcome.evidence))
  {
    forall sort { TallyNext(units, unit, sort); }
    hide Tally, RowsFit, FailsSome, FailedItems;
    b, itemFailed := a, false;
    if unit.member != "" {
      b := b.(memberChecked := b.memberChecked + 1);
      if unit.outcome.Unreadable? {
        b := b.(memberErrors := b.memberErrors + 1);
      } else {
        b := b.(memberInspected := b.memberInspected + 1);
      }
    }
    match unit.outcome {
      case Unreadable =>
        assert items + ItemOf(name, unit) == items;
        b := b.(errors := b.errors + 1);
      case Metadata =>
        assert items + ItemOf(name, unit) == items;
        b := b.(skipped := b.skipped + 1);
      case Code(evidence) =>
        var item := Item(name, unit.member, evidence);
        var rows, failed := CountItem(p, item, b.rows, items);
        FailedNext(p, items, item);
        itemFailed := failed;
        b := b.(rows := rows, codeItems := b.codeItems + 1, failedItems := b.failedItems + One(failed));
    }
  }

  lemma FailedNext(p: Policy, items: seq<Item>, item: Item)
    ensures FailedItems(p, items + [item]) == FailedItems(p, items) + One(FailsSome(p, item))
  {
    assert (items + [item])[..|items|] == items;
  }

  /** The loop over the units of one artifact. */
  method CountFile(p: Policy, artifact: Artifact, a: Accounts, ghost items: seq<Item>, ghost units: seq<Unit>)
    returns (b: Accounts, fileFailed: bool)
    requires Fits(p, a, items, units)
    ensures Fits(p, b, items + UnitItems(artifact.name, artifact.units), units + artifact.units)
    ensures fileFailed <==> FileFails(p, artifact)
  {
    b, fileFailed := a, false;
    assert items + UnitItems(artifact.name, []) == items && units + [] == units;
    assert artifact.units[..0] == [] && !SomeUnitFails(p, artifact.name, []);
    hide Fits, FailsSome, SomeUnitFails, UnitItems;
    for i := 0 to |artifact.units|
      invariant Fits(p, b, items + UnitItems(artifact.name, artifact.units[..i]), units + artifact.units[..i])
      invariant fileFailed <==> SomeUnitFails(p, artifact.name, artifact.units[..i])
    {
      var unit := artifact.units[i];
      ghost var (before, now) := (artifact.units[..i], artifact.units[..i + 1]);
      assert now == before + [unit];
      NextUnit(p, artifact.name, before, unit);
      Bytes.Assoc(items, UnitItems(artifact.name, before), ItemOf(artifact.name, unit));
      Bytes.Assoc(units, before, [unit]);
      var counted, itemFailed :=
        CountUnit(p, artifact.name, unit, b, items + UnitItems(artifact.name, before), units + before);
      b, fileFailed := counted, fileFailed || itemFailed;
    }
    assert artifact.units[..|artifact.units|] == artifact.units;
  }

  lemma NextUnit(p: Policy, name: string, before: seq<Unit>, unit: Unit)
    ensures UnitItems(name, before + [unit]) == UnitItems(name, before) + ItemOf(name, unit)
    ensures SomeUnitFails(p, name, before + [unit]) <==>
            SomeUnitFails(p, name, before)
            || (unit.outcome.Code? && FailsSome(p, Item(name, unit.member, unit.outcome.evidence)))
  {
    hide FailsSome;
    assert (before + [unit])[..|before|] == before;
    var (items, more) := (UnitItems(name, before), ItemOf(name, unit));
    forall item ensures item in items + more <==> item in items || item in more {}
  }

  /** Whether any unit of an artifact could not be read. */
  lemma {:induction false} AnyUnreadable(units: seq<Unit>)
    ensures Tally(units, UnreadableUnit) == 0 <==> !exists unit :: unit in units && unit.outcome.Unreadable?
  {
    if units != [] {
      var n := |units| - 1;
      AnyUnreadable(units[..n]);
      assert units == units[..n] + [units[n]];
    }
  }

  predicate NamedApart(artifacts: seq<Artifact>) {
    forall i, j :: 0 <= i < j < |artifacts| ==> artifacts[i].name != artifacts[j].name
  }

  /** The checks that are enforced, on some item or by default. */
  function Enforced(p: Policy, rows: seq<Row>): set<Check>
    requires |rows| == CHECKS
  {
    set c | 0 <= c < CHECKS && (if rows[c].used == {} then {Get(p.modes, c)} else rows[c].used) != {Ignore}
  }

  /** The counting part of `make_report`. */
  method MakeReport(p: Policy, artifacts: seq<Artifact>)
    returns (a: Accounts, checked: nat, failures: nat, enforced: set<Check>)
    ensures Fits(p, a, Items(artifacts), Units(artifacts))
    ensures checked == ReadableFiles(artifacts) && failures == FailingFiles(p, artifacts)
    ensures enforced == Enforced(p, a.rows)
  {
    a := Accounts(seq(CHECKS, _ => EMPTY_ROW), 0, 0, 0, 0, 0, 0, 0);
    checked, failures := 0, 0;
    EmptyFits(p, a);
    hide Fits, FileFails;
    for i := 0 to |artifacts|
      invariant Fits(p, a, Items(artifacts[..i]), Units(artifacts[..i]))
      invariant checked == ReadableFiles(artifacts[..i]) && failures == FailingFiles(p, artifacts[..i])
    {
      var artifact := artifacts[i];
      assert artifacts[..i + 1][..i] == artifacts[..i];
      AnyUnreadable(artifact.units);
      if !exists unit :: unit in artifact.units && unit.outcome.Unreadable? {
        checked := checked + 1;
      }
      var counted, fileFailed := CountFile(p, artifact, a, Items(artifacts[..i]), Units(artifacts[..i]));
      a, failures := counted, failures + One(fileFailed);
    }
    assert artifacts[..|artifacts|] == artifacts;
    HasRows(p, a, Items(artifacts), Units(artifacts));
    enforced := Enforced(p, a.rows);
  }

  lemma EmptyFits(p: Policy, a: Accounts)
    requires a == Accounts(seq(CHECKS, _ => EMPTY_ROW), 0, 0, 0, 0, 0, 0, 0)
    ensures Fits(p, a, Items([]), Units([]))
  {
    forall c | 0 <= c < CHECKS ensures RowFits(p, a.rows[c], c, []) {
      forall state: State ensures state in EMPTY_ROW.counts && EMPTY_ROW.counts[state] == 0 {
        match state { case Found => case SymbolOnly => case NotSeen => case Unknown => }
      }
    }
  }

  lemma HasRows(p: Policy, a: Accounts, items: seq<Item>, units: seq<Unit>)
    requires Fits(p, a, items, units)
    ensures |a.rows| == CHECKS
  {
  }

  // ---------------------------------------------------------------------
  // What the accounts say
  // ---------------------------------------------------------------------

  /** The four states of a check sum to the items checked. */
  lemma {:induction false} StatesSum(p: Policy, items: seq<Item>, c: Check)
    ensures InState(p, items, c, Found) + InState(p, items, c, SymbolOnly)
            + InState(p, items, c, NotSeen) + InState(p, items, c, Unknown) == |items|
  {
    hide StateOf;
    if items != [] { StatesSum(p, items[..|items| - 1], c); }
  }

  /** What a check demands of an item: of evidence for it, or of its conclusive absence;
      an ignored check demands nothing. */
  ghost predicate Meets(p: Policy, item: Item, c: Check) {
    match ModeFor(p, item.name, item.member, c)
    case Present => Shows(p.rules(c), item.evidence)
    case Absent => Untouched(p.rules(c), item.evidence) && item.evidence.symbolsPresent
    case Ignore => true
  }

  lemma FailsUnlessMet(p: Policy, item: Item, c: Check)
    ensures Fails(p, item, c) <==> !Meets(p, item, c)
    ensures FailsSome(p, item) <==> exists check: nat :: check < 12 && !Meets(p, item, check)
  {
    forall check: nat ensures Fails(p, item, check) <==> !Meets(p, item, check) {
      StateMeans(p.rules(check), item.evidence);
      hide StateOf, Shows, Untouched, ModeFor;
    }
    hide Fails, Meets;
  }

  ghost function Where<T(!new)>(xs: seq<T>, holds: T -> bool): set<nat> {
    set i: nat | i < |xs| && holds(xs[i])
  }

  lemma WhereNext<T(!new)>(xs: seq<T>, holds: T -> bool)
    requires xs != []
    ensures var n := |xs| - 1;
            |Where(xs, holds)| == |Where(xs[..n], holds)| + One(holds(xs[n]))
  {
    var n := |xs| - 1;
    assert Where(xs, holds) == Where(xs[..n], holds) + if holds(xs[n]) then {n} else {};
  }

  lemma WhereNone<T(!new)>(holds: T -> bool)
    ensures |Where([], holds)| == 0
  {
    assert Where([], holds) == {};
  }

  /** The positions of the items that do not meet a check. */
  ghost function Unmet(p: Policy, items: seq<Item>, c: Check): set<nat> {
    set i: nat | i < |items| && !Meets(p, items[i], c)
  }

  lemma {:induction false} FailingWhere(p: Policy, items: seq<Item>, c: Check, fails: Item -> bool)
    requires forall item :: fails(item) <==> Fails(p, item, c)
    ensures Failing(p, items, c) == |Where(items, fails)|
  {
    hide Fails, Where;
    if items == [] {
      WhereNone(fails);
    } else {
      FailingWhere(p, items[..|items| - 1], c, fails);
      WhereNext(items, fails);
    }
  }

  lemma FailingAreUnmet(p: Policy, items: seq<Item>, c: Check)
    ensures Failing(p, items, c) == |Unmet(p, items, c)|
  {
    var unmet: Item -> bool := item => !Meets(p, item, c);
    forall item ensures unmet(item) <==> Fails(p, item, c) { FailsUnlessMet(p, item, c); }
    hide Fails, Meets;
    FailingWhere(p, items, c, unmet);
    assert Unmet(p, items, c) == Where(items, unmet);
  }

  /** What a state says of an item's evidence. */
  ghost predicate Means(p: Policy, item: Item, c: Check, state: State) {
    var (rule, e) := (p.rules(c), item.evidence);
    match state
    case Found => Shows(rule, e)
    case NotSeen => Untouched(rule, e) && e.symbolsPresent
    case Unknown => Untouched(rule, e) && !e.symbolsPresent
    case SymbolOnly => !Shows(rule, e) && !Untouched(rule, e)
  }

  ghost function Having(p: Policy, items: seq<Item>, c: Check, state: State): set<nat> {
    set i: nat | i < |items| && Means(p, items[i], c, state)
  }

  lemma {:induction false} InStateWhere(p: Policy, items: seq<Item>, c: Check, state: State, has: Item -> bool)
    requires forall item :: has(item) <==> StateOf(p.rules(c), item.evidence) == state
    ensures InState(p, items, c, state) == |Where(items, has)|
  {
    hide StateOf, Where;
    if items == [] {
      WhereNone(has);
    } else {
      InStateWhere(p, items[..|items| - 1], c, state, has);
      WhereNext(items, has);
    }
  }

  lemma InStateAreHaving(p: Policy, items: seq<Item>, c: Check, state: State)
    ensures InState(p, items, c, state) == |Having(p, items, c, state)|
  {
    var has: Item -> bool := item => Means(p, item, c, state);
    forall item ensures has(item) <==> StateOf(p.rules(c), item.evidence) == state {
      StateMeans(p.rules(c), item.evidence);
      hide StateOf, Shows, Untouched;
    }
    hide StateOf, Means;
    InStateWhere(p, items, c, state, has);
    assert Having(p, items, c, state) == Where(items, has);
  }

  /** An item that does not meet one of the twelve checks. */
  ghost predicate Deviates(p: Policy, item: Item) { exists c: nat :: c < 12 && !Meets(p, item, c) }

  ghost function Deviating(p: Policy, items: seq<Item>): set<nat> {
    set i: nat | i < |items| && Deviates(p, items[i])
  }

  lemma {:induction false} FailedWhere(p: Policy, items: seq<Item>, fails: Item -> bool)
    requires forall item :: fails(item) <==> FailsSome(p, item)
    ensures FailedItems(p, items) == |Where(items, fails)|
  {
    hide FailsSome, Where;
    if items == [] {
      WhereNone(fails);
    } else {
      FailedWhere(p, items[..|items| - 1], fails);
      WhereNext(items, fails);
    }
  }

  lemma FailedAreDeviating(p: Policy, items: seq<Item>)
    ensures FailedItems(p, items) == |Deviating(p, items)|
  {
    var fails: Item -> bool := item => Deviates(p, item);
    forall item ensures fails(item) <==> FailsSome(p, item) { DeviatesIff(p, item); }
    hide FailsSome, Deviates;
    FailedWhere(p, items, fails);
    assert Deviating(p, items) == Where(items, fails);
  }

  lemma DeviatesIff(p: Policy, item: Item)
    ensures FailsSome(p, item) <==> Deviates(p, item)
  {
    FailsUnlessMet(p, item, 0);
    hide Meets;
  }

  /** The positions of the items of one file that do not meet a check. */
  ghost function UnmetUnder(p: Policy, items: seq<Item>, c: Check, name: string): set<nat> {
    set i: nat | i < |items| && items[i].name == name && !Meets(p, items[i], c)
  }

  lemma {:induction false} UnderWhere(p: Policy, items: seq<Item>, c: Check, name: string, fails: Item -> bool)
    requires forall item :: fails(item) <==> Fails(p, item, c) && item.name in {name}
    ensures FailingUnder(p, items, c, {name}) == |Where(items, fails)|
  {
    hide Fails, Where;
    if items == [] {
      WhereNone(fails);
    } else {
      UnderWhere(p, items[..|items| - 1], c, name, fails);
      WhereNext(items, fails);
    }
  }

  lemma UnderAreUnmet(p: Policy, items: seq<Item>, c: Check, name: string)
    ensures FailingUnder(p, items, c, {name}) == |UnmetUnder(p, items, c, name)|
  {
    var unmet := (item: Item) => item.name == name && !Meets(p, item, c);
    forall item ensures unmet(item) <==> Fails(p, item, c) && item.name in {name} { FailsUnlessMet(p, item, c); }
    hide Fails, Meets;
    UnderWhere(p, items, c, name, unmet);
    assert UnmetUnder(p, items, c, name) == Where(items, unmet);
  }

  /** Item i is the first of its file that does not meet the check. */
  ghost predicate FirstUnmet(p: Policy, items: seq<Item>, c: Check, name: string, i: int) {
    && 0 <= i < |items| && items[i].name == name && !Meets(p, items[i], c)
    && forall j :: 0 <= j < i && items[j].name == name ==> Meets(p, items[j], c)
  }

  lemma {:induction false} FirstIsFirst(p: Policy, items: seq<Item>, c: Check, name: string)
    ensures match FirstUnder(p, items, c, name)
            case None => forall i :: 0 <= i < |items| && items[i].name == name ==> Meets(p, items[i], c)
            case Some(item) => exists i :: FirstUnmet(p, items, c, name, i) && item == items[i]
  {
    hide Fails, Meets;
    if items != [] {
      var (before, last) := (items[..|items| - 1], items[|items| - 1]);
      FirstIsFirst(p, before, c, name);
      FailsUnlessMet(p, last, c);
      if FirstUnder(p, before, c, name).Some? {
        var i :| FirstUnmet(p, before, c, name, i) && FirstUnder(p, before, c, name).value == before[i];
        assert FirstUnmet(p, items, c, name, i);
      } else if Fails(p, last, c) && last.name == name {
        assert FirstUnmet(p, items, c, name, |items| - 1);
      }
    }
  }

  /** The report in terms of the evidence: its counts are the numbers of the items in each
      state, its entries the files with an item that does not meet the check, each with
      the number of those and the first, and its failing items those that do not meet
      some check. */
  lemma ReportMeans(p: Policy, a: Accounts, artifacts: seq<Artifact>, c: Check, state: State, name: string)
    requires Fits(p, a, Items(artifacts), Units(artifacts)) && c < 12
    ensures var items := Items(artifacts);
            && state in a.rows[c].counts && a.rows[c].counts[state] == |Having(p, items, c, state)|
            && Failing(p, items, c) == |Unmet(p, items, c)|
            && (name in a.rows[c].failures <==>
                  exists i :: 0 <= i < |items| && items[i].name == name && !Meets(p, items[i], c))
            && (name in a.rows[c].failures ==>
                  var (count, first) := a.rows[c].failures[name];
                  && count == |UnmetUnder(p, items, c, name)|
                  && exists i :: FirstUnmet(p, items, c, name, i) && first == items[i])
            && a.failedItems == |Deviating(p, items)|
  {
    var items := Items(artifacts);
    assert RowFits(p, a.rows[c], c, items);
    InStateAreHaving(p, items, c, state);
    FailingAreUnmet(p, items, c);
    FailedAreDeviating(p, items);
    EntryIffFails(p, items, c, name);
    UnderAreUnmet(p, items, c, name);
    FirstIsFirst(p, items, c, name);
    forall item ensures Fails(p, item, c) <==> !Meets(p, item, c) { FailsUnlessMet(p, item, c); }
    hide Fails, Meets, Items, Having, Unmet, UnmetUnder, Deviating, FirstUnder;
    if i :| 0 <= i < |items| && items[i].name == name && !Meets(p, items[i], c) { assert items[i] in items; }
  }

  /** A unit of the artifact is an item that deviates. */
  ghost predicate HasDeviation(p: Policy, artifact: Artifact) {
    exists u :: 0 <= u < |artifact.units| && artifact.units[u].outcome.Code?
                && Deviates(p, Item(artifact.name, artifact.units[u].member, artifact.units[u].outcome.evidence))
  }

  lemma {:induction false} InUnitItems(name: string, units: seq<Unit>, item: Item)
    ensures item in UnitItems(name, units) <==>
            exists u :: 0 <= u < |units| && units[u].outcome.Code?
                        && item == Item(name, units[u].member, units[u].outcome.evidence)
  {
    if units != [] {
      var n := |units| - 1;
      InUnitItems(name, units[..n], item);
      assert item in UnitItems(name, units) <==> item in UnitItems(name, units[..n]) || item in ItemOf(name, units[n]);
      hide UnitItems;
      assert forall u :: 0 <= u < n ==> units[..n][u] == units[u];
    }
  }

  lemma FileFailsIff(p: Policy, artifact: Artifact)
    ensures FileFails(p, artifact) <==> HasDeviation(p, artifact)
  {
    forall item ensures FailsSome(p, item) <==> Deviates(p, item) { DeviatesIff(p, item); }
    hide FailsSome, Deviates, UnitItems;
    if FileFails(p, artifact) {
      var item :| item in UnitItems(artifact.name, artifact.units) && FailsSome(p, item);
      InUnitItems(artifact.name, artifact.units, item);
    }
    if u :| 0 <= u < |artifact.units| && artifact.units[u].outcome.Code?
            && Deviates(p, Item(artifact.name, artifact.units[u].member, artifact.units[u].outcome.evidence)) {
      var item := Item(artifact.name, artifact.units[u].member, artifact.units[u].outcome.evidence);
      InUnitItems(artifact.name, artifact.units, item);
    }
  }

  predicate AllReadable(artifact: Artifact) {
    forall u :: 0 <= u < |artifact.units| ==> !artifact.units[u].outcome.Unreadable?
  }

  lemma ReadableIff(artifact: Artifact)
    ensures Tally(artifact.units, UnreadableUnit) == 0 <==> AllReadable(artifact)
  {
    AnyUnreadable(artifact.units);
    hide Tally;
    if unit :| unit in artifact.units && unit.outcome.Unreadable? {
      var u :| 0 <= u < |artifact.units| && artifact.units[u] == unit;
    }
  }

  lemma {:induction false} FilesWhere(p: Policy, artifacts: seq<Artifact>, fails: Artifact -> bool,
      readable: Artifact -> bool)
    requires forall artifact :: fails(artifact) <==> FileFails(p, artifact)
    requires forall artifact :: readable(artifact) <==> Tally(artifact.units, UnreadableUnit) == 0
    ensures FailingFiles(p, artifacts) == |Where(artifacts, fails)|
    ensures ReadableFiles(artifacts) == |Where(artifacts, readable)|
  {
    hide FileFails, Tally, Where;
    if artifacts == [] {
      WhereNone(fails);
      WhereNone(readable);
    } else {
      FilesWhere(p, artifacts[..|artifacts| - 1], fails, readable);
      WhereNext(artifacts, fails);
      WhereNext(artifacts, readable);
    }
  }

  /** The failing files are those with a deviating unit, the readable ones those without
      an unreadable unit. */
  lemma FilesCounted(p: Policy, artifacts: seq<Artifact>)
    ensures var failing := set i: nat | i < |artifacts| && HasDeviation(p, artifacts[i]);
            |failing| == FailingFiles(p, artifacts)
    ensures var readable := set i: nat | i < |artifacts| && AllReadable(artifacts[i]);
            |readable| == ReadableFiles(artifacts)
  {
    var fails: Artifact -> bool := artifact => HasDeviation(p, artifact);
    var readable: Artifact -> bool := artifact => AllReadable(artifact);
    forall artifact
      ensures fails(artifact) <==> FileFails(p, artifact)
      ensures readable(artifact) <==> Tally(artifact.units, UnreadableUnit) == 0 {
      FileFailsIff(p, artifact);
      ReadableIff(artifact);
    }
    hide HasDeviation, FileFails, AllReadable, Tally;
    FilesWhere(p, artifacts, fails, readable);
    assert Where(artifacts, fails) == set i: nat | i < |artifacts| && HasDeviation(p, artifacts[i]);
    assert Where(artifacts, readable) == set i: nat | i < |artifacts| && AllReadable(artifacts[i]);
  }

  lemma {:induction false} TallyWhere(units: seq<Unit>, sort: Sort, holds: Unit -> bool)
    requires forall unit :: holds(unit) <==> IsOf(unit, sort)
    ensures Tally(units, sort) == |Where(units, holds)|
  {
    hide IsOf, Where;
    if units == [] {
      WhereNone(holds);
    } else {
      TallyWhere(units[..|units| - 1], sort, holds);
      WhereNext(units, holds);
    }
  }

  /** The tallies are the numbers of units of each sort; a member is a unit with a name. */
  lemma UnitsCounted(units: seq<Unit>, sort: Sort, at: set<nat>)
    requires forall i :: i in at ==> i < |units|
    requires forall i :: 0 <= i < |units| ==>
               (i in at <==> (match sort
                              case MetadataUnit => units[i].outcome == Metadata
                              case UnreadableUnit => units[i].outcome == Unreadable
                              case Member => |units[i].member| > 0
                              case UnreadableMember => |units[i].member| > 0 && units[i].outcome == Unreadable
                              case ReadableMember => |units[i].member| > 0 && units[i].outcome != Unreadable))
    ensures Tally(units, sort) == |at|
  {
    var holds: Unit -> bool := unit => IsOf(unit, sort);
    TallyWhere(units, sort, holds);
    hide Tally;
    assert at == Where(units, holds);
  }

  /** A check is enforced when it is not ignored for some item, or by default when there
      are no items. */
  lemma EnforcedIff(p: Policy, a: Accounts, items: seq<Item>, units: seq<Unit>, c: Check)
    requires Fits(p, a, items, units)
    ensures c in Enforced(p, a.rows) <==>
            c < 12 && if items == [] then c in p.modes && p.modes[c] != Ignore
                      else exists i :: 0 <= i < |items| && ModeFor(p, items[i].name, items[i].member, c) != Ignore
  {
    if c < CHECKS {
      assert RowFits(p, a.rows[c], c, items);
      hide ModeFor, CountsFit, FailuresFit;
      if items != [] {
        assert ModeFor(p, items[0].name, items[0].member, c) in ModesUsed(p, items, c) by { assert items[0] in items; }
        if a.rows[c].used != {Ignore} {
          var mode :| mode in a.rows[c].used && mode != Ignore;
          var item :| item in items && ModeFor(p, item.name, item.member, c) == mode;
        }
        if i :| 0 <= i < |items| && ModeFor(p, items[i].name, items[i].member, c) != Ignore {
          assert items[i] in items;
          assert ModeFor(p, items[i].name, items[i].member, c) in a.rows[c].used;
        }
      }
    }
  }

  /** Every unit is a check item, skipped or an error; every member read or an error. */
  lemma {:induction false} UnitsAccounted(artifacts: seq<Artifact>)
    ensures |Units(artifacts)| == |Items(artifacts)| + Tally(Units(artifacts), MetadataUnit)
                                  + Tally(Units(artifacts), UnreadableUnit)
    ensures Tally(Units(artifacts), Member) == Tally(Units(artifacts), ReadableMember)
                                               + Tally(Units(artifacts), UnreadableMember)
  {
    if artifacts != [] {
      var n := |artifacts| - 1;
      UnitsAccounted(artifacts[..n]);
      UnitsOfOne(artifacts[n].name, artifacts[n].units);
      forall sort { TallyAppend(Units(artifacts[..n]), artifacts[n].units, sort); }
    }
  }

  lemma {:induction false} UnitsOfOne(name: string, units: seq<Unit>)
    ensures |units| == |UnitItems(name, units)| + Tally(units, MetadataUnit) + Tally(units, UnreadableUnit)
    ensures Tally(units, Member) == Tally(units, ReadableMember) + Tally(units, UnreadableMember)
  {
    if units != [] { UnitsOfOne(name, units[..|units| - 1]); }
  }

  lemma {:induction false} TallyAppend(a: seq<Unit>, b: seq<Unit>, sort: Sort)
    ensures Tally(a + b, sort) == Tally(a, sort) + Tally(b, sort)
  {
    hide IsOf;
    if b == [] {
      assert a + b == a;
    } else {
      var n := |b| - 1;
      TallyAppend(a, b[..n], sort);
      assert (a + b)[..|a + b| - 1] == a + b[..n] && (a + b)[|a + b| - 1] == b[n];
    }
  }

  /** The sum over a check's entries: each failing (item, check) pair once. */
  method TotalFailures(p: Policy, row: Row, c: Check, ghost items: seq<Item>) returns (total: nat)
    requires RowFits(p, row, c, items)
    ensures total == Failing(p, items, c)
  {
    hide Fails;
    total := 0;
    var rest := row.failures.Keys;
    AllUnder(p, items, c, rest);
    while rest != {}
      invariant rest <= row.failures.Keys
      invariant total + FailingUnder(p, items, c, rest) == Failing(p, items, c)
      decreases |rest|
    {
      var name :| name in rest;
      UnderSplit(p, items, c, rest, name);
      total := total + row.failures[name].0;
      rest := rest - {name};
    }
    NoneUnder(p, items, c);
  }

  lemma {:induction false} UnderSplit(p: Policy, items: seq<Item>, c: Check, names: set<string>, name: string)
    requires name in names
    ensures FailingUnder(p, items, c, names)
            == FailingUnder(p, items, c, {name}) + FailingUnder(p, items, c, names - {name})
  {
    hide Fails;
    if items != [] { UnderSplit(p, items[..|items| - 1], c, names, name); }
  }

  lemma {:induction false} NoneUnder(p: Policy, items: seq<Item>, c: Check)
    ensures FailingUnder(p, items, c, {}) == 0
  {
    if items != [] { NoneUnder(p, items[..|items| - 1], c); }
  }

  lemma {:induction false} AllUnder(p: Policy, items: seq<Item>, c: Check, names: set<string>)
    requires forall name :: FirstUnder(p, items, c, name).Some? ==> name in names
    ensures FailingUnder(p, items, c, names) == Failing(p, items, c)
  {
    hide Fails;
    if items != [] {
      var before := items[..|items| - 1];
      forall name ensures FirstUnder(p, before, c, name).Some? ==> name in names {
        assert FirstUnder(p, items, c, name).Some? ==> name in names;
      }
      AllUnder(p, before, c, names);
      assert FirstUnder(p, items, c, items[|items| - 1].name).Some? ==> items[|items| - 1].name in names;
    }
  }

  /** A file has an entry under a check exactly when one of its items fails it. */
  lemma {:induction false} EntryIffFails(p: Policy, items: seq<Item>, c: Check, name: string)
    ensures FirstUnder(p, items, c, name).Some? <==>
            exists item :: item in items && item.name == name && Fails(p, item, c)
  {
    hide Fails;
    if items != [] {
      var before := items[..|items| - 1];
      EntryIffFails(p, before, c, name);
      assert items == before + [items[|items| - 1]];
    }
  }

  /** With distinct names the failing files are as many as the names in the union of
      the checks' failure maps. */
  lemma FailingFilesAreNamed(p: Policy, a: Accounts, artifacts: seq<Artifact>)
    requires Fits(p, a, Items(artifacts), Units(artifacts)) && NamedApart(artifacts)
    ensures var union := set c, name | 0 <= c < CHECKS && name in a.rows[c].failures :: name;
            |union| == FailingFiles(p, artifacts)
  {
    var union := set c, name | 0 <= c < CHECKS && name in a.rows[c].failures :: name;
    forall name ensures name in union <==> name in FailingNames(p, Items(artifacts)) {
      UnionMember(p, a, Items(artifacts), Units(artifacts), name);
    }
    assert union == FailingNames(p, Items(artifacts));
    FilesAreNames(p, artifacts);
  }

  lemma UnionMember(p: Policy, a: Accounts, items: seq<Item>, units: seq<Unit>, name: string)
    requires Fits(p, a, items, units)
    ensures name in FailingNames(p, items) <==> exists c :: 0 <= c < CHECKS && name in a.rows[c].failures
  {
    hide Fails;
    forall c | 0 <= c < CHECKS
      ensures name in a.rows[c].failures <==> exists item :: item in items && item.name == name && Fails(p, item, c) {
      assert RowFits(p, a.rows[c], c, items);
      EntryIffFails(p, items, c, name);
    }
    hide RowsFit, RowFits;
    if name in FailingNames(p, items) {
      var item :| item in items && item.name == name && FailsSome(p, item);
      var c: nat :| c < CHECKS && Fails(p, item, c);
      assert name in a.rows[c].failures;
    }
    if c :| 0 <= c < CHECKS && name in a.rows[c].failures {
      var item :| item in items && item.name == name && Fails(p, item, c);
      assert FailsSome(p, item);
    }
  }

  lemma {:induction false} FilesAreNames(p: Policy, artifacts: seq<Artifact>)
    requires NamedApart(artifacts)
    ensures |FailingNames(p, Items(artifacts))| == FailingFiles(p, artifacts)
  {
    hide FailingNames, FileFails;
    if artifacts == [] {
      NoNames(p);
    } else {
      var n := |artifacts| - 1;
      var (before, last) := (artifacts[..n], artifacts[n]);
      FilesAreNames(p, before);
      NamesNext(p, Items(before), last);
      NotYetFailing(p, before, last.name);
    }
  }

  lemma NoNames(p: Policy)
    ensures FailingNames(p, []) == {}
  {
  }

  lemma {:induction false} NotYetFailing(p: Policy, artifacts: seq<Artifact>, name: string)
    requires forall i :: 0 <= i < |artifacts| ==> artifacts[i].name != name
    ensures name !in FailingNames(p, Items(artifacts))
  {
    if artifacts != [] {
      var n := |artifacts| - 1;
      NotYetFailing(p, artifacts[..n], name);
      hide FailingNames;
      NamesNext(p, Items(artifacts[..n]), artifacts[n]);
    }
  }

  lemma NamesNext(p: Policy, items: seq<Item>, last: Artifact)
    ensures FailingNames(p, items + UnitItems(last.name, last.units))
            == FailingNames(p, items) + if FileFails(p, last) then {last.name} else {}
  {
    hide FailsSome, UnitItems;
    NamedAfterFile(last.name, last.units);
    var more := UnitItems(last.name, last.units);
    forall item ensures item in items + more <==> item in items || item in more {}
  }

  lemma {:induction false} NamedAfterFile(name: string, units: seq<Unit>)
    ensures forall item :: item in UnitItems(name, units) ==> item.name == name
  {
    if units != [] { NamedAfterFile(name, units[..|units| - 1]); }
  }

  /** A check that is not enforced has no failure to show. */
  lemma UnenforcedNeverFails(p: Policy, a: Accounts, items: seq<Item>, units: seq<Unit>, c: Check)
    requires Fits(p, a, items, units) && c < CHECKS && c !in Enforced(p, a.rows)
    ensures a.rows[c].failures == map[] && Failing(p, items, c) == 0
  {
    assert RowFits(p, a.rows[c], c, items);
    forall name ensures name !in a.rows[c].failures {
      EntryIffFails(p, items, c, name);
      forall item | item in items ensures !Fails(p, item, c) {
        assert ModeFor(p, item.name, item.member, c) in ModesUsed(p, items, c);
      }
    }
    AllUnder(p, items, c, {});
    NoneUnder(p, items, c);
  }
}
