/**
 How suites, cases, configurations and results join a run and leave it
 (`src/domain/composition.rs`): mutations of an already loaded document.

 `Contents` is what a run holds; an absent list and an empty one are the same
 contents. `Apply` is what each mutation does to it.
 */
module RunComposition {
  import opened Wrappers

  type u64 = x: int | 0 <= x < 0x1_0000_0000_0000_0000

  datatype DefectLink = DefectLink(linkId: string, defectId: string)

  datatype Case = Case(id: string, version: Option<u64>, title: string)

  datatype Suite = Suite(id: string, name: string, cases: seq<Case>)

  datatype Configuration = Configuration(
    id: string,
    name: string,
    browser: Option<string>,
    os: Option<string>,
    device: Option<string>,
    resolution: Option<string>)

  datatype CaseResult = CaseResult(
    caseId: string,
    status: string,
    timestamp: string,
    notes: Option<string>,
    durationMs: Option<u64>,
    attachments: Option<seq<string>>,
    defectLinks: Option<seq<DefectLink>>)

  /** What a recording request says about one optional field. */
  datatype Patch<T> = Keep | Clear | Set(value: T)

  datatype ResultUpdate = ResultUpdate(
    caseId: string,
    status: string,
    timestamp: string,
    notes: Patch<string>,
    durationMs: Patch<u64>)

  datatype Error = Conflict | NotFound

  const UNVERSIONED_CASE: u64 := 1

  /// What a run holds
  /// ----------------

  datatype Contents = Contents(
    suites: seq<Suite>,
    cases: seq<Case>,
    results: seq<CaseResult>,
    configurations: seq<Configuration>,
    versions: map<string, u64>)

  const EMPTY := Contents([], [], [], [], map[])

  function SuiteId(s: Suite): string { s.id }

  function CaseId(c: Case): string { c.id }

  function ResultId(r: CaseResult): string { r.caseId }

  function ConfigurationId(c: Configuration): string { c.id }

  function LinkId(l: DefectLink): string { l.linkId }

  function DefectId(l: DefectLink): string { l.defectId }

  function Ids<T>(id: T -> string, s: seq<T>): seq<string> { seq(|s|, i requires 0 <= i < |s| => id(s[i])) }

  predicate Unique(ids: seq<string>) { forall i, j :: 0 <= i < j < |ids| ==> ids[i] != ids[j] }

  /** A run holds a case it declares, embeds in a suite, or records a result for. */
  predicate HoldsCase(c: Contents, caseId: string) {
    Declares(c, caseId) || caseId in Ids(ResultId, c.results)
  }

  predicate Declares(c: Contents, caseId: string) {
    || caseId in Ids(CaseId, c.cases)
    || exists i :: 0 <= i < |c.suites| && caseId in Ids(CaseId, c.suites[i].cases)
  }

  /// What each mutation does
  /// -----------------------

  function Stored<T>(patch: Patch<T>): Option<T> {
    match patch
    case Set(value) => Some(value)
    case Keep => None
    case Clear => None
  }

  function Patched<T>(stored: Option<T>, patch: Patch<T>): Option<T> {
    match patch
    case Keep => stored
    case Clear => None
    case Set(value) => Some(value)
  }

  function Updated(r: CaseResult, u: ResultUpdate): CaseResult {
    r.(status := u.status, timestamp := u.timestamp,
       notes := Patched(r.notes, u.notes), durationMs := Patched(r.durationMs, u.durationMs))
  }

  function NewResult(u: ResultUpdate): CaseResult {
    CaseResult(u.caseId, u.status, u.timestamp, Stored(u.notes), Stored(u.durationMs), None, None)
  }

  /** The first index at which the id occurs, or the length. */
  function Find(ids: seq<string>, id: string): (i: nat)
    ensures i <= |ids| && (i < |ids| ==> ids[i] == id) && forall k :: 0 <= k < i ==> ids[k] != id
  {
    if ids == [] || ids[0] == id then 0 else 1 + Find(ids[1..], id)
  }

  /** The list without the items that carry the id, as `retain` leaves it. */
  function Without<T(!new)>(id: T -> string, items: seq<T>, x: string): (kept: seq<T>)
    ensures |kept| <= |items|
    ensures forall k :: k in kept <==> k in items && id(k) != x
    ensures |kept| == |items| <==> x !in Ids(id, items)
  {
    if items == [] then []
    else
      assert items == [items[0]] + items[1..];
      assert Ids(id, items) == [id(items[0])] + Ids(id, items[1..]);
      (if id(items[0]) == x then [] else [items[0]]) + Without(id, items[1..], x)
  }

  lemma {:induction false} NothingDropped<T(!new)>(id: T -> string, items: seq<T>, x: string)
    requires |Without(id, items, x)| == |items|
    ensures Without(id, items, x) == items
  {
    if items != [] {
      assert |Without(id, items[1..], x)| <= |items[1..]|;
      NothingDropped(id, items[1..], x);
    }
  }

  lemma FirstId<T>(id: T -> string, items: seq<T>)
    requires items != []
    ensures Ids(id, items) == [id(items[0])] + Ids(id, items[1..])
  {
  }

  lemma UniqueFirst(first: string, rest: seq<string>)
    ensures Unique([first] + rest) <==> first !in rest && Unique(rest)
  {
    var all := [first] + rest;
    assert all[0] == first;
    if Unique(all) {
      forall k | 0 <= k < |rest| ensures rest[k] != first {
        assert all[0] != all[k + 1];
      }
      forall i, j | 0 <= i < j < |rest| ensures rest[i] != rest[j] {
        assert all[i + 1] != all[j + 1];
      }
    }
  }

  lemma IdsAreOfItems<T(!new)>(id: T -> string, items: seq<T>, x: string)
    ensures x in Ids(id, items) <==> exists k :: k in items && id(k) == x
  {
    if x in Ids(id, items) {
      var i :| 0 <= i < |items| && Ids(id, items)[i] == x;
      assert items[i] in items;
    }
    if k :| k in items && id(k) == x {
      var i :| 0 <= i < |items| && items[i] == k;
      assert Ids(id, items)[i] == x;
    }
  }

  lemma {:induction false} DroppingKeepsUnique<T(!new)>(id: T -> string, items: seq<T>, x: string)
    requires Unique(Ids(id, items))
    ensures Unique(Ids(id, Without(id, items, x)))
  {
    hide Ids, Unique;
    if items != [] {
      var first, rest := items[0], Without(id, items[1..], x);
      FirstId(id, items);
      UniqueFirst(id(first), Ids(id, items[1..]));
      DroppingKeepsUnique(id, items[1..], x);
      IdsAreOfItems(id, items[1..], id(first));
      IdsAreOfItems(id, rest, id(first));
      FirstId(id, [first] + rest);
      assert ([first] + rest)[1..] == rest && [] + rest == rest;
      UniqueFirst(id(first), Ids(id, rest));
    } else {
      assert Without(id, items, x) == items;
    }
  }

  lemma AddingKeepsUnique<T>(id: T -> string, items: seq<T>, item: T)
    requires Unique(Ids(id, items)) && id(item) !in Ids(id, items)
    ensures Unique(Ids(id, items + [item]))
  {
    assert Ids(id, items + [item]) == Ids(id, items) + [id(item)];
  }

  datatype Operation =
    | AttachSuite(suite: Suite, target: string)
    | AttachCase(testCase: Case, target: string)
    | CaptureVersion(caseId: string, version: Option<u64>)
    | AttachConfiguration(configuration: Configuration, target: string)
    | DetachConfiguration(configId: string)
    | UpsertResult(update: ResultUpdate)
    | ReplaceResult(update: ResultUpdate)
    | RemoveResult(caseId: string)

  function Apply(c: Contents, op: Operation): Result<Contents, Error> {
    match op
    case AttachSuite(suite, target) =>
      if suite.id in Ids(SuiteId, c.suites) || target in Ids(SuiteId, c.suites) then Err(Conflict)
      else Ok(c.(suites := c.suites + [suite]))
    case AttachCase(testCase, target) =>
      if testCase.id in Ids(CaseId, c.cases) || target in Ids(CaseId, c.cases) then Err(Conflict)
      else Ok(c.(cases := c.cases + [testCase]))
    case CaptureVersion(caseId, version) =>
      if caseId in c.versions then Ok(c)
      else Ok(c.(versions := c.versions[caseId := if version.Some? then version.value else UNVERSIONED_CASE]))
    case AttachConfiguration(configuration, target) =>
      if configuration.id in Ids(ConfigurationId, c.configurations) || target in Ids(ConfigurationId, c.configurations) then Err(Conflict)
      else Ok(c.(configurations := c.configurations + [Configuration(target, configuration.name, None, None, None, None)]))
    case DetachConfiguration(configId) =>
      if configId in Ids(ConfigurationId, c.configurations) then
        Ok(c.(configurations := Without(ConfigurationId, c.configurations, configId)))
      else Err(NotFound)
    case UpsertResult(update) =>
      var i := Find(Ids(ResultId, c.results), update.caseId);
      if i < |c.results| then Ok(c.(results := c.results[i := Updated(c.results[i], update)]))
      else Ok(c.(results := c.results + [NewResult(update)]))
    case ReplaceResult(update) =>
      var i := Find(Ids(ResultId, c.results), update.caseId);
      if i < |c.results| then Ok(c.(results := c.results[i := Updated(c.results[i], update)]))
      else Err(NotFound)
    case RemoveResult(caseId) =>
      if caseId in Ids(ResultId, c.results) then Ok(c.(results := Without(ResultId, c.results, caseId)))
      else Err(NotFound)
  }

  /** A refused mutation leaves the contents as they were. */
  function After(c: Contents, op: Operation): Contents {
    match Apply(c, op)
    case Ok(c') => c'
    case Err(_) => c
  }

  function AfterAll(c: Contents, ops: seq<Operation>): Contents {
    if ops == [] then c else After(AfterAll(c, ops[..|ops| - 1]), ops[|ops| - 1])
  }

  /// The document
  /// ------------

  function ListOf<T>(o: Option<seq<T>>): seq<T> { if o.Some? then o.value else [] }

  /** A run document as loaded: a list the document does not carry is absent. */
  class TestRun {
    var testSuites: Option<seq<Suite>>
    var testCases: Option<seq<Case>>
    var results: Option<seq<CaseResult>>
    var configurations: Option<seq<Configuration>>
    var caseVersions: Option<map<string, u64>>

    constructor ()
      ensures Holds() == EMPTY
    {
      testSuites := None;
      testCases := None;
      results := None;
      configurations := None;
      caseVersions := None;
    }

    function Holds(): Contents
      reads this
    {
      Contents(ListOf(testSuites), ListOf(testCases), ListOf(results), ListOf(configurations),
               if caseVersions.Some? then caseVersions.value else map[])
    }

    method AttachSuiteToRun(suite: Suite, target: string) returns (r: Result<(), Error>)
      modifies this`testSuites
      ensures Holds() == After(old(Holds()), AttachSuite(suite, target))
      ensures r.Ok? <==> Apply(old(Holds()), AttachSuite(suite, target)).Ok?
      ensures r.Err? ==> r.error == Conflict
    {
      var suites := ListOf(testSuites);
      testSuites := Some(suites);
      if suite.id in Ids(SuiteId, suites) || target in Ids(SuiteId, suites) {
        return Err(Conflict);
      }
      testSuites := Some(suites + [suite]);
      return Ok(());
    }

    method AttachCaseToRun(testCase: Case, target: string) returns (r: Result<(), Error>)
      modifies this`testCases
      ensures Holds() == After(old(Holds()), AttachCase(testCase, target))
      ensures r.Ok? <==> Apply(old(Holds()), AttachCase(testCase, target)).Ok?
      ensures r.Err? ==> r.error == Conflict
    {
      var cases := ListOf(testCases);
      testCases := Some(cases);
      if testCase.id in Ids(CaseId, cases) || target in Ids(CaseId, cases) {
        return Err(Conflict);
      }
      testCases := Some(cases + [testCase]);
      return Ok(());
    }

    method CaptureCaseVersion(caseId: string, version: Option<u64>)
      modifies this`caseVersions
      ensures Holds() == After(old(Holds()), CaptureVersion(caseId, version))
    {
      var versions := if caseVersions.Some? then caseVersions.value else map[];
      if caseId !in versions {
        versions := versions[caseId := if version.Some? then version.value else UNVERSIONED_CASE];
      }
      caseVersions := Some(versions);
    }

    /** The run stores a reference, not the configuration's own fields. */
    method AttachConfigurationToRun(configuration: Configuration, target: string) returns (r: Result<(), Error>)
      modifies this`configurations
      ensures Holds() == After(old(Holds()), AttachConfiguration(configuration, target))
      ensures r.Ok? <==> Apply(old(Holds()), AttachConfiguration(configuration, target)).Ok?
      ensures r.Err? ==> r.error == Conflict
    {
      var linked := ListOf(configurations);
      configurations := Some(linked);
      if configuration.id in Ids(ConfigurationId, linked) || target in Ids(ConfigurationId, linked) {
        return Err(Conflict);
      }
      configurations := Some(linked + [Configuration(target, configuration.name, None, None, None, None)]);
      return Ok(());
    }

    method DetachConfigurationFromRun(configId: string) returns (r: Result<(), Error>)
      modifies this`configurations
      ensures Holds() == After(old(Holds()), DetachConfiguration(configId))
      ensures r.Ok? <==> Apply(old(Holds()), DetachConfiguration(configId)).Ok?
      ensures r.Err? ==> r.error == NotFound
    {
      var linked := ListOf(configurations);
      var kept := Without(ConfigurationId, linked, configId);
      configurations := Some(kept);
      if |kept| == |linked| {
        NothingDropped(ConfigurationId, linked, configId);
        return Err(NotFound);
      }
      return Ok(());
    }

    /** The search stops at the first result of the case. */
    method FindResult(caseId: string) returns (i: nat)
      ensures i == Find(Ids(ResultId, ListOf(results)), caseId)
    {
      var stored := ListOf(results);
      i := 0;
      while i < |stored| && stored[i].caseId != caseId
        invariant i <= |stored| && forall k :: 0 <= k < i ==> stored[k].caseId != caseId
      {
        i := i + 1;
      }
      ghost var ids := Ids(ResultId, stored);
      assert forall k :: 0 <= k < |stored| ==> ids[k] == stored[k].caseId;
      assert i < |stored| ==> ids[i] == caseId;
    }

    method UpsertResult(update: ResultUpdate)
      modifies this`results
      ensures Holds() == After(old(Holds()), Operation.UpsertResult(update))
    {
      var stored := ListOf(results);
      var i := FindResult(update.caseId);
      if i < |stored| {
        results := Some(stored[i := Updated(stored[i], update)]);
      } else {
        results := Some(stored + [NewResult(update)]);
      }
    }

    method ReplaceResult(update: ResultUpdate) returns (r: Result<(), Error>)
      modifies this`results
      ensures Holds() == After(old(Holds()), Operation.ReplaceResult(update))
      ensures r.Ok? <==> Apply(old(Holds()), Operation.ReplaceResult(update)).Ok?
      ensures r.Err? ==> r.error == NotFound
    {
      var stored := ListOf(results);
      var i := FindResult(update.caseId);
      if i == |stored| {
        return Err(NotFound);
      }
      results := Some(stored[i := Updated(stored[i], update)]);
      return Ok(());
    }

    method RemoveResult(caseId: string) returns (r: Result<(), Error>)
      modifies this`results
      ensures Holds() == After(old(Holds()), Operation.RemoveResult(caseId))
      ensures r.Ok? <==> Apply(old(Holds()), Operation.RemoveResult(caseId)).Ok?
      ensures r.Err? ==> r.error == NotFound
    {
      if results.None? {
        return Err(NotFound);
      }
      var kept := Without(ResultId, results.value, caseId);
      var removed := |kept| != |results.value|;
      if !removed {
        NothingDropped(ResultId, results.value, caseId);
      }
      results := Some(kept);
      return if removed then Ok(()) else Err(NotFound);
    }
  }

  /// What every sequence of mutations keeps
  /// --------------------------------------

  predicate NoRepeats(c: Contents) {
    && Unique(Ids(SuiteId, c.suites)) && Unique(Ids(CaseId, c.cases))
    && Unique(Ids(ResultId, c.results)) && Unique(Ids(ConfigurationId, c.configurations))
  }

  lemma UpdatingKeepsIds(results: seq<CaseResult>, i: nat, update: ResultUpdate)
    requires i < |results|
    ensures Ids(ResultId, results[i := Updated(results[i], update)]) == Ids(ResultId, results)
  {
    var after := results[i := Updated(results[i], update)];
    forall k | 0 <= k < |results| ensures Ids(ResultId, after)[k] == Ids(ResultId, results)[k] {
      assert ResultId(after[k]) == ResultId(results[k]);
    }
  }

  lemma ResultsStayUnique(c: Contents, op: Operation)
    requires Unique(Ids(ResultId, c.results))
    ensures Unique(Ids(ResultId, After(c, op).results))
  {
    match op
    case UpsertResult(update) =>
      var i := Find(Ids(ResultId, c.results), update.caseId);
      if i < |c.results| {
        UpdatingKeepsIds(c.results, i, update);
      } else {
        AddingKeepsUnique(ResultId, c.results, NewResult(update));
      }
    case ReplaceResult(update) =>
      var i := Find(Ids(ResultId, c.results), update.caseId);
      if i < |c.results| {
        UpdatingKeepsIds(c.results, i, update);
      }
    case RemoveResult(caseId) =>
      DroppingKeepsUnique(ResultId, c.results, caseId);
    case AttachSuite(_, _) =>
    case AttachCase(_, _) =>
    case CaptureVersion(_, _) =>
    case AttachConfiguration(_, _) =>
    case DetachConfiguration(_) =>
  }

  lemma StepKeepsNoRepeats(c: Contents, op: Operation)
    requires NoRepeats(c)
    ensures NoRepeats(After(c, op))
  {
    ResultsStayUnique(c, op);
    match op
    case AttachSuite(suite, _) =>
      if Apply(c, op).Ok? {
        AddingKeepsUnique(SuiteId, c.suites, suite);
      }
    case AttachCase(testCase, _) =>
      if Apply(c, op).Ok? {
        AddingKeepsUnique(CaseId, c.cases, testCase);
      }
    case AttachConfiguration(configuration, target) =>
      var added := Configuration(target, configuration.name, None, None, None, None);
      if Apply(c, op).Ok? {
        AddingKeepsUnique(ConfigurationId, c.configurations, added);
      }
    case DetachConfiguration(configId) =>
      DroppingKeepsUnique(ConfigurationId, c.configurations, configId);
    case CaptureVersion(_, _) =>
    case UpsertResult(_) =>
    case ReplaceResult(_) =>
    case RemoveResult(_) =>
  }

  /** Over every sequence of mutations of an empty run, suites, cases, results and configurations stay
      unique by identifier. */
  lemma {:induction false} NeverRepeats(ops: seq<Operation>)
    ensures NoRepeats(AfterAll(EMPTY, ops))
  {
    if ops != [] {
      NeverRepeats(ops[..|ops| - 1]);
      StepKeepsNoRepeats(AfterAll(EMPTY, ops[..|ops| - 1]), ops[|ops| - 1]);
    }
  }

  /** A version once pinned is pinned for good, at the value first captured. */
  lemma {:induction false} PinnedForGood(c: Contents, ops: seq<Operation>, caseId: string)
    requires caseId in c.versions
    ensures caseId in AfterAll(c, ops).versions && AfterAll(c, ops).versions[caseId] == c.versions[caseId]
  {
    if ops != [] {
      PinnedForGood(c, ops[..|ops| - 1], caseId);
    }
  }

  predicate Removes(op: Operation, caseId: string) { op.RemoveResult? && op.caseId == caseId }

  /** Unless it is removed, a result keeps its attachments and defect links through every sequence of
      mutations, whatever is recorded for its case. */
  lemma {:induction false} LinksSurvive(c: Contents, ops: seq<Operation>, r: CaseResult)
    requires NoRepeats(c) && r in c.results
    requires forall op :: op in ops ==> !Removes(op, r.caseId)
    ensures exists r' :: r' in AfterAll(c, ops).results && r'.caseId == r.caseId
                         && r'.attachments == r.attachments && r'.defectLinks == r.defectLinks
  {
    if ops != [] {
      var before := AfterAll(c, ops[..|ops| - 1]);
      LinksSurvive(c, ops[..|ops| - 1], r);
      var r' :| r' in before.results && r'.caseId == r.caseId
                && r'.attachments == r.attachments && r'.defectLinks == r.defectLinks;
      LinksSurviveOne(before, ops[|ops| - 1], r');
    }
  }

  lemma LinksSurviveOne(c: Contents, op: Operation, r: CaseResult)
    requires r in c.results && !Removes(op, r.caseId)
    ensures exists r' :: r' in After(c, op).results && r'.caseId == r.caseId
                         && r'.attachments == r.attachments && r'.defectLinks == r.defectLinks
  {
    var j :| 0 <= j < |c.results| && c.results[j] == r;
    var after := After(c, op).results;
    if op.RemoveResult? {
      assert r in after;
    } else {
      assert |after| >= |c.results| && after[j] in after;
    }
  }

  /** The mutation brings the case into the run: alone, in a suite, or by recording a result for it. */
  predicate Brings(c: Contents, op: Operation, caseId: string) {
    match op
    case AttachCase(testCase, _) => Apply(c, op).Ok? && testCase.id == caseId
    case AttachSuite(suite, _) => Apply(c, op).Ok? && caseId in Ids(CaseId, suite.cases)
    case UpsertResult(update) => update.caseId == caseId
    case CaptureVersion(_, _) => false
    case AttachConfiguration(_, _) => false
    case DetachConfiguration(_) => false
    case ReplaceResult(_) => false
    case RemoveResult(_) => false
  }

  /** After a mutation a run holds exactly the cases it held before and those the mutation brings,
      except that removing a result leaves its case held only if declared. */
  lemma HeldAfter(c: Contents, op: Operation, caseId: string)
    ensures HoldsCase(After(c, op), caseId)
       <==> if Removes(op, caseId) then Declares(c, caseId) else HoldsCase(c, caseId) || Brings(c, op, caseId)
  {
    DeclaredAfter(c, op, caseId);
    if Removes(op, caseId) {
      RemovedIsGone(c, caseId);
    } else {
      RecordedAfter(c, op, caseId);
    }
  }

  lemma DeclaredAfter(c: Contents, op: Operation, caseId: string)
    ensures Declares(After(c, op), caseId) <==> Declares(c, caseId) || (!op.UpsertResult? && Brings(c, op, caseId))
  {
    var after := After(c, op);
    if Declares(c, caseId) {
      StaysDeclared(c, op, caseId);
    }
    if op.AttachCase? && Apply(c, op).Ok? {
      IdsOfAppended(CaseId, c.cases, op.testCase);
      assert CaseId(op.testCase) == op.testCase.id;
      assert after.suites == c.suites;
    } else if op.AttachSuite? && Apply(c, op).Ok? {
      DeclaredWithSuite(c, op.suite, caseId);
    } else {
      assert after.cases == c.cases && after.suites == c.suites;
    }
  }

  lemma DeclaredWithSuite(c: Contents, suite: Suite, caseId: string)
    ensures Declares(c.(suites := c.suites + [suite]), caseId) <==> Declares(c, caseId) || caseId in Ids(CaseId, suite.cases)
  {
    var suites := c.suites + [suite];
    assert suites[|c.suites|] == suite;
    assert forall i :: 0 <= i < |c.suites| ==> suites[i] == c.suites[i];
  }

  lemma RecordedAfter(c: Contents, op: Operation, caseId: string)
    requires !Removes(op, caseId)
    ensures caseId in Ids(ResultId, After(c, op).results)
       <==> caseId in Ids(ResultId, c.results) || (op.UpsertResult? && Brings(c, op, caseId))
  {
    match op
    case UpsertResult(update) =>
      var i := Find(Ids(ResultId, c.results), update.caseId);
      if i < |c.results| {
        UpdatingKeepsIds(c.results, i, update);
        assert Ids(ResultId, c.results)[i] == update.caseId;
      } else {
        IdsOfAppended(ResultId, c.results, NewResult(update));
        assert ResultId(NewResult(update)) == update.caseId;
      }
    case ReplaceResult(update) =>
      var i := Find(Ids(ResultId, c.results), update.caseId);
      if i < |c.results| {
        UpdatingKeepsIds(c.results, i, update);
      }
    case RemoveResult(other) =>
      IdsAreOfItems(ResultId, c.results, caseId);
      IdsAreOfItems(ResultId, After(c, op).results, caseId);
    case AttachSuite(_, _) =>
    case AttachCase(_, _) =>
    case CaptureVersion(_, _) =>
    case AttachConfiguration(_, _) =>
    case DetachConfiguration(_) =>
  }

  lemma StaysDeclared(c: Contents, op: Operation, caseId: string)
    requires Declares(c, caseId)
    ensures Declares(After(c, op), caseId)
  {
    var after := After(c, op);
    if caseId in Ids(CaseId, c.cases) {
      var i :| 0 <= i < |c.cases| && Ids(CaseId, c.cases)[i] == caseId;
      assert Ids(CaseId, after.cases)[i] == caseId;
    } else {
      var i :| 0 <= i < |c.suites| && caseId in Ids(CaseId, c.suites[i].cases);
      assert after.suites[i] == c.suites[i];
    }
  }

  lemma RemovedIsGone(c: Contents, caseId: string)
    ensures caseId !in Ids(ResultId, Without(ResultId, c.results, caseId))
  {
    var kept := Without(ResultId, c.results, caseId);
    forall i | 0 <= i < |kept| ensures Ids(ResultId, kept)[i] != caseId {
      assert kept[i] in kept;
    }
  }

  /// What a mutation leaves
  /// ----------------------

  /** A suite, a case or a configuration joins at the end, unless its identifier, or the one asked for, is
      taken, which is a conflict; a configuration joins by name under the one asked for. */
  lemma JoinsUnlessTaken(c: Contents, suite: Suite, testCase: Case, configuration: Configuration, target: string)
    ensures var taken := exists s :: s in c.suites && (s.id == suite.id || s.id == target);
            Apply(c, AttachSuite(suite, target)) == if taken then Err(Conflict) else Ok(c.(suites := c.suites + [suite]))
    ensures var taken := exists k :: k in c.cases && (k.id == testCase.id || k.id == target);
            Apply(c, AttachCase(testCase, target)) == if taken then Err(Conflict) else Ok(c.(cases := c.cases + [testCase]))
    ensures var taken := exists k :: k in c.configurations && (k.id == configuration.id || k.id == target);
            var reference := Configuration(target, configuration.name, None, None, None, None);
            Apply(c, AttachConfiguration(configuration, target))
            == if taken then Err(Conflict) else Ok(c.(configurations := c.configurations + [reference]))
  {
    IdsAreOfItems(SuiteId, c.suites, suite.id);
    IdsAreOfItems(SuiteId, c.suites, target);
    IdsAreOfItems(CaseId, c.cases, testCase.id);
    IdsAreOfItems(CaseId, c.cases, target);
    IdsAreOfItems(ConfigurationId, c.configurations, configuration.id);
    IdsAreOfItems(ConfigurationId, c.configurations, target);
  }

  /** The first version captured for a case stands, a case without one counting as version 1. */
  lemma FirstVersionStands(c: Contents, caseId: string, version: Option<u64>)
    ensures var after := After(c, CaptureVersion(caseId, version));
            && after.(versions := c.versions) == c
            && after.versions.Keys == c.versions.Keys + {caseId}
            && (forall id :: id in c.versions ==> after.versions[id] == c.versions[id])
            && (caseId !in c.versions ==> after.versions[caseId] == match version case Some(v) => v case None => 1)
  {
  }

  /** A field asked to be kept stays, one asked to be cleared goes, and one given a value has it. */
  predicate Patches<T(==)>(before: Option<T>, patch: Patch<T>, after: Option<T>) {
    && (patch.Keep? ==> after == before)
    && (patch.Clear? ==> after.None?)
    && (patch.Set? ==> after == Some(patch.value))
  }

  /** The result recorded for a case: the status and timestamp given, the optional fields as asked for, and
      the attachments and defect links there were; a case without a result has had nothing. */
  predicate RecordsOver(before: Option<CaseResult>, u: ResultUpdate, after: CaseResult) {
    && after.caseId == u.caseId && after.status == u.status && after.timestamp == u.timestamp
    && Patches(if before.Some? then before.value.notes else None, u.notes, after.notes)
    && Patches(if before.Some? then before.value.durationMs else None, u.durationMs, after.durationMs)
    && after.attachments == (if before.Some? then before.value.attachments else None)
    && after.defectLinks == (if before.Some? then before.value.defectLinks else None)
  }

  /** Recording writes over the first result of the case, in its place, or adds one at the end; replacing
      does so only where there is one. No other result, and nothing else, changes. */
  lemma RecordsOneResult(c: Contents, u: ResultUpdate)
    ensures var after := After(c, UpsertResult(u));
            && after.(results := c.results) == c
            && (u.caseId !in Ids(ResultId, c.results) ==>
                  && |after.results| == |c.results| + 1 && after.results[..|c.results|] == c.results
                  && RecordsOver(None, u, after.results[|c.results|])
                  && Apply(c, ReplaceResult(u)) == Err(NotFound))
            && forall i :: 0 <= i < |c.results| && c.results[i].caseId == u.caseId
                           && (forall k :: 0 <= k < i ==> c.results[k].caseId != u.caseId) ==>
                 && |after.results| == |c.results|
                 && RecordsOver(Some(c.results[i]), u, after.results[i])
                 && (forall k :: 0 <= k < |c.results| && k != i ==> after.results[k] == c.results[k])
                 && Apply(c, ReplaceResult(u)) == Ok(after)
  {
    hide Ids, Find;
    NoFirstResult(c.results, u.caseId);
    forall i | 0 <= i < |c.results| && c.results[i].caseId == u.caseId && forall k :: 0 <= k < i ==> c.results[k].caseId != u.caseId
      ensures Find(Ids(ResultId, c.results), u.caseId) == i && u.caseId in Ids(ResultId, c.results)
    {
      FirstResultAt(c.results, u.caseId, i);
    }
  }

  lemma FirstResultAt(results: seq<CaseResult>, caseId: string, i: nat)
    requires i < |results| && results[i].caseId == caseId && forall k :: 0 <= k < i ==> results[k].caseId != caseId
    ensures Find(Ids(ResultId, results), caseId) == i && caseId in Ids(ResultId, results)
  {
    var ids := Ids(ResultId, results);
    assert ids[i] == results[i].caseId;
    forall k | 0 <= k < i ensures ids[k] != caseId {
      assert ids[k] == results[k].caseId;
    }
    FindIs(ids, caseId, i);
  }

  lemma NoFirstResult(results: seq<CaseResult>, caseId: string)
    ensures caseId !in Ids(ResultId, results) <==> Find(Ids(ResultId, results), caseId) == |results|
  {
    var ids := Ids(ResultId, results);
    var i := Find(ids, caseId);
    assert i < |ids| ==> ids[i] in ids;
  }

  /** What detaching and removing leave: everything but the items with that identifier, in order, or a miss
      that leaves everything. */
  lemma LeavesTheOthers(c: Contents, id: string)
    ensures var after := After(c, RemoveResult(id));
            && after.(results := c.results) == c
            && (forall r :: r in after.results <==> r in c.results && r.caseId != id)
            && (Apply(c, RemoveResult(id)).Err? <==> forall r :: r in c.results ==> r.caseId != id)
    ensures var after := After(c, DetachConfiguration(id));
            && after.(configurations := c.configurations) == c
            && (forall k :: k in after.configurations <==> k in c.configurations && k.id != id)
            && (Apply(c, DetachConfiguration(id)).Err? <==> forall k :: k in c.configurations ==> k.id != id)
  {
    IdsAreOfItems(ResultId, c.results, id);
    IdsAreOfItems(ConfigurationId, c.configurations, id);
  }

  /// What one mutation undoes
  /// ------------------------

  lemma {:induction false} DroppingTheAdded<T(!new)>(id: T -> string, items: seq<T>, item: T)
    requires id(item) !in Ids(id, items)
    ensures Without(id, items + [item], id(item)) == items
  {
    if items == [] {
      assert items + [item] == [item];
    } else {
      assert Ids(id, items) == [id(items[0])] + Ids(id, items[1..]);
      DroppingTheAdded(id, items[1..], item);
      assert (items + [item])[1..] == items[1..] + [item];
      assert [items[0]] + items[1..] == items;
    }
  }

  lemma IdsOfAppended<T>(id: T -> string, items: seq<T>, item: T)
    ensures Ids(id, items + [item]) == Ids(id, items) + [id(item)]
  {
  }

  /** Detaching the configuration just linked gives back the contents there were. */
  lemma DetachingUndoesLinking(c: Contents, configuration: Configuration, target: string)
    requires Apply(c, AttachConfiguration(configuration, target)).Ok?
    ensures After(After(c, AttachConfiguration(configuration, target)), DetachConfiguration(target)) == c
  {
    hide Without, Ids;
    var added := Configuration(target, configuration.name, None, None, None, None);
    assert ConfigurationId(added) == target;
    DroppingTheAdded(ConfigurationId, c.configurations, added);
    IdsOfAppended(ConfigurationId, c.configurations, added);
  }

  /** Removing the result just created for a case gives back the contents there were. */
  lemma RemovingUndoesRecording(c: Contents, update: ResultUpdate)
    requires update.caseId !in Ids(ResultId, c.results)
    ensures After(After(c, UpsertResult(update)), RemoveResult(update.caseId)) == c
  {
    assert Find(Ids(ResultId, c.results), update.caseId) == |c.results|;
    hide Without, Ids, Find;
    assert ResultId(NewResult(update)) == update.caseId;
    DroppingTheAdded(ResultId, c.results, NewResult(update));
    IdsOfAppended(ResultId, c.results, NewResult(update));
  }

  lemma FindIs(ids: seq<string>, id: string, i: nat)
    requires i < |ids| && ids[i] == id && forall k :: 0 <= k < i ==> ids[k] != id
    ensures Find(ids, id) == i
  {
    assert Find(ids, id) <= i;
  }

  /** Recording the same result twice is recording it once. */
  lemma RecordingIsIdempotent(c: Contents, update: ResultUpdate)
    ensures After(After(c, UpsertResult(update)), UpsertResult(update)) == After(c, UpsertResult(update))
  {
    var i := Find(Ids(ResultId, c.results), update.caseId);
    var once := After(c, UpsertResult(update));
    if i < |c.results| {
      UpdatingKeepsIds(c.results, i, update);
      assert Updated(Updated(c.results[i], update), update) == Updated(c.results[i], update);
    } else {
      IdsOfAppended(ResultId, c.results, NewResult(update));
      assert ResultId(NewResult(update)) == update.caseId;
      assert Updated(NewResult(update), update) == NewResult(update);
    }
    FindIs(Ids(ResultId, once.results), update.caseId, i);
    assert once.results[i := Updated(once.results[i], update)] == once.results;
  }

  /// Suites and cases as documents of their own
  /// ------------------------------------------

  class SuiteDocument {
    var testCases: seq<Case>

    method AttachCase(testCase: Case, target: string) returns (r: Result<(), Error>)
      modifies this
      ensures Unique(Ids(CaseId, old(testCases))) ==> Unique(Ids(CaseId, testCases))
      ensures if testCase.id in Ids(CaseId, old(testCases)) || target in Ids(CaseId, old(testCases))
              then r == Err(Conflict) && testCases == old(testCases)
              else r == Ok(()) && testCases == old(testCases) + [testCase]
    {
      if testCase.id in Ids(CaseId, testCases) || target in Ids(CaseId, testCases) {
        return Err(Conflict);
      }
      if Unique(Ids(CaseId, testCases)) {
        AddingKeepsUnique(CaseId, testCases, testCase);
      }
      testCases := testCases + [testCase];
      return Ok(());
    }

    method DetachCase(caseId: string) returns (r: Result<(), Error>)
      modifies this
      ensures r == if caseId in Ids(CaseId, old(testCases)) then Ok(()) else Err(NotFound)
      ensures forall k :: k in testCases <==> k in old(testCases) && k.id != caseId
      ensures r.Err? ==> testCases == old(testCases)
    {
      var before := testCases;
      testCases := Without(CaseId, before, caseId);
      if |testCases| == |before| {
        NothingDropped(CaseId, before, caseId);
        return Err(NotFound);
      }
      return Ok(());
    }
  }

  class CaseDocument {
    var defectLinks: Option<seq<DefectLink>>

    method AttachDefect(link: DefectLink) returns (r: Result<(), Error>)
      modifies this
      ensures Unique(Ids(DefectId, ListOf(old(defectLinks)))) ==> Unique(Ids(DefectId, ListOf(defectLinks)))
      ensures if link.defectId in Ids(DefectId, ListOf(old(defectLinks)))
              then r == Err(Conflict) && ListOf(defectLinks) == ListOf(old(defectLinks))
              else r == Ok(()) && ListOf(defectLinks) == ListOf(old(defectLinks)) + [link]
    {
      var links := ListOf(defectLinks);
      defectLinks := Some(links);
      if link.defectId in Ids(DefectId, links) {
        return Err(Conflict);
      }
      if Unique(Ids(DefectId, links)) {
        AddingKeepsUnique(DefectId, links, link);
      }
      defectLinks := Some(links + [link]);
      return Ok(());
    }

    method DetachDefect(linkId: string) returns (r: Result<(), Error>)
      modifies this
      ensures r == if linkId in Ids(LinkId, ListOf(old(defectLinks))) then Ok(()) else Err(NotFound)
      ensures forall k :: k in ListOf(defectLinks) <==> k in ListOf(old(defectLinks)) && k.linkId != linkId
      ensures r.Err? ==> ListOf(defectLinks) == ListOf(old(defectLinks))
    {
      var before := ListOf(defectLinks);
      var kept := Without(LinkId, before, linkId);
      defectLinks := Some(kept);
      if |kept| == |before| {
        NothingDropped(LinkId, before, linkId);
        return Err(NotFound);
      }
      return Ok(());
    }
  }
}
