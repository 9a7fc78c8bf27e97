/**
 Milestone progress (`src/domain/progress.rs`): every case a run holds is counted
 once, in one bucket; and what each mutation of a run does to the counters.
 */
module Progress {
  import opened Wrappers
  import opened RunComposition

  datatype Bucket = Passed | Failed | Blocked | Retest | Untested

  datatype Counters = Counters(total: nat, passed: nat, failed: nat, blocked: nat, untested: nat, retest: nat)

  const ZERO := Counters(0, 0, 0, 0, 0, 0)

  type Population = map<string, Option<string>>

  function BucketOf(status: Option<string>): Bucket {
    if status == Some("Passed") then Passed
    else if status == Some("Failed") then Failed
    else if status == Some("Blocked") then Blocked
    else if status == Some("Retest") then Retest
    else Untested
  }

  /// The population of a run
  /// -----------------------

  function WithCases(p: Population, cases: seq<Case>): Population {
    if cases == [] then p else WithCases(p, cases[..|cases| - 1])[cases[|cases| - 1].id := None]
  }

  function WithSuites(p: Population, suites: seq<Suite>): Population {
    if suites == [] then p else WithCases(WithSuites(p, suites[..|suites| - 1]), suites[|suites| - 1].cases)
  }

  function WithResults(p: Population, results: seq<CaseResult>): Population {
    if results == [] then p
    else WithResults(p, results[..|results| - 1])[results[|results| - 1].caseId := Some(results[|results| - 1].status)]
  }

  /** Declared cases first and results second, so a recorded status wins. */
  function PopulationOf(c: Contents): Population {
    WithResults(WithSuites(WithCases(map[], c.cases), c.suites), c.results)
  }

  lemma {:induction false} CasesAdd(p: Population, cases: seq<Case>, id: string)
    ensures id in WithCases(p, cases) <==> id in p || id in Ids(CaseId, cases)
    ensures id in WithCases(p, cases) ==>
              WithCases(p, cases)[id] == if id in Ids(CaseId, cases) then None else p[id]
  {
    if cases != [] {
      var n := |cases| - 1;
      CasesAdd(p, cases[..n], id);
      LastId(CaseId, cases, id);
    }
  }

  lemma LastId<T(!new)>(key: T -> string, items: seq<T>, id: string)
    requires items != []
    ensures id in Ids(key, items) <==> id in Ids(key, items[..|items| - 1]) || id == key(items[|items| - 1])
  {
    var n := |items| - 1;
    assert Ids(key, items) == Ids(key, items[..n]) + [key(items[n])];
  }

  predicate InSuites(suites: seq<Suite>, id: string) {
    exists i :: 0 <= i < |suites| && id in Ids(CaseId, suites[i].cases)
  }

  lemma LastSuite(suites: seq<Suite>, id: string)
    requires suites != []
    ensures InSuites(suites, id) <==> InSuites(suites[..|suites| - 1], id) || id in Ids(CaseId, suites[|suites| - 1].cases)
  {
    var n := |suites| - 1;
    if InSuites(suites[..n], id) {
      var i :| 0 <= i < n && id in Ids(CaseId, suites[..n][i].cases);
      assert suites[i] == suites[..n][i];
    }
    if InSuites(suites, id) {
      var i :| 0 <= i < |suites| && id in Ids(CaseId, suites[i].cases);
      assert i < n ==> suites[..n][i] == suites[i];
    }
  }

  lemma {:induction false} SuitesAdd(p: Population, suites: seq<Suite>, id: string)
    ensures id in WithSuites(p, suites) <==> id in p || InSuites(suites, id)
    ensures id in WithSuites(p, suites) ==> WithSuites(p, suites)[id] == if InSuites(suites, id) then None else p[id]
  {
    if suites != [] {
      var n := |suites| - 1;
      SuitesAdd(p, suites[..n], id);
      CasesAdd(WithSuites(p, suites[..n]), suites[n].cases, id);
      LastSuite(suites, id);
    }
  }

  /** The last status recorded for the case. */
  function Recorded(results: seq<CaseResult>, id: string): Option<string> {
    if results == [] then None
    else if results[|results| - 1].caseId == id then Some(results[|results| - 1].status)
    else Recorded(results[..|results| - 1], id)
  }

  /** It is that of the last result with the case's identifier. */
  lemma {:induction false} RecordedIsTheLast(results: seq<CaseResult>, id: string)
    ensures Recorded(results, id).None? <==> forall i :: 0 <= i < |results| ==> results[i].caseId != id
    ensures forall i :: 0 <= i < |results| && results[i].caseId == id
                        && (forall j :: i < j < |results| ==> results[j].caseId != id) ==>
              Recorded(results, id) == Some(results[i].status)
  {
    if results != [] {
      RecordedIsTheLast(results[..|results| - 1], id);
    }
  }

  lemma {:induction false} ResultsAdd(p: Population, results: seq<CaseResult>, id: string)
    ensures Recorded(results, id).Some? <==> id in Ids(ResultId, results)
    ensures id in WithResults(p, results) <==> id in p || id in Ids(ResultId, results)
    ensures id in WithResults(p, results) ==>
              WithResults(p, results)[id] == if id in Ids(ResultId, results) then Recorded(results, id) else p[id]
  {
    if results != [] {
      var n := |results| - 1;
      ResultsAdd(p, results[..n], id);
      LastId(ResultId, results, id);
    }
  }

  /** The population is exactly the cases the run holds, each with the last status recorded for it. */
  lemma PopulationIsWhatTheRunHolds(c: Contents, id: string)
    ensures id in PopulationOf(c) <==> HoldsCase(c, id)
    ensures id in PopulationOf(c) ==> PopulationOf(c)[id] == Recorded(c.results, id)
  {
    var declared := WithCases(map[], c.cases);
    CasesAdd(map[], c.cases, id);
    SuitesAdd(declared, c.suites, id);
    ResultsAdd(WithSuites(declared, c.suites), c.results, id);
    assert InSuites(c.suites, id) <==> exists i :: 0 <= i < |c.suites| && id in Ids(CaseId, c.suites[i].cases);
  }

  /// Counting
  /// --------

  /** The cases of the population that fall in the bucket. */
  function Members(p: Population, b: Bucket): set<string> {
    set id | id in p && BucketOf(p[id]) == b
  }

  function Count(p: Population): Counters {
    Counters(|p.Keys|, |Members(p, Passed)|, |Members(p, Failed)|, |Members(p, Blocked)|, |Members(p, Untested)|,
             |Members(p, Retest)|)
  }

  function Plus(a: Counters, b: Counters): Counters {
    Counters(a.total + b.total, a.passed + b.passed, a.failed + b.failed, a.blocked + b.blocked,
             a.untested + b.untested, a.retest + b.retest)
  }

  function Sum(counts: seq<Counters>): Counters {
    if counts == [] then ZERO else Plus(Sum(counts[..|counts| - 1]), counts[|counts| - 1])
  }

  function Counts(runs: seq<Contents>): seq<Counters> {
    seq(|runs|, i requires 0 <= i < |runs| => Count(PopulationOf(runs[i])))
  }

  function Total(runs: seq<Contents>): Counters { Sum(Counts(runs)) }

  method Compute(runs: seq<Contents>) returns (c: Counters)
    ensures c == Total(runs)
    ensures c.total == |HeldByRun(runs)| == c.passed + c.failed + c.blocked + c.retest + c.untested
    ensures c.passed == |Decided(runs, "Passed")| && c.failed == |Decided(runs, "Failed")|
    ensures c.blocked == |Decided(runs, "Blocked")| && c.retest == |Decided(runs, "Retest")|
  {
    hide HeldByRun, Decided, PopulationOf, Count;
    c := ZERO;
    var i := 0;
    while i < |runs|
      invariant i <= |runs| && c == Total(runs[..i])
    {
      var population := Populate(runs[i]);
      assert Counts(runs[..i + 1])[..i] == Counts(runs[..i]);
      c := Tally(c, population);
      i := i + 1;
    }
    assert runs[..i] == runs;
    TotalsAddUp(runs);
    TotalCountsStatuses(runs);
  }

  /** The loops that fill a run's population: cases, suites, results. */
  method Populate(run: Contents) returns (p: Population)
    ensures p == PopulationOf(run)
  {
    p := InsertCases(map[], run.cases);
    var i := 0;
    while i < |run.suites|
      invariant i <= |run.suites| && p == WithSuites(WithCases(map[], run.cases), run.suites[..i])
    {
      assert run.suites[..i + 1][..i] == run.suites[..i];
      p := InsertCases(p, run.suites[i].cases);
      i := i + 1;
    }
    assert run.suites[..i] == run.suites;
    ghost var declared := p;
    i := 0;
    while i < |run.results|
      invariant i <= |run.results| && p == WithResults(declared, run.results[..i])
    {
      assert run.results[..i + 1][..i] == run.results[..i];
      p := p[run.results[i].caseId := Some(run.results[i].status)];
      i := i + 1;
    }
    assert run.results[..i] == run.results;
  }

  method InsertCases(before: Population, cases: seq<Case>) returns (p: Population)
    ensures p == WithCases(before, cases)
  {
    p := before;
    var i := 0;
    while i < |cases|
      invariant i <= |cases| && p == WithCases(before, cases[..i])
    {
      assert cases[..i + 1][..i] == cases[..i];
      p := p[cases[i].id := None];
      i := i + 1;
    }
    assert cases[..i] == cases;
  }

  function Bump(c: Counters, b: Bucket): Counters {
    match b
    case Passed => c.(total := c.total + 1, passed := c.passed + 1)
    case Failed => c.(total := c.total + 1, failed := c.failed + 1)
    case Blocked => c.(total := c.total + 1, blocked := c.blocked + 1)
    case Retest => c.(total := c.total + 1, retest := c.retest + 1)
    case Untested => c.(total := c.total + 1, untested := c.untested + 1)
  }

  /** The counting loop, over the population in any order. */
  method Tally(before: Counters, p: Population) returns (c: Counters)
    ensures c == Plus(before, Count(p))
  {
    c := before;
    var left := p.Keys;
    assert p - left == map[];
    EmptyCounts();
    while left != {}
      invariant left <= p.Keys
      invariant c == Plus(before, Count(p - left))
      decreases |left|
    {
      var id :| id in left;
      TallyStep(before, p, left, id);
      c := Bump(c, BucketOf(p[id]));
      left := left - {id};
    }
    assert p - left == p;
  }

  lemma TallyStep(before: Counters, p: Population, left: set<string>, id: string)
    requires id in left && left <= p.Keys
    ensures Bump(Plus(before, Count(p - left)), BucketOf(p[id])) == Plus(before, Count(p - (left - {id})))
  {
    assert p - (left - {id}) == (p - left)[id := p[id]];
    AddingCounts(p - left, id, p[id]);
    BumpOfPlus(before, Count(p - left), BucketOf(p[id]));
  }

  lemma BumpOfPlus(a: Counters, b: Counters, bucket: Bucket)
    ensures Bump(Plus(a, b), bucket) == Plus(a, Bump(b, bucket))
  {
  }

  lemma EmptyCounts()
    ensures Count(map[]) == ZERO
  {
    forall b ensures Members(map[], b) == {} {
    }
  }

  lemma OneMoreMember(p: Population, id: string, status: Option<string>, b: Bucket)
    requires id !in p
    ensures |Members(p[id := status], b)| == |Members(p, b)| + (if b == BucketOf(status) then 1 else 0)
  {
    var after := Members(p[id := status], b);
    if b == BucketOf(status) {
      assert after == Members(p, b) + {id};
    } else {
      assert after == Members(p, b);
    }
  }

  /** A case joining the population adds one to the total and one to its bucket. */
  lemma AddingCounts(p: Population, id: string, status: Option<string>)
    requires id !in p
    ensures Count(p[id := status]) == Bump(Count(p), BucketOf(status))
  {
    assert p[id := status].Keys == p.Keys + {id};
    OneMoreMember(p, id, status, Passed);
    OneMoreMember(p, id, status, Failed);
    OneMoreMember(p, id, status, Blocked);
    OneMoreMember(p, id, status, Retest);
    OneMoreMember(p, id, status, Untested);
  }

  lemma RemovingCounts(p: Population, id: string)
    requires id in p
    ensures Count(p) == Bump(Count(p - {id}), BucketOf(p[id]))
  {
    assert p == (p - {id})[id := p[id]];
    AddingCounts(p - {id}, id, p[id]);
  }

  function BucketSum(c: Counters): nat { c.passed + c.failed + c.blocked + c.untested + c.retest }

  lemma {:induction false} BucketsPartition(p: Population)
    ensures BucketSum(Count(p)) == Count(p).total
    decreases |p|
  {
    hide Count;
    if p == map[] {
      EmptyCounts();
    } else {
      var id :| id in p;
      RemovingCounts(p, id);
      BucketsPartition(p - {id});
    }
  }

  lemma {:induction false} SumsAddUp(counts: seq<Counters>)
    requires forall i :: 0 <= i < |counts| ==> BucketSum(counts[i]) == counts[i].total
    ensures BucketSum(Sum(counts)) == Sum(counts).total
  {
    if counts != [] {
      SumsAddUp(counts[..|counts| - 1]);
    }
  }

  /** For any runs, overlapping suites and repeated entries included, the five buckets add up to the
      total, so the pass ratio lies between 0 and 100. */
  lemma TotalsAddUp(runs: seq<Contents>)
    ensures BucketSum(Total(runs)) == Total(runs).total
    ensures 0 <= 100 * Total(runs).passed <= 100 * Total(runs).total
  {
    var counts := Counts(runs);
    forall i | 0 <= i < |counts| ensures BucketSum(counts[i]) == counts[i].total {
      BucketsPartition(PopulationOf(runs[i]));
    }
    SumsAddUp(counts);
  }

  /// What the counters count
  /// -----------------------

  /** The cases a run holds. */
  function Held(c: Contents): set<string> {
    (set id | id in Ids(CaseId, c.cases))
    + (set i, id | 0 <= i < |c.suites| && id in Ids(CaseId, c.suites[i].cases) :: id)
    + (set id | id in Ids(ResultId, c.results))
  }

  lemma HeldIsHeld(c: Contents, id: string)
    ensures id in Held(c) <==> HoldsCase(c, id)
  {
  }

  function DecidedIn(c: Contents, status: string): set<string> {
    set id | id in Held(c) && Recorded(c.results, id) == Some(status)
  }

  /** The held cases, run by run. */
  function HeldByRun(runs: seq<Contents>): set<(nat, string)> {
    set i, id | 0 <= i < |runs| && id in Held(runs[i]) :: (i, id)
  }

  /** The held cases, run by run, whose last recorded status is this one. */
  function Decided(runs: seq<Contents>, status: string): set<(nat, string)> {
    set i, id | 0 <= i < |runs| && id in DecidedIn(runs[i], status) :: (i, id)
  }

  /** The members of each set, numbered. */
  function Numbered(sets: seq<set<string>>): set<(nat, string)> {
    set i, id | 0 <= i < |sets| && id in sets[i] :: (i, id)
  }

  /** Numbering the members of a set does not change how many there are. */
  lemma {:induction false} AsManyNumbered(s: set<string>, n: nat)
    ensures |set id | id in s :: (n, id)| == |s|
  {
    if s != {} {
      var x :| x in s;
      AsManyNumbered(s - {x}, n);
      assert (set id | id in s :: (n, id)) == (set id | id in s - {x} :: (n, id)) + {(n, x)};
    }
  }

  lemma OneMoreSet(sets: seq<set<string>>)
    requires sets != []
    ensures |Numbered(sets)| == |Numbered(sets[..|sets| - 1])| + |sets[|sets| - 1]|
  {
    var n := |sets| - 1;
    var last := set id | id in sets[n] :: (n, id);
    AsManyNumbered(sets[n], n);
    assert Numbered(sets) == Numbered(sets[..n]) + last;
  }

  lemma OneMoreRun(runs: seq<Contents>, status: string)
    requires runs != []
    ensures var n := |runs| - 1;
            && |Decided(runs, status)| == |Decided(runs[..n], status)| + |DecidedIn(runs[n], status)|
            && |HeldByRun(runs)| == |HeldByRun(runs[..n])| + |Held(runs[n])|
  {
    hide Held, DecidedIn;
    var n := |runs| - 1;
    var decided := seq(|runs|, i requires 0 <= i < |runs| => DecidedIn(runs[i], status));
    var held := seq(|runs|, i requires 0 <= i < |runs| => Held(runs[i]));
    OneMoreSet(decided);
    OneMoreSet(held);
    assert Decided(runs, status) == Numbered(decided) && Decided(runs[..n], status) == Numbered(decided[..n]);
    assert HeldByRun(runs) == Numbered(held) && HeldByRun(runs[..n]) == Numbered(held[..n]);
  }

  lemma CountsOfOneRun(c: Contents)
    ensures var n := Count(PopulationOf(c));
            && n.total == |Held(c)|
            && n.passed == |DecidedIn(c, "Passed")| && n.failed == |DecidedIn(c, "Failed")|
            && n.blocked == |DecidedIn(c, "Blocked")| && n.retest == |DecidedIn(c, "Retest")|
  {
    hide Held, PopulationOf, Recorded;
    var p := PopulationOf(c);
    forall id ensures id in p <==> id in Held(c)
              ensures id in p ==> p[id] == Recorded(c.results, id)
    {
      PopulationIsWhatTheRunHolds(c, id);
      HeldIsHeld(c, id);
    }
    assert p.Keys == Held(c);
    assert Members(p, Passed) == DecidedIn(c, "Passed");
    assert Members(p, Failed) == DecidedIn(c, "Failed");
    assert Members(p, Blocked) == DecidedIn(c, "Blocked");
    assert Members(p, Retest) == DecidedIn(c, "Retest");
  }

  ghost predicate CountsStatuses(t: Counters, runs: seq<Contents>) {
    && t.total == |HeldByRun(runs)|
    && t.passed == |Decided(runs, "Passed")| && t.failed == |Decided(runs, "Failed")|
    && t.blocked == |Decided(runs, "Blocked")| && t.retest == |Decided(runs, "Retest")|
  }

  lemma AddingARunCounts(t: Counters, runs: seq<Contents>)
    requires runs != [] && CountsStatuses(t, runs[..|runs| - 1])
    ensures CountsStatuses(Plus(t, Count(PopulationOf(runs[|runs| - 1]))), runs)
  {
    hide Count, PopulationOf, Decided, HeldByRun, DecidedIn, Held;
    CountsOfOneRun(runs[|runs| - 1]);
    OneMoreRun(runs, "Passed");
    OneMoreRun(runs, "Failed");
    OneMoreRun(runs, "Blocked");
    OneMoreRun(runs, "Retest");
  }

  /** Run by run the counters count the held cases by the last status recorded for them; whatever is
      recorded as none of the four named ones, or not recorded at all, is untested. */
  lemma {:induction false} TotalCountsStatuses(runs: seq<Contents>)
    ensures CountsStatuses(Total(runs), runs)
    ensures var t := Total(runs); t.untested == t.total - t.passed - t.failed - t.blocked - t.retest
  {
    hide Count, PopulationOf, CountsStatuses;
    TotalsAddUp(runs);
    if runs == [] {
      NoRuns();
    } else {
      var n := |runs| - 1;
      TotalCountsStatuses(runs[..n]);
      AddingARunCounts(Total(runs[..n]), runs);
      assert Counts(runs)[..n] == Counts(runs[..n]);
    }
  }

  lemma NoRuns()
    ensures CountsStatuses(ZERO, [])
  {
    assert HeldByRun([]) == {};
  }

  /// What recording and removing do to the counters
  /// ----------------------------------------------

  lemma {:induction false} RecordedAtMostOnce(results: seq<CaseResult>, i: nat)
    requires Unique(Ids(ResultId, results)) && i < |results|
    ensures Recorded(results, results[i].caseId) == Some(results[i].status)
  {
    var n := |results| - 1;
    if i < n {
      assert Ids(ResultId, results)[i] != Ids(ResultId, results)[n];
      assert ResultId(results[i]) != ResultId(results[n]);
      assert Ids(ResultId, results[..n]) == Ids(ResultId, results)[..n];
      RecordedAtMostOnce(results[..n], i);
    }
  }

  lemma {:induction false} UpdateRecords(results: seq<CaseResult>, i: nat, r: CaseResult, id: string)
    requires Unique(Ids(ResultId, results)) && i < |results| && r.caseId == results[i].caseId
    ensures Recorded(results[i := r], id) == if id == r.caseId then Some(r.status) else Recorded(results, id)
  {
    var n := |results| - 1;
    var after := results[i := r];
    if i < n {
      assert Ids(ResultId, results)[i] != Ids(ResultId, results)[n];
      assert ResultId(results[i]) != ResultId(results[n]);
      assert Ids(ResultId, results[..n]) == Ids(ResultId, results)[..n];
      assert after[..n] == results[..n][i := r];
      UpdateRecords(results[..n], i, r, id);
    } else {
      assert after[..n] == results[..n];
    }
  }

  /** On a run without repeats, recording a result sets the case's status and leaves every other case
      as it was. */
  lemma RecordingSetsOneStatus(c: Contents, u: ResultUpdate)
    requires NoRepeats(c)
    ensures PopulationOf(After(c, UpsertResult(u))) == PopulationOf(c)[u.caseId := Some(u.status)]
  {
    var c' := After(c, UpsertResult(u));
    var i := Find(Ids(ResultId, c.results), u.caseId);
    forall id
      ensures id in PopulationOf(c') <==> id in PopulationOf(c) || id == u.caseId
      ensures id in PopulationOf(c') ==>
                PopulationOf(c')[id] == if id == u.caseId then Some(u.status) else PopulationOf(c)[id]
    {
      PopulationIsWhatTheRunHolds(c, id);
      PopulationIsWhatTheRunHolds(c', id);
      if i < |c.results| {
        UpdatingKeepsIds(c.results, i, u);
        assert ResultId(c.results[i]) == u.caseId;
        UpdateRecords(c.results, i, Updated(c.results[i], u), id);
      } else {
        LastId(ResultId, c'.results, id);
        assert c'.results[..|c.results|] == c.results;
      }
    }
  }

  lemma {:induction false} RemovalForgets(results: seq<CaseResult>, caseId: string, id: string)
    ensures Recorded(Without(ResultId, results, caseId), id) == if id == caseId then None else Recorded(results, id)
    ensures id in Ids(ResultId, Without(ResultId, results, caseId)) <==> id in Ids(ResultId, results) && id != caseId
  {
    var kept := Without(ResultId, results, caseId);
    ResultsAdd(map[], results, id);
    ResultsAdd(map[], kept, id);
    WithoutKeepsRecorded(results, caseId, id);
  }

  lemma {:induction false} RecordedFromFront(results: seq<CaseResult>, id: string)
    requires results != []
    ensures Recorded(results, id)
         == if Recorded(results[1..], id).Some? then Recorded(results[1..], id)
            else if results[0].caseId == id then Some(results[0].status)
            else None
  {
    var n := |results| - 1;
    if n > 0 {
      RecordedFromFront(results[..n], id);
      assert results[1..][..n - 1] == results[..n][1..];
    }
  }

  lemma {:induction false} WithoutKeepsRecorded(results: seq<CaseResult>, caseId: string, id: string)
    ensures Recorded(Without(ResultId, results, caseId), id) == if id == caseId then None else Recorded(results, id)
  {
    if results != [] {
      var rest := Without(ResultId, results[1..], caseId);
      WithoutKeepsRecorded(results[1..], caseId, id);
      RecordedFromFront(results, id);
      if results[0].caseId == caseId {
        assert Without(ResultId, results, caseId) == rest;
      } else {
        assert Without(ResultId, results, caseId) == [results[0]] + rest;
        RecordedFromFront([results[0]] + rest, id);
        assert ([results[0]] + rest)[1..] == rest;
      }
    }
  }

  lemma RemovingForgets(c: Contents, caseId: string, id: string)
    requires caseId in Ids(ResultId, c.results)
    ensures var p, q := PopulationOf(c), PopulationOf(After(c, RemoveResult(caseId)));
            && caseId in p
            && (id in q <==> id in p && (id == caseId ==> Declares(c, id)))
            && (id in q ==> q[id] == if id == caseId then None else p[id])
  {
    hide PopulationOf, Without, Recorded;
    PopulationIsWhatTheRunHolds(c, id);
    PopulationIsWhatTheRunHolds(c, caseId);
    PopulationIsWhatTheRunHolds(After(c, RemoveResult(caseId)), id);
    RemovalForgets(c.results, caseId, id);
  }

  /** Removing a recorded result leaves a declared case undecided and takes any other out of the run. */
  lemma RemovingForgetsOneStatus(c: Contents, caseId: string)
    requires caseId in Ids(ResultId, c.results)
    ensures PopulationOf(After(c, RemoveResult(caseId)))
         == if Declares(c, caseId) then PopulationOf(c)[caseId := None] else PopulationOf(c) - {caseId}
  {
    hide PopulationOf, After, Declares, Ids;
    var p, q := PopulationOf(c), PopulationOf(After(c, RemoveResult(caseId)));
    forall id
      ensures caseId in p
      ensures id in q <==> id in p && (id == caseId ==> Declares(c, id))
      ensures id in q ==> q[id] == if id == caseId then None else p[id]
    {
      RemovingForgets(c, caseId, id);
    }
  }

  function Status(c: Contents, caseId: string): Option<string>
    requires HoldsCase(c, caseId)
  {
    PopulationIsWhatTheRunHolds(c, caseId);
    PopulationOf(c)[caseId]
  }

  /** Recording moves exactly one case: a held one from its old bucket to its new one, with the total
      kept; an unheld one into its bucket, with the total one more. */
  lemma RecordingMovesOneCase(c: Contents, u: ResultUpdate)
    requires NoRepeats(c)
    ensures var rest := Count(PopulationOf(c) - {u.caseId});
            && Count(PopulationOf(After(c, UpsertResult(u)))) == Bump(rest, BucketOf(Some(u.status)))
            && Count(PopulationOf(c))
               == if HoldsCase(c, u.caseId) then Bump(rest, BucketOf(Status(c, u.caseId))) else rest
  {
    var p := PopulationOf(c);
    var rest := p - {u.caseId};
    RecordingSetsOneStatus(c, u);
    PopulationIsWhatTheRunHolds(c, u.caseId);
    assert p[u.caseId := Some(u.status)] == rest[u.caseId := Some(u.status)];
    AddingCounts(rest, u.caseId, Some(u.status));
    if u.caseId in p {
      RemovingCounts(p, u.caseId);
    } else {
      assert rest == p;
    }
  }

  /** Replacing moves exactly one recorded case from its old bucket to its new one, with the total kept,
      and moves nothing when no result is recorded. */
  lemma ReplacingMovesOneCase(c: Contents, u: ResultUpdate)
    requires NoRepeats(c)
    ensures var rest := Count(PopulationOf(c) - {u.caseId});
            var after := Count(PopulationOf(After(c, ReplaceResult(u))));
            if u.caseId in Ids(ResultId, c.results) then
              && HoldsCase(c, u.caseId)
              && Count(PopulationOf(c)) == Bump(rest, BucketOf(Status(c, u.caseId)))
              && after == Bump(rest, BucketOf(Some(u.status)))
            else after == Count(PopulationOf(c))
  {
    ReplacingIsRecording(c, u);
    RecordingMovesOneCase(c, u);
    PopulationIsWhatTheRunHolds(c, u.caseId);
  }

  /** Replacing a result does what recording does, and is refused when there is none. */
  lemma ReplacingIsRecording(c: Contents, u: ResultUpdate)
    ensures u.caseId in Ids(ResultId, c.results) ==> After(c, ReplaceResult(u)) == After(c, UpsertResult(u))
    ensures u.caseId !in Ids(ResultId, c.results) ==> Apply(c, ReplaceResult(u)) == Err(NotFound)
  {
    var ids := Ids(ResultId, c.results);
    if u.caseId in ids {
      var k :| 0 <= k < |ids| && ids[k] == u.caseId;
    }
  }

  /** Removing a result takes its case out of its bucket: into the undecided ones when the run still
      declares it, and out of the total otherwise. */
  lemma RemovingMovesOneCase(c: Contents, caseId: string)
    requires caseId in Ids(ResultId, c.results)
    ensures var rest := Count(PopulationOf(c) - {caseId});
            && Count(PopulationOf(c)) == Bump(rest, BucketOf(Status(c, caseId)))
            && Count(PopulationOf(After(c, RemoveResult(caseId))))
               == if Declares(c, caseId) then Bump(rest, Untested) else rest
  {
    hide Count, PopulationOf, Apply;
    var p := PopulationOf(c);
    var rest := p - {caseId};
    RemovingForgetsOneStatus(c, caseId);
    PopulationIsWhatTheRunHolds(c, caseId);
    RemovingCounts(p, caseId);
    if Declares(c, caseId) {
      assert p[caseId := None] == rest[caseId := None];
      AddingCounts(rest, caseId, None);
    }
  }

  lemma {:induction false} OneTermChanges(counts: seq<Counters>, i: nat, c: Counters)
    requires i < |counts|
    ensures Plus(Sum(counts[i := c]), counts[i]) == Plus(Sum(counts), c)
  {
    var n := |counts| - 1;
    if i == n {
      assert counts[i := c][..n] == counts[..n];
    } else {
      assert counts[i := c][..n] == counts[..n][i := c];
      OneTermChanges(counts[..n], i, c);
    }
  }

  /** A milestone's counters change by what its one changed run's counters change by. */
  lemma OneRunChanges(runs: seq<Contents>, i: nat, c: Contents)
    requires i < |runs|
    ensures Plus(Total(runs[i := c]), Count(PopulationOf(runs[i]))) == Plus(Total(runs), Count(PopulationOf(c)))
  {
    assert Counts(runs[i := c]) == Counts(runs)[i := Count(PopulationOf(c))];
    OneTermChanges(Counts(runs), i, Count(PopulationOf(c)));
  }
}
