/**
 The latest result of every case (`src/domain/reports.rs`).

 A string is a sequence of code points; comparing code points and comparing the
 bytes of the encoding order strings alike.
 */
module LastResults {
  import opened Wrappers
  import opened Decimal
  import opened Sorting
  import Text

  datatype Observed = Observed(runId: string, caseId: string, status: string, timestamp: string)

  datatype LastCase = LastCase(caseId: string, status: string, runId: string, timestamp: string)

  /// How recent a result is
  /// ----------------------

  const I64_MIN := -0x8000_0000_0000_0000
  const I64_MAX := 0x7FFF_FFFF_FFFF_FFFF

  /** A number as `i64::from_str` reads it: an optional sign, digits, and no overflow. */
  function ParseI64(s: string): Option<int> {
    var signed := s != [] && (s[0] == '+' || s[0] == '-');
    var digits := if signed then s[1..] else s;
    if digits == [] || !AllDigits(digits) then None
    else
      var n: int := if signed && s[0] == '-' then 0 - Value(digits) else Value(digits);
      if I64_MIN <= n <= I64_MAX then Some(n) else None
  }

  /** Digits with an optional sign are the number they spell, as far as it fits; nothing else is a number. */
  lemma NumbersAreSpelled(s: string, digits: string, n: int)
    requires digits != [] && AllDigits(digits)
    ensures s == digits || s == "+" + digits ==>
              ParseI64(s) == if Value(digits) <= 0x7FFF_FFFF_FFFF_FFFF then Some(Value(digits)) else None
    ensures s == "-" + digits ==>
              if Value(digits) <= 0x8000_0000_0000_0000 then ParseI64(s).Some? && ParseI64(s).value == 0 - Value(digits) as int
              else ParseI64(s).None?
    ensures ParseI64(s) == Some(n) ==>
              exists d: string :: d != [] && AllDigits(d) && (s == d || s == "+" + d || s == "-" + d)
  {
    hide Value;
    if s == "+" + digits || s == "-" + digits {
      assert s[1..] == digits;
    }
    if s == digits {
      assert IsDigit(s[0]);
    }
    if ParseI64(s) == Some(n) {
      var signed := s[0] == '+' || s[0] == '-';
      var d := if signed then s[1..] else s;
      assert s == [s[0]] + s[1..];
      assert d != [] && AllDigits(d) && (s == d || s == "+" + d || s == "-" + d);
    }
  }

  datatype Recency = Recency(parsed: bool, seconds: int, text: string)

  function ResultRecency(timestamp: string): Recency {
    match ParseI64(Text.Trim(timestamp))
    case Some(seconds) => Recency(true, seconds, "")
    case None => Recency(false, 0, timestamp)
  }

  datatype Key = Key(recency: Recency, runId: string)

  function KeyOf(o: Observed): Key { Key(ResultRecency(o.timestamp), o.runId) }

  predicate EarlierRecency(a: Recency, b: Recency) {
    if a.parsed != b.parsed then b.parsed
    else if a.seconds != b.seconds then a.seconds < b.seconds
    else Less(a.text, b.text)
  }

  predicate EarlierKey(a: Key, b: Key) {
    if a.recency != b.recency then EarlierRecency(a.recency, b.recency) else Less(a.runId, b.runId)
  }

  lemma RecencyIsStrictOrder()
    ensures StrictOrder(EarlierRecency)
  {
    LessIsStrictOrder();
    forall a, b, c | EarlierRecency(a, b) && EarlierRecency(b, c) ensures EarlierRecency(a, c) {
      if Less(a.text, b.text) && Less(b.text, c.text) {
        LessIsTransitive(a.text, b.text, c.text);
      }
    }
  }

  /** Recency, then the run key, orders the observations totally. */
  lemma KeysAreStrictlyOrdered()
    ensures StrictOrder(EarlierKey)
  {
    LessIsStrictOrder();
    RecencyIsStrictOrder();
    forall a, b, c | EarlierKey(a, b) && EarlierKey(b, c) ensures EarlierKey(a, c) {
      if a.recency == b.recency == c.recency {
        LessIsTransitive(a.runId, b.runId, c.runId);
      } else if EarlierRecency(a.recency, b.recency) && EarlierRecency(b.recency, c.recency) {
        assert EarlierRecency(a.recency, c.recency);
      }
    }
  }

  predicate Older(a: Observed, b: Observed) { EarlierKey(KeyOf(a), KeyOf(b)) }

  /** A ranking: what ties with one observation ties with whatever that one ties with. */
  ghost predicate Ranking(older: (Observed, Observed) -> bool) {
    && (forall a :: !older(a, a))
    && (forall a, b, c :: older(a, b) && older(b, c) ==> older(a, c))
    && (forall a, b, c :: older(a, b) ==> older(a, c) || older(c, b))
  }

  lemma OlderRanks()
    ensures Ranking(Older)
    ensures forall a, b :: !Older(a, b) && !Older(b, a) <==> KeyOf(a) == KeyOf(b)
  {
    KeysAreStrictlyOrdered();
    forall a, b, c | Older(a, b) && Older(b, c) ensures Older(a, c) {
      assert EarlierKey(KeyOf(a), KeyOf(b)) && EarlierKey(KeyOf(b), KeyOf(c));
    }
    forall a, b, c | Older(a, b) && !Older(a, c) ensures Older(c, b) {
      assert KeyOf(c) == KeyOf(a) || EarlierKey(KeyOf(c), KeyOf(a));
    }
  }

  /// The winner of each case
  /// -----------------------

  /** The observation left standing for the case: a later one replaces it only when strictly more recent. */
  function Best(older: (Observed, Observed) -> bool, observed: seq<Observed>, caseId: string): Option<Observed> {
    if observed == [] then None
    else
      var last := observed[|observed| - 1];
      var best := Best(older, observed[..|observed| - 1], caseId);
      if last.caseId == caseId && (best.None? || older(best.value, last)) then Some(last) else best
  }

  /** The observation at `i` is as recent as any of its case. */
  predicate Latest(older: (Observed, Observed) -> bool, observed: seq<Observed>, i: nat) {
    i < |observed| &&
    forall j :: 0 <= j < |observed| && observed[j].caseId == observed[i].caseId ==> !older(observed[i], observed[j])
  }

  predicate FirstLatest(older: (Observed, Observed) -> bool, observed: seq<Observed>, caseId: string, i: nat) {
    && Latest(older, observed, i) && observed[i].caseId == caseId
    && forall j :: 0 <= j < i && observed[j].caseId == caseId ==> older(observed[j], observed[i])
  }

  /** The winner is the first of the most recent observations of its case. */
  lemma {:induction false} BestIsFirstLatest(older: (Observed, Observed) -> bool, observed: seq<Observed>, caseId: string)
    requires Ranking(older)
    ensures Best(older, observed, caseId).None? <==> forall j :: 0 <= j < |observed| ==> observed[j].caseId != caseId
    ensures Best(older, observed, caseId).Some? ==>
              exists i: nat :: FirstLatest(older, observed, caseId, i) && observed[i] == Best(older, observed, caseId).value
  {
    if observed != [] {
      var n := |observed| - 1;
      var before := observed[..n];
      BestIsFirstLatest(older, before, caseId);
      if Best(older, before, caseId).Some? {
        var i: nat :| FirstLatest(older, before, caseId, i) && before[i] == Best(older, before, caseId).value;
        assert observed[i] == before[i];
        if observed[n].caseId == caseId && older(before[i], observed[n]) {
          LaterReplaces(older, observed, caseId, i);
        } else {
          EarlierStays(older, observed, caseId, i);
        }
      } else if observed[n].caseId == caseId {
        OnlyOne(older, observed, caseId);
      }
    }
  }

  lemma EarlierStays(older: (Observed, Observed) -> bool, observed: seq<Observed>, caseId: string, i: nat)
    requires observed != [] && FirstLatest(older, observed[..|observed| - 1], caseId, i)
    requires observed[|observed| - 1].caseId == caseId ==> !older(observed[i], observed[|observed| - 1])
    ensures FirstLatest(older, observed, caseId, i)
  {
    var before := observed[..|observed| - 1];
    assert forall j :: 0 <= j < |before| ==> before[j] == observed[j];
  }

  lemma OnlyOne(older: (Observed, Observed) -> bool, observed: seq<Observed>, caseId: string)
    requires Ranking(older) && observed != [] && observed[|observed| - 1].caseId == caseId
    requires forall j :: 0 <= j < |observed| - 1 ==> observed[j].caseId != caseId
    ensures FirstLatest(older, observed, caseId, |observed| - 1)
  {
  }

  lemma LaterReplaces(older: (Observed, Observed) -> bool, observed: seq<Observed>, caseId: string, i: nat)
    requires Ranking(older) && observed != [] && FirstLatest(older, observed[..|observed| - 1], caseId, i)
    requires observed[|observed| - 1].caseId == caseId
    requires older(observed[i], observed[|observed| - 1])
    ensures FirstLatest(older, observed, caseId, |observed| - 1)
  {
    var n := |observed| - 1;
    forall j | 0 <= j < n && observed[j].caseId == caseId ensures older(observed[j], observed[n]) {
      assert !older(observed[i], observed[..n][j]);
    }
  }

  lemma OneFirstLatest(older: (Observed, Observed) -> bool, observed: seq<Observed>, caseId: string, i: nat, j: nat)
    requires Ranking(older) && FirstLatest(older, observed, caseId, i) && FirstLatest(older, observed, caseId, j)
    ensures i == j
  {
  }

  /// The report
  /// ----------

  function RowOf(o: Observed): LastCase { LastCase(o.caseId, o.status, o.runId, o.timestamp) }

  function CaseIds(observed: seq<Observed>): seq<string> {
    seq(|observed|, i requires 0 <= i < |observed| => observed[i].caseId)
  }

  function Report(observed: seq<Observed>): seq<LastCase> {
    Rows(observed, Listing(Less, CaseIds(observed)))
  }

  function Rows(observed: seq<Observed>, ids: seq<string>): seq<LastCase> {
    seq(|ids|, i requires 0 <= i < |ids| => RowFor(observed, ids[i]))
  }

  function RowFor(observed: seq<Observed>, caseId: string): LastCase {
    match Best(Older, observed, caseId)
    case Some(o) => RowOf(o)
    case None => LastCase(caseId, "", "", "")
  }

  ghost predicate ReportsCase(observed: seq<Observed>, caseId: string) {
    exists i :: 0 <= i < |observed| && observed[i].caseId == caseId
  }

  lemma ReportListsCases(observed: seq<Observed>)
    ensures forall i, j :: 0 <= i < j < |Report(observed)| ==> Less(Report(observed)[i].caseId, Report(observed)[j].caseId)
    ensures forall id :: ReportsCase(observed, id) <==> id in Listing(Less, CaseIds(observed))
    ensures forall i :: 0 <= i < |Report(observed)| ==>
              ReportsCase(observed, Report(observed)[i].caseId)
              && Report(observed)[i].caseId == Listing(Less, CaseIds(observed))[i]
  {
    var ids := CaseIds(observed);
    OlderRanks();
    LessIsStrictOrder();
    ListingIsSorted(Less, ids);
    var listed := Listing(Less, ids);
    forall id ensures ReportsCase(observed, id) <==> id in listed {
      if ReportsCase(observed, id) {
        var i :| 0 <= i < |observed| && observed[i].caseId == id;
        assert ids[i] == id;
      }
    }
    forall i | 0 <= i < |listed| ensures RowFor(observed, listed[i]).caseId == listed[i] && ReportsCase(observed, listed[i]) {
      assert listed[i] in listed;
      BestIsFirstLatest(Older, observed, listed[i]);
    }
  }

  /** One row for each observed case and no other, in order, each row the first of the most recent
      observations of its case. */
  lemma ReportIsLatestPerCase(observed: seq<Observed>, row: LastCase)
    ensures row in Report(observed)
       <==> exists i: nat :: FirstLatest(Older, observed, row.caseId, i) && row == RowOf(observed[i])
  {
    OlderRanks();
    ReportHasRowFor(observed, row);
    BestIsFirstLatest(Older, observed, row.caseId);
    forall i: nat | FirstLatest(Older, observed, row.caseId, i)
      ensures Best(Older, observed, row.caseId) == Some(observed[i])
    {
      var j: nat :| FirstLatest(Older, observed, row.caseId, j) && observed[j] == Best(Older, observed, row.caseId).value;
      OneFirstLatest(Older, observed, row.caseId, i, j);
    }
  }

  /** The number a timestamp reads as. */
  function Number(timestamp: string): Option<int> { ParseI64(Text.Trim(timestamp)) }

  /** No observation of a case is later than the one its row reports, and the row is that of some
      observation. A timestamp that reads as a number is later than any that does not; numbers compare by
      value and other timestamps as texts; of two equally late ones the greater run key wins. */
  lemma NothingIsLater(observed: seq<Observed>, row: LastCase, o: Observed)
    requires row in Report(observed) && o in observed && o.caseId == row.caseId
    ensures Number(o.timestamp).Some? ==> Number(row.timestamp).Some?
    ensures Number(o.timestamp).Some? ==> Number(o.timestamp).value <= Number(row.timestamp).value
    ensures Number(row.timestamp).None? ==> o.timestamp == row.timestamp || Less(o.timestamp, row.timestamp)
    ensures Number(o.timestamp).Some? && Number(o.timestamp) == Number(row.timestamp) ==> !Less(row.runId, o.runId)
    ensures Number(row.timestamp).None? && o.timestamp == row.timestamp ==> !Less(row.runId, o.runId)
    ensures exists r :: r in observed && r.caseId == row.caseId && r.status == row.status && r.runId == row.runId
                        && r.timestamp == row.timestamp
  {
    hide Report, Less, ParseI64;
    ReportIsLatestPerCase(observed, row);
    var i: nat :| FirstLatest(Older, observed, row.caseId, i) && row == RowOf(observed[i]);
    var j :| 0 <= j < |observed| && observed[j] == o;
    assert !Older(observed[i], observed[j]);
    assert observed[i] in observed;
    if o.timestamp != row.timestamp {
      LessIsTotal(o.timestamp, row.timestamp);
    }
  }

  lemma ReportHasRowFor(observed: seq<Observed>, row: LastCase)
    ensures row in Report(observed) <==> ReportsCase(observed, row.caseId) && row == RowFor(observed, row.caseId)
  {
    ReportListsCases(observed);
    var listed := Listing(Less, CaseIds(observed));
    if ReportsCase(observed, row.caseId) && row == RowFor(observed, row.caseId) {
      var k :| 0 <= k < |listed| && listed[k] == row.caseId;
      assert Report(observed)[k] == row;
    }
    if row in Report(observed) {
      var k :| 0 <= k < |Report(observed)| && Report(observed)[k] == row;
      assert listed[k] == row.caseId;
    }
  }

  method LastResults(observed: seq<Observed>) returns (cases: seq<LastCase>)
    ensures cases == Report(observed)
  {
    hide Rows, RowFor, AreWinners, Less, CaseIds;
    var winners := Winners(observed);
    var order := SortedKeys(winners);
    WinnersAreListed(observed, winners, order);
    cases := [];
    var i := 0;
    RowsGrow(observed, order);
    while i < |order|
      invariant i <= |order| && cases == Rows(observed, order[..i])
    {
      assert order[i] in order;
      WinnerIsReported(observed, winners, order[i]);
      cases := cases + [RowOf(winners[order[i]])];
      i := i + 1;
    }
    assert order[..i] == order;
  }

  lemma RowsGrow(observed: seq<Observed>, order: seq<string>)
    ensures Rows(observed, order[..0]) == []
    ensures forall i :: 0 <= i < |order| ==>
              Rows(observed, order[..i + 1]) == Rows(observed, order[..i]) + [RowFor(observed, order[i])]
  {
  }

  lemma WinnerIsReported(observed: seq<Observed>, winners: map<string, Observed>, id: string)
    requires AreWinners(observed, winners) && id in winners
    ensures RowFor(observed, id) == RowOf(winners[id])
  {
  }

  ghost predicate AreWinners(observed: seq<Observed>, winners: map<string, Observed>) {
    forall id :: (if id in winners then Some(winners[id]) else None) == Best(Older, observed, id)
  }

  lemma WinnersAreListed(observed: seq<Observed>, winners: map<string, Observed>, order: seq<string>)
    requires AreWinners(observed, winners)
    requires SortedBy(Less, order) && forall id :: id in order <==> id in winners
    ensures order == Listing(Less, CaseIds(observed))
  {
    var listed := Listing(Less, CaseIds(observed));
    LessIsStrictOrder();
    ListingIsSorted(Less, CaseIds(observed));
    ReportListsCases(observed);
    OlderRanks();
    forall id ensures id in order <==> id in listed {
      BestIsFirstLatest(Older, observed, id);
    }
    SortedIsUnique(Less, order, listed);
  }

  /** The loop over the observations, keeping the winner of each case seen so far. */
  method Winners(observed: seq<Observed>) returns (winners: map<string, Observed>)
    ensures AreWinners(observed, winners)
  {
    winners := map[];
    var i := 0;
    while i < |observed|
      invariant i <= |observed| && AreWinners(observed[..i], winners)
    {
      var entry := observed[i];
      assert observed[..i + 1][..i] == observed[..i];
      if entry.caseId !in winners || Older(winners[entry.caseId], entry) {
        winners := winners[entry.caseId := entry];
      }
      i := i + 1;
    }
    assert observed[..i] == observed;
  }

  /** A hash map yields its keys in no particular order. */
  method SortedKeys(winners: map<string, Observed>) returns (ids: seq<string>)
    ensures SortedBy(Less, ids) && forall id :: id in ids <==> id in winners
  {
    ids := [];
    var left := winners.Keys;
    while left != {}
      invariant left <= winners.Keys
      invariant forall id :: id in ids <==> id in winners && id !in left
      decreases |left|
    {
      var id :| id in left;
      ids := ids + [id];
      left := left - {id};
    }
    LessIsStrictOrder();
    ListingIsSorted(Less, ids);
    ids := Listing(Less, ids);
  }

  /// The order of the walk
  /// ---------------------

  /** Of the most recent observations of a case, no two would be reported differently. */
  ghost predicate TiesAgree(observed: seq<Observed>) {
    forall i: nat, j: nat ::
      Latest(Older, observed, i) && Latest(Older, observed, j) && observed[i].caseId == observed[j].caseId ==>
        RowOf(observed[i]) == RowOf(observed[j])
  }

  ghost predicate OrderDoesNotMatter(observed: seq<Observed>) {
    forall walk {:trigger Report(walk)} :: multiset(walk) == multiset(observed) ==> Report(walk) == Report(observed)
  }

  /** The report is the same for every order of the walk exactly when the most recent observations
      of each case agree on what is reported. */
  lemma WalkOrderDoesNotMatterExactly(observed: seq<Observed>)
    ensures OrderDoesNotMatter(observed) <==> TiesAgree(observed)
  {
    if TiesAgree(observed) {
      forall walk | multiset(walk) == multiset(observed) ensures Report(walk) == Report(observed) {
        SameReport(observed, walk);
      }
    }
    if OrderDoesNotMatter(observed) {
      forall i: nat, j: nat | Latest(Older, observed, i) && Latest(Older, observed, j) && observed[i].caseId == observed[j].caseId
        ensures RowOf(observed[i]) == RowOf(observed[j])
      {
        MovedToFrontWins(observed, i);
        MovedToFrontWins(observed, j);
      }
    }
  }

  /** Agreement can be checked on all ties: recency and run key equal implies one report. */
  lemma TiesAgreeWhenKeysSeparate(observed: seq<Observed>)
    requires forall a, b :: a in observed && b in observed && a.caseId == b.caseId && KeyOf(a) == KeyOf(b) ==> RowOf(a) == RowOf(b)
    ensures OrderDoesNotMatter(observed)
  {
    OlderRanks();
    WalkOrderDoesNotMatterExactly(observed);
  }

  lemma SameItems(a: seq<Observed>, b: seq<Observed>)
    requires multiset(a) == multiset(b)
    ensures forall o :: o in a <==> o in b
  {
    forall o ensures o in a <==> o in b {
      assert o in a <==> o in multiset(a);
      assert o in b <==> o in multiset(b);
    }
  }

  lemma SameReport(observed: seq<Observed>, walk: seq<Observed>)
    requires multiset(walk) == multiset(observed) && TiesAgree(observed)
    ensures Report(walk) == Report(observed)
  {
    SameItems(walk, observed);
    LessIsStrictOrder();
    ListingIsSorted(Less, CaseIds(observed));
    ListingIsSorted(Less, CaseIds(walk));
    ReportListsCases(observed);
    ReportListsCases(walk);
    forall id ensures ReportsCase(observed, id) <==> ReportsCase(walk, id) {
      CasesTransfer(observed, walk, id);
      CasesTransfer(walk, observed, id);
    }
    SortedIsUnique(Less, Listing(Less, CaseIds(observed)), Listing(Less, CaseIds(walk)));
    forall id ensures RowFor(observed, id) == RowFor(walk, id) {
      SameRow(observed, walk, id);
    }
  }

  lemma CasesTransfer(a: seq<Observed>, b: seq<Observed>, id: string)
    requires forall o :: o in a <==> o in b
    ensures ReportsCase(a, id) ==> ReportsCase(b, id)
  {
    if ReportsCase(a, id) {
      var i :| 0 <= i < |a| && a[i].caseId == id;
      assert a[i] in b;
    }
  }

  lemma SameRow(observed: seq<Observed>, walk: seq<Observed>, id: string)
    requires forall o :: o in walk <==> o in observed
    requires TiesAgree(observed)
    ensures RowFor(observed, id) == RowFor(walk, id)
  {
    OlderRanks();
    BestIsFirstLatest(Older, observed, id);
    BestIsFirstLatest(Older, walk, id);
    CasesTransfer(observed, walk, id);
    CasesTransfer(walk, observed, id);
    if Best(Older, walk, id).Some? {
      var k: nat :| FirstLatest(Older, walk, id, k) && walk[k] == Best(Older, walk, id).value;
      assert walk[k] in observed;
      var i: nat :| i < |observed| && observed[i] == walk[k];
      LatestTransfers(walk, k, observed, i);
      var j: nat :| FirstLatest(Older, observed, id, j) && observed[j] == Best(Older, observed, id).value;
    }
  }

  lemma LatestTransfers(a: seq<Observed>, i: nat, b: seq<Observed>, j: nat)
    requires forall o :: o in a <==> o in b
    requires Latest(Older, a, i) && j < |b| && a[i] == b[j]
    ensures Latest(Older, b, j)
  {
    forall k | 0 <= k < |b| && b[k].caseId == b[j].caseId ensures !Older(b[j], b[k]) {
      assert b[k] in a;
      var l :| 0 <= l < |a| && a[l] == b[k];
    }
  }

  /** Read first, any of the most recent observations of its case is the one reported. */
  lemma MovedToFrontWins(observed: seq<Observed>, i: nat)
    requires Latest(Older, observed, i) && OrderDoesNotMatter(observed)
    ensures RowFor(observed, observed[i].caseId) == RowOf(observed[i])
  {
    var o := observed[i];
    var walk := MoveToFront(observed, i);
    SameItems(walk, observed);
    LatestTransfers(observed, i, walk, 0);
    FrontWins(walk);
    assert Report(walk) == Report(observed);
    ReportHasRowFor(walk, RowOf(o));
    ReportHasRowFor(observed, RowOf(o));
  }

  function MoveToFront<T>(s: seq<T>, i: nat): (t: seq<T>)
    requires i < |s|
    ensures t != [] && t[0] == s[i] && multiset(t) == multiset(s)
  {
    assert s == s[..i] + [s[i]] + s[i + 1..];
    [s[i]] + (s[..i] + s[i + 1..])
  }

  lemma FrontWins(walk: seq<Observed>)
    requires walk != [] && Latest(Older, walk, 0)
    ensures ReportsCase(walk, walk[0].caseId) && RowFor(walk, walk[0].caseId) == RowOf(walk[0])
  {
    var id := walk[0].caseId;
    OlderRanks();
    BestIsFirstLatest(Older, walk, id);
    var k: nat :| FirstLatest(Older, walk, id, k) && walk[k] == Best(Older, walk, id).value;
    OneFirstLatest(Older, walk, id, 0, k);
  }
}
