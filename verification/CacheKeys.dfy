/**
 The keys derived answers are cached under (`src/domain/service/cache.rs` and the
 services that build them), and what they determine.

 A string is a sequence of bytes, one character each.
 */
module CacheKeys {
  import opened Wrappers
  import opened Decimal
  import opened Sorting

  function Item(s: string): string { Digits(|s|) + ":" + s }

  function Items(projects: seq<string>): string {
    if projects == [] then [] else Item(projects[0]) + Items(projects[1..])
  }

  function ScopeKey(reachable: Option<seq<string>>): string {
    match reachable
    case None => "*"
    case Some(projects) => Items(projects)
  }

  function OptionalKey(value: Option<string>): string {
    match value
    case None => "-"
    case Some(v) => Item(v)
  }

  /// Unique decoding
  /// ---------------

  /** Digits before a colon end where the colon is. */
  lemma {:induction false} DigitsBeforeColon(a: string, b: string, s: string, t: string)
    requires AllDigits(a) && AllDigits(b) && a + (":" + s) == b + (":" + t)
    ensures a == b && s == t
  {
    var x, y := a + (":" + s), b + (":" + t);
    if a == [] || b == [] {
      assert x[0] == y[0];
      assert a == [] ==> x[0] == ':';
      assert b == [] ==> y[0] == ':';
      assert x[1..] == s && y[1..] == t;
    } else {
      assert x[1..] == a[1..] + (":" + s) && y[1..] == b[1..] + (":" + t);
      DigitsBeforeColon(a[1..], b[1..], s, t);
      assert a == [x[0]] + a[1..] && b == [y[0]] + b[1..];
    }
  }

  /** An item can be read off the front of any string. */
  lemma ItemDecodes(a: string, b: string, s: string, t: string)
    requires Item(a) + s == Item(b) + t
    ensures a == b && s == t
  {
    assert Item(a) + s == Digits(|a|) + (":" + (a + s));
    assert Item(b) + t == Digits(|b|) + (":" + (b + t));
    DigitsBeforeColon(Digits(|a|), Digits(|b|), a + s, b + t);
    Injective(|a|, |b|);
    assert a == (a + s)[..|a|] && b == (b + t)[..|b|];
    assert s == (a + s)[|a|..] && t == (b + t)[|b|..];
  }

  lemma OptionalKeyDecodes(a: Option<string>, b: Option<string>, s: string, t: string)
    requires OptionalKey(a) + s == OptionalKey(b) + t
    ensures a == b && s == t
  {
    StartsWithDigit(a, s);
    StartsWithDigit(b, t);
    if a.Some? && b.Some? {
      ItemDecodes(a.value, b.value, s, t);
    } else {
      assert (OptionalKey(a) + s)[0] == (OptionalKey(b) + t)[0];
      assert a.None? && b.None?;
      assert ("-" + s)[1..] == s && ("-" + t)[1..] == t;
    }
  }

  lemma StartsWithDigit(a: Option<string>, s: string)
    ensures if a.None? then (OptionalKey(a) + s)[0] == '-' else IsDigit((OptionalKey(a) + s)[0])
  {
    if a.Some? {
      assert (OptionalKey(a) + s)[0] == Digits(|a.value|)[0];
    }
  }

  predicate Ends(s: string) { s == [] || s[0] == '|' }

  /** A list of items can be read off the front of a string whose rest is empty or starts with a bar. */
  lemma {:induction false} ItemsDecode(a: seq<string>, b: seq<string>, s: string, t: string)
    requires Items(a) + s == Items(b) + t && Ends(s) && Ends(t)
    ensures a == b && s == t
    decreases |a| + |b|
  {
    FirstOfItems(a, s);
    FirstOfItems(b, t);
    assert a == [] <==> b == [];
    if a != [] {
      NextItem(a, s);
      NextItem(b, t);
      ItemDecodes(a[0], b[0], Items(a[1..]) + s, Items(b[1..]) + t);
      ItemsDecode(a[1..], b[1..], s, t);
      assert a == [a[0]] + a[1..] && b == [b[0]] + b[1..];
    }
  }

  lemma NextItem(a: seq<string>, s: string)
    requires a != []
    ensures Items(a) + s == Item(a[0]) + (Items(a[1..]) + s)
  {
  }

  lemma FirstOfItems(a: seq<string>, s: string)
    requires Ends(s)
    ensures if a == [] then Items(a) + s == s else Items(a) + s != [] && IsDigit((Items(a) + s)[0])
  {
    if a != [] {
      assert (Items(a) + s)[0] == Digits(|a[0]|)[0];
    }
  }

  lemma ScopeKeyDecodes(a: Option<seq<string>>, b: Option<seq<string>>, s: string, t: string)
    requires ScopeKey(a) + s == ScopeKey(b) + t && Ends(s) && Ends(t)
    ensures a == b && s == t
  {
    if a.Some? {
      FirstOfItems(a.value, s);
    }
    if b.Some? {
      FirstOfItems(b.value, t);
    }
    if a.Some? && b.Some? {
      ItemsDecode(a.value, b.value, s, t);
    } else {
      assert a.None? ==> (ScopeKey(a) + s)[0] == '*';
      assert b.None? ==> (ScopeKey(b) + t)[0] == '*';
      assert ("*" + s)[1..] == s && ("*" + t)[1..] == t;
    }
  }

  /** Two scopes with one key are one scope; no filter is not the empty scope. */
  lemma ScopeKeyIsInjective(a: Option<seq<string>>, b: Option<seq<string>>)
    ensures ScopeKey(a) == ScopeKey(b) <==> a == b
  {
    if ScopeKey(a) == ScopeKey(b) {
      assert ScopeKey(a) + [] == ScopeKey(b) + [];
      ScopeKeyDecodes(a, b, [], []);
    }
  }

  lemma OptionalKeyIsInjective(a: Option<string>, b: Option<string>)
    ensures OptionalKey(a) == OptionalKey(b) <==> a == b
  {
    if OptionalKey(a) == OptionalKey(b) {
      assert OptionalKey(a) + [] == OptionalKey(b) + [];
      OptionalKeyDecodes(a, b, [], []);
    }
  }

  /// The keys of the cached endpoints
  /// --------------------------------

  datatype Scope = All | Project(id: string) | Projects(ids: seq<string>)

  datatype Query =
    | Releases(reachable: Option<seq<string>>)
    | Environments(reachable: Option<seq<string>>)
    | Progress(milestone: string)
    | Summary(reachable: Option<seq<string>>, filters: SummaryFilters)
    | LastResults(reachable: Option<seq<string>>, scope: Scope)

  datatype SummaryFilters = SummaryFilters(
    project: Option<string>,
    milestone: Option<string>,
    configuration: Option<string>,
    from: Option<string>,
    to: Option<string>)

  function FilterKey(f: SummaryFilters): string {
    "|" + (OptionalKey(f.project) + ("|" + (OptionalKey(f.milestone) + ("|" + (OptionalKey(f.configuration)
    + ("|" + (OptionalKey(f.from) + ("|" + OptionalKey(f.to)))))))))
  }

  function InsertSorted(sorted: seq<string>, x: string): seq<string> {
    if sorted == [] || Less(x, sorted[0]) then [x] + sorted else [sorted[0]] + InsertSorted(sorted[1..], x)
  }

  function Sorted(ids: seq<string>): seq<string> {
    if ids == [] then [] else InsertSorted(Sorted(ids[..|ids| - 1]), ids[|ids| - 1])
  }

  function JoinedWithCommas(ids: seq<string>): string {
    if ids == [] then []
    else if |ids| == 1 then ids[0]
    else ids[0] + "," + JoinedWithCommas(ids[1..])
  }

  function LastResultsScopeKey(scope: Scope): string {
    match scope
    case All => "all"
    case Project(id) => "project|" + id
    case Projects(ids) => "projects|" + JoinedWithCommas(Sorted(ids))
  }

  function KeyOf(q: Query): string {
    match q
    case Releases(reachable) => "releases|" + ScopeKey(reachable)
    case Environments(reachable) => "environments|" + ScopeKey(reachable)
    case Progress(milestone) => "progress|" + milestone
    case Summary(reachable, filters) => "summary|" + (ScopeKey(reachable) + FilterKey(filters))
    case LastResults(reachable, scope) => "last-results|" + (ScopeKey(reachable) + ("|" + LastResultsScopeKey(scope)))
  }

  lemma AfterPrefix(prefix: string, s: string, t: string)
    requires prefix + s == prefix + t
    ensures s == t
  {
    assert (prefix + s)[|prefix|..] == s && (prefix + t)[|prefix|..] == t;
  }

  lemma FilterKeyIsInjective(a: SummaryFilters, b: SummaryFilters)
    requires FilterKey(a) == FilterKey(b)
    ensures a == b
  {
    var a5, b5 := OptionalKey(a.to), OptionalKey(b.to);
    var a4, b4 := OptionalKey(a.from) + ("|" + a5), OptionalKey(b.from) + ("|" + b5);
    var a3, b3 := OptionalKey(a.configuration) + ("|" + a4), OptionalKey(b.configuration) + ("|" + b4);
    var a2, b2 := OptionalKey(a.milestone) + ("|" + a3), OptionalKey(b.milestone) + ("|" + b3);
    var a1, b1 := OptionalKey(a.project) + ("|" + a2), OptionalKey(b.project) + ("|" + b2);
    assert FilterKey(a) == "|" + a1 && FilterKey(b) == "|" + b1;
    AfterPrefix("|", a1, b1);
    OptionalKeyDecodes(a.project, b.project, "|" + a2, "|" + b2);
    AfterPrefix("|", a2, b2);
    OptionalKeyDecodes(a.milestone, b.milestone, "|" + a3, "|" + b3);
    AfterPrefix("|", a3, b3);
    OptionalKeyDecodes(a.configuration, b.configuration, "|" + a4, "|" + b4);
    AfterPrefix("|", a4, b4);
    OptionalKeyDecodes(a.from, b.from, "|" + a5, "|" + b5);
    AfterPrefix("|", a5, b5);
    OptionalKeyIsInjective(a.to, b.to);
  }

  /** Scopes the key does not tell apart: two project lists that sort and join to one text. */
  predicate Confused(a: Scope, b: Scope) {
    a.Projects? && b.Projects? && JoinedWithCommas(Sorted(a.ids)) == JoinedWithCommas(Sorted(b.ids))
  }

  lemma LastResultsScopeKeyDecides(a: Scope, b: Scope)
    ensures LastResultsScopeKey(a) == LastResultsScopeKey(b) <==> a == b || Confused(a, b)
  {
    var x, y := LastResultsScopeKey(a), LastResultsScopeKey(b);
    ScopeKeyStarts(a);
    ScopeKeyStarts(b);
    if x == y {
      assert x[0] == y[0] && (|x| > 7 ==> x[7] == y[7]);
      if a.Project? && b.Project? {
        AfterPrefix("project|", a.id, b.id);
      } else if a.Projects? && b.Projects? {
        AfterPrefix("projects|", JoinedWithCommas(Sorted(a.ids)), JoinedWithCommas(Sorted(b.ids)));
      }
    }
  }

  lemma ScopeKeyStarts(a: Scope)
    ensures var x := LastResultsScopeKey(a);
            match a
            case All => x[0] == 'a'
            case Project(_) => |x| > 7 && x[0] == 'p' && x[7] == '|'
            case Projects(_) => |x| > 7 && x[0] == 'p' && x[7] == 's'
  {
  }

  lemma KeyStarts(q: Query)
    ensures KeyOf(q) != []
    ensures KeyOf(q)[0] == match q
                           case Releases(_) => 'r'
                           case Environments(_) => 'e'
                           case Progress(_) => 'p'
                           case Summary(_, _) => 's'
                           case LastResults(_, _) => 'l'
  {
  }

  /** Two queries share a key exactly when they are one query, or ask for last results in project
      lists that join to one text. */
  lemma KeysDetermineQueries(a: Query, b: Query)
    ensures KeyOf(a) == KeyOf(b)
       <==> a == b || (a.LastResults? && b.LastResults? && a.reachable == b.reachable && Confused(a.scope, b.scope))
  {
    KeyStarts(a);
    KeyStarts(b);
    if KeyOf(a) == KeyOf(b) {
      SameKeySameQuery(a, b);
    } else if a.LastResults? && b.LastResults? {
      LastResultsScopeKeyDecides(a.scope, b.scope);
    }
  }

  lemma SameKeySameQuery(a: Query, b: Query)
    requires KeyOf(a) == KeyOf(b)
    ensures a == b || (a.LastResults? && b.LastResults? && a.reachable == b.reachable && Confused(a.scope, b.scope))
  {
    KeyStarts(a);
    KeyStarts(b);
    if a.Releases? {
      AfterPrefix("releases|", ScopeKey(a.reachable), ScopeKey(b.reachable));
      ScopeKeyIsInjective(a.reachable, b.reachable);
    } else if a.Environments? {
      AfterPrefix("environments|", ScopeKey(a.reachable), ScopeKey(b.reachable));
      ScopeKeyIsInjective(a.reachable, b.reachable);
    } else if a.Progress? {
      AfterPrefix("progress|", a.milestone, b.milestone);
    } else if a.Summary? {
      AfterPrefix("summary|", ScopeKey(a.reachable) + FilterKey(a.filters), ScopeKey(b.reachable) + FilterKey(b.filters));
      ScopeKeyDecodes(a.reachable, b.reachable, FilterKey(a.filters), FilterKey(b.filters));
      FilterKeyIsInjective(a.filters, b.filters);
    } else {
      var x, y := "|" + LastResultsScopeKey(a.scope), "|" + LastResultsScopeKey(b.scope);
      AfterPrefix("last-results|", ScopeKey(a.reachable) + x, ScopeKey(b.reachable) + y);
      ScopeKeyDecodes(a.reachable, b.reachable, x, y);
      AfterPrefix("|", LastResultsScopeKey(a.scope), LastResultsScopeKey(b.scope));
      LastResultsScopeKeyDecides(a.scope, b.scope);
    }
  }

  lemma {:induction false} InsertKeeps(sorted: seq<string>, x: string)
    ensures |InsertSorted(sorted, x)| == |sorted| + 1
    ensures forall y :: y in InsertSorted(sorted, x) <==> y == x || y in sorted
  {
    if sorted != [] {
      assert sorted == [sorted[0]] + sorted[1..];
      InsertKeeps(sorted[1..], x);
    }
  }

  lemma {:induction false} SortedKeeps(ids: seq<string>)
    ensures |Sorted(ids)| == |ids| && forall y :: y in Sorted(ids) <==> y in ids
  {
    if ids != [] {
      var n := |ids| - 1;
      SortedKeeps(ids[..n]);
      InsertKeeps(Sorted(ids[..n]), ids[n]);
      assert ids == ids[..n] + [ids[n]];
    }
  }

  predicate NoCommas(ids: seq<string>) { forall id :: id in ids ==> ',' !in id }

  function CommaAt(s: string): nat {
    if s == [] || s[0] == ',' then 0 else 1 + CommaAt(s[1..])
  }

  lemma {:induction false} FirstComma(x: string, s: string)
    requires ',' !in x
    ensures CommaAt(x + ("," + s)) == |x|
  {
    if x != [] {
      assert x[0] in x;
      assert (x + ("," + s))[1..] == x[1..] + ("," + s);
      FirstComma(x[1..], s);
    }
  }

  lemma CommaSplits(x: string, s: string, y: string, t: string)
    requires ',' !in x && ',' !in y && x + ("," + s) == y + ("," + t)
    ensures x == y && s == t
  {
    FirstComma(x, s);
    FirstComma(y, t);
    var a, b := x + ("," + s), y + ("," + t);
    assert a[..|x|] == x && b[..|y|] == y && a[|x| + 1..] == s && b[|y| + 1..] == t;
  }

  lemma JoinedUnfolds(ids: seq<string>)
    requires |ids| > 1
    ensures JoinedWithCommas(ids) == ids[0] + ("," + JoinedWithCommas(ids[1..])) && ',' in JoinedWithCommas(ids)
  {
    var joined := ids[0] + ("," + JoinedWithCommas(ids[1..]));
    assert joined == ids[0] + "," + JoinedWithCommas(ids[1..]);
    assert joined[|ids[0]|] == ',';
  }

  lemma {:induction false} JoinedListsDecode(a: seq<string>, b: seq<string>)
    requires a != [] && b != [] && NoCommas(a) && NoCommas(b) && JoinedWithCommas(a) == JoinedWithCommas(b)
    ensures a == b
    decreases |a|
  {
    assert a == [a[0]] + a[1..] && b == [b[0]] + b[1..];
    assert a[0] in a && b[0] in b;
    if |a| > 1 {
      JoinedUnfolds(a);
    }
    if |b| > 1 {
      JoinedUnfolds(b);
    }
    assert |a| > 1 <==> |b| > 1;
    if |a| > 1 {
      CommaSplits(a[0], JoinedWithCommas(a[1..]), b[0], JoinedWithCommas(b[1..]));
      JoinedListsDecode(a[1..], b[1..]);
    }
  }

  /** For identifiers without commas the key confuses two project lists only when one is the other in
      another order, or one is empty and the other holds just the empty identifier. */
  lemma ConfusedExactly(a: seq<string>, b: seq<string>)
    requires NoCommas(a) && NoCommas(b)
    ensures Confused(Projects(a), Projects(b))
       <==> Sorted(a) == Sorted(b) || (a == [] && b == [""]) || (a == [""] && b == [])
  {
    SortedKeeps(a);
    SortedKeeps(b);
    if a != [] && b != [] {
      if Confused(Projects(a), Projects(b)) {
        JoinedListsDecode(Sorted(a), Sorted(b));
      }
    } else {
      JoinsToNothing(a);
      JoinsToNothing(b);
    }
  }

  lemma JoinsToNothing(ids: seq<string>)
    ensures JoinedWithCommas(Sorted(ids)) == [] <==> ids == [] || ids == [""]
  {
    SortedKeeps(ids);
    if |ids| > 1 {
      JoinedUnfolds(Sorted(ids));
    } else if |ids| == 1 {
      assert Sorted(ids)[0] in Sorted(ids);
      assert Sorted(ids)[0] == ids[0];
    }
  }

  /** A query as the routes build it: a restricted caller that names no project asks for its whole
      reachable set, and a trusted one for everything. */
  predicate Routed(q: Query) {
    q.LastResults? ==>
      match q.scope
      case All => q.reachable.None?
      case Project(_) => true
      case Projects(ids) => q.reachable == Some(ids)
  }

  /** Routed queries with one key are one query, so no caller is answered what another one asked. */
  lemma RoutedKeysAreInjective(a: Query, b: Query)
    requires Routed(a) && Routed(b)
    ensures KeyOf(a) == KeyOf(b) <==> a == b
  {
    KeysDetermineQueries(a, b);
  }

  /** Unrouted scopes can collide: a project whose identifier holds a comma. */
  lemma CommasCollide()
    ensures var a := LastResults(None, Projects(["a,b"]));
            var b := LastResults(None, Projects(["a", "b"]));
            a != b && KeyOf(a) == KeyOf(b)
  {
    assert ["a,b"][..0] == [] && ["a", "b"][..1] == ["a"] && ["a"][..0] == [];
    assert Sorted(["a,b"]) == ["a,b"];
    assert Sorted(["a"]) == ["a"];
    assert Less("a", "b") && !Less("b", "a");
    assert InsertSorted(["a"], "b") == ["a"] + InsertSorted(["a"][1..], "b");
    assert Sorted(["a", "b"]) == ["a", "b"];
    assert ["a", "b"][1..] == ["b"];
    assert JoinedWithCommas(["a", "b"]) == "a" + "," + "b" == "a,b";
  }
}
