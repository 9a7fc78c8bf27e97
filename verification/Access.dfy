/**
 Which documents a caller sees (`src/api/access.rs`): the filter of a listing, the
 guard of a single read, and when the two agree.

 The repository is two functions of a `World`: the homes an identifier has, each
 once, and the document stored at a home, absent when it cannot be read or does not
 fit its model. Serving a document may fail further while its children are read.
 */
module Access {
  import opened Wrappers
  import opened Layout
  import opened Sorting
  import AuthStores
  import Sessions

  datatype Document = Stored(projects: seq<string>, suiteIds: seq<string>, runIds: seq<string>)

  datatype World = World(
    homes: (Resource, string) -> seq<Parent>,
    document: (Resource, Option<Parent>, string) -> Option<Document>,
    serves: (Resource, Option<Parent>, string) -> bool)

  datatype Auth = Auth(required: bool, grants: map<string, AuthStores.Grants>)

  datatype AccessError = NotFound | Conflict | Unreadable | Refused(error: Sessions.SessionError)

  /// Reaching a project
  /// ------------------

  /** The projects a caller may reach, or none when nothing is checked. */
  function Scope(auth: Auth, principal: Sessions.Principal): Option<set<string>> {
    if !auth.required || principal.systemAdmin then None
    else Some(set folder | folder in auth.grants && principal.userId in auth.grants[folder] :: FolderWireId(folder))
  }

  lemma ScopeIsWhatIsHeld(auth: Auth, principal: Sessions.Principal, project: string)
    requires Scope(auth, principal).Some?
    ensures project in Scope(auth, principal).value <==> AuthStores.HoldsRole(auth.grants, project, principal.userId)
  {
    var folder := FolderName(project);
    FolderNamesInvert(project, folder);
    forall f | FolderWireId(f) == project ensures f == folder && HasSuffix(project) {
      FolderNamesInvert(project, f);
      assert project[|f|..] == SUFFIX;
    }
  }

  /** The scope is read from the store's own answer for the account. */
  method ReadScope(store: AuthStores.AuthStore, required: bool, principal: Sessions.Principal) returns (scope: Option<set<string>>)
    ensures scope == Scope(Auth(required, store.grants), principal)
    ensures scope.None? <==> !required || principal.systemAdmin
    ensures scope.Some? ==> forall p :: p in scope.value <==> AuthStores.HoldsRole(store.grants, p, principal.userId)
  {
    if !required || principal.systemAdmin {
      return None;
    }
    var projects := store.ProjectsForUser(principal.userId);
    scope := Some(set p | p in projects);
    forall p ensures p in scope.value <==> p in Scope(Auth(required, store.grants), principal).value {
      ScopeIsWhatIsHeld(Auth(required, store.grants), principal, p);
    }
    assert scope.value == Scope(Auth(required, store.grants), principal).value;
  }

  function Authorize(auth: Auth, principal: Sessions.Principal, project: string, required: AuthStores.Role)
    : Result<(), AccessError>
  {
    if !auth.required then Ok(())
    else
      match Sessions.RequireRole(auth.grants, principal, project, required)
      case Ok(_) => Ok(())
      case Err(e) => Err(Refused(e))
  }

  function RequireEvery(auth: Auth, principal: Sessions.Principal, projects: seq<string>, required: AuthStores.Role)
    : Result<(), AccessError>
  {
    if !auth.required || projects == [] then Ok(())
    else
      match Authorize(auth, principal, projects[0], required)
      case Err(e) => Err(e)
      case Ok(_) => RequireEvery(auth, principal, projects[1..], required)
  }

  predicate Passes(auth: Auth, principal: Sessions.Principal, project: string) {
    Authorize(auth, principal, project, AuthStores.Viewer).Ok?
  }

  lemma {:induction false} EveryMeansEach(auth: Auth, principal: Sessions.Principal, projects: seq<string>)
    ensures RequireEvery(auth, principal, projects, AuthStores.Viewer).Ok?
       <==> forall p :: p in projects ==> Passes(auth, principal, p)
  {
    if projects != [] {
      assert forall p :: p in projects <==> p == projects[0] || p in projects[1..] by {
        assert projects == [projects[0]] + projects[1..];
      }
      assert Passes(auth, principal, projects[0]) <==> Authorize(auth, principal, projects[0], AuthStores.Viewer).Ok?;
      EveryMeansEach(auth, principal, projects[1..]);
    }
  }

  /** A project in a restricted caller's scope is one the caller may read; the converse holds exactly
      for project references spelled with the suffix. */
  lemma ScopeAgainstRole(auth: Auth, principal: Sessions.Principal, project: string)
    requires AuthStores.UsableFolders(auth.grants) && Scope(auth, principal).Some?
    ensures project in Scope(auth, principal).value <==> Passes(auth, principal, project) && HasSuffix(project)
  {
    ScopeIsWhatIsHeld(auth, principal, project);
    var folder := FolderName(project);
    FolderNamesInvert(project, folder);
    if AuthStores.HoldsRole(auth.grants, project, principal.userId) {
      assert folder in auth.grants;
    }
  }

  lemma CheckoutFolder()
    ensures AuthStores.GrantFolder("checkout") == Ok("checkout") && !HasSuffix("checkout")
    ensures AuthStores.GrantFolder("checkout.json") == Ok("checkout") && HasSuffix("checkout.json")
  {
    assert "checkout"[3..] == "ckout";
    assert "checkout.json"[8..] == ".json" && "checkout.json"[..8] == "checkout";
    assert "checkout" + SUFFIX == "checkout.json";
  }

  /** A reference without the suffix passes the role check and lies outside the scope. */
  lemma UnsuffixedReferencesDisagree()
    ensures var grants := map["checkout" := map["u" := AuthStores.Viewer]];
            var auth, caller := Auth(true, grants), Sessions.Principal("u", false);
            && AuthStores.UsableFolders(grants) && Scope(auth, caller).Some?
            && Passes(auth, caller, "checkout") && "checkout" !in Scope(auth, caller).value
            && Passes(auth, caller, "checkout.json") && "checkout.json" in Scope(auth, caller).value
  {
    var grants := map["checkout" := map["u" := AuthStores.Viewer]];
    var auth, caller := Auth(true, grants), Sessions.Principal("u", false);
    CheckoutFolder();
    assert FolderWireId("checkout") == "checkout.json";
    ScopeAgainstRole(auth, caller, "checkout");
    ScopeAgainstRole(auth, caller, "checkout.json");
  }

  /// What a document reaches
  /// -----------------------

  function Resolve(w: World, resource: Resource, id: string): Result<Parent, AccessError> {
    var homes := w.homes(resource, id);
    if |homes| == 0 then Err(NotFound)
    else if |homes| == 1 then Ok(homes[0])
    else Err(Conflict)
  }

  function ReadAt(w: World, resource: Resource, home: Option<Parent>, id: string): Result<Document, AccessError> {
    match w.document(resource, home, id)
    case Some(document) => Ok(document)
    case None => Err(Unreadable)
  }

  function ProjectIds(document: Document): seq<string> { Listing(Less, document.projects) }

  /** The project of a suite reference: the home's own suite first, then the only one anywhere. */
  function SuiteReference(w: World, home: string, suite: string): Option<string> {
    if w.document(Suites, Some(Project(home)), suite).Some? then Some(home)
    else
      match Resolve(w, Suites, suite)
      case Ok(parent) => Some(ProjectOf(parent))
      case Err(_) => None
  }

  /** The projects of a run reference: the home's own run first, then the only one anywhere. */
  function RunReference(w: World, home: string, run: string): seq<string> {
    match w.document(Runs, Some(Project(home)), run)
    case Some(document) => ProjectIds(document)
    case None =>
      match Resolve(w, Runs, run)
      case Err(_) => []
      case Ok(parent) =>
        match w.document(Runs, Some(parent), run)
        case Some(document) => ProjectIds(document)
        case None => []
  }

  /** A milestone reaches what its references reach; one that does not resolve is skipped. */
  predicate Reaches(w: World, home: string, suites: seq<string>, runs: seq<string>, project: string) {
    || (exists s :: s in suites && SuiteReference(w, home, s) == Some(project))
    || (exists r :: r in runs && project in RunReference(w, home, r))
  }

  function SuiteProjects(w: World, home: string, suites: seq<string>): seq<string> {
    if suites == [] then []
    else
      var reference := SuiteReference(w, home, suites[|suites| - 1]);
      SuiteProjects(w, home, suites[..|suites| - 1]) + (if reference.Some? then [reference.value] else [])
  }

  function RunProjects(w: World, home: string, runs: seq<string>): seq<string> {
    if runs == [] then [] else RunProjects(w, home, runs[..|runs| - 1]) + RunReference(w, home, runs[|runs| - 1])
  }

  function MilestoneProjects(w: World, home: string, suites: seq<string>, runs: seq<string>): seq<string> {
    Listing(Less, SuiteProjects(w, home, suites) + RunProjects(w, home, runs))
  }

  lemma {:induction false} SuiteProjectsAre(w: World, home: string, suites: seq<string>, p: string)
    ensures p in SuiteProjects(w, home, suites) <==> exists s :: s in suites && SuiteReference(w, home, s) == Some(p)
  {
    hide SuiteReference;
    if suites != [] {
      SuiteProjectsAre(w, home, suites[..|suites| - 1], p);
      assert suites == suites[..|suites| - 1] + [suites[|suites| - 1]];
    }
  }

  lemma {:induction false} RunProjectsAre(w: World, home: string, runs: seq<string>, p: string)
    ensures p in RunProjects(w, home, runs) <==> exists r :: r in runs && p in RunReference(w, home, r)
  {
    hide RunReference;
    if runs != [] {
      RunProjectsAre(w, home, runs[..|runs| - 1], p);
      assert runs == runs[..|runs| - 1] + [runs[|runs| - 1]];
    }
  }

  lemma MilestoneProjectsAreReached(w: World, home: string, suites: seq<string>, runs: seq<string>, p: string)
    ensures p in MilestoneProjects(w, home, suites, runs) <==> Reaches(w, home, suites, runs, p)
  {
    LessIsStrictOrder();
    ListingIsSorted(Less, SuiteProjects(w, home, suites) + RunProjects(w, home, runs));
    SuiteProjectsAre(w, home, suites, p);
    RunProjectsAre(w, home, runs, p);
  }

  /** The two loops of the source, filling a sorted set. */
  method CollectMilestoneProjects(w: World, home: string, suites: seq<string>, runs: seq<string>)
    returns (projects: seq<string>)
    ensures projects == MilestoneProjects(w, home, suites, runs)
  {
    hide Listing, Less, RunReference;
    var found := [];
    var i := 0;
    while i < |suites|
      invariant i <= |suites| && found == SuiteProjects(w, home, suites[..i])
    {
      assert suites[..i + 1][..i] == suites[..i];
      var suite := suites[i];
      if w.document(Suites, Some(Project(home)), suite).Some? {
        found := found + [home];
      } else {
        var parent := Resolve(w, Suites, suite);
        if parent.Ok? {
          found := found + [ProjectOf(parent.value)];
        }
      }
      i := i + 1;
    }
    assert suites[..i] == suites;
    ghost var ofSuites := found;
    i := 0;
    while i < |runs|
      invariant i <= |runs| && found == ofSuites + RunProjects(w, home, runs[..i])
    {
      assert runs[..i + 1][..i] == runs[..i];
      found := found + RunReference(w, home, runs[i]);
      i := i + 1;
    }
    assert runs[..i] == runs;
    projects := Listing(Less, found);
  }

  function WithHome(home: string, projects: seq<string>): seq<string> {
    if home in projects then projects else projects + [home]
  }

  predicate AllWithin(projects: seq<string>, reachable: set<string>) {
    forall p :: p in projects ==> p in reachable
  }

  function References(w: World, resource: Resource, home: string, document: Document): seq<string> {
    if resource == Runs then ProjectIds(document)
    else MilestoneProjects(w, home, document.suiteIds, document.runIds)
  }

  /// The guard of a read
  /// -------------------

  /** The projects a run or a milestone reaches, resolved and read again. */
  function ReachableProjects(w: World, resource: Resource, id: string): Result<seq<string>, AccessError> {
    match Resolve(w, resource, id)
    case Err(e) => Err(e)
    case Ok(parent) =>
      match ReadAt(w, resource, Some(parent), id)
      case Err(e) => Err(e)
      case Ok(document) => Ok(WithHome(ProjectOf(parent), References(w, resource, ProjectOf(parent), document)))
  }

  function GuardGet(w: World, auth: Auth, principal: Sessions.Principal, resource: Resource, id: string): Result<(), AccessError> {
    if resource == Projects then
      match RequireEvery(auth, principal, [id], AuthStores.Viewer)
      case Err(e) => Err(e)
      case Ok(_) => if w.serves(resource, None, id) then Ok(()) else Err(Unreadable)
    else
      match Resolve(w, resource, id)
      case Err(e) => Err(e)
      case Ok(home) =>
        if !w.serves(resource, Some(home), id) then Err(Unreadable)
        else if !auth.required then Ok(())
        else if resource == Runs || resource == Milestones then
          match ReachableProjects(w, resource, id)
          case Err(e) => Err(e)
          case Ok(projects) => RequireEvery(auth, principal, projects, AuthStores.Viewer)
        else RequireEvery(auth, principal, [ProjectOf(home)], AuthStores.Viewer)
  }

  /// The filter of a listing
  /// -----------------------

  /** One occurrence the walk found: an identifier, and its home unless it is a project. */
  datatype Item = Item(id: string, home: Option<Parent>)

  function HomesIn(items: seq<Item>, id: string): set<Option<Parent>> {
    set item | item in items && item.id == id :: item.home
  }

  /** Whether a restricted listing shows the identifier, given the distinct homes found for it. */
  ghost predicate Keeps(w: World, resource: Resource, reachable: set<string>, id: string, homes: set<Option<Parent>>) {
    if resource == Projects then id in reachable
    else
      exists home: Parent :: Some(home) in homes && homes == {Some(home)} && KeepsAt(w, resource, reachable, id, home)
  }

  predicate KeepsAt(w: World, resource: Resource, reachable: set<string>, id: string, home: Parent) {
    if resource == Runs || resource == Milestones then
      match w.document(resource, Some(home), id)
      case None => false
      case Some(document) =>
        AllWithin(WithHome(ProjectOf(home), References(w, resource, ProjectOf(home), document)), reachable)
    else ProjectOf(home) in reachable
  }

  function InsertItem(sorted: seq<Item>, item: Item): seq<Item> {
    if sorted == [] || Less(item.id, sorted[0].id) then [item] + sorted else [sorted[0]] + InsertItem(sorted[1..], item)
  }

  /** The library's stable sort by identifier. */
  function SortItems(items: seq<Item>): seq<Item> {
    if items == [] then [] else InsertItem(SortItems(items[..|items| - 1]), items[|items| - 1])
  }

  predicate InOrder(items: seq<Item>) {
    forall i, j :: 0 <= i < j < |items| ==> !Less(items[j].id, items[i].id)
  }

  lemma {:induction false} InsertKeepsOrder(sorted: seq<Item>, item: Item)
    requires InOrder(sorted)
    ensures InOrder(InsertItem(sorted, item))
    ensures forall x :: x in InsertItem(sorted, item) <==> x == item || x in sorted
  {
    if sorted != [] {
      assert sorted == [sorted[0]] + sorted[1..];
      LessIsIrreflexive(item.id);
      if Less(item.id, sorted[0].id) {
        LessIsIrreflexive(sorted[0].id);
        forall j | 0 <= j < |sorted| ensures !Less(sorted[j].id, item.id) {
          NotLessAfter(item.id, sorted[0].id, sorted[j].id);
        }
      } else {
        var rest := InsertItem(sorted[1..], item);
        InsertKeepsOrder(sorted[1..], item);
        forall j | 0 <= j < |rest| ensures !Less(rest[j].id, sorted[0].id) {
          assert rest[j] in rest;
          if rest[j] != item {
            var k :| 0 <= k < |sorted[1..]| && sorted[1..][k] == rest[j];
            assert sorted[k + 1] == rest[j];
          }
        }
      }
    }
  }

  lemma NotLessAfter(a: string, b: string, c: string)
    requires Less(a, b) && !Less(c, b)
    ensures !Less(c, a)
  {
    if Less(c, a) {
      LessIsTransitive(c, a, b);
    }
  }

  lemma {:induction false} SortItemsSorts(items: seq<Item>)
    ensures InOrder(SortItems(items))
    ensures forall x :: x in SortItems(items) <==> x in items
  {
    if items != [] {
      SortItemsSorts(items[..|items| - 1]);
      InsertKeepsOrder(SortItems(items[..|items| - 1]), items[|items| - 1]);
      assert items == items[..|items| - 1] + [items[|items| - 1]];
    }
  }

  /** Equal identifiers lie beside each other once sorted; a group holds the distinct homes of one. */
  datatype Group = Group(id: string, homes: seq<Option<Parent>>)

  ghost predicate GroupsOf(items: seq<Item>, groups: seq<Group>) {
    && (forall g, h :: 0 <= g < h < |groups| ==> Less(groups[g].id, groups[h].id))
    && (forall g :: 0 <= g < |groups| ==> IsGroup(items, groups[g]))
    && (forall item :: item in items ==> exists g :: 0 <= g < |groups| && groups[g].id == item.id)
  }

  ghost predicate IsGroup(items: seq<Item>, group: Group) {
    && group.homes != []
    && (forall i, j :: 0 <= i < j < |group.homes| ==> group.homes[i] != group.homes[j])
    && (forall home :: home in group.homes <==> Item(group.id, home) in items)
  }

  lemma SortedTotal(a: string, b: string)
    ensures a == b || Less(a, b) || Less(b, a)
  {
    if a != b {
      LessIsTotal(a, b);
    }
  }

  /** The next item opens a group, or joins the last one. */
  lemma NextItemGroups(items: seq<Item>, i: nat, groups: seq<Group>)
    requires InOrder(items) && i < |items| && GroupsOf(items[..i], groups)
    ensures groups != [] && groups[|groups| - 1].id != items[i].id ==>
              Less(groups[|groups| - 1].id, items[i].id)
    ensures i > 0 ==> groups != []
  {
    if i > 0 {
      assert items[..i][0] in items[..i];
    }
    if groups != [] {
      var last := groups[|groups| - 1];
      assert last.homes[0] in last.homes;
      assert Item(last.id, last.homes[0]) in items[..i];
      var k :| 0 <= k < i && items[..i][k] == Item(last.id, last.homes[0]);
      assert !Less(items[i].id, items[k].id);
      SortedTotal(last.id, items[i].id);
    }
  }

  lemma OpeningGroups(items: seq<Item>, i: nat, groups: seq<Group>)
    requires InOrder(items) && i < |items| && GroupsOf(items[..i], groups)
    requires groups == [] || groups[|groups| - 1].id != items[i].id
    ensures GroupsOf(items[..i + 1], groups + [Group(items[i].id, [items[i].home])])
  {
    var more := groups + [Group(items[i].id, [items[i].home])];
    assert items[..i + 1] == items[..i] + [items[i]];
    NextItemGroups(items, i, groups);
    forall g | 0 <= g < |groups| ensures Less(groups[g].id, items[i].id) {
      if g < |groups| - 1 {
        LessIsTransitive(groups[g].id, groups[|groups| - 1].id, items[i].id);
      }
    }
    LessIsIrreflexive(items[i].id);
    forall g | 0 <= g < |groups| ensures IsGroup(items[..i + 1], more[g]) {
      assert IsGroup(items[..i], groups[g]) && groups[g].id != items[i].id;
    }
    forall item | item in items[..i] ensures item.id != items[i].id {
      var g :| 0 <= g < |groups| && groups[g].id == item.id;
    }
    assert IsGroup(items[..i + 1], more[|groups|]);
    forall item | item in items[..i + 1] ensures exists g :: 0 <= g < |more| && more[g].id == item.id {
      if item in items[..i] {
        var g :| 0 <= g < |groups| && groups[g].id == item.id;
        assert more[g].id == item.id;
      } else {
        assert more[|groups|].id == item.id;
      }
    }
  }

  lemma OtherGroupsStand(items: seq<Item>, i: nat, group: Group)
    requires i < |items| && IsGroup(items[..i], group) && group.id != items[i].id
    ensures IsGroup(items[..i + 1], group)
  {
    assert items[..i + 1] == items[..i] + [items[i]];
  }

  function Joined(group: Group, home: Option<Parent>): Group {
    if home in group.homes then group else Group(group.id, group.homes + [home])
  }

  lemma JoinedIsGroup(items: seq<Item>, i: nat, group: Group)
    requires i < |items| && IsGroup(items[..i], group) && group.id == items[i].id
    ensures IsGroup(items[..i + 1], Joined(group, items[i].home))
  {
    assert items[..i + 1] == items[..i] + [items[i]];
  }

  lemma JoiningGroups(items: seq<Item>, i: nat, groups: seq<Group>)
    requires i < |items| && GroupsOf(items[..i], groups)
    requires groups != [] && groups[|groups| - 1].id == items[i].id
    ensures GroupsOf(items[..i + 1], groups[|groups| - 1 := Joined(groups[|groups| - 1], items[i].home)])
  {
    hide IsGroup, Less;
    var n := |groups| - 1;
    var more := groups[n := Joined(groups[n], items[i].home)];
    JoinedIsGroup(items, i, groups[n]);
    LessIsIrreflexive(items[i].id);
    forall g | 0 <= g < n ensures IsGroup(items[..i + 1], more[g]) {
      assert Less(groups[g].id, groups[n].id);
      OtherGroupsStand(items, i, groups[g]);
    }
    assert items[..i + 1] == items[..i] + [items[i]];
    forall item | item in items[..i + 1] ensures exists g :: 0 <= g < |more| && more[g].id == item.id {
      if item in items[..i] {
        var g :| 0 <= g < |groups| && groups[g].id == item.id;
        assert more[g].id == item.id;
      } else {
        assert more[n].id == item.id;
      }
    }
  }

  /** The grouping loop over the sorted items. */
  method GroupItems(items: seq<Item>) returns (groups: seq<Group>)
    requires InOrder(items)
    ensures GroupsOf(items, groups)
  {
    groups := [];
    var i := 0;
    while i < |items|
      invariant i <= |items| && GroupsOf(items[..i], groups)
    {
      var n := |groups| - 1;
      if groups != [] && groups[n].id == items[i].id {
        JoiningGroups(items, i, groups);
        assert groups[n := groups[n]] == groups;
        if items[i].home !in groups[n].homes {
          groups := groups[n := Group(items[i].id, groups[n].homes + [items[i].home])];
        }
      } else {
        OpeningGroups(items, i, groups);
        groups := groups + [Group(items[i].id, [items[i].home])];
      }
      i := i + 1;
    }
    assert items[..i] == items;
  }

  predicate Listed(items: seq<Item>, id: string) { exists item :: item in items && item.id == id }

  /** A restricted listing is strictly sorted and shows exactly the identifiers it keeps; an
      unrestricted one shows every identifier of the walk. */
  method FilterList(w: World, resource: Resource, items: seq<Item>, scope: Option<set<string>>) returns (ids: seq<string>)
    ensures SortedBy(Less, ids)
    ensures forall id :: id in ids <==>
              Listed(items, id) && (scope.Some? ==> Keeps(w, resource, scope.value, id, HomesIn(items, id)))
  {
    hide Keeps, HomesIn, Less, SortItems;
    var sorted := SortItems(items);
    SortItemsSorts(items);
    if scope.None? {
      ids := seq(|sorted|, i requires 0 <= i < |sorted| => sorted[i].id);
      AllIds(items, sorted, ids);
      LessIsStrictOrder();
      ListingIsSorted(Less, ids);
      return Listing(Less, ids);
    }
    var groups := GroupItems(sorted);
    ids := [];
    var g := 0;
    while g < |groups|
      invariant g <= |groups| && SortedBy(Less, ids)
      invariant forall id :: id in ids ==> g > 0 && (id == groups[g - 1].id || Less(id, groups[g - 1].id))
      invariant forall k :: 0 <= k < g ==>
                  (groups[k].id in ids <==> Keeps(w, resource, scope.value, groups[k].id, HomesIn(items, groups[k].id)))
      invariant forall id :: id in ids ==> exists k :: 0 <= k < g && groups[k].id == id
    {
      var group := groups[g];
      HomesOfGroup(items, sorted, group);
      var keep := KeepGroup(w, resource, scope.value, group);
      ghost var before := ids;
      if keep {
        ids := ids + [group.id];
      }
      LessIsIrreflexive(group.id);
      forall id | id in before ensures Less(id, group.id) {
        if id != groups[g - 1].id {
          LessIsTransitive(id, groups[g - 1].id, group.id);
        }
      }
      g := g + 1;
    }
    assert forall id :: Listed(items, id) <==> exists k :: 0 <= k < |groups| && groups[k].id == id by {
      ListedAreGrouped(items, sorted, groups);
    }
  }

  lemma AllIds(items: seq<Item>, sorted: seq<Item>, ids: seq<string>)
    requires forall x :: x in sorted <==> x in items
    requires |ids| == |sorted| && forall i :: 0 <= i < |ids| ==> ids[i] == sorted[i].id
    ensures forall id :: id in ids <==> Listed(items, id)
  {
    forall id ensures id in ids <==> Listed(items, id) {
      if Listed(items, id) {
        var item :| item in items && item.id == id;
        var k :| 0 <= k < |sorted| && sorted[k] == item;
        assert ids[k] == id;
      }
      if id in ids {
        var k :| 0 <= k < |ids| && ids[k] == id;
        assert sorted[k] in items;
      }
    }
  }

  lemma ListedAreGrouped(items: seq<Item>, sorted: seq<Item>, groups: seq<Group>)
    requires GroupsOf(sorted, groups) && forall x :: x in sorted <==> x in items
    ensures forall id :: Listed(items, id) <==> exists k :: 0 <= k < |groups| && groups[k].id == id
  {
    forall k | 0 <= k < |groups| ensures Listed(items, groups[k].id) {
      assert IsGroup(sorted, groups[k]) && groups[k].homes[0] in groups[k].homes;
      assert Item(groups[k].id, groups[k].homes[0]) in items;
    }
  }

  lemma HomesOfGroup(items: seq<Item>, sorted: seq<Item>, group: Group)
    requires IsGroup(sorted, group) && forall x :: x in sorted <==> x in items
    ensures HomesIn(items, group.id) == set home | home in group.homes
  {
    forall home ensures home in HomesIn(items, group.id) <==> home in group.homes {
      if home in HomesIn(items, group.id) {
        var item :| item in items && item.id == group.id && item.home == home;
        assert item == Item(group.id, home);
      }
      if home in group.homes {
        assert Item(group.id, home) in items;
      }
    }
  }

  /** The decision for one identifier: its homes must be a single one. */
  method KeepGroup(w: World, resource: Resource, reachable: set<string>, group: Group) returns (keep: bool)
    requires forall i, j :: 0 <= i < j < |group.homes| ==> group.homes[i] != group.homes[j]
    ensures keep <==> Keeps(w, resource, reachable, group.id, set home | home in group.homes)
  {
    ghost var homes := set home | home in group.homes;
    if resource == Projects {
      return group.id in reachable;
    }
    if |group.homes| != 1 || group.homes[0].None? {
      NotOneHome(group.homes);
      return false;
    }
    var home := group.homes[0].value;
    assert homes == {Some(home)};
    if resource == Runs || resource == Milestones {
      var document := w.document(resource, Some(home), group.id);
      if document.None? {
        return false;
      }
      var projects;
      if resource == Runs {
        projects := ProjectIds(document.value);
      } else {
        projects := CollectMilestoneProjects(w, ProjectOf(home), document.value.suiteIds, document.value.runIds);
      }
      return AllWithin(WithHome(ProjectOf(home), projects), reachable);
    }
    return ProjectOf(home) in reachable;
  }

  lemma NotOneHome(homes: seq<Option<Parent>>)
    requires forall i, j :: 0 <= i < j < |homes| ==> homes[i] != homes[j]
    requires |homes| != 1 || homes[0].None?
    ensures forall home: Parent :: (set h | h in homes) != {Some(home)}
  {
    var all := set h | h in homes;
    forall home: Parent ensures all != {Some(home)} {
      assert |homes| == 0 ==> Some(home) !in all;
      assert |homes| >= 1 ==> homes[0] in all;
      assert |homes| >= 2 ==> homes[1] in all && homes[0] != homes[1];
    }
  }

  /// Listing and dereference
  /// -----------------------

  /** Serving a document needs it readable; a run or a milestone needs nothing more. */
  ghost predicate Consistent(w: World) {
    && (forall resource, home, id :: w.serves(resource, home, id) ==> w.document(resource, home, id).Some?)
    && (forall resource, home, id :: (resource == Runs || resource == Milestones) && w.document(resource, home, id).Some? ==>
          w.serves(resource, home, id))
  }

  /** The walk found the identifier at some of the homes resolving it finds: at all of them, or at
      those a query left. */
  ghost predicate FoundAmong(w: World, resource: Resource, items: seq<Item>, id: string) {
    if resource == Projects then HomesIn(items, id) == {None}
    else
      && (forall i, j :: 0 <= i < j < |w.homes(resource, id)| ==> w.homes(resource, id)[i] != w.homes(resource, id)[j])
      && HomesIn(items, id) <= set home | home in w.homes(resource, id) :: Some(home)
  }

  predicate OnlyHome(w: World, resource: Resource, id: string) {
    resource == Projects || |w.homes(resource, id)| == 1
  }

  /** The one document the identifier names can be read and served. */
  predicate Served(w: World, resource: Resource, id: string) {
    if resource == Projects then w.serves(Projects, None, id)
    else Resolve(w, resource, id).Ok? && w.serves(resource, Some(Resolve(w, resource, id).value), id)
  }

  /** Every project that governs the document. */
  function Governing(w: World, resource: Resource, id: string): seq<string> {
    if resource == Projects then [id]
    else
      match Resolve(w, resource, id)
      case Err(_) => []
      case Ok(home) => GoverningAt(w, resource, id, home)
  }

  function GoverningAt(w: World, resource: Resource, id: string, home: Parent): seq<string> {
    if resource == Runs || resource == Milestones then
      match w.document(resource, Some(home), id)
      case None => []
      case Some(document) => WithHome(ProjectOf(home), References(w, resource, ProjectOf(home), document))
    else [ProjectOf(home)]
  }

  lemma GuardMeans(w: World, auth: Auth, principal: Sessions.Principal, resource: Resource, id: string)
    requires Consistent(w)
    ensures GuardGet(w, auth, principal, resource, id).Ok?
       <==> Served(w, resource, id) && forall p :: p in Governing(w, resource, id) ==> Passes(auth, principal, p)
  {
    EveryMeansEach(auth, principal, Governing(w, resource, id));
  }

  /// Which projects those are
  /// ------------------------

  predicate LiesIn(home: Parent, project: string) {
    home == Project(project) || (home.Suite? && home.project == project)
  }

  /** A reference names the document its own project holds, and otherwise the one that a single home
      anywhere holds; one that names no document, or several, is skipped. */
  lemma ReferencesPreferTheHome(w: World, home: string, suite: string, run: string, p: string)
    ensures SuiteReference(w, home, suite) == Some(p)
       <==> if w.document(Suites, Some(Project(home)), suite).Some? then p == home
            else exists parent :: w.homes(Suites, suite) == [parent] && LiesIn(parent, p)
    ensures p in RunReference(w, home, run)
       <==> if w.document(Runs, Some(Project(home)), run).Some?
            then p in w.document(Runs, Some(Project(home)), run).value.projects
            else exists parent, document ::
                   w.homes(Runs, run) == [parent] && w.document(Runs, Some(parent), run) == Some(document) && p in document.projects
  {
    hide Listing, Less;
    var suites, runs := w.homes(Suites, suite), w.homes(Runs, run);
    assert |suites| == 1 ==> suites == [suites[0]] && (LiesIn(suites[0], p) <==> ProjectOf(suites[0]) == p);
    assert |runs| == 1 ==> runs == [runs[0]];
    forall document: Document ensures p in ProjectIds(document) <==> p in document.projects {
      NamedProjects(document, p);
    }
  }

  lemma NamedProjects(document: Document, p: string)
    ensures p in ProjectIds(document) <==> p in document.projects
  {
    LessIsStrictOrder();
    ListingIsSorted(Less, document.projects);
  }

  /** A run is governed by its home's project and the projects it names, a milestone by its home's and
      those its references reach, and everything else by its home's alone. */
  ghost predicate Governs(w: World, resource: Resource, home: Parent, document: Document, p: string) {
    || LiesIn(home, p)
    || (resource == Runs && p in document.projects)
    || (resource == Milestones && exists h :: LiesIn(home, h) && Reaches(w, h, document.suiteIds, document.runIds, p))
  }

  lemma GoverningAtIs(w: World, resource: Resource, id: string, home: Parent, p: string)
    requires resource != Projects && w.document(resource, Some(home), id).Some?
    ensures p in GoverningAt(w, resource, id, home) <==> Governs(w, resource, home, w.document(resource, Some(home), id).value, p)
  {
    hide Reaches, MilestoneProjects, ProjectIds;
    var document := w.document(resource, Some(home), id).value;
    NamedProjects(document, p);
    MilestoneProjectsAreReached(w, ProjectOf(home), document.suiteIds, document.runIds, p);
    assert forall h :: LiesIn(home, h) <==> h == ProjectOf(home);
  }

  /** A run or a milestone is kept where it can be read and every project that governs it is reachable;
      anything else where its home's project is. */
  lemma KeptByItsProjects(w: World, resource: Resource, reachable: set<string>, id: string, home: Parent)
    requires resource != Projects
    ensures KeepsAt(w, resource, reachable, id, home)
       <==> match w.document(resource, Some(home), id)
            case Some(document) => forall p :: Governs(w, resource, home, document, p) ==> p in reachable
            case None => resource != Runs && resource != Milestones && forall p :: LiesIn(home, p) ==> p in reachable
  {
    hide Governs, GoverningAt, References;
    match w.document(resource, Some(home), id)
    case None =>
      assert forall p :: LiesIn(home, p) <==> p == ProjectOf(home);
    case Some(document) =>
      KeepsWhereGoverned(w, resource, reachable, id, home);
      forall p ensures p in GoverningAt(w, resource, id, home) <==> Governs(w, resource, home, document, p) {
        GoverningAtIs(w, resource, id, home, p);
      }
  }

  /** The guard of a read lets exactly those pass who may read every project that governs the document,
      when it has one home and can be served there; a project is governed by itself. */
  lemma GuardedByItsProjects(w: World, auth: Auth, principal: Sessions.Principal, resource: Resource, id: string)
    requires Consistent(w)
    ensures GuardGet(w, auth, principal, resource, id).Ok?
       <==> if resource == Projects then w.serves(Projects, None, id) && Passes(auth, principal, id)
            else exists home ::
                   && w.homes(resource, id) == [home] && w.serves(resource, Some(home), id)
                   && forall p :: Governs(w, resource, home, w.document(resource, Some(home), id).value, p) ==> Passes(auth, principal, p)
  {
    hide Governs, GuardGet, GoverningAt, Passes;
    GuardMeans(w, auth, principal, resource, id);
    if resource != Projects && |w.homes(resource, id)| == 1 {
      var home := w.homes(resource, id)[0];
      if w.serves(resource, Some(home), id) {
        forall p ensures p in GoverningAt(w, resource, id, home)
                         <==> Governs(w, resource, home, w.document(resource, Some(home), id).value, p)
        {
          GoverningAtIs(w, resource, id, home, p);
        }
      }
    }
  }

  /** How a read is refused: by the grants for a project, and otherwise for having no home, or several,
      or a document that cannot be served, before any grant is looked at. */
  lemma GuardRefuses(w: World, auth: Auth, principal: Sessions.Principal, resource: Resource, id: string)
    requires Consistent(w) && GuardGet(w, auth, principal, resource, id).Err?
    ensures var e := GuardGet(w, auth, principal, resource, id).error;
            if resource == Projects then e == Unreadable <==> Passes(auth, principal, id)
            else
              && (e == NotFound <==> w.homes(resource, id) == [])
              && (e == Conflict <==> |w.homes(resource, id)| > 1)
              && (e == Unreadable <==> |w.homes(resource, id)| == 1 && !w.serves(resource, Some(w.homes(resource, id)[0]), id))
              && (e.Refused? ==> auth.required && !principal.systemAdmin)
  {
    EveryRefuses(auth, principal, [id]);
    EveryRefuses(auth, principal, Governing(w, resource, id));
    EveryMeansEach(auth, principal, [id]);
  }

  lemma {:induction false} EveryRefuses(auth: Auth, principal: Sessions.Principal, projects: seq<string>)
    ensures RequireEvery(auth, principal, projects, AuthStores.Viewer).Err? ==>
              RequireEvery(auth, principal, projects, AuthStores.Viewer).error.Refused? && auth.required && !principal.systemAdmin
  {
    if projects != [] {
      EveryRefuses(auth, principal, projects[1..]);
    }
  }

  lemma FoundHomes(w: World, resource: Resource, items: seq<Item>, id: string)
    requires resource != Projects && Listed(items, id) && FoundAmong(w, resource, items, id)
    ensures if OnlyHome(w, resource, id) then
              Resolve(w, resource, id).Ok? && HomesIn(items, id) == {Some(Resolve(w, resource, id).value)}
            else Resolve(w, resource, id) == Err(Conflict)
  {
    var homes := w.homes(resource, id);
    var item :| item in items && item.id == id;
    assert item.home in HomesIn(items, id);
    assert homes != [];
    if |homes| == 1 {
      assert HomesIn(items, id) == {Some(homes[0])};
    }
  }

  lemma KeepsMeans(w: World, resource: Resource, reachable: set<string>, items: seq<Item>, id: string)
    requires Listed(items, id) && FoundAmong(w, resource, items, id) && OnlyHome(w, resource, id)
    ensures Keeps(w, resource, reachable, id, HomesIn(items, id))
       <==> && (resource == Runs || resource == Milestones ==>
                  Resolve(w, resource, id).Ok? && w.document(resource, Some(Resolve(w, resource, id).value), id).Some?)
            && AllWithin(Governing(w, resource, id), reachable)
  {
    if resource != Projects {
      FoundHomes(w, resource, items, id);
    }
  }

  /** A restricted listing against a dereference, for any walk. An identifier with one home: whatever
      the listing keeps the guard lets through, as far as it can be read, and what the guard lets
      through is kept exactly when every governing project is spelled with its suffix. An identifier
      with several: the guard refuses it, and the listing keeps it exactly when the walk found one home
      and would keep it there. */
  lemma ListingAgreesWithDereference(w: World, auth: Auth, principal: Sessions.Principal, resource: Resource,
                                     items: seq<Item>, id: string)
    requires Consistent(w) && AuthStores.UsableFolders(auth.grants) && Scope(auth, principal).Some?
    requires Listed(items, id) && FoundAmong(w, resource, items, id)
    ensures var reachable := Scope(auth, principal).value;
            var kept := Keeps(w, resource, reachable, id, HomesIn(items, id));
            var guarded := GuardGet(w, auth, principal, resource, id);
            && (guarded.Ok? ==> OnlyHome(w, resource, id) && Served(w, resource, id))
            && (OnlyHome(w, resource, id) && kept && Served(w, resource, id) ==> guarded.Ok?)
            && (guarded.Ok? ==> (kept <==> forall p :: p in Governing(w, resource, id) ==> HasSuffix(p)))
            && (OnlyHome(w, resource, id) && kept && (resource == Runs || resource == Milestones) ==> Served(w, resource, id))
            && (!OnlyHome(w, resource, id) ==>
                  guarded == Err(Conflict)
                  && (kept <==> exists home: Parent ::
                        HomesIn(items, id) == {Some(home)} && KeepsAt(w, resource, reachable, id, home)))
  {
    var reachable := Scope(auth, principal).value;
    GuardMeans(w, auth, principal, resource, id);
    if OnlyHome(w, resource, id) {
      KeepsMeans(w, resource, reachable, items, id);
      forall p | p in Governing(w, resource, id)
        ensures p in reachable <==> Passes(auth, principal, p) && HasSuffix(p)
      {
        ScopeAgainstRole(auth, principal, p);
      }
    } else {
      FoundHomes(w, resource, items, id);
      forall home: Parent | HomesIn(items, id) == {Some(home)} ensures Some(home) in HomesIn(items, id) {
      }
    }
  }

  /** The listing shows the identifier, and what it shows can be served. */
  ghost predicate Shows(w: World, resource: Resource, reachable: set<string>, items: seq<Item>, id: string) {
    Keeps(w, resource, reachable, id, HomesIn(items, id)) && ServedWhereFound(w, resource, items, id)
  }

  ghost predicate ServedWhereFound(w: World, resource: Resource, items: seq<Item>, id: string) {
    if resource == Projects then w.serves(Projects, None, id)
    else exists home: Parent :: HomesIn(items, id) == {Some(home)} && w.serves(resource, Some(home), id)
  }

  lemma ServedAtTheOnlyHome(w: World, resource: Resource, items: seq<Item>, id: string)
    requires Listed(items, id) && FoundAmong(w, resource, items, id) && OnlyHome(w, resource, id)
    ensures ServedWhereFound(w, resource, items, id) <==> Served(w, resource, id)
  {
    if resource != Projects {
      FoundHomes(w, resource, items, id);
    }
  }

  /** With suffixed references listing and dereference agree for a caller exactly when what the listing
      shows has no other home. */
  lemma ListedExactlyWhenReadable(w: World, auth: Auth, principal: Sessions.Principal, resource: Resource,
                                  items: seq<Item>, id: string)
    requires Consistent(w) && AuthStores.UsableFolders(auth.grants) && Scope(auth, principal).Some?
    requires Listed(items, id) && FoundAmong(w, resource, items, id)
    requires forall p :: p in Governing(w, resource, id) ==> HasSuffix(p)
    ensures var shown := Shows(w, resource, Scope(auth, principal).value, items, id);
            var ok := GuardGet(w, auth, principal, resource, id).Ok?;
            (shown <==> ok) <==> (shown ==> OnlyHome(w, resource, id))
  {
    ListingAgreesWithDereference(w, auth, principal, resource, items, id);
    if OnlyHome(w, resource, id) {
      ServedAtTheOnlyHome(w, resource, items, id);
    }
  }

  /// Which walks agree for every caller
  /// ----------------------------------

  /** A project a grant can be recorded for under its own identifier. */
  predicate Grantable(project: string) { HasSuffix(project) && AuthStores.GrantFolder(project).Ok? }

  const READER := Sessions.Principal("u", false)

  /** A caller who may read exactly these projects. */
  function GrantsFor(projects: seq<string>): map<string, AuthStores.Grants> {
    map p | p in projects :: FolderName(p) := map["u" := AuthStores.Viewer]
  }

  lemma ReaderReaches(projects: seq<string>)
    requires forall p :: p in projects ==> Grantable(p)
    ensures AuthStores.UsableFolders(GrantsFor(projects)) && Scope(Auth(true, GrantsFor(projects)), READER).Some?
    ensures AllWithin(projects, Scope(Auth(true, GrantsFor(projects)), READER).value)
  {
    var auth := Auth(true, GrantsFor(projects));
    forall folder | folder in auth.grants
      ensures AuthStores.GrantFolder(FolderWireId(folder)) == Ok(folder)
    {
      var p :| p in projects && FolderName(p) == folder;
      FolderNamesInvert(p, folder);
    }
    forall p | p in projects ensures p in Scope(auth, READER).value {
      assert FolderName(p) in auth.grants;
      ScopeIsWhatIsHeld(auth, READER, p);
    }
  }

  /** The walk found one home that can be served, and the identifier has others. */
  ghost predicate HidesAmbiguity(w: World, resource: Resource, items: seq<Item>, id: string) {
    && !OnlyHome(w, resource, id)
    && exists home: Parent :: HomesIn(items, id) == {Some(home)} && w.serves(resource, Some(home), id)
  }

  /** Listing and dereference agree for every restricted caller exactly when the walk does not hide
      that an identifier is ambiguous: a single home it found and could serve is the only home. */
  lemma WalksAgreeExactly(w: World, resource: Resource, items: seq<Item>, id: string)
    requires Consistent(w) && Listed(items, id) && FoundAmong(w, resource, items, id)
    requires forall p :: p in Governing(w, resource, id) ==> HasSuffix(p)
    requires forall home, p :: home in w.homes(resource, id) && p in GoverningAt(w, resource, id, home) ==> Grantable(p)
    ensures AgreesForAll(w, resource, items, id) <==> !HidesAmbiguity(w, resource, items, id)
  {
    if HidesAmbiguity(w, resource, items, id) {
      var home: Parent :| HomesIn(items, id) == {Some(home)} && w.serves(resource, Some(home), id);
      NarrowedWalksHideAmbiguity(w, resource, items, id, home);
    } else {
      forall auth, principal | Restricted(auth, principal)
        ensures Shows(w, resource, Scope(auth, principal).value, items, id)
           <==> GuardGet(w, auth, principal, resource, id).Ok?
      {
        ListedExactlyWhenReadable(w, auth, principal, resource, items, id);
      }
    }
  }

  ghost predicate Restricted(auth: Auth, principal: Sessions.Principal) {
    AuthStores.UsableFolders(auth.grants) && Scope(auth, principal).Some?
  }

  ghost predicate AgreesForAll(w: World, resource: Resource, items: seq<Item>, id: string) {
    forall auth, principal :: Restricted(auth, principal) ==>
      (Shows(w, resource, Scope(auth, principal).value, items, id) <==> GuardGet(w, auth, principal, resource, id).Ok?)
  }

  /** Where the walk hides an ambiguity there is a caller who is shown the identifier and refused it. */
  lemma NarrowedWalksHideAmbiguity(w: World, resource: Resource, items: seq<Item>, id: string, home: Parent)
    requires Consistent(w) && Listed(items, id) && FoundAmong(w, resource, items, id) && !OnlyHome(w, resource, id)
    requires HomesIn(items, id) == {Some(home)} && w.serves(resource, Some(home), id)
    requires forall p :: p in GoverningAt(w, resource, id, home) ==> Grantable(p)
    ensures var auth := Auth(true, GrantsFor(GoverningAt(w, resource, id, home)));
            && Restricted(auth, READER)
            && Shows(w, resource, Scope(auth, READER).value, items, id)
            && GuardGet(w, auth, READER, resource, id) == Err(Conflict)
    ensures !AgreesForAll(w, resource, items, id)
  {
    hide GrantsFor, Scope, GoverningAt, KeepsAt, HomesIn, Resolve;
    var auth := Auth(true, GrantsFor(GoverningAt(w, resource, id, home)));
    ReaderReaches(GoverningAt(w, resource, id, home));
    FoundHomes(w, resource, items, id);
    assert Some(home) in HomesIn(items, id);
    KeepsWhereGoverned(w, resource, Scope(auth, READER).value, id, home);
    assert Restricted(auth, READER);
  }

  lemma KeepsWhereGoverned(w: World, resource: Resource, reachable: set<string>, id: string, home: Parent)
    requires w.document(resource, Some(home), id).Some?
    ensures KeepsAt(w, resource, reachable, id, home) <==> AllWithin(GoverningAt(w, resource, id, home), reachable)
  {
  }

  /** A walk that no query narrowed hides nothing. */
  lemma CompleteWalksHideNothing(w: World, resource: Resource, items: seq<Item>, id: string)
    requires Listed(items, id) && FoundAmong(w, resource, items, id)
    requires resource != Projects ==> HomesIn(items, id) == set home | home in w.homes(resource, id) :: Some(home)
    ensures !HidesAmbiguity(w, resource, items, id)
  {
    var homes := w.homes(resource, id);
    if resource != Projects && |homes| >= 2 {
      assert Some(homes[0]) in HomesIn(items, id) && Some(homes[1]) in HomesIn(items, id) && homes[0] != homes[1];
    } else if resource != Projects {
      FoundHomes(w, resource, items, id);
      var item :| item in items && item.id == id;
      assert item.home in HomesIn(items, id);
    }
  }

  const HERE := Project("checkout.json")
  const THERE := Project("payments.json")

  /** A world with one suite, held by two projects. */
  function TwoHomes(): World {
    World((resource, id) => [HERE, THERE], (resource, home, id) => Some(Stored([], [], [])), (resource, home, id) => true)
  }

  /** A suite held by two projects, of which a tag query left one: some caller is shown it and refused. */
  lemma ASuiteInTwoProjects()
    ensures var items := [Item("smoke.json", Some(HERE))];
            && FoundAmong(TwoHomes(), Suites, items, "smoke.json") && HidesAmbiguity(TwoHomes(), Suites, items, "smoke.json")
            && !AgreesForAll(TwoHomes(), Suites, items, "smoke.json")
  {
    hide Governing, AgreesForAll, Keeps, AuthStores.GrantFolder, HasSuffix;
    var w, items := TwoHomes(), [Item("smoke.json", Some(HERE))];
    assert items[0] in items && Listed(items, "smoke.json");
    assert HomesIn(items, "smoke.json") == {Some(HERE)};
    assert w.homes(Suites, "smoke.json") == [HERE, THERE] && HERE in [HERE, THERE];
    assert "checkout.json"[0] != "payments.json"[0];
    CheckoutFolder();
    assert GoverningAt(w, Suites, "smoke.json", HERE) == ["checkout.json"];
    NarrowedWalksHideAmbiguity(w, Suites, items, "smoke.json", HERE);
  }

  /// Reports and listings
  /// --------------------

  /** Whether a report may count a run: its home and every project it names are reachable. */
  predicate RunReachable(projects: Option<seq<string>>, home: string, reachable: seq<string>) {
    home in reachable && (projects.Some? ==> forall p :: p in projects.value ==> p in reachable)
  }

  /** Reports count a stored run exactly when a restricted listing keeps it at its home. */
  lemma ReportsAgreeWithListings(w: World, id: string, home: Parent, projects: Option<seq<string>>, reachable: seq<string>)
    requires w.document(Runs, Some(home), id).Some?
    requires w.document(Runs, Some(home), id).value.projects == if projects.Some? then projects.value else []
    ensures RunReachable(projects, ProjectOf(home), reachable)
       <==> KeepsAt(w, Runs, (set p | p in reachable), id, home)
  {
    var document := w.document(Runs, Some(home), id).value;
    var scope := set p | p in reachable;
    KeptByItsProjects(w, Runs, scope, id, home);
    assert LiesIn(home, ProjectOf(home));
    assert Governs(w, Runs, home, document, ProjectOf(home));
    forall p ensures Governs(w, Runs, home, document, p) <==> p == ProjectOf(home) || p in document.projects {
    }
  }
}
