/**
 Taking seeded accounts away again (`src/auth/seed.rs`): what a teardown removes,
 what it reports as kept, and that it undoes a seeding.
 */
module Unseed {
  import opened Wrappers
  import opened Accounts
  import opened AuthStores
  import opened Seed
  import opened Sorting
  import Layout

  datatype UnseedSpec = UnseedSpec(username: string, grants: seq<string>, removeAccount: bool)

  datatype KeptAccount = NoSuchAccount | KeepRequested | Vanished

  /** A grant still on the volume: orphaned by the removal, or not named by the call. */
  datatype KeptGrant = KeptGrant(project: string, orphaned: bool, role: Role)

  datatype UnseededAccount = UnseededAccount(
    username: string,
    id: Option<string>,
    accountRemoved: bool,
    accountKept: Option<KeptAccount>,
    removed: seq<NamedGrant>,
    kept: seq<KeptGrant>,
    absent: seq<string>)

  /// The loop over the named projects
  /// --------------------------------

  datatype Unseeding = Unseeding(grants: map<string, Grants>, removed: seq<NamedGrant>, absent: seq<string>,
                                 error: Option<StoreError>)

  function UnseedOne(u: Unseeding, id: string, project: string): Unseeding {
    match GrantFolder(project)
    case Err(e) => u.(error := Some(e))
    case Ok(folder) =>
      match RoleIn(u.grants, folder, id)
      case Some(role) =>
        u.(grants := WithoutRole(u.grants, folder, id), removed := u.removed + [NamedGrant(project, RoleName(role))])
      case None => u.(absent := u.absent + [project])
  }

  function UnseedFrom(u: Unseeding, id: string, projects: seq<string>): Unseeding
    decreases |projects|
  {
    if projects == [] || u.error.Some? then u else UnseedFrom(UnseedOne(u, id, projects[0]), id, projects[1..])
  }

  predicate Named(projects: seq<string>, folder: string) {
    exists p :: p in projects && GrantFolder(p) == Ok(folder)
  }

  lemma NamedFirst(projects: seq<string>, folder: string)
    requires projects != []
    ensures Named(projects, folder) <==> GrantFolder(projects[0]) == Ok(folder) || Named(projects[1..], folder)
  {
    assert projects == [projects[0]] + projects[1..];
  }

  /** How many of the reported grants lie in the folder. */
  function CountIn(removed: seq<NamedGrant>, folder: string): nat {
    if removed == [] then 0
    else
      var one := if GrantFolder(removed[|removed| - 1].project) == Ok(folder) then 1 else 0;
      CountIn(removed[..|removed| - 1], folder) + one
  }

  lemma OneProjectLoses(u: Unseeding, id: string, project: string, folder: string)
    requires UnseedOne(u, id, project).error.None?
    ensures var v := UnseedOne(u, id, project);
            var hit := GrantFolder(project) == Ok(folder);
            && GrantsAt(v.grants, folder) == (if hit then GrantsAt(u.grants, folder) - {id} else GrantsAt(u.grants, folder))
            && CountIn(v.removed, folder)
               == CountIn(u.removed, folder) + (if hit && RoleIn(u.grants, folder, id).Some? then 1 else 0)
  {
    var v := UnseedOne(u, id, project);
    if v.removed != u.removed {
      assert v.removed[..|v.removed| - 1] == u.removed;
    }
  }

  lemma NamesNothing(folder: string)
    ensures !Named([], folder)
  {
  }

  lemma OneRoleLess(u: Unseeding, id: string, project: string, folder: string)
    requires UnseedOne(u, id, project).error.None?
    ensures u.error.None?
    ensures RoleIn(UnseedOne(u, id, project).grants, folder, id).Some?
       <==> RoleIn(u.grants, folder, id).Some? && GrantFolder(project) != Ok(folder)
  {
  }

  /** The named projects lose the account's role, each is reported once when there was one, and
      every other grant stands. */
  lemma {:induction false} UnseedingTakesNamedRoles(u: Unseeding, id: string, projects: seq<string>, folder: string)
    requires u.error.None? && UnseedFrom(u, id, projects).error.None?
    ensures var v := UnseedFrom(u, id, projects);
            var hit := Named(projects, folder);
            && GrantsAt(v.grants, folder) == (if hit then GrantsAt(u.grants, folder) - {id} else GrantsAt(u.grants, folder))
            && CountIn(v.removed, folder)
               == CountIn(u.removed, folder) + (if hit && RoleIn(u.grants, folder, id).Some? then 1 else 0)
    decreases |projects|
  {
    hide UnseedOne, Named, CountIn, GrantFolder;
    if projects == [] {
      NamesNothing(folder);
    } else {
      var v := UnseedOne(u, id, projects[0]);
      NamedFirst(projects, folder);
      OneRoleLess(u, id, projects[0], folder);
      OneProjectLoses(u, id, projects[0], folder);
      UnseedingTakesNamedRoles(v, id, projects[1..], folder);
    }
  }

  lemma {:induction false} UnseedingFailsOnUnusableProjects(u: Unseeding, id: string, projects: seq<string>)
    requires u.error.None?
    ensures UnseedFrom(u, id, projects).error.None? <==> forall p :: p in projects ==> GrantFolder(p).Ok?
    decreases |projects|
  {
    if projects != [] {
      assert projects == [projects[0]] + projects[1..];
      if GrantFolder(projects[0]).Ok? {
        UnseedingFailsOnUnusableProjects(UnseedOne(u, id, projects[0]), id, projects[1..]);
      }
    }
  }

  lemma {:induction false} OnlyUnusableProjectsFail(u: Unseeding, id: string, projects: seq<string>)
    requires u.error in {None, Some(InvalidInput)}
    ensures UnseedFrom(u, id, projects).error in {None, Some(InvalidInput)}
    decreases |projects|
  {
    if projects != [] && u.error.None? {
      OnlyUnusableProjectsFail(UnseedOne(u, id, projects[0]), id, projects[1..]);
    }
  }

  /// What the report names
  /// ---------------------

  /** The role the teardown finds at an entry: what the account held, if the call names the folder there
      for the first time. */
  function Finds(grants: map<string, Grants>, id: string, projects: seq<string>, i: nat): Option<Role>
    requires i < |projects|
  {
    if GrantFolder(projects[i]).Ok? && forall j :: 0 <= j < i ==> GrantFolder(projects[j]) != GrantFolder(projects[i])
    then RoleIn(grants, GrantFolder(projects[i]).value, id)
    else None
  }

  predicate FindsFor(grants: map<string, Grants>, id: string, projects: seq<string>, p: string, found: Option<Role>) {
    exists i :: 0 <= i < |projects| && projects[i] == p && Finds(grants, id, projects, i) == found
  }

  lemma OneRoleStands(u: Unseeding, id: string, project: string, folder: string)
    requires UnseedOne(u, id, project).error.None?
    ensures RoleIn(UnseedOne(u, id, project).grants, folder, id)
         == if GrantFolder(project) == Ok(folder) then None else RoleIn(u.grants, folder, id)
  {
  }

  lemma FindsFromSecond(u: Unseeding, id: string, projects: seq<string>, i: nat)
    requires 0 < i < |projects| && UnseedOne(u, id, projects[0]).error.None?
    ensures Finds(u.grants, id, projects, i) == Finds(UnseedOne(u, id, projects[0]).grants, id, projects[1..], i - 1)
  {
    hide GrantFolder, UnseedOne, RoleIn;
    if GrantFolder(projects[i]).Ok? {
      OneRoleStands(u, id, projects[0], GrantFolder(projects[i]).value);
    }
    assert forall j :: 0 < j < |projects| ==> projects[1..][j - 1] == projects[j];
    if forall j :: 0 <= j < i - 1 ==> GrantFolder(projects[1..][j]) != GrantFolder(projects[1..][i - 1]) {
      assert forall j :: 0 < j < i ==> GrantFolder(projects[j]) != GrantFolder(projects[i]);
    }
  }

  lemma FindsForFirst(u: Unseeding, id: string, projects: seq<string>, p: string, found: Option<Role>)
    requires projects != [] && UnseedOne(u, id, projects[0]).error.None?
    ensures FindsFor(u.grants, id, projects, p, found)
       <==> (p == projects[0] && RoleAt(u.grants, id, p) == found)
            || FindsFor(UnseedOne(u, id, projects[0]).grants, id, projects[1..], p, found)
  {
    hide GrantFolder, UnseedOne, RoleIn;
    var after := UnseedOne(u, id, projects[0]).grants;
    assert Finds(u.grants, id, projects, 0) == RoleAt(u.grants, id, projects[0]);
    forall i | 0 < i < |projects|
      ensures projects[i] == projects[1..][i - 1] && Finds(u.grants, id, projects, i) == Finds(after, id, projects[1..], i - 1)
    {
      FindsFromSecond(u, id, projects, i);
    }
    if j :| 0 <= j < |projects[1..]| && projects[1..][j] == p && Finds(after, id, projects[1..], j) == found {
      assert projects[j + 1] == p && Finds(u.grants, id, projects, j + 1) == found;
    }
  }

  function RoleAt(grants: map<string, Grants>, id: string, project: string): Option<Role> {
    if GrantFolder(project).Ok? then RoleIn(grants, GrantFolder(project).value, id) else None
  }

  lemma OneProjectReports(u: Unseeding, id: string, project: string, p: string, role: Role)
    requires UnseedOne(u, id, project).error.None?
    ensures var v := UnseedOne(u, id, project);
            && (NamedGrant(p, RoleName(role)) in v.removed
                <==> NamedGrant(p, RoleName(role)) in u.removed || (p == project && RoleAt(u.grants, id, p) == Some(role)))
            && (p in v.absent <==> p in u.absent || (p == project && RoleAt(u.grants, id, p).None?))
            && |v.removed| + |v.absent| == |u.removed| + |u.absent| + 1
  {
    hide GrantFolder, WithoutRole, RoleIn;
  }

  /** The report names what was taken: each project under which a role was found, as the call named it and
      with the role the account held there. Every other naming is reported absent. */
  lemma {:induction false} ReportNamesWhatWasTaken(u: Unseeding, id: string, projects: seq<string>, p: string, role: Role)
    requires u.error.None? && UnseedFrom(u, id, projects).error.None?
    ensures var v := UnseedFrom(u, id, projects);
            && (NamedGrant(p, RoleName(role)) in v.removed
                <==> NamedGrant(p, RoleName(role)) in u.removed || FindsFor(u.grants, id, projects, p, Some(role)))
            && (p in v.absent <==> p in u.absent || FindsFor(u.grants, id, projects, p, None))
            && |v.removed| + |v.absent| == |u.removed| + |u.absent| + |projects|
    decreases |projects|
  {
    hide GrantFolder, UnseedOne, RoleIn, RoleName, RoleAt;
    if projects == [] {
      assert !FindsFor(u.grants, id, projects, p, None) && !FindsFor(u.grants, id, projects, p, Some(role));
    } else {
      OneRoleLess(u, id, projects[0], "");
      OneProjectReports(u, id, projects[0], p, role);
      ReportNamesWhatWasTaken(UnseedOne(u, id, projects[0]), id, projects[1..], p, role);
      FindsForFirst(u, id, projects, p, Some(role));
      FindsForFirst(u, id, projects, p, None);
    }
  }

  /// What a failed teardown leaves
  /// -----------------------------

  /** The projects the loop gets through: those before the first unusable one. */
  function BeforeUnusable(projects: seq<string>): seq<string> {
    if projects == [] || GrantFolder(projects[0]).Err? then [] else [projects[0]] + BeforeUnusable(projects[1..])
  }

  predicate HoldsIn(grants: map<string, Grants>, id: string, project: string) {
    GrantFolder(project).Ok? && RoleIn(grants, GrantFolder(project).value, id).Some?
  }

  /** A role a teardown took does not come back. */
  lemma {:induction false} RolesOnlyLeave(u: Unseeding, id: string, projects: seq<string>, folder: string)
    requires RoleIn(UnseedFrom(u, id, projects).grants, folder, id).Some?
    ensures RoleIn(u.grants, folder, id).Some?
    decreases |projects|
  {
    if projects != [] && u.error.None? {
      RolesOnlyLeave(UnseedOne(u, id, projects[0]), id, projects[1..], folder);
    }
  }

  lemma OneProjectTakesItsRole(u: Unseeding, id: string, project: string)
    requires GrantFolder(project).Ok?
    ensures RoleIn(UnseedOne(u, id, project).grants, GrantFolder(project).value, id).None?
    ensures !HoldsIn(u.grants, id, project) ==> UnseedOne(u, id, project).grants == u.grants
  {
  }

  /** The loop leaves every grant as it was exactly when the account held no role in a project it got through. */
  lemma {:induction false} GrantsStandExactly(u: Unseeding, id: string, projects: seq<string>)
    requires u.error.None?
    ensures UnseedFrom(u, id, projects).grants == u.grants
       <==> forall p :: p in BeforeUnusable(projects) ==> !HoldsIn(u.grants, id, p)
    decreases |projects|
  {
    hide GrantFolder, RoleIn;
    if projects != [] && GrantFolder(projects[0]).Ok? {
      var first, rest := projects[0], BeforeUnusable(projects[1..]);
      var v := UnseedOne(u, id, first);
      assert BeforeUnusable(projects) == [first] + rest && first in [first] + rest;
      OneProjectTakesItsRole(u, id, first);
      if HoldsIn(u.grants, id, first) {
        if UnseedFrom(v, id, projects[1..]).grants == u.grants {
          RolesOnlyLeave(v, id, projects[1..], GrantFolder(first).value);
        }
      } else {
        GrantsStandExactly(v, id, projects[1..]);
      }
    }
  }

  /// Unseeding an account
  /// --------------------

  predicate IsKept(grants: map<string, Grants>, id: string, orphaned: bool, k: KeptGrant) {
    && HoldsRole(grants, k.project, id)
    && RoleIn(grants, Layout.FolderName(k.project), id) == Some(k.role)
    && k.orphaned == orphaned
  }

  ghost predicate Keeps(grants: map<string, Grants>, id: string, orphaned: bool, kept: seq<KeptGrant>) {
    && (forall i, j :: 0 <= i < j < |kept| ==> Less(kept[i].project, kept[j].project))
    && (forall k :: k in kept <==> IsKept(grants, id, orphaned, k))
  }

  /** What one teardown does to a store with accounts `us` and grants `grants`. */
  ghost predicate Unseeds(us: seq<User>, grants: map<string, Grants>, spec: UnseedSpec,
                          vs: seq<User>, after: map<string, Grants>, r: Result<UnseededAccount, SeedError>)
  {
    match UserByName(us, spec.username)
    case None =>
      vs == us && after == grants && r == Ok(UnseededAccount(spec.username, None, false, Some(NoSuchAccount), [], [], []))
    case Some(account) =>
      if account.systemAdmin && spec.removeAccount then
        vs == us && after == grants && r == Err(Storage(InvalidInput))
      else
        var u := UnseedFrom(Unseeding(grants, [], [], None), account.id, spec.grants);
        && after == u.grants
        && match u.error
           case Some(e) => vs == us && r == Err(Storage(e))
           case None =>
             && vs == (if spec.removeAccount then DropUser(us, account.id) else us)
             && r.Ok?
             && r.value.(kept := []) == UnseededAccount(account.username, Some(account.id), spec.removeAccount,
                  if spec.removeAccount then None else Some(KeepRequested), u.removed, [], u.absent)
             && Keeps(after, account.id, spec.removeAccount, r.value.kept)
  }

  lemma NamedAccountIsHeld(us: seq<User>, username: string)
    requires UserByName(us, username).Some?
    ensures UserByName(us, username).value.id in ById(us)
  {
    NameLookup(us, username);
    var i :| 0 <= i < |us| && us[i] == UserByName(us, username).value && EqIgnoreCase(us[i].username, username);
    MapKeys(us, us[i].id);
  }

  method UnseedAccount(store: AuthStore, spec: UnseedSpec) returns (r: Result<UnseededAccount, SeedError>)
    requires store.Valid()
    modifies store
    ensures store.Valid()
    ensures Unseeds(old(store.users), old(store.grants), spec, store.users, store.grants, r)
  {
    hide UserByName, DropUser, ById, Keeps, GrantFolder, RoleIn, WithoutRole, RoleName;
    var found := UserByName(store.users, spec.username);
    if found.None? {
      return Ok(UnseededAccount(spec.username, None, false, Some(NoSuchAccount), [], [], []));
    }
    var account := found.value;
    if account.systemAdmin && spec.removeAccount {
      return Err(Storage(InvalidInput));
    }
    var removed, absent := [], [];
    var i := 0;
    while i < |spec.grants|
      invariant i <= |spec.grants| && store.Valid() && store.users == old(store.users)
      invariant UnseedFrom(Unseeding(store.grants, removed, absent, None), account.id, spec.grants[i..])
             == UnseedFrom(Unseeding(old(store.grants), [], [], None), account.id, spec.grants)
    {
      var project := spec.grants[i];
      assert spec.grants[i..][1..] == spec.grants[i + 1..];
      var held := store.RoleOf(project, account.id);
      if held.Err? {
        return Err(Storage(held.error));
      }
      if held.value.Some? {
        var _ := store.RemoveRole(project, account.id);
        removed := removed + [NamedGrant(project, RoleName(held.value.value))];
      } else {
        absent := absent + [project];
      }
      i := i + 1;
    }
    var accountRemoved, accountKept := false, Some(KeepRequested);
    if spec.removeAccount {
      NamedAccountIsHeld(store.users, spec.username);
      accountRemoved := store.RemoveUser(account.id);
      accountKept := if accountRemoved then None else Some(Vanished);
    }
    var kept := KeptGrants(store, account.id, accountRemoved);
    return Ok(UnseededAccount(account.username, Some(account.id), accountRemoved, accountKept, removed, kept, absent));
  }

  /** The closing loop: every grant the account still holds is reported as kept. */
  method KeptGrants(store: AuthStore, id: string, orphaned: bool) returns (kept: seq<KeptGrant>)
    requires store.Valid()
    ensures Keeps(store.grants, id, orphaned, kept)
  {
    hide GrantFolder, UsableFolders, Layout.FolderName, Layout.HasSuffix, Less;
    kept := [];
    var projects := store.ProjectsForUser(id);
    var i := 0;
    while i < |projects|
      invariant i <= |projects| && |kept| == i
      invariant forall k :: 0 <= k < i ==> kept[k].project == projects[k] && IsKept(store.grants, id, orphaned, kept[k])
    {
      assert projects[i] in projects;
      HeldProjectsAreUsable(store.grants, projects[i], id);
      var held := store.RoleOf(projects[i], id);
      if held.Ok? && held.value.Some? {
        kept := kept + [KeptGrant(projects[i], orphaned, held.value.value)];
      }
      i := i + 1;
    }
    forall k | IsKept(store.grants, id, orphaned, k) ensures k in kept {
      assert k.project in projects;
      var j :| 0 <= j < |projects| && projects[j] == k.project;
      assert kept[j] == k;
    }
  }

  lemma HeldProjectsAreUsable(grants: map<string, Grants>, project: string, id: string)
    requires UsableFolders(grants) && HoldsRole(grants, project, id)
    ensures GrantFolder(project) == Ok(Layout.FolderName(project))
  {
    var folder := Layout.FolderName(project);
    Layout.FolderNamesInvert(project, folder);
    assert folder in grants;
  }

  /// Teardown against what the account held
  /// --------------------------------------

  /** Every project the account held is either reported removed, once, or reported kept, never
      both; and nothing else is reported. */
  lemma RemovedAndKeptPartitionTheGrants(us: seq<User>, grants: map<string, Grants>, spec: UnseedSpec,
                                         vs: seq<User>, after: map<string, Grants>, r: Result<UnseededAccount, SeedError>,
                                         project: string)
    requires UsableFolders(grants) && Layout.HasSuffix(project)
    requires Unseeds(us, grants, spec, vs, after, r) && r.Ok? && r.value.id.Some?
    ensures var times := CountIn(r.value.removed, Layout.FolderName(project));
            var isKept := exists k :: k in r.value.kept && k.project == project;
            && times <= 1
            && (HoldsRole(grants, project, r.value.id.value) <==> times == 1 || isKept)
            && !(times == 1 && isKept)
  {
    var id, folder := r.value.id.value, Layout.FolderName(project);
    UnseedingTakesNamedRoles(Unseeding(grants, [], [], None), id, spec.grants, folder);
    var role := RoleIn(after, folder, id);
    if role.Some? {
      assert IsKept(after, id, spec.removeAccount, KeptGrant(project, spec.removeAccount, role.value));
    }
  }

  /** Once the account is gone, the grants reported as kept are exactly the store's orphans under
      its identifier. */
  lemma KeptGrantsAreTheOrphans(us: seq<User>, grants: map<string, Grants>, spec: UnseedSpec,
                                vs: seq<User>, after: map<string, Grants>, r: Result<UnseededAccount, SeedError>,
                                project: string, role: Role)
    requires Unseeds(us, grants, spec, vs, after, r) && r.Ok? && r.value.accountRemoved
    ensures KeptGrant(project, true, role) in r.value.kept <==> IsOrphan(vs, after, Orphan(project, r.value.id.value, role))
  {
    var id := r.value.id.value;
    DropUserFilters(us, id);
    LookupIsTheMap(vs, id);
    MapKeys(vs, id);
    assert IsKept(after, id, true, KeptGrant(project, true, role)) <==> IsOrphan(vs, after, Orphan(project, id, role));
  }

  /** What a teardown does to the account list: nothing for a name no account has; otherwise, when it
      succeeds, it removes exactly that account if asked to, and says so. Only an administrator's removal
      or an unusable project fails. */
  lemma TeardownOfAccounts(us: seq<User>, grants: map<string, Grants>, spec: UnseedSpec,
                           vs: seq<User>, after: map<string, Grants>, r: Result<UnseededAccount, SeedError>)
    requires Distinct(us) && Unseeds(us, grants, spec, vs, after, r)
    ensures r.Err? ==> r == Err(Storage(InvalidInput))
    ensures (forall u :: u in us ==> !EqIgnoreCase(u.username, spec.username)) ==>
              r.Ok? && r.value.id.None? && r.value.accountKept == Some(NoSuchAccount) && vs == us && after == grants
    ensures forall u :: u in us && EqIgnoreCase(u.username, spec.username) ==>
              && (r.Ok? <==> !(u.systemAdmin && spec.removeAccount) && forall p :: p in spec.grants ==> GrantFolder(p).Ok?)
              && (r.Ok? ==>
                    && r.value.id == Some(u.id) && r.value.username == u.username
                    && r.value.accountRemoved == spec.removeAccount
                    && r.value.accountKept == (if spec.removeAccount then None else Some(KeepRequested))
                    && (forall x :: x in vs <==> x in us && !(spec.removeAccount && x.id == u.id)))
  {
    hide UnseedFrom, Distinct, EqIgnoreCase, Keeps, DropUser;
    NameLookup(us, spec.username);
    if UserByName(us, spec.username).Some? {
      OnlyUnusableProjectsFail(Unseeding(grants, [], [], None), UserByName(us, spec.username).value.id, spec.grants);
    }
    forall u | u in us && EqIgnoreCase(u.username, spec.username)
      ensures UserByName(us, spec.username) == Some(u)
      ensures forall x :: x in DropUser(us, u.id) <==> x in us && x.id != u.id
      ensures UnseedFrom(Unseeding(grants, [], [], None), u.id, spec.grants).error.None?
              <==> forall p :: p in spec.grants ==> GrantFolder(p).Ok?
    {
      var i :| 0 <= i < |us| && us[i] == u;
      NameNamesOneAccount(us, spec.username, i);
      DropUserFilters(us, u.id);
      UnseedingFailsOnUnusableProjects(Unseeding(grants, [], [], None), u.id, spec.grants);
    }
  }

  /** A failed teardown leaves the accounts as it found them, and the grants exactly when it refused an
      administrator or the account held no role in the projects before the first unusable one. */
  lemma FailedTeardownLeavesDataExactly(us: seq<User>, grants: map<string, Grants>, spec: UnseedSpec,
                                        vs: seq<User>, after: map<string, Grants>, r: Result<UnseededAccount, SeedError>)
    requires Unseeds(us, grants, spec, vs, after, r) && r.Err?
    ensures vs == us && UserByName(us, spec.username).Some?
    ensures var account := UserByName(us, spec.username).value;
            after == grants
            <==> (account.systemAdmin && spec.removeAccount)
                 || forall p :: p in BeforeUnusable(spec.grants) ==> !HoldsIn(grants, account.id, p)
  {
    hide UnseedFrom, BeforeUnusable, HoldsIn, UserByName;
    var account := UserByName(us, spec.username).value;
    GrantsStandExactly(Unseeding(grants, [], [], None), account.id, spec.grants);
  }

  /** A role held in the first project is gone although the second project's name is refused. */
  lemma AFailedTeardownTakesARole(id: string)
    ensures var grants := map["checkout" := map[id := Owner]];
            var u := UnseedFrom(Unseeding(grants, [], [], None), id, ["checkout.json", ""]);
            u.error == Some(InvalidInput) && u.grants == map["checkout" := map[]] && u.grants != grants
  {
    hide GrantFolder;
    CheckoutGrant();
    NoFolderForNothing();
    var projects := ["checkout.json", ""];
    assert projects[1..] == [""] && projects[1..][1..] == [];
    var grants := map["checkout" := map[id := Owner]];
    assert id in grants["checkout"];
    var u := UnseedOne(Unseeding(grants, [], [], None), id, "checkout.json");
    assert u.grants == map["checkout" := map[]];
    var v := UnseedOne(u, id, "");
    assert UnseedFrom(v, id, []) == v;
    assert UnseedFrom(u, id, [""]) == UnseedFrom(v, id, [""][1..]);
  }

  lemma NoFolderForNothing()
    ensures GrantFolder("") == Err(InvalidInput)
  {
  }

  lemma {:induction false} DroppingTheNewcomerRestores(us: seq<User>, user: User)
    requires IndexOfId(us, user.id) == |us|
    ensures DropUser(us + [user], user.id) == us
  {
    if us != [] {
      assert (us + [user])[1..] == us[1..] + [user];
      DroppingTheNewcomerRestores(us[1..], user);
    }
  }

  lemma {:induction false} WantedIsNamed(specs: seq<NamedGrant>, projects: seq<string>, folder: string)
    requires forall g :: g in specs ==> g.project in projects
    ensures Wanted(specs, folder).Some? ==> Named(projects, folder)
  {
    if specs != [] {
      assert specs == [specs[0]] + specs[1..];
      WantedIsNamed(specs[1..], projects, folder);
    }
  }

  /** A role given to an account that held none is gone once its project is named. */
  lemma TeardownRestoresTheFolder(grants: map<string, Grants>, id: string, specs: seq<NamedGrant>, projects: seq<string>,
                                  folder: string)
    requires RoleIn(grants, folder, id).None?
    requires SeedFrom(Seeding(grants, [], None), id, specs).error.None?
    requires forall p :: p in projects ==> GrantFolder(p).Ok?
    requires forall g :: g in specs ==> g.project in projects
    ensures var seeded := SeedFrom(Seeding(grants, [], None), id, specs).grants;
            var u := UnseedFrom(Unseeding(seeded, [], [], None), id, projects);
            u.error.None? && GrantsAt(u.grants, folder) == GrantsAt(grants, folder)
  {
    hide SeedFrom, UnseedFrom, Wanted;
    var seeded := SeedFrom(Seeding(grants, [], None), id, specs).grants;
    UnseedingFailsOnUnusableProjects(Unseeding(seeded, [], [], None), id, projects);
    SeedingGivesWhatIsWanted(Seeding(grants, [], None), id, specs, folder);
    WantedIsNamed(specs, projects, folder);
    UnseedingTakesNamedRoles(Unseeding(seeded, [], [], None), id, projects, folder);
  }

  lemma NothingKeptMeansNothingHeld(grants: map<string, Grants>, id: string, orphaned: bool, kept: seq<KeptGrant>)
    requires Keeps(grants, id, orphaned, kept)
    ensures kept == [] <==> forall p :: !HoldsRole(grants, p, id)
  {
    if kept != [] {
      assert kept[0] in kept;
      assert HoldsRole(grants, kept[0].project, id);
    } else {
      forall p ensures !HoldsRole(grants, p, id) {
        var role := RoleIn(grants, Layout.FolderName(p), id);
        assert role.Some? ==> KeptGrant(p, orphaned, role.value) !in kept;
      }
    }
  }

  lemma SameGrantsSameRoles(grants: map<string, Grants>, after: map<string, Grants>, id: string)
    requires forall folder :: GrantsAt(after, folder) == GrantsAt(grants, folder)
    requires forall folder :: RoleIn(grants, folder, id).None?
    ensures forall folder, userId :: RoleIn(after, folder, userId) == RoleIn(grants, folder, userId)
    ensures forall p :: !HoldsRole(after, p, id)
  {
    forall folder, userId ensures RoleIn(after, folder, userId) == RoleIn(grants, folder, userId) {
      assert GrantsAt(after, folder) == GrantsAt(grants, folder);
    }
  }

  lemma SeededNewcomerIsFound(us: seq<User>, user: User, username: string)
    requires Distinct(us) && Insert(us, user).Ok? && EqIgnoreCase(user.username, username)
    ensures UserByName(us + [user], username) == Some(user) && DropUser(us + [user], user.id) == us
  {
    InsertRefines(us, user);
    NameNamesOneAccount(us + [user], username, |us|);
    DroppingTheNewcomerRestores(us, user);
  }

  lemma TeardownOfNewcomer(us: seq<User>, user: User, grants: map<string, Grants>, specs: seq<NamedGrant>,
                           teardown: UnseedSpec, vs: seq<User>, after: map<string, Grants>,
                           r: Result<UnseededAccount, SeedError>)
    requires Distinct(us) && Insert(us, user).Ok? && !user.systemAdmin
    requires forall folder :: RoleIn(grants, folder, user.id).None?
    requires SeedFrom(Seeding(grants, [], None), user.id, specs).error.None?
    requires EqIgnoreCase(user.username, teardown.username) && teardown.removeAccount
    requires forall p :: p in teardown.grants ==> GrantFolder(p).Ok?
    requires forall g :: g in specs ==> g.project in teardown.grants
    requires Unseeds(us + [user], SeedFrom(Seeding(grants, [], None), user.id, specs).grants, teardown, vs, after, r)
    ensures r.Ok? && r.value.accountRemoved && vs == us && Keeps(after, user.id, true, r.value.kept)
    ensures forall folder :: GrantsAt(after, folder) == GrantsAt(grants, folder)
  {
    var seeded := SeedFrom(Seeding(grants, [], None), user.id, specs).grants;
    SeededNewcomerIsFound(us, user, teardown.username);
    var u := UnseedFrom(Unseeding(seeded, [], [], None), user.id, teardown.grants);
    assert u.error.None? by {
      UnseedingFailsOnUnusableProjects(Unseeding(seeded, [], [], None), user.id, teardown.grants);
    }
    forall folder ensures GrantsAt(u.grants, folder) == GrantsAt(grants, folder) {
      TeardownRestoresTheFolder(grants, user.id, specs, teardown.grants, folder);
    }
  }

  /** A teardown empties grant files and removes none. */
  lemma {:induction false} UnseedingKeepsFiles(u: Unseeding, id: string, projects: seq<string>)
    ensures UnseedFrom(u, id, projects).grants.Keys == u.grants.Keys
    decreases |projects|
  {
    if projects != [] && u.error.None? {
      UnseedingKeepsFiles(UnseedOne(u, id, projects[0]), id, projects[1..]);
    }
  }

  /** The grant files come back too exactly when seeding created none. */
  lemma FilesAfterTeardown(us: seq<User>, user: User, grants: map<string, Grants>, specs: seq<NamedGrant>,
                           teardown: UnseedSpec, vs: seq<User>, after: map<string, Grants>,
                           r: Result<UnseededAccount, SeedError>)
    requires Distinct(us) && Insert(us, user).Ok? && !user.systemAdmin
    requires forall folder :: RoleIn(grants, folder, user.id).None?
    requires SeedFrom(Seeding(grants, [], None), user.id, specs).error.None?
    requires EqIgnoreCase(user.username, teardown.username) && teardown.removeAccount
    requires forall p :: p in teardown.grants ==> GrantFolder(p).Ok?
    requires forall g :: g in specs ==> g.project in teardown.grants
    requires Unseeds(us + [user], SeedFrom(Seeding(grants, [], None), user.id, specs).grants, teardown, vs, after, r)
    ensures after == grants <==> forall folder :: Wanted(specs, folder).Some? ==> folder in grants
  {
    hide SeedFrom, UnseedFrom, Wanted, Distinct, Insert, EqIgnoreCase;
    var seeded := SeedFrom(Seeding(grants, [], None), user.id, specs).grants;
    TeardownOfNewcomer(us, user, grants, specs, teardown, vs, after, r);
    SeededNewcomerIsFound(us, user, teardown.username);
    UnseedingKeepsFiles(Unseeding(seeded, [], [], None), user.id, teardown.grants);
    forall folder ensures folder in after <==> folder in grants || Wanted(specs, folder).Some? {
      SeedingGivesWhatIsWanted(Seeding(grants, [], None), user.id, specs, folder);
    }
    SameFilesSameGrants(grants, after);
  }

  lemma SameFilesSameGrants(grants: map<string, Grants>, after: map<string, Grants>)
    requires forall folder :: GrantsAt(after, folder) == GrantsAt(grants, folder)
    ensures after == grants <==> forall folder :: folder in after <==> folder in grants
  {
    if forall folder :: folder in after <==> folder in grants {
      forall folder | folder in after ensures after[folder] == grants[folder] {
        assert GrantsAt(after, folder) == GrantsAt(grants, folder);
      }
    }
  }

  /** Seeding one project in an empty store and tearing it down leaves an empty grant file. */
  lemma AnEmptyFileStays(newId: string, now: u64)
    ensures var spec := AccountSpec("viewer", false, [NamedGrant("checkout.json", "owner")]);
            var seeded := SeedOutcome([], map[], spec, newId, Some("hash"), now);
            var u := UnseedFrom(Unseeding(seeded.grants, [], [], None), newId, ["checkout.json"]);
            && seeded.result.Ok? && u.error.None? && u.grants == map["checkout" := map[]] && u.grants != map[]
  {
    hide ParseRole, GrantFolder;
    CheckoutGrant();
    OwnerIsARole();
    var g := NamedGrant("checkout.json", "owner");
    var start := Seeding(map[], [], None);
    var seeded := SeedOne(start, newId, g);
    assert [g][1..] == [];
    assert SeedFrom(start, newId, [g]) == SeedFrom(seeded, newId, []) == seeded;
    assert seeded.grants == map["checkout" := map[newId := Owner]];
    var u := UnseedOne(Unseeding(seeded.grants, [], [], None), newId, "checkout.json");
    assert ["checkout.json"][1..] == [];
    assert UnseedFrom(Unseeding(seeded.grants, [], [], None), newId, ["checkout.json"]) == u;
    assert u.grants == map["checkout" := map[]];
  }

  lemma CheckoutGrant()
    ensures GrantFolder("checkout.json") == Ok("checkout")
  {
    assert Layout.FolderName("checkout.json") == "checkout" by {
      assert "checkout.json"[8..] == ".json" && "checkout.json"[..8] == "checkout";
    }
    assert "checkout" + Layout.SUFFIX == "checkout.json";
    assert Layout.ValidComponent("checkout") && Layout.ValidComponent("checkout.json");
  }

  lemma OwnerIsARole()
    ensures ParseRole("owner") == Ok(Owner)
  {
    hide ParseRole;
    RoleNamesReadBack(Owner);
  }

  /** Tearing down an account that seeding created, with every seeded project named, gives back the
      account list and every role, provided the minted identifier was fresh; and it gives back the
      grant files exactly when every project asked for had one before. */
  lemma UnseedingUndoesSeeding(us: seq<User>, grants: map<string, Grants>, spec: AccountSpec,
                               newId: string, hashed: Option<string>, now: u64,
                               teardown: UnseedSpec, vs: seq<User>, after: map<string, Grants>,
                               r: Result<UnseededAccount, SeedError>)
    requires Distinct(us) && UserByName(us, spec.username).None? && !spec.systemAdmin
    requires forall folder :: RoleIn(grants, folder, newId).None?
    requires SeedOutcome(us, grants, spec, newId, hashed, now).result.Ok?
    requires EqIgnoreCase(spec.username, teardown.username) && teardown.removeAccount
    requires forall p :: p in teardown.grants ==> GrantFolder(p).Ok?
    requires forall g :: g in spec.grants ==> g.project in teardown.grants
    requires var seeded := SeedOutcome(us, grants, spec, newId, hashed, now);
             Unseeds(seeded.users, seeded.grants, teardown, vs, after, r)
    ensures r.Ok? && r.value.accountRemoved && r.value.kept == []
    ensures vs == us
    ensures forall folder, userId :: RoleIn(after, folder, userId) == RoleIn(grants, folder, userId)
    ensures after == grants <==> forall folder :: Wanted(spec.grants, folder).Some? ==> folder in grants
  {
    var user := User(newId, spec.username, hashed.value, spec.systemAdmin, now, []);
    FilesAfterTeardown(us, user, grants, spec.grants, teardown, vs, after, r);
    TeardownOfNewcomer(us, user, grants, spec.grants, teardown, vs, after, r);
    SameGrantsSameRoles(grants, after, newId);
    NothingKeptMeansNothingHeld(after, newId, true, r.value.kept);
  }

  /// The read-only probe
  /// -------------------

  datatype AccountReport = AccountReport(
    username: string,
    present: bool,
    systemAdmin: bool,
    grantsPresent: seq<NamedGrant>,
    grantsAbsent: seq<string>,
    orphans: seq<Orphan>)

  datatype Probe = Probe(present: seq<NamedGrant>, absent: seq<string>, error: Option<StoreError>)

  function ProbeOne(p: Probe, grants: map<string, Grants>, id: string, project: string): Probe {
    match GrantFolder(project)
    case Err(e) => p.(error := Some(e))
    case Ok(folder) =>
      match RoleIn(grants, folder, id)
      case Some(role) => p.(present := p.present + [NamedGrant(project, RoleName(role))])
      case None => p.(absent := p.absent + [project])
  }

  function ProbeFrom(p: Probe, grants: map<string, Grants>, id: string, projects: seq<string>): Probe
    decreases |projects|
  {
    if projects == [] || p.error.Some? then p
    else ProbeFrom(ProbeOne(p, grants, id, projects[0]), grants, id, projects[1..])
  }

  method ReportAccount(store: AuthStore, username: string, projects: seq<string>) returns (r: Result<AccountReport, SeedError>)
    ensures match UserByName(store.users, username)
            case None =>
              r.Ok? && r.value.(orphans := []) == AccountReport(username, false, false, [], projects, [])
            case Some(account) =>
              var p := ProbeFrom(Probe([], [], None), store.grants, account.id, projects);
              match p.error
              case Some(e) => r == Err(Storage(e))
              case None =>
                r.Ok? && r.value.(orphans := [])
                         == AccountReport(account.username, true, account.systemAdmin, p.present, p.absent, [])
    ensures r.Ok? ==> SortedBy(OrphanLess, r.value.orphans)
                      && forall o :: o in r.value.orphans <==> IsOrphan(store.users, store.grants, o)
  {
    var orphans := store.OrphanGrants();
    var found := UserByName(store.users, username);
    if found.None? {
      return Ok(AccountReport(username, false, false, [], projects, orphans));
    }
    var account := found.value;
    var present, absent := [], [];
    var i := 0;
    while i < |projects|
      invariant i <= |projects|
      invariant ProbeFrom(Probe(present, absent, None), store.grants, account.id, projects[i..])
             == ProbeFrom(Probe([], [], None), store.grants, account.id, projects)
    {
      assert projects[i..][1..] == projects[i + 1..];
      var held := store.RoleOf(projects[i], account.id);
      if held.Err? {
        return Err(Storage(held.error));
      }
      if held.value.Some? {
        present := present + [NamedGrant(projects[i], RoleName(held.value.value))];
      } else {
        absent := absent + [projects[i]];
      }
      i := i + 1;
    }
    return Ok(AccountReport(account.username, true, account.systemAdmin, present, absent, orphans));
  }

  predicate DistinctFolders(projects: seq<string>) {
    forall i, j :: 0 <= i < j < |projects| ==> GrantFolder(projects[i]) != GrantFolder(projects[j])
  }

  lemma OtherFoldersKeepTheirRoles(u: Unseeding, id: string, project: string, folder: string)
    requires GrantFolder(project) != Ok(folder)
    ensures RoleIn(UnseedOne(u, id, project).grants, folder, id) == RoleIn(u.grants, folder, id)
  {
  }

  /** The probe foretells a teardown: asked about distinct projects, it reports as present and absent
      exactly what the teardown then reports as removed and absent. */
  lemma {:induction false} ProbeForetellsTeardown(u: Unseeding, p: Probe, grants: map<string, Grants>, id: string,
                                                  projects: seq<string>)
    requires u.removed == p.present && u.absent == p.absent && u.error == p.error
    requires DistinctFolders(projects)
    requires forall q :: q in projects && GrantFolder(q).Ok? ==>
               RoleIn(u.grants, GrantFolder(q).value, id) == RoleIn(grants, GrantFolder(q).value, id)
    ensures var v, q := UnseedFrom(u, id, projects), ProbeFrom(p, grants, id, projects);
            v.removed == q.present && v.absent == q.absent && v.error == q.error
    decreases |projects|
  {
    if projects != [] && u.error.None? {
      var v := UnseedOne(u, id, projects[0]);
      forall q | q in projects[1..] && GrantFolder(q).Ok?
        ensures RoleIn(v.grants, GrantFolder(q).value, id) == RoleIn(grants, GrantFolder(q).value, id)
      {
        var k :| 0 <= k < |projects[1..]| && projects[1..][k] == q;
        assert GrantFolder(projects[0]) != GrantFolder(projects[k + 1]);
        OtherFoldersKeepTheirRoles(u, id, projects[0], GrantFolder(q).value);
      }
      assert projects[0] in projects;
      ProbeForetellsTeardown(v, ProbeOne(p, grants, id, projects[0]), grants, id, projects[1..]);
    }
  }
}
