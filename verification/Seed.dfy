/**
 Seeding the demo accounts and taking them away again (`src/auth/seed.rs`).

 The freshly minted identifier, the clock and the outcome of hashing the password
 are parameters.
 */
module Seed {
  import opened Wrappers
  import opened Accounts
  import opened AuthStores
  import opened Sorting
  import Layout
  import Text

  datatype SeedError = Storage(error: StoreError) | HashFailed | UnknownRole(name: string)

  datatype NamedGrant = NamedGrant(project: string, role: string)

  datatype AccountSpec = AccountSpec(username: string, systemAdmin: bool, grants: seq<NamedGrant>)

  datatype SeededAccount = SeededAccount(id: string, username: string, created: bool, added: seq<NamedGrant>)

  function WireRole(name: string): string { Text.LowerAll(Text.Trim(name)) }

  function ParseRole(name: string): Result<Role, SeedError> {
    var wire := WireRole(name);
    if wire == "viewer" then Ok(Viewer)
    else if wire == "editor" then Ok(Editor)
    else if wire == "owner" then Ok(Owner)
    else Err(UnknownRole(name))
  }

  function RoleName(role: Role): string {
    match role
    case Viewer => "viewer"
    case Editor => "editor"
    case Owner => "owner"
  }

  /** A role is read from its name, whatever its case and the spaces around it; no other name is one. */
  lemma RolesAreRead(name: string, role: Role)
    ensures ParseRole(name) == Ok(role)
       <==> EqIgnoreCase(Text.Trim(name), match role case Viewer => "viewer" case Editor => "editor" case Owner => "owner")
    ensures ParseRole(name).Err? ==> ParseRole(name) == Err(UnknownRole(name))
  {
    hide Text.Trim;
    var trimmed := Text.Trim(name);
    Text.LowerAllIs(trimmed);
    SpelledLower("viewer", trimmed);
    SpelledLower("editor", trimmed);
    SpelledLower("owner", trimmed);
  }

  lemma SpelledLower(wire: string, s: string)
    requires forall i :: 0 <= i < |wire| ==> 'a' <= wire[i] <= 'z'
    ensures Text.LowerAll(s) == wire <==> EqIgnoreCase(s, wire)
  {
    hide Text.LowerAll;
    Text.LowerAllIs(s);
    assert forall i :: 0 <= i < |wire| ==> Text.LowerChar(wire[i]) == wire[i];
  }

  /** The name a role is reported under reads back as the role. */
  lemma RoleNamesReadBack(role: Role)
    ensures ParseRole(RoleName(role)) == Ok(role)
    ensures forall name :: ParseRole(name) == Ok(role) ==> WireRole(name) == RoleName(role)
  {
    var name := RoleName(role);
    assert forall i :: 0 <= i < |name| ==> 'a' <= name[i] <= 'z';
    assert "" + name + "" == name;
    Text.TrimTakesTheSpaces("", name, "");
    RolesAreRead(name, role);
  }

  /// The loop over the grants to record
  /// ----------------------------------

  datatype Seeding = Seeding(grants: map<string, Grants>, added: seq<NamedGrant>, error: Option<SeedError>)

  function SeedOne(s: Seeding, id: string, g: NamedGrant): Seeding {
    match ParseRole(g.role)
    case Err(e) => s.(error := Some(e))
    case Ok(role) =>
      match GrantFolder(g.project)
      case Err(e) => s.(error := Some(Storage(e)))
      case Ok(folder) =>
        if RoleIn(s.grants, folder, id) == Some(role) then s
        else s.(grants := WithRole(s.grants, folder, id, role),
                added := s.added + [NamedGrant(g.project, WireRole(g.role))])
  }

  /** The first failing entry ends the loop; what was recorded before it stays. */
  function SeedFrom(s: Seeding, id: string, specs: seq<NamedGrant>): Seeding
    decreases |specs|
  {
    if specs == [] || s.error.Some? then s else SeedFrom(SeedOne(s, id, specs[0]), id, specs[1..])
  }

  predicate UsableSpec(g: NamedGrant) { ParseRole(g.role).Ok? && GrantFolder(g.project).Ok? }

  lemma {:induction false} SeedingFailsOnUnusableEntries(s: Seeding, id: string, specs: seq<NamedGrant>)
    requires s.error.None?
    ensures SeedFrom(s, id, specs).error.None? <==> forall g :: g in specs ==> UsableSpec(g)
    decreases |specs|
  {
    if specs != [] {
      assert specs == [specs[0]] + specs[1..];
      if UsableSpec(specs[0]) {
        SeedingFailsOnUnusableEntries(SeedOne(s, id, specs[0]), id, specs[1..]);
      }
    }
  }

  /** The first unusable entry decides the error, and what was recorded before it stays recorded. */
  lemma {:induction false} FirstUnusableEntryFails(s: Seeding, id: string, specs: seq<NamedGrant>, i: nat)
    requires s.error.None? && i < |specs| && !UsableSpec(specs[i])
    requires forall j :: 0 <= j < i ==> UsableSpec(specs[j])
    ensures var after := SeedFrom(s, id, specs);
            && after.error == Some(if ParseRole(specs[i].role).Err? then UnknownRole(specs[i].role) else Storage(InvalidInput))
            && after.grants == SeedFrom(s, id, specs[..i]).grants
    decreases |specs|
  {
    hide WithRole, RoleIn, WireRole;
    if i == 0 {
      assert specs[..0] == [];
    } else {
      assert specs[..i][0] == specs[0] && specs[..i][1..] == specs[1..][..i - 1];
      assert forall j :: 0 <= j < i - 1 ==> specs[1..][j] == specs[j + 1];
      FirstUnusableEntryFails(SeedOne(s, id, specs[0]), id, specs[1..], i - 1);
    }
  }

  function Asked(g: NamedGrant, folder: string): Option<Role> {
    if ParseRole(g.role).Ok? && GrantFolder(g.project) == Ok(folder) then Some(ParseRole(g.role).value) else None
  }

  /** The last role asked for in the folder. */
  function Wanted(specs: seq<NamedGrant>, folder: string): Option<Role> {
    if specs == [] then None
    else
      match Wanted(specs[1..], folder)
      case Some(role) => Some(role)
      case None => Asked(specs[0], folder)
  }

  function Settled(held: Grants, id: string, wanted: Option<Role>): Grants {
    match wanted
    case Some(role) => held[id := role]
    case None => held
  }

  lemma OneEntrySettles(s: Seeding, id: string, g: NamedGrant, folder: string)
    requires SeedOne(s, id, g).error.None?
    ensures var after := SeedOne(s, id, g).grants;
            && GrantsAt(after, folder) == Settled(GrantsAt(s.grants, folder), id, Asked(g, folder))
            && (folder in after <==> folder in s.grants || Asked(g, folder).Some?)
  {
  }

  /** After seeding the account holds what was asked for last, and every other grant stands. */
  lemma {:induction false} SeedingGivesWhatIsWanted(s: Seeding, id: string, specs: seq<NamedGrant>, folder: string)
    requires s.error.None? && SeedFrom(s, id, specs).error.None?
    ensures var after := SeedFrom(s, id, specs).grants;
            && GrantsAt(after, folder) == Settled(GrantsAt(s.grants, folder), id, Wanted(specs, folder))
            && (folder in after <==> folder in s.grants || Wanted(specs, folder).Some?)
    decreases |specs|
  {
    if specs != [] && s.error.None? {
      var t := SeedOne(s, id, specs[0]);
      OneEntrySettles(s, id, specs[0], folder);
      SeedingGivesWhatIsWanted(t, id, specs[1..], folder);
    }
  }

  /** What the account holds in the folder once the first entries are recorded. */
  function HeldAfterFirst(s: Seeding, id: string, specs: seq<NamedGrant>, i: nat, folder: string): Option<Role>
    requires i <= |specs|
  {
    var wanted := Wanted(specs[..i], folder);
    if wanted.Some? then wanted else RoleIn(s.grants, folder, id)
  }

  /** The entry asks for another role than the account holds by then. */
  predicate Changes(s: Seeding, id: string, specs: seq<NamedGrant>, i: nat, role: Role)
    requires i < |specs|
  {
    && GrantFolder(specs[i].project).Ok? && ParseRole(specs[i].role) == Ok(role)
    && HeldAfterFirst(s, id, specs, i, GrantFolder(specs[i].project).value) != Some(role)
  }

  lemma HeldFromSecond(s: Seeding, id: string, specs: seq<NamedGrant>, i: nat, folder: string)
    requires 0 < i <= |specs| && SeedOne(s, id, specs[0]).error.None?
    ensures HeldAfterFirst(s, id, specs, i, folder) == HeldAfterFirst(SeedOne(s, id, specs[0]), id, specs[1..], i - 1, folder)
  {
    hide GrantFolder, ParseRole, SeedOne;
    OneEntrySettles(s, id, specs[0], folder);
    assert specs[..i][0] == specs[0] && specs[..i][1..] == specs[1..][..i - 1];
  }

  /** The report names each change and nothing else: the project as it was asked for, and the role. */
  lemma {:induction false} AddedNamesChanges(s: Seeding, id: string, specs: seq<NamedGrant>, project: string, role: Role)
    requires s.error.None? && SeedFrom(s, id, specs).error.None?
    ensures NamedGrant(project, RoleName(role)) in SeedFrom(s, id, specs).added
       <==> NamedGrant(project, RoleName(role)) in s.added
            || exists i :: 0 <= i < |specs| && specs[i].project == project && Changes(s, id, specs, i, role)
    decreases |specs|
  {
    hide GrantFolder, ParseRole, WireRole, HeldAfterFirst, WithRole, RoleName;
    if specs != [] {
      var t := SeedOne(s, id, specs[0]);
      OneEntryReports(s, id, specs[0], project, role);
      AddedNamesChanges(t, id, specs[1..], project, role);
      forall i | 0 < i < |specs| ensures Changes(s, id, specs, i, role) <==> Changes(t, id, specs[1..], i - 1, role) {
        if GrantFolder(specs[i].project).Ok? {
          HeldFromSecond(s, id, specs, i, GrantFolder(specs[i].project).value);
        }
      }
      FirstChanges(s, id, specs, role);
      ShiftedChanges(s, t, id, specs, project, role);
    }
  }

  lemma ShiftedChanges(s: Seeding, t: Seeding, id: string, specs: seq<NamedGrant>, project: string, role: Role)
    requires specs != []
    requires forall i :: 0 < i < |specs| ==> (Changes(s, id, specs, i, role) <==> Changes(t, id, specs[1..], i - 1, role))
    ensures (exists i :: 0 <= i < |specs| && specs[i].project == project && Changes(s, id, specs, i, role))
       <==> (specs[0].project == project && Changes(s, id, specs, 0, role))
            || exists i :: 0 <= i < |specs[1..]| && specs[1..][i].project == project && Changes(t, id, specs[1..], i, role)
  {
    hide Changes;
    if j :| 0 <= j < |specs[1..]| && specs[1..][j].project == project && Changes(t, id, specs[1..], j, role) {
      assert specs[j + 1] == specs[1..][j] && Changes(s, id, specs, j + 1, role);
    }
    if i :| 0 < i < |specs| && specs[i].project == project && Changes(s, id, specs, i, role) {
      assert specs[1..][i - 1] == specs[i] && Changes(t, id, specs[1..], i - 1, role);
    }
  }

  lemma FirstChanges(s: Seeding, id: string, specs: seq<NamedGrant>, role: Role)
    requires specs != []
    ensures Changes(s, id, specs, 0, role)
       <==> && GrantFolder(specs[0].project).Ok? && ParseRole(specs[0].role) == Ok(role)
            && RoleIn(s.grants, GrantFolder(specs[0].project).value, id) != Some(role)
  {
    hide GrantFolder, ParseRole;
    assert specs[..0] == [];
  }

  lemma OneEntryReports(s: Seeding, id: string, g: NamedGrant, project: string, role: Role)
    requires s.error.None? && SeedOne(s, id, g).error.None?
    ensures NamedGrant(project, RoleName(role)) in SeedOne(s, id, g).added
       <==> NamedGrant(project, RoleName(role)) in s.added
            || (g.project == project && ParseRole(g.role) == Ok(role)
                && RoleIn(s.grants, GrantFolder(g.project).value, id) != Some(role))
  {
    hide GrantFolder, ParseRole, WireRole, RoleIn, WithRole, RoleName;
    RoleNamesReadBack(ParseRole(g.role).value);
    RoleNamesReadBack(role);
  }

  /** Every entry asks for the role its project ends up with. */
  predicate Consistent(entries: seq<NamedGrant>, specs: seq<NamedGrant>) {
    forall g :: g in entries && UsableSpec(g) ==> Asked(g, GrantFolder(g.project).value) == Wanted(specs, GrantFolder(g.project).value)
  }

  ghost predicate HoldsWanted(grants: map<string, Grants>, id: string, specs: seq<NamedGrant>) {
    forall folder :: Wanted(specs, folder).Some? ==> RoleIn(grants, folder, id) == Wanted(specs, folder)
  }

  lemma {:induction false} WantedCoversEntries(specs: seq<NamedGrant>, g: NamedGrant)
    requires g in specs && UsableSpec(g)
    ensures Wanted(specs, GrantFolder(g.project).value).Some?
  {
    if g != specs[0] {
      assert specs == [specs[0]] + specs[1..];
      WantedCoversEntries(specs[1..], g);
    }
  }

  /** On a store that already holds what is wanted, the loop reports nothing exactly when no
      project is asked for twice with different roles; it then writes nothing. */
  lemma {:induction false} ReseedingAddsNothing(s: Seeding, id: string, specs: seq<NamedGrant>, entries: seq<NamedGrant>)
    requires HoldsWanted(s.grants, id, specs) && s.error.None?
    requires forall g :: g in entries ==> g in specs && UsableSpec(g)
    ensures |s.added| <= |SeedFrom(s, id, entries).added|
    ensures SeedFrom(s, id, entries).added == s.added <==> Consistent(entries, specs)
    ensures Consistent(entries, specs) ==> SeedFrom(s, id, entries) == s
  {
    if entries != [] {
      var g := entries[0];
      assert entries == [g] + entries[1..];
      WantedCoversEntries(specs, g);
      var t := SeedOne(s, id, g);
      if Asked(g, GrantFolder(g.project).value) == Wanted(specs, GrantFolder(g.project).value) {
        assert t == s;
        ReseedingAddsNothing(s, id, specs, entries[1..]);
      } else {
        AddedGrows(t, id, entries[1..]);
      }
    }
  }

  lemma {:induction false} AddedGrows(s: Seeding, id: string, specs: seq<NamedGrant>)
    ensures |s.added| <= |SeedFrom(s, id, specs).added|
    decreases |specs|
  {
    if specs != [] && s.error.None? {
      AddedGrows(SeedOne(s, id, specs[0]), id, specs[1..]);
    }
  }

  /** Seeding a store twice leaves the grants the first run left. */
  lemma ReseedingRestores(s: Seeding, id: string, specs: seq<NamedGrant>)
    requires s.error.None? && SeedFrom(s, id, specs).error.None?
    ensures var first := SeedFrom(s, id, specs);
            var again := SeedFrom(Seeding(first.grants, [], None), id, specs);
            && again.error.None? && again.grants == first.grants
            && (again.added == [] <==> Consistent(specs, specs))
  {
    hide SeedFrom, Wanted, Asked;
    var first := SeedFrom(s, id, specs);
    var t := Seeding(first.grants, [], None);
    SeedingFailsOnUnusableEntries(s, id, specs);
    SeedingFailsOnUnusableEntries(t, id, specs);
    forall folder
      ensures folder in SeedFrom(t, id, specs).grants <==> folder in first.grants
      ensures GrantsAt(SeedFrom(t, id, specs).grants, folder) == GrantsAt(first.grants, folder)
      ensures Wanted(specs, folder).Some? ==> RoleIn(first.grants, folder, id) == Wanted(specs, folder)
    {
      SeedingGivesWhatIsWanted(s, id, specs, folder);
      SeedingGivesWhatIsWanted(t, id, specs, folder);
    }
    assert SeedFrom(t, id, specs).grants == first.grants by {
      forall folder | folder in first.grants ensures SeedFrom(t, id, specs).grants[folder] == first.grants[folder] {
        assert GrantsAt(SeedFrom(t, id, specs).grants, folder) == GrantsAt(first.grants, folder);
      }
    }
    ReseedingAddsNothing(t, id, specs, specs);
  }

  /// Seeding an account
  /// ------------------

  datatype Seeded = Seeded(users: seq<User>, grants: map<string, Grants>, result: Result<SeededAccount, SeedError>)

  function Granted(us: seq<User>, grants: map<string, Grants>, id: string, username: string, created: bool,
                   specs: seq<NamedGrant>): Seeded
  {
    var s := SeedFrom(Seeding(grants, [], None), id, specs);
    Seeded(us, s.grants, match s.error
                         case Some(e) => Err(e)
                         case None => Ok(SeededAccount(id, username, created, s.added)))
  }

  function SeedOutcome(us: seq<User>, grants: map<string, Grants>, spec: AccountSpec,
                       newId: string, hashed: Option<string>, now: u64): Seeded
  {
    match UserByName(us, spec.username)
    case Some(existing) => Granted(us, grants, existing.id, existing.username, false, spec.grants)
    case None =>
      match hashed
      case None => Seeded(us, grants, Err(HashFailed))
      case Some(hash) =>
        match Insert(us, User(newId, spec.username, hash, spec.systemAdmin, now, []))
        case Err(e) => Seeded(us, grants, Err(Storage(e)))
        case Ok(vs) => Granted(vs, grants, newId, spec.username, true, spec.grants)
  }

  /** The loop over the grants: the first failure leaves it, with what was recorded before. */
  method SeedGrants(store: AuthStore, id: string, specs: seq<NamedGrant>) returns (r: Result<seq<NamedGrant>, SeedError>)
    requires store.Valid()
    modifies store`grants
    ensures store.Valid()
    ensures var s := SeedFrom(Seeding(old(store.grants), [], None), id, specs);
            store.grants == s.grants && r == match s.error case Some(e) => Err(e) case None => Ok(s.added)
  {
    hide UsableFolders, Distinct, GrantFolder, ParseRole, WireRole, RoleIn, WithRole;
    var added := [];
    var i := 0;
    while i < |specs|
      invariant i <= |specs| && store.Valid()
      invariant SeedFrom(Seeding(store.grants, added, None), id, specs[i..])
             == SeedFrom(Seeding(old(store.grants), [], None), id, specs)
    {
      var g := specs[i];
      assert specs[i..][1..] == specs[i + 1..];
      var role := ParseRole(g.role);
      if role.Err? {
        return Err(role.error);
      }
      var held := store.RoleOf(g.project, id);
      if held.Err? {
        return Err(Storage(held.error));
      }
      if held.value != Some(role.value) {
        var _ := store.SetRole(g.project, id, role.value);
        added := added + [NamedGrant(g.project, WireRole(g.role))];
      }
      i := i + 1;
    }
    return Ok(added);
  }

  method SeedAccount(store: AuthStore, spec: AccountSpec, newId: string, hashed: Option<string>, now: u64)
    returns (r: Result<SeededAccount, SeedError>)
    requires store.Valid()
    modifies store
    ensures store.Valid()
    ensures Seeded(store.users, store.grants, r) == SeedOutcome(old(store.users), old(store.grants), spec, newId, hashed, now)
  {
    hide SeedFrom, UserByName, Insert;
    var id, username, created;
    match UserByName(store.users, spec.username) {
      case Some(existing) =>
        id, username, created := existing.id, existing.username, false;
      case None =>
        if hashed.None? {
          return Err(HashFailed);
        }
        var inserted := store.InsertUser(User(newId, spec.username, hashed.value, spec.systemAdmin, now, []));
        if inserted.Err? {
          return Err(Storage(inserted.error));
        }
        id, username, created := newId, spec.username, true;
    }
    var added := SeedGrants(store, id, spec.grants);
    if added.Err? {
      return Err(added.error);
    }
    return Ok(SeededAccount(id, username, created, added.value));
  }

  /** A second run changes neither the accounts nor the grants, whatever it would have minted, and
      reports no grant exactly when no project is asked for with two different roles. */
  lemma SeedingTwiceIsSeedingOnce(us: seq<User>, grants: map<string, Grants>, spec: AccountSpec,
                                  newId: string, hashed: Option<string>, now: u64,
                                  newId': string, hashed': Option<string>, now': u64)
    requires Distinct(us)
    requires SeedOutcome(us, grants, spec, newId, hashed, now).result.Ok?
    ensures var first := SeedOutcome(us, grants, spec, newId, hashed, now);
            var again := SeedOutcome(first.users, first.grants, spec, newId', hashed', now');
            && again.users == first.users && again.grants == first.grants && again.result.Ok?
            && again.result.value.id == first.result.value.id && !again.result.value.created
            && (again.result.value.added == [] <==> Consistent(spec.grants, spec.grants))
  {
    var first := SeedOutcome(us, grants, spec, newId, hashed, now);
    if UserByName(us, spec.username).None? {
      var user := User(newId, spec.username, hashed.value, spec.systemAdmin, now, []);
      InsertRefines(us, user);
      NameNamesOneAccount(us + [user], spec.username, |us|);
    }
    ReseedingRestores(Seeding(grants, [], None), first.result.value.id, spec.grants);
  }

  /** An account of that name is left as it is; otherwise one is created from the specification, unless
      hashing fails or the identifier is taken, and then nothing changes. */
  lemma SeedingCreatesMissingAccounts(us: seq<User>, grants: map<string, Grants>, spec: AccountSpec,
                                      newId: string, hashed: Option<string>, now: u64)
    requires Distinct(us)
    ensures var o := SeedOutcome(us, grants, spec, newId, hashed, now);
            var known := exists u :: u in us && EqIgnoreCase(u.username, spec.username);
            && (known ==> o.users == us)
            && (!known && hashed.None? ==> o == Seeded(us, grants, Err(HashFailed)))
            && (!known && hashed.Some? && newId in ById(us) ==> o == Seeded(us, grants, Err(Storage(AlreadyExists))))
            && (!known && hashed.Some? && newId !in ById(us) ==>
                  o.users == us + [User(newId, spec.username, hashed.value, spec.systemAdmin, now, [])])
            && (o.result.Ok? ==>
                  exists u :: u in o.users && EqIgnoreCase(u.username, spec.username)
                              && o.result.value.id == u.id && o.result.value.username == u.username
                              && o.result.value.created == !known)
  {
    hide SeedFrom, Distinct, EqIgnoreCase;
    NameLookup(us, spec.username);
    LookupIsTheMap(us, newId);
    var found := UserByName(us, spec.username);
    if found.Some? {
      assert found.value in us;
    } else if hashed.Some? {
      var user := User(newId, spec.username, hashed.value, spec.systemAdmin, now, []);
      assert user in us + [user];
      SameName(spec.username);
    }
  }

  lemma SameName(username: string)
    ensures EqIgnoreCase(username, username)
  {
  }
}
