/**
 The store of `src/auth/store.rs`: accounts and grants, changed in place.

 A grant file is keyed by its project's folder name. Taking the lock, reading the
 file, and publishing the new one by an atomic rename is one assignment here.
 */
module AuthStores {
  import opened Wrappers
  import opened Accounts
  import opened Sorting
  import Layout

  datatype Role = Viewer | Editor | Owner

  type Grants = map<string, Role>

  function Rank(role: Role): nat {
    match role
    case Viewer => 0
    case Editor => 1
    case Owner => 2
  }

  /// Grants as values
  /// ----------------

  function GrantFolder(projectId: string): Result<string, StoreError> {
    var folder := Layout.FolderName(projectId);
    if Layout.ValidComponent(folder) && Layout.ValidComponent(folder + Layout.SUFFIX) then Ok(folder)
    else Err(InvalidInput)
  }

  function GrantsAt(grants: map<string, Grants>, folder: string): Grants {
    if folder in grants then grants[folder] else map[]
  }

  function RoleIn(grants: map<string, Grants>, folder: string, userId: string): Option<Role> {
    var held := GrantsAt(grants, folder);
    if userId in held then Some(held[userId]) else None
  }

  function WithRole(grants: map<string, Grants>, folder: string, userId: string, role: Role): map<string, Grants> {
    grants[folder := GrantsAt(grants, folder)[userId := role]]
  }

  function WithoutRole(grants: map<string, Grants>, folder: string, userId: string): map<string, Grants> {
    if RoleIn(grants, folder, userId).None? then grants
    else grants[folder := GrantsAt(grants, folder) - {userId}]
  }

  /** Every grant file is named by a folder a grant may be recorded under. */
  predicate UsableFolders(grants: map<string, Grants>) {
    forall folder :: folder in grants ==> GrantFolder(Layout.FolderWireId(folder)) == Ok(folder)
  }

  lemma GrantFoldersAreUsable(projectId: string)
    requires GrantFolder(projectId).Ok?
    ensures GrantFolder(Layout.FolderWireId(GrantFolder(projectId).value)) == GrantFolder(projectId)
  {
    Layout.FolderNamesInvert(projectId, GrantFolder(projectId).value);
  }

  /** Grants are recorded under the folder a project is named by, with or without its suffix, when that is a
      plain name short enough for the suffix. */
  lemma GrantFoldersAreNamed(folder: string)
    ensures var expected := if Layout.PlainName(folder) && |folder| <= 250 then Ok(folder) else Err(InvalidInput);
            && GrantFolder(folder + ".json") == expected
            && (!Layout.HasSuffix(folder) ==> GrantFolder(folder) == expected)
  {
    Layout.WireIdsAreFolders(folder);
    Layout.PlainNamesAreValid(folder);
    Layout.PlainNamesAreValid(folder + ".json");
    if Layout.PlainName(folder) {
      SuffixIsPlain(folder);
    }
  }

  lemma SuffixIsPlain(folder: string)
    requires Layout.PlainName(folder)
    ensures Layout.PlainName(folder + ".json") <==> |folder| <= 250
  {
    var name := folder + ".json";
    assert name[|name| - 1] == 'n';
    assert forall i :: |folder| <= i < |name| ==> name[i] == ".json"[i - |folder|];
  }

  /** The account holds a role in the project the folder names. */
  predicate HoldsRole(grants: map<string, Grants>, project: string, userId: string) {
    Layout.HasSuffix(project) && RoleIn(grants, Layout.FolderName(project), userId).Some?
  }

  /// Grants no account answers for
  /// -----------------------------

  datatype Orphan = Orphan(project: string, userId: string, role: Role)

  predicate OrphanLess(a: Orphan, b: Orphan) {
    || Less(a.project, b.project)
    || (a.project == b.project && Less(a.userId, b.userId))
    || (a.project == b.project && a.userId == b.userId && Rank(a.role) < Rank(b.role))
  }

  lemma OrphanLessIsStrictOrder()
    ensures StrictOrder(OrphanLess)
  {
    hide Less;
    LessIsStrictOrder();
    forall a, b, c | OrphanLess(a, b) && OrphanLess(b, c) ensures OrphanLess(a, c) {
      if Less(a.project, b.project) && Less(b.project, c.project) {
        assert Less(a.project, c.project);
      } else if a.project == b.project == c.project && Less(a.userId, b.userId) && Less(b.userId, c.userId) {
        assert Less(a.userId, c.userId);
      }
    }
  }

  predicate IsOrphan(us: seq<User>, grants: map<string, Grants>, o: Orphan) {
    && Layout.HasSuffix(o.project)
    && RoleIn(grants, Layout.FolderName(o.project), o.userId) == Some(o.role)
    && IndexOfId(us, o.userId) == |us|
  }

  /// The store
  /// ---------

  class AuthStore {
    var users: seq<User>
    var grants: map<string, Grants>

    ghost predicate Valid()
      reads this
    {
      Distinct(users) && UsableFolders(grants)
    }

    constructor ()
      ensures Valid() && users == [] && grants == map[]
    {
      users := [];
      grants := map[];
    }

    method InsertUser(user: User) returns (r: Result<(), StoreError>)
      requires Valid()
      modifies this`users
      ensures Valid()
      ensures match Insert(old(users), user)
              case Err(e) => r == Err(e) && users == old(users)
              case Ok(us) => r == Ok(()) && users == us
    {
      InsertRefines(users, user);
      match Insert(users, user)
      case Err(e) => return Err(e);
      case Ok(us) =>
        users := us;
        return Ok(());
    }

    method RemoveUser(id: string) returns (removed: bool)
      requires Valid()
      modifies this`users
      ensures Valid() && users == DropUser(old(users), id)
      ensures removed <==> id in ById(old(users))
    {
      DropUserRefines(users, id);
      DropUserFilters(users, id);
      var kept := DropUser(users, id);
      if |kept| == |users| {
        SameLengthDropsNothing(users, id);
        return false;
      }
      users := kept;
      return true;
    }

    /** The lookup walks the accounts in file order and stops at the first holder. */
    method UserByRefreshHash(hash: string) returns (found: Option<Holding>)
      ensures found == HoldingOf(users, hash)
    {
      var i := 0;
      while i < |users|
        invariant i <= |users|
        invariant HoldingOf(users, hash) == HoldingOf(users[i..], hash)
      {
        assert users[i..][1..] == users[i + 1..];
        var token := TokenByHash(users[i].tokens, hash);
        if token.Some? {
          return Some(Holding(users[i], token.value));
        }
        i := i + 1;
      }
      return None;
    }

    method InsertRefreshToken(userId: string, token: RefreshToken) returns (r: Result<(), StoreError>)
      requires Valid()
      modifies this`users
      ensures Valid()
      ensures match InsertToken(old(users), userId, token)
              case Err(e) => r == Err(e) && users == old(users)
              case Ok(us) => r == Ok(()) && users == us
    {
      InsertTokenRefines(users, userId, token);
      match InsertToken(users, userId, token)
      case Err(e) => return Err(e);
      case Ok(us) =>
        users := us;
        return Ok(());
    }

    method RevokeRefreshToken(userId: string, tokenId: string) returns (removed: bool)
      requires Valid()
      modifies this`users
      ensures Valid() && users == Revoke(old(users), userId, tokenId)
      ensures removed == Revokes(old(users), userId, tokenId)
    {
      RevokeRefines(users, userId, tokenId);
      var i := IndexOfId(users, userId);
      if i == |users| {
        return false;
      }
      var kept := DropToken(users[i].tokens, tokenId);
      removed := |kept| != |users[i].tokens|;
      if removed {
        users := users[i := users[i].(tokens := kept)];
      }
    }

    method PruneExpiredRefreshTokens(now: u64) returns (dropped: nat)
      requires Valid()
      modifies this`users
      ensures Valid() && users == Prune(old(users), now)
      ensures dropped == PruneCount(old(users), now)
    {
      var pruned;
      pruned, dropped := PruneList(users, now);
      PruneRefines(users, now);
      if dropped > 0 {
        users := pruned;
      } else {
        NothingToPrune(users, now);
      }
    }

    /** The loop over the accounts: each loses its expired tokens, and the losses are counted. */
    static method PruneList(before: seq<User>, now: u64) returns (us: seq<User>, dropped: nat)
      ensures us == Prune(before, now) && dropped == PruneCount(before, now)
    {
      us, dropped := before, 0;
      var i := 0;
      while i < |us|
        invariant i <= |us| == |before|
        invariant forall k :: 0 <= k < i ==> us[k] == before[k].(tokens := DropExpired(before[k].tokens, now))
        invariant forall k :: i <= k < |us| ==> us[k] == before[k]
        invariant dropped + PruneCount(before[i..], now) == PruneCount(before, now)
      {
        assert before[i..][1..] == before[i + 1..];
        var kept := DropExpired(us[i].tokens, now);
        dropped := dropped + |us[i].tokens| - |kept|;
        us := us[i := us[i].(tokens := kept)];
        i := i + 1;
      }
    }

    function RoleOf(projectId: string, userId: string): Result<Option<Role>, StoreError>
      reads this`grants
    {
      match GrantFolder(projectId)
      case Err(e) => Err(e)
      case Ok(folder) => Ok(RoleIn(grants, folder, userId))
    }

    method SetRole(projectId: string, userId: string, role: Role) returns (r: Result<(), StoreError>)
      requires Valid()
      modifies this`grants
      ensures Valid()
      ensures match GrantFolder(projectId)
              case Err(e) => r == Err(e) && grants == old(grants)
              case Ok(folder) => r == Ok(()) && grants == WithRole(old(grants), folder, userId, role)
    {
      match GrantFolder(projectId)
      case Err(e) => return Err(e);
      case Ok(folder) =>
        GrantFoldersAreUsable(projectId);
        grants := WithRole(grants, folder, userId, role);
        return Ok(());
    }

    method RemoveRole(projectId: string, userId: string) returns (r: Result<bool, StoreError>)
      requires Valid()
      modifies this`grants
      ensures Valid()
      ensures match GrantFolder(projectId)
              case Err(e) => r == Err(e) && grants == old(grants)
              case Ok(folder) =>
                r == Ok(RoleIn(old(grants), folder, userId).Some?) && grants == WithoutRole(old(grants), folder, userId)
    {
      match GrantFolder(projectId)
      case Err(e) => return Err(e);
      case Ok(folder) =>
        GrantFoldersAreUsable(projectId);
        if RoleIn(grants, folder, userId).None? {
          return Ok(false);
        }
        grants := WithoutRole(grants, folder, userId);
        return Ok(true);
    }

    method RemoveProjectGrants(projectId: string) returns (r: Result<bool, StoreError>)
      requires Valid()
      modifies this`grants
      ensures Valid()
      ensures match GrantFolder(projectId)
              case Err(e) => r == Err(e) && grants == old(grants)
              case Ok(folder) => r == Ok(folder in old(grants)) && grants == old(grants) - {folder}
    {
      match GrantFolder(projectId)
      case Err(e) => return Err(e);
      case Ok(folder) =>
        var removed := folder in grants;
        grants := grants - {folder};
        return Ok(removed);
    }

    /** The directory walk yields the grant files in no particular order. */
    method ProjectsForUser(userId: string) returns (projects: seq<string>)
      ensures SortedBy(Less, projects)
      ensures forall p :: p in projects <==> HoldsRole(grants, p, userId)
    {
      projects := [];
      var left := grants.Keys;
      while left != {}
        invariant left <= grants.Keys
        invariant forall p :: p in projects <==> HoldsRole(grants, p, userId) && Layout.FolderName(p) !in left
        decreases |left|
      {
        var folder :| folder in left;
        var project := Layout.FolderWireId(folder);
        if userId in grants[folder] {
          projects := projects + [project];
        }
        left := left - {folder};
        Layout.FolderNamesInvert(project, folder);
        forall p | HoldsRole(grants, p, userId) && Layout.FolderName(p) == folder ensures p == project {
          Layout.SuffixesCancel(p, project);
        }
      }
      LessIsStrictOrder();
      ListingIsSorted(Less, projects);
      projects := Listing(Less, projects);
    }

    method OrphanGrants() returns (orphans: seq<Orphan>)
      ensures SortedBy(OrphanLess, orphans)
      ensures forall o :: o in orphans <==> IsOrphan(users, grants, o)
    {
      orphans := [];
      var left := grants.Keys;
      while left != {}
        invariant left <= grants.Keys
        invariant forall o :: o in orphans <==> IsOrphan(users, grants, o) && Layout.FolderName(o.project) !in left
        decreases |left|
      {
        var folder :| folder in left;
        var more := OrphansIn(folder);
        orphans := orphans + more;
        left := left - {folder};
      }
      OrphanLessIsStrictOrder();
      ListingIsSorted(OrphanLess, orphans);
      orphans := Listing(OrphanLess, orphans);
    }

    /** The inner loop: the grants one file holds for accounts the store does not. */
    method OrphansIn(folder: string) returns (orphans: seq<Orphan>)
      requires folder in grants
      ensures forall o :: o in orphans <==> IsOrphan(users, grants, o) && Layout.FolderName(o.project) == folder
    {
      orphans := [];
      var project := Layout.FolderWireId(folder);
      Layout.FolderNamesInvert(project, folder);
      var held := grants[folder];
      var left := held.Keys;
      while left != {}
        invariant left <= held.Keys
        invariant forall o :: o in orphans <==>
                    o.project == project && o.userId in held && o.role == held[o.userId] && o.userId !in left
                    && IndexOfId(users, o.userId) == |users|
        decreases |left|
      {
        var userId :| userId in left;
        if IndexOfId(users, userId) == |users| {
          orphans := orphans + [Orphan(project, userId, held[userId])];
        }
        left := left - {userId};
      }
      forall o | IsOrphan(users, grants, o) && Layout.FolderName(o.project) == folder ensures o.project == project {
        Layout.SuffixesCancel(o.project, project);
      }
    }
  }

  lemma {:induction false} SameLengthDropsNothing(us: seq<User>, id: string)
    ensures |DropUser(us, id)| <= |us|
    ensures |DropUser(us, id)| == |us| ==> DropUser(us, id) == us
  {
    if us != [] {
      SameLengthDropsNothing(us[1..], id);
    }
  }

  lemma {:induction false} NothingToPrune(us: seq<User>, now: u64)
    requires PruneCount(us, now) == 0
    ensures Prune(us, now) == us
  {
    if us != [] {
      NothingToPrune(us[1..], now);
      NothingExpired(us[0].tokens, now);
    }
  }

  lemma {:induction false} NothingExpired(tokens: seq<RefreshToken>, now: u64)
    requires |DropExpired(tokens, now)| == |tokens|
    ensures DropExpired(tokens, now) == tokens
  {
    if tokens != [] {
      assert |DropExpired(tokens[1..], now)| <= |tokens[1..]|;
      NothingExpired(tokens[1..], now);
    }
  }
}
