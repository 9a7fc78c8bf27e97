/**
 The account list of `src/auth/store.rs` behaves as a map from identifiers to
 accounts, over every sequence of operations.
 */
module AccountMap {
  import opened Wrappers
  import opened Accounts

  datatype Operation =
    | InsertUser(user: User)
    | RemoveUser(id: string)
    | InsertRefreshToken(userId: string, token: RefreshToken)
    | RevokeRefreshToken(userId: string, tokenId: string)
    | PruneExpired(now: u64)

  /** The list after an operation; a refused one leaves it. */
  function Perform(us: seq<User>, op: Operation): seq<User> {
    match op
    case InsertUser(user) => (match Insert(us, user) case Ok(vs) => vs case Err(_) => us)
    case RemoveUser(id) => DropUser(us, id)
    case InsertRefreshToken(userId, token) => (match InsertToken(us, userId, token) case Ok(vs) => vs case Err(_) => us)
    case RevokeRefreshToken(userId, tokenId) => Revoke(us, userId, tokenId)
    case PruneExpired(now) => Prune(us, now)
  }

  function PerformAll(us: seq<User>, ops: seq<Operation>): seq<User> {
    if ops == [] then us else Perform(PerformAll(us, ops[..|ops| - 1]), ops[|ops| - 1])
  }

  predicate NameTaken(m: map<string, User>, username: string) {
    exists id :: id in m && EqIgnoreCase(m[id].username, username)
  }

  function WithTokens(m: map<string, User>, id: string, tokens: seq<RefreshToken>): map<string, User>
    requires id in m
  {
    m[id := m[id].(tokens := tokens)]
  }

  /** The same operations on a map, without order and without search. */
  function OnMap(m: map<string, User>, op: Operation): map<string, User> {
    match op
    case InsertUser(user) => if user.id in m || NameTaken(m, user.username) then m else m[user.id := user]
    case RemoveUser(id) => m - {id}
    case InsertRefreshToken(userId, token) => if userId in m then WithTokens(m, userId, m[userId].tokens + [token]) else m
    case RevokeRefreshToken(userId, tokenId) =>
      if userId in m then WithTokens(m, userId, DropToken(m[userId].tokens, tokenId)) else m
    case PruneExpired(now) => map id | id in m :: m[id].(tokens := DropExpired(m[id].tokens, now))
  }

  function AllOnMap(m: map<string, User>, ops: seq<Operation>): map<string, User> {
    if ops == [] then m else OnMap(AllOnMap(m, ops[..|ops| - 1]), ops[|ops| - 1])
  }

  lemma NamesAgree(us: seq<User>, username: string)
    requires Distinct(us)
    ensures NameTaken(ById(us), username) <==> exists i :: 0 <= i < |us| && EqIgnoreCase(us[i].username, username)
  {
    if i :| 0 <= i < |us| && EqIgnoreCase(us[i].username, username) {
      MapHolds(us, i);
    }
    if id :| id in ById(us) && EqIgnoreCase(ById(us)[id].username, username) {
      MapKeys(us, id);
    }
  }

  lemma OneOperationRefines(us: seq<User>, op: Operation)
    requires Distinct(us)
    ensures Distinct(Perform(us, op)) && ById(Perform(us, op)) == OnMap(ById(us), op)
  {
    hide Distinct, ById, Insert, DropUser, InsertToken, Revoke, Prune;
    match op
    case InsertUser(user) =>
      InsertRefines(us, user);
      NamesAgree(us, user.username);
    case RemoveUser(id) =>
      DropUserRefines(us, id);
      DropUserFilters(us, id);
    case InsertRefreshToken(userId, token) =>
      InsertTokenRefines(us, userId, token);
    case RevokeRefreshToken(userId, tokenId) =>
      RevokeRefines(us, userId, tokenId);
    case PruneExpired(now) =>
      PruneRefines(us, now);
  }

  /** Over every sequence of operations the list keeps its identifiers and usernames distinct and
      stays the map the same operations make; so a first match is the only match. */
  lemma {:induction false} ListRefinesMap(us: seq<User>, ops: seq<Operation>)
    requires Distinct(us)
    ensures Distinct(PerformAll(us, ops)) && ById(PerformAll(us, ops)) == AllOnMap(ById(us), ops)
    ensures forall id :: UserById(PerformAll(us, ops), id)
                         == if id in AllOnMap(ById(us), ops) then Some(AllOnMap(ById(us), ops)[id]) else None
  {
    if ops != [] {
      var before := PerformAll(us, ops[..|ops| - 1]);
      ListRefinesMap(us, ops[..|ops| - 1]);
      OneOperationRefines(before, ops[|ops| - 1]);
    }
    forall id
      ensures UserById(PerformAll(us, ops), id)
              == if id in AllOnMap(ById(us), ops) then Some(AllOnMap(ById(us), ops)[id]) else None
    {
      LookupIsTheMap(PerformAll(us, ops), id);
    }
  }
}
