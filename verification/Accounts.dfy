/**
 The account list of `src/auth/store.rs` as values.

 Each function is one locked transaction or one lockless read of the store, on the
 list of accounts the users file holds. The class `AuthStore` performs them in
 place; the session protocol interleaves them.
 */
module Accounts {
  import opened Wrappers
  import Text

  type u64 = x: int | 0 <= x < 0x1_0000_0000_0000_0000

  function SaturatingAdd(a: u64, b: u64): u64 {
    if a + b < 0x1_0000_0000_0000_0000 then a + b else 0xFFFF_FFFF_FFFF_FFFF
  }

  datatype RefreshToken = RefreshToken(id: string, hash: string, expiresAt: u64)

  datatype User = User(
    id: string,
    username: string,
    passwordHash: string,
    systemAdmin: bool,
    createdAt: u64,
    tokens: seq<RefreshToken>)

  datatype StoreError = AlreadyExists | NotFound | InvalidInput

  predicate EqIgnoreCase(a: string, b: string) {
    |a| == |b| && forall i :: 0 <= i < |a| ==> Text.LowerChar(a[i]) == Text.LowerChar(b[i])
  }

  /// Lookups: the first match wins
  /// -----------------------------

  function IndexOfId(us: seq<User>, id: string): (i: nat)
    ensures i <= |us|
    ensures i < |us| ==> us[i].id == id
    ensures forall k :: 0 <= k < i ==> us[k].id != id
  {
    if us == [] || us[0].id == id then 0 else 1 + IndexOfId(us[1..], id)
  }

  function UserById(us: seq<User>, id: string): Option<User> {
    var i := IndexOfId(us, id);
    if i < |us| then Some(us[i]) else None
  }

  function UserByName(us: seq<User>, username: string): Option<User> {
    if us == [] then None
    else if EqIgnoreCase(us[0].username, username) then Some(us[0])
    else UserByName(us[1..], username)
  }

  function TokenByHash(tokens: seq<RefreshToken>, hash: string): Option<RefreshToken> {
    if tokens == [] then None
    else if tokens[0].hash == hash then Some(tokens[0])
    else TokenByHash(tokens[1..], hash)
  }

  datatype Holding = Holding(user: User, token: RefreshToken)

  function HoldingOf(us: seq<User>, hash: string): Option<Holding> {
    if us == [] then None
    else
      match TokenByHash(us[0].tokens, hash)
      case Some(token) => Some(Holding(us[0], token))
      case None => HoldingOf(us[1..], hash)
  }

  /// Transactions
  /// ------------

  function Insert(us: seq<User>, user: User): Result<seq<User>, StoreError> {
    if IndexOfId(us, user.id) < |us| || UserByName(us, user.username).Some? then Err(AlreadyExists)
    else Ok(us + [user])
  }

  function DropUser(us: seq<User>, id: string): seq<User> {
    if us == [] then []
    else (if us[0].id == id then [] else [us[0]]) + DropUser(us[1..], id)
  }

  function InsertToken(us: seq<User>, userId: string, token: RefreshToken): Result<seq<User>, StoreError> {
    var i := IndexOfId(us, userId);
    if i == |us| then Err(NotFound)
    else Ok(us[i := us[i].(tokens := us[i].tokens + [token])])
  }

  function DropToken(tokens: seq<RefreshToken>, id: string): seq<RefreshToken> {
    if tokens == [] then []
    else (if tokens[0].id == id then [] else [tokens[0]]) + DropToken(tokens[1..], id)
  }

  /** The list after a revocation; `Revokes` says whether a record went. */
  function Revoke(us: seq<User>, userId: string, tokenId: string): seq<User> {
    var i := IndexOfId(us, userId);
    if i == |us| then us
    else us[i := us[i].(tokens := DropToken(us[i].tokens, tokenId))]
  }

  predicate Revokes(us: seq<User>, userId: string, tokenId: string) {
    var i := IndexOfId(us, userId);
    i < |us| && |DropToken(us[i].tokens, tokenId)| != |us[i].tokens|
  }

  function DropExpired(tokens: seq<RefreshToken>, now: u64): (kept: seq<RefreshToken>)
    ensures |kept| <= |tokens|
  {
    if tokens == [] then []
    else (if tokens[0].expiresAt > now then [tokens[0]] else []) + DropExpired(tokens[1..], now)
  }

  function Prune(us: seq<User>, now: u64): (pruned: seq<User>)
    ensures |pruned| == |us|
    ensures forall i :: 0 <= i < |us| ==> pruned[i] == us[i].(tokens := DropExpired(us[i].tokens, now))
  {
    if us == [] then []
    else [us[0].(tokens := DropExpired(us[0].tokens, now))] + Prune(us[1..], now)
  }

  function PruneCount(us: seq<User>, now: u64): nat {
    if us == [] then 0
    else |us[0].tokens| - |DropExpired(us[0].tokens, now)| + PruneCount(us[1..], now)
  }

  /// The list refines a map
  /// ----------------------

  /** No two accounts share an identifier, or a username up to ASCII case. */
  predicate Distinct(us: seq<User>) {
    forall i, j :: 0 <= i < j < |us| ==> us[i].id != us[j].id && !EqIgnoreCase(us[i].username, us[j].username)
  }

  function ById(us: seq<User>): map<string, User> {
    if us == [] then map[] else ById(us[1..])[us[0].id := us[0]]
  }

  lemma {:induction false} LookupIsTheMap(us: seq<User>, id: string)
    ensures UserById(us, id) == if id in ById(us) then Some(ById(us)[id]) else None
    ensures id in ById(us) ==> ById(us)[id].id == id
  {
    if us != [] {
      LookupIsTheMap(us[1..], id);
    }
  }

  lemma {:induction false} MapHolds(us: seq<User>, i: nat)
    requires Distinct(us) && i < |us|
    ensures us[i].id in ById(us) && ById(us)[us[i].id] == us[i]
  {
    if i > 0 {
      MapHolds(us[1..], i - 1);
      assert us[1..][i - 1] == us[i];
    }
  }

  predicate Holds(us: seq<User>, id: string) {
    exists i :: 0 <= i < |us| && us[i].id == id
  }

  lemma {:induction false} MapKeys(us: seq<User>, id: string)
    ensures id in ById(us) <==> Holds(us, id)
    ensures id in ById(us) ==> ById(us)[id] in us && ById(us)[id].id == id
  {
    if us != [] {
      MapKeys(us[1..], id);
      assert us == [us[0]] + us[1..];
      if Holds(us, id) && us[0].id != id {
        var i :| 0 <= i < |us| && us[i].id == id;
        assert us[1..][i - 1].id == id;
      }
      if Holds(us[1..], id) {
        var i :| 0 <= i < |us[1..]| && us[1..][i].id == id;
        assert us[i + 1].id == id;
      }
    }
  }

  /** A list with distinct identifiers is the map `m` when it holds `m`'s accounts and no others. */
  lemma MapsAgree(us: seq<User>, m: map<string, User>)
    requires Distinct(us)
    requires forall i :: 0 <= i < |us| ==> us[i].id in m && m[us[i].id] == us[i]
    requires forall id :: id in m ==> Holds(us, id)
    ensures ById(us) == m
  {
    forall id | id in m
      ensures id in ById(us) && ById(us)[id] == m[id]
    {
      var i :| 0 <= i < |us| && us[i].id == id;
      MapHolds(us, i);
    }
    forall id | id in ById(us)
      ensures id in m
    {
      MapKeys(us, id);
    }
  }

  lemma {:induction false} NameLookup(us: seq<User>, username: string)
    ensures UserByName(us, username).None?
       <==> forall i :: 0 <= i < |us| ==> !EqIgnoreCase(us[i].username, username)
    ensures UserByName(us, username).Some? ==>
              exists i :: 0 <= i < |us| && us[i] == UserByName(us, username).value && EqIgnoreCase(us[i].username, username)
  {
    if us != [] {
      NameLookup(us[1..], username);
      if !EqIgnoreCase(us[0].username, username) {
        assert forall i :: 0 < i < |us| ==> us[i] == us[1..][i - 1];
        if UserByName(us[1..], username).Some? {
          var i :| 0 <= i < |us[1..]| && us[1..][i] == UserByName(us[1..], username).value && EqIgnoreCase(us[1..][i].username, username);
          assert us[i + 1] == us[1..][i];
        }
      }
    }
  }

  /** A username names at most one account, so the first match is the only match. */
  lemma NameNamesOneAccount(us: seq<User>, username: string, i: nat)
    requires Distinct(us) && i < |us| && EqIgnoreCase(us[i].username, username)
    ensures UserByName(us, username) == Some(us[i])
  {
    NameLookup(us, username);
    var j :| 0 <= j < |us| && us[j] == UserByName(us, username).value && EqIgnoreCase(us[j].username, username);
    assert EqIgnoreCase(us[i].username, us[j].username) && EqIgnoreCase(us[j].username, us[i].username);
  }

  /** Inserting answers a conflict exactly when the identifier or the username is taken, and
      otherwise adds the account to the map. */
  lemma InsertRefines(us: seq<User>, user: User)
    requires Distinct(us)
    ensures Insert(us, user).Err?
       <==> user.id in ById(us) || exists i :: 0 <= i < |us| && EqIgnoreCase(us[i].username, user.username)
    ensures Insert(us, user).Ok? ==>
              Distinct(Insert(us, user).value) && ById(Insert(us, user).value) == ById(us)[user.id := user]
  {
    LookupIsTheMap(us, user.id);
    NameLookup(us, user.username);
    if Insert(us, user).Ok? {
      var vs := us + [user];
      forall i | 0 <= i < |us| ensures us[i].id in ById(us) && ById(us)[us[i].id] == us[i] {
        MapHolds(us, i);
      }
      var m := ById(us)[user.id := user];
      forall id | id in m ensures Holds(vs, id) {
        MapKeys(us, id);
        if id == user.id {
          assert vs[|us|].id == id;
        } else {
          var i :| 0 <= i < |us| && us[i].id == id;
          assert vs[i].id == id;
        }
      }
      MapsAgree(vs, ById(us)[user.id := user]);
    }
  }

  lemma {:induction false} DropUserTakes(us: seq<User>, id: string)
    ensures forall u :: u in DropUser(us, id) <==> u in us && u.id != id
  {
    if us != [] {
      DropUserTakes(us[1..], id);
      assert us == [us[0]] + us[1..];
    }
  }

  lemma DropUserFilters(us: seq<User>, id: string)
    ensures forall u :: u in DropUser(us, id) <==> u in us && u.id != id
    ensures Distinct(us) ==> Distinct(DropUser(us, id))
  {
    DropUserTakes(us, id);
    if Distinct(us) {
      DropUserStaysDistinct(us, id);
    }
  }

  lemma {:induction false} DropUserStaysDistinct(us: seq<User>, id: string)
    requires Distinct(us)
    ensures Distinct(DropUser(us, id))
  {
    if us != [] {
      hide Distinct;
      DistinctParts(us[0], us[1..]);
      assert us == [us[0]] + us[1..];
      var rest := DropUser(us[1..], id);
      DropUserTakes(us[1..], id);
      DropUserStaysDistinct(us[1..], id);
      DistinctParts(us[0], rest);
      assert DropUser(us, id) == if us[0].id == id then rest else [us[0]] + rest;
    }
  }

  predicate Apart(u: User, us: seq<User>) {
    forall v :: v in us ==> u.id != v.id && !EqIgnoreCase(u.username, v.username)
  }

  lemma DistinctAt(us: seq<User>, i: nat, j: nat)
    requires Distinct(us) && i < j < |us|
    ensures us[i].id != us[j].id && !EqIgnoreCase(us[i].username, us[j].username)
  {
  }

  lemma DistinctParts(u: User, us: seq<User>)
    ensures Distinct([u] + us) <==> Distinct(us) && Apart(u, us)
  {
    hide EqIgnoreCase;
    var all := [u] + us;
    if Distinct(all) {
      hide Distinct;
      forall v | v in us ensures u.id != v.id && !EqIgnoreCase(u.username, v.username) {
        var i :| 0 <= i < |us| && us[i] == v;
        DistinctAt(all, 0, i + 1);
      }
      assert Distinct(us) by {
        TailIsDistinct(all);
        assert all[1..] == us;
      }
    } else {
      NotDistinct(u, us);
    }
  }

  lemma TailIsDistinct(us: seq<User>)
    requires us != [] && Distinct(us)
    ensures Distinct(us[1..])
  {
    forall i, j | 0 <= i < j < |us| - 1
      ensures us[1..][i].id != us[1..][j].id && !EqIgnoreCase(us[1..][i].username, us[1..][j].username)
    {
      DistinctAt(us, i + 1, j + 1);
    }
  }

  lemma NotDistinct(u: User, us: seq<User>)
    requires !Distinct([u] + us)
    ensures !Distinct(us) || !Apart(u, us)
  {
    hide EqIgnoreCase;
    var all := [u] + us;
    var i, j :| 0 <= i < j < |all| && (all[i].id == all[j].id || EqIgnoreCase(all[i].username, all[j].username));
    assert all[j] == us[j - 1];
    if i > 0 {
      assert all[i] == us[i - 1];
    } else {
      assert us[j - 1] in us;
    }
  }

  /** Removing an account removes its entry of the map, and reports whether there was one. */
  lemma {:induction false} DropUserRefines(us: seq<User>, id: string)
    requires Distinct(us)
    ensures ById(DropUser(us, id)) == ById(us) - {id}
    ensures |DropUser(us, id)| == |us| - (if id in ById(us) then 1 else 0)
  {
    if us != [] {
      var rest := DropUser(us[1..], id);
      DropUserRefines(us[1..], id);
      if us[0].id == id {
        MapKeys(us[1..], id);
        assert DropUser(us, id) == rest;
      } else {
        assert DropUser(us, id) == [us[0]] + rest && ([us[0]] + rest)[1..] == rest;
      }
    }
  }

  /** Changing one account's tokens changes that entry of the map and nothing else. */
  lemma UpdateRefines(us: seq<User>, i: nat, tokens: seq<RefreshToken>)
    requires Distinct(us) && i < |us|
    ensures var vs := us[i := us[i].(tokens := tokens)];
            Distinct(vs) && ById(vs) == ById(us)[us[i].id := us[i].(tokens := tokens)]
  {
    var vs := us[i := us[i].(tokens := tokens)];
    SameAccounts(us, vs);
    forall id | id in ById(us)
      ensures ById(vs)[id] == if id == us[i].id then vs[i] else ById(us)[id]
    {
      MapKeys(us, id);
      var k :| 0 <= k < |us| && us[k].id == id;
      MapHolds(us, k);
      MapHolds(vs, k);
    }
    MapHolds(us, i);
  }

  /** Lists that agree on identifiers and usernames hold the same accounts. */
  lemma SameAccounts(us: seq<User>, vs: seq<User>)
    requires |us| == |vs|
    requires forall k :: 0 <= k < |us| ==> vs[k].id == us[k].id && vs[k].username == us[k].username
    ensures Distinct(us) <==> Distinct(vs)
    ensures ById(us).Keys == ById(vs).Keys
  {
    forall id ensures id in ById(us) <==> id in ById(vs) {
      MapKeys(us, id);
      MapKeys(vs, id);
      if Holds(us, id) {
        var k :| 0 <= k < |us| && us[k].id == id;
        assert vs[k].id == id;
      }
      if Holds(vs, id) {
        var k :| 0 <= k < |vs| && vs[k].id == id;
        assert us[k].id == id;
      }
    }
  }

  /** Pruning keeps every account and drops exactly its expired tokens. */
  lemma PruneRefines(us: seq<User>, now: u64)
    requires Distinct(us)
    ensures Distinct(Prune(us, now))
    ensures ById(Prune(us, now)).Keys == ById(us).Keys
    ensures forall id :: id in ById(us) ==>
              ById(Prune(us, now))[id] == ById(us)[id].(tokens := DropExpired(ById(us)[id].tokens, now))
  {
    var vs := Prune(us, now);
    SameAccounts(us, vs);
    forall id | id in ById(us)
      ensures ById(vs)[id] == ById(us)[id].(tokens := DropExpired(ById(us)[id].tokens, now))
    {
      MapKeys(us, id);
      var k :| 0 <= k < |us| && us[k].id == id;
      MapHolds(us, k);
      MapHolds(vs, k);
    }
  }

  /** A pruned token list keeps exactly the tokens still valid after `now`, in order. */
  lemma {:induction false} DropExpiredKeeps(tokens: seq<RefreshToken>, now: u64)
    ensures forall token :: token in DropExpired(tokens, now) <==> token in tokens && token.expiresAt > now
  {
    if tokens != [] {
      DropExpiredKeeps(tokens[1..], now);
      assert tokens == [tokens[0]] + tokens[1..];
    }
  }

  function TokenCount(us: seq<User>): nat {
    if us == [] then 0 else |us[0].tokens| + TokenCount(us[1..])
  }

  /** Pruning counts the tokens it takes. */
  lemma {:induction false} PruneCountsTheLoss(us: seq<User>, now: u64)
    ensures TokenCount(Prune(us, now)) + PruneCount(us, now) == TokenCount(us)
  {
    if us != [] {
      PruneCountsTheLoss(us[1..], now);
      assert Prune(us, now)[1..] == Prune(us[1..], now);
    }
  }

  predicate HasId(tokens: seq<RefreshToken>, id: string) {
    exists token :: token in tokens && token.id == id
  }

  /** Dropping a token removes every record with its identifier, and shortens the list exactly
      when there was one. */
  lemma {:induction false} DropTokenKeeps(tokens: seq<RefreshToken>, id: string)
    ensures forall token :: token in DropToken(tokens, id) <==> token in tokens && token.id != id
    ensures |DropToken(tokens, id)| <= |tokens|
    ensures |DropToken(tokens, id)| != |tokens| <==> HasId(tokens, id)
  {
    if tokens != [] {
      DropTokenKeeps(tokens[1..], id);
      assert tokens == [tokens[0]] + tokens[1..];
      if HasId(tokens, id) && tokens[0].id != id {
        var token :| token in tokens && token.id == id;
        assert token in tokens[1..];
      }
      if HasId(tokens[1..], id) {
        var token :| token in tokens[1..] && token.id == id;
        assert token in tokens;
      }
      if tokens[0].id == id {
        assert tokens[0] in tokens;
      }
    }
  }

  /** A revocation takes one token out of one account, and says whether it was there. */
  lemma RevokeRefines(us: seq<User>, userId: string, tokenId: string)
    requires Distinct(us)
    ensures var m := ById(us);
            Distinct(Revoke(us, userId, tokenId)) &&
            ById(Revoke(us, userId, tokenId))
            == (if userId in m then m[userId := m[userId].(tokens := DropToken(m[userId].tokens, tokenId))] else m)
    ensures Revokes(us, userId, tokenId) <==> userId in ById(us) && HasId(ById(us)[userId].tokens, tokenId)
    ensures !Revokes(us, userId, tokenId) ==> Revoke(us, userId, tokenId) == us
  {
    LookupIsTheMap(us, userId);
    var i := IndexOfId(us, userId);
    if i < |us| {
      UpdateRefines(us, i, DropToken(us[i].tokens, tokenId));
      DropTokenKeeps(us[i].tokens, tokenId);
      if !Revokes(us, userId, tokenId) {
        DropTokenIsIdentity(us[i].tokens, tokenId);
      }
    }
  }

  lemma {:induction false} DropTokenIsIdentity(tokens: seq<RefreshToken>, id: string)
    requires !HasId(tokens, id)
    ensures DropToken(tokens, id) == tokens
  {
    if tokens != [] {
      assert tokens[0] in tokens && forall token :: token in tokens[1..] ==> token in tokens;
      DropTokenIsIdentity(tokens[1..], id);
    }
  }

  /** Recording a token appends it to one account, or finds no account. */
  lemma InsertTokenRefines(us: seq<User>, userId: string, token: RefreshToken)
    requires Distinct(us)
    ensures InsertToken(us, userId, token).Err? <==> userId !in ById(us)
    ensures InsertToken(us, userId, token).Ok? ==>
              var vs := InsertToken(us, userId, token).value;
              Distinct(vs) &&
              ById(vs) == ById(us)[userId := ById(us)[userId].(tokens := ById(us)[userId].tokens + [token])]
  {
    LookupIsTheMap(us, userId);
    var i := IndexOfId(us, userId);
    if i < |us| {
      UpdateRefines(us, i, us[i].tokens + [token]);
    }
  }

  lemma {:induction false} TokenByHashFinds(tokens: seq<RefreshToken>, hash: string)
    ensures match TokenByHash(tokens, hash)
            case Some(token) => token in tokens && token.hash == hash
            case None => forall token :: token in tokens ==> token.hash != hash
  {
    if tokens != [] {
      TokenByHashFinds(tokens[1..], hash);
      assert tokens == [tokens[0]] + tokens[1..];
    }
  }

  /** A digest resolves to an account of the list that holds it, or no account holds it. */
  lemma {:induction false} HoldingOfFinds(us: seq<User>, hash: string)
    requires Distinct(us)
    ensures match HoldingOf(us, hash)
            case Some(h) =>
              h.user.id in ById(us) && ById(us)[h.user.id] == h.user && h.token in h.user.tokens && h.token.hash == hash
            case None =>
              forall id, token :: id in ById(us) && token in ById(us)[id].tokens ==> token.hash != hash
  {
    if us != [] {
      TokenByHashFinds(us[0].tokens, hash);
      HoldingOfFinds(us[1..], hash);
      if HoldingOf(us, hash).Some? && TokenByHash(us[0].tokens, hash).None? {
        MapKeys(us[1..], us[0].id);
      }
    }
  }
}
