/**
 Signing in, rotating and signing out (`src/auth/session.rs`), one request at a time.

 Password verification, the digest of a refresh token and the tag and JSON of an
 access token are functions of a `Library` value; what a request draws at random
 is a parameter. `SessionProtocol` interleaves the same steps.
 */
module Sessions {
  import opened Wrappers
  import opened Accounts
  import opened AuthStores
  import opened AccessToken
  import Base64Url
  import SessionProtocol

  datatype Library = Library(crypto: Crypto, digest: string -> string, verifies: (string, string) -> bool)

  datatype Config = Config(secret: Option<seq<Base64Url.byte>>, accessTtl: u64, refreshTtl: u64)

  /** The identifier of an access token, and the identifier and text of a refresh token. */
  datatype Draw = Draw(accessId: string, id: string, refreshToken: string)

  datatype SessionTokens = SessionTokens(access: string, refresh: string, accessExpiresAt: u64, refreshExpiresAt: u64)

  datatype SessionError =
    | Internal
    | InvalidCredentials
    | InvalidRefreshToken
    | InvalidToken
    | ExpiredToken
    | Forbidden(required: Role)
    | Storage(error: StoreError)

  datatype Principal = Principal(userId: string, systemAdmin: bool)

  const DECOY_HASH := "$argon2id$v=19$m=19456,t=2,p=1$AAAAAAAAAAAAAAAAAAAAAA$AAAAAAAAAAAAAAAAAAAAAAAAAAAAAAAAAAAAAAAAAAA"

  /// What each request does to the account list
  /// ------------------------------------------

  datatype Outcome<R> = Outcome(users: seq<User>, result: Result<R, SessionError>)

  function NewToken(lib: Library, config: Config, now: u64, draw: Draw): RefreshToken {
    RefreshToken(draw.id, lib.digest(draw.refreshToken), SaturatingAdd(now, config.refreshTtl))
  }

  function IssueOutcome(us: seq<User>, lib: Library, config: Config, user: User, now: u64, draw: Draw): Outcome<SessionTokens>
    requires config.secret.Some?
  {
    match InsertToken(us, user.id, NewToken(lib, config, now, draw))
    case Err(e) => Outcome(us, Err(Storage(e)))
    case Ok(vs) =>
      Outcome(vs, Ok(SessionTokens(
                       Mint(lib.crypto, config.secret.value, user.id, user.systemAdmin, config.accessTtl, now, draw.accessId),
                       draw.refreshToken, SaturatingAdd(now, config.accessTtl), SaturatingAdd(now, config.refreshTtl))))
  }

  function LoginOutcome(us: seq<User>, lib: Library, config: Config, username: string, password: string, now: u64,
                        draw: Draw): Outcome<SessionTokens>
  {
    if config.secret.None? then Outcome(us, Err(Internal))
    else
      match UserByName(us, username)
      case None => Outcome(us, Err(InvalidCredentials))
      case Some(user) =>
        if !lib.verifies(user.passwordHash, password) then Outcome(us, Err(InvalidCredentials))
        else IssueOutcome(Prune(us, now), lib, config, user, now, draw)
  }

  function RefreshOutcome(us: seq<User>, lib: Library, config: Config, token: string, now: u64, draw: Draw)
    : Outcome<SessionTokens>
  {
    if config.secret.None? then Outcome(us, Err(Internal))
    else
      match HoldingOf(us, lib.digest(token))
      case None => Outcome(us, Err(InvalidRefreshToken))
      case Some(h) =>
        var vs := Revoke(us, h.user.id, h.token.id);
        if h.token.expiresAt <= now || !Revokes(us, h.user.id, h.token.id) then Outcome(vs, Err(InvalidRefreshToken))
        else IssueOutcome(vs, lib, config, h.user, now, draw)
  }

  function LogoutOutcome(us: seq<User>, lib: Library, principal: Principal, token: string): Outcome<bool> {
    match HoldingOf(us, lib.digest(token))
    case None => Outcome(us, Ok(false))
    case Some(h) =>
      if h.user.id != principal.userId then Outcome(us, Ok(false))
      else Outcome(Revoke(us, h.user.id, h.token.id), Ok(true))
  }

  /// The requests
  /// ------------

  method IssueTokens(store: AuthStore, lib: Library, config: Config, user: User, now: u64, draw: Draw)
    returns (r: Result<SessionTokens, SessionError>)
    requires store.Valid() && config.secret.Some?
    modifies store`users
    ensures store.Valid()
    ensures Outcome(store.users, r) == IssueOutcome(old(store.users), lib, config, user, now, draw)
  {
    var access := Mint(lib.crypto, config.secret.value, user.id, user.systemAdmin, config.accessTtl, now, draw.accessId);
    var inserted := store.InsertRefreshToken(user.id, NewToken(lib, config, now, draw));
    if inserted.Err? {
      return Err(Storage(inserted.error));
    }
    return Ok(SessionTokens(access, draw.refreshToken, SaturatingAdd(now, config.accessTtl),
                            SaturatingAdd(now, config.refreshTtl)));
  }

  /** The password is verified before the account is looked at, against a decoy when there is none. */
  method Login(store: AuthStore, lib: Library, config: Config, username: string, password: string, now: u64, draw: Draw)
    returns (r: Result<SessionTokens, SessionError>)
    requires store.Valid()
    modifies store`users
    ensures store.Valid()
    ensures Outcome(store.users, r) == LoginOutcome(old(store.users), lib, config, username, password, now, draw)
  {
    if config.secret.None? {
      return Err(Internal);
    }
    var user := UserByName(store.users, username);
    var candidate := if user.Some? then user.value.passwordHash else DECOY_HASH;
    var verified := lib.verifies(candidate, password);
    if user.None? {
      return Err(InvalidCredentials);
    }
    if !verified {
      return Err(InvalidCredentials);
    }
    var _ := store.PruneExpiredRefreshTokens(now);
    r := IssueTokens(store, lib, config, user.value, now, draw);
  }

  method Refresh(store: AuthStore, lib: Library, config: Config, token: string, now: u64, draw: Draw)
    returns (r: Result<SessionTokens, SessionError>)
    requires store.Valid()
    modifies store`users
    ensures store.Valid()
    ensures Outcome(store.users, r) == RefreshOutcome(old(store.users), lib, config, token, now, draw)
  {
    if config.secret.None? {
      return Err(Internal);
    }
    var found := store.UserByRefreshHash(lib.digest(token));
    if found.None? {
      return Err(InvalidRefreshToken);
    }
    var user, stored := found.value.user, found.value.token;
    if stored.expiresAt <= now {
      var _ := store.RevokeRefreshToken(user.id, stored.id);
      return Err(InvalidRefreshToken);
    }
    var won := store.RevokeRefreshToken(user.id, stored.id);
    if !won {
      return Err(InvalidRefreshToken);
    }
    r := IssueTokens(store, lib, config, user, now, draw);
  }

  method Logout(store: AuthStore, lib: Library, principal: Principal, token: string) returns (r: Result<bool, SessionError>)
    requires store.Valid()
    modifies store`users
    ensures store.Valid()
    ensures Outcome(store.users, r) == LogoutOutcome(old(store.users), lib, principal, token)
  {
    var found := store.UserByRefreshHash(lib.digest(token));
    if found.None? || found.value.user.id != principal.userId {
      return Ok(false);
    }
    var _ := store.RevokeRefreshToken(found.value.user.id, found.value.token.id);
    return Ok(true);
  }

  function Authenticate(lib: Library, config: Config, token: string, now: u64): Result<Principal, SessionError> {
    match config.secret
    case None => Err(Internal)
    case Some(secret) =>
      match Verify(lib.crypto, secret, token, now)
      case Ok(claims) => Ok(Principal(claims.subject, claims.systemAdmin))
      case Err(Expired) => Err(ExpiredToken)
      case Err(Malformed) => Err(InvalidToken)
      case Err(BadSignature) => Err(InvalidToken)
  }

  function RequireRole(grants: map<string, Grants>, principal: Principal, project: string, required: Role)
    : Result<(), SessionError>
  {
    if principal.systemAdmin then Ok(())
    else
      match GrantFolder(project)
      case Err(e) => Err(Storage(e))
      case Ok(folder) =>
        match RoleIn(grants, folder, principal.userId)
        case Some(held) => if Rank(held) >= Rank(required) then Ok(()) else Err(Forbidden(required))
        case None => Err(Forbidden(required))
  }

  /// One request after another
  /// -------------------------

  /** No two tokens of the store share an identifier or a digest. */
  ghost predicate TokensDistinct(us: seq<User>) {
    forall a, b, x, y :: TokenOf(us, a, x) && TokenOf(us, b, y) && (x.hash == y.hash || x.id == y.id) ==> a == b && x == y
  }

  predicate TokenOf(us: seq<User>, id: string, token: RefreshToken) {
    id in ById(us) && token in ById(us)[id].tokens
  }

  /** A lookup by digest finds the one token with that digest. */
  lemma LookupFinds(us: seq<User>, id: string, token: RefreshToken)
    requires Distinct(us) && TokensDistinct(us) && TokenOf(us, id, token)
    ensures HoldingOf(us, token.hash) == Some(Holding(ById(us)[id], token)) && ById(us)[id].id == id
  {
    LookupIsTheMap(us, id);
    HoldingOfFinds(us, token.hash);
    var h := HoldingOf(us, token.hash).value;
    assert TokenOf(us, h.user.id, h.token);
  }

  lemma AfterRevoke(us: seq<User>, owner: string, spent: RefreshToken)
    requires Distinct(us) && TokensDistinct(us) && TokenOf(us, owner, spent)
    ensures var vs := Revoke(us, owner, spent.id);
            && Distinct(vs) && Revokes(us, owner, spent.id) && owner in ById(vs)
            && forall id, token :: TokenOf(vs, id, token) <==> TokenOf(us, id, token) && token != spent
  {
    var vs := Revoke(us, owner, spent.id);
    RevokeRefines(us, owner, spent.id);
    DropTokenKeeps(ById(us)[owner].tokens, spent.id);
    forall id, token ensures TokenOf(vs, id, token) <==> TokenOf(us, id, token) && token != spent {
      assert TokenOf(us, id, token) && token.id == spent.id ==> id == owner && token == spent;
      if id == owner {
        assert ById(vs)[id].tokens == DropToken(ById(us)[owner].tokens, spent.id);
      }
    }
  }

  lemma AfterInsert(us: seq<User>, owner: string, minted: RefreshToken)
    requires Distinct(us) && TokensDistinct(us) && owner in ById(us)
    requires forall id, token :: TokenOf(us, id, token) ==> token.id != minted.id && token.hash != minted.hash
    ensures InsertToken(us, owner, minted).Ok?
    ensures var vs := InsertToken(us, owner, minted).value;
            && Distinct(vs) && TokensDistinct(vs)
            && forall id, token :: TokenOf(vs, id, token) <==> TokenOf(us, id, token) || (id == owner && token == minted)
  {
    RecordsOneToken(us, owner, minted);
    InsertTokenRefines(us, owner, minted);
  }

  predicate FreshDraw(us: seq<User>, token: RefreshToken) {
    forall u, k :: u in us && k in u.tokens ==> k.id != token.id && k.hash != token.hash
  }

  lemma FreshForAll(us: seq<User>, token: RefreshToken)
    requires FreshDraw(us, token)
    ensures forall id, k :: TokenOf(us, id, k) ==> k.id != token.id && k.hash != token.hash
  {
    forall id, k | TokenOf(us, id, k) ensures k.id != token.id && k.hash != token.hash {
      MapKeys(us, id);
    }
  }

  /** A refresh succeeds exactly when the store holds the presented token and it has not expired.
      It then replaces that token, under the same account, by the new one, and touches no other. */
  lemma RefreshExchangesOneToken(us: seq<User>, lib: Library, config: Config, token: string, now: u64, draw: Draw)
    requires Distinct(us) && TokensDistinct(us) && config.secret.Some? && FreshDraw(us, NewToken(lib, config, now, draw))
    ensures var o := RefreshOutcome(us, lib, config, token, now, draw);
            var minted := NewToken(lib, config, now, draw);
            && (o.result.Ok? <==> exists id, k :: TokenOf(us, id, k) && k.hash == lib.digest(token) && k.expiresAt > now)
            && (o.result.Ok? ==> HoldingOf(us, lib.digest(token)).Some? && Distinct(o.users) && TokensDistinct(o.users))
            && (o.result.Ok? ==>
                  var h := HoldingOf(us, lib.digest(token)).value;
                  forall id, k ::
                    TokenOf(o.users, id, k) <==> (TokenOf(us, id, k) && k != h.token) || (id == h.user.id && k == minted))
  {
    var o, minted := RefreshOutcome(us, lib, config, token, now, draw), NewToken(lib, config, now, draw);
    HoldingOfFinds(us, lib.digest(token));
    FreshForAll(us, minted);
    if HoldingOf(us, lib.digest(token)).Some? {
      var h := HoldingOf(us, lib.digest(token)).value;
      assert TokenOf(us, h.user.id, h.token);
      AfterRevoke(us, h.user.id, h.token);
      var vs := Revoke(us, h.user.id, h.token.id);
      AfterInsert(vs, h.user.id, minted);
      forall id, k | TokenOf(us, id, k) && k.hash == lib.digest(token) ensures k == h.token {
      }
    } else {
      forall id, k | TokenOf(us, id, k) ensures k.hash != lib.digest(token) {
      }
    }
  }

  /** Presenting a spent token again is refused, at every later instant and whatever is drawn. */
  lemma ReplayIsRefused(us: seq<User>, lib: Library, config: Config, token: string, now: u64, draw: Draw,
                        later: u64, draw': Draw)
    requires Distinct(us) && TokensDistinct(us) && config.secret.Some? && FreshDraw(us, NewToken(lib, config, now, draw))
    ensures var first := RefreshOutcome(us, lib, config, token, now, draw);
            first.result.Ok? ==>
              RefreshOutcome(first.users, lib, config, token, later, draw').result == Err(InvalidRefreshToken)
  {
    var first := RefreshOutcome(us, lib, config, token, now, draw);
    if first.result.Ok? {
      RefreshExchangesOneToken(us, lib, config, token, now, draw);
      FreshForAll(us, NewToken(lib, config, now, draw));
      HoldingOfFinds(us, lib.digest(token));
      var h := HoldingOf(us, lib.digest(token)).value;
      assert TokenOf(us, h.user.id, h.token);
      HoldingOfFinds(first.users, lib.digest(token));
      forall id, k | TokenOf(first.users, id, k) ensures k.hash != lib.digest(token) {
        assert TokenOf(us, id, k) && k.hash == lib.digest(token) ==> k == h.token;
      }
      if HoldingOf(first.users, lib.digest(token)).Some? {
        var g := HoldingOf(first.users, lib.digest(token)).value;
        assert TokenOf(first.users, g.user.id, g.token);
      }
    }
  }

  /** Without interference the answer of a sign-out is exact: it is true just when the caller held
      the token, which is then gone, and otherwise nothing changes. */
  lemma LogoutIsExactAlone(us: seq<User>, lib: Library, principal: Principal, token: string)
    requires Distinct(us) && TokensDistinct(us)
    ensures var o := LogoutOutcome(us, lib, principal, token);
            && (o.result == Ok(true) <==> exists k :: TokenOf(us, principal.userId, k) && k.hash == lib.digest(token))
            && (o.result == Ok(true) ==> HoldingOf(o.users, lib.digest(token)).None?)
            && (o.result != Ok(true) ==> o.result == Ok(false) && o.users == us)
  {
    var o := LogoutOutcome(us, lib, principal, token);
    HoldingOfFinds(us, lib.digest(token));
    forall k | TokenOf(us, principal.userId, k) && k.hash == lib.digest(token) ensures o.result == Ok(true) {
      LookupFinds(us, principal.userId, k);
    }
    if o.result == Ok(true) {
      var h := HoldingOf(us, lib.digest(token)).value;
      assert TokenOf(us, h.user.id, h.token);
      AfterRevoke(us, h.user.id, h.token);
      HoldingOfFinds(o.users, lib.digest(token));
      if HoldingOf(o.users, lib.digest(token)).Some? {
        var g := HoldingOf(o.users, lib.digest(token)).value;
        assert TokenOf(o.users, g.user.id, g.token);
      }
    }
  }

  /** The pair a sign-in hands out works: its access token names the account until it expires, and its
      refresh token buys the next pair until it expires. */
  lemma SignInWorks(us: seq<User>, lib: Library, config: Config, username: string, password: string, now: u64, draw: Draw,
                    at: u64, draw': Draw)
    requires Distinct(us) && TokensDistinct(us) && Faithful(lib.crypto)
    requires FreshDraw(us, NewToken(lib, config, now, draw))
    ensures var o := LoginOutcome(us, lib, config, username, password, now, draw);
            o.result.Ok? ==> UserByName(us, username).Some?
    ensures var o := LoginOutcome(us, lib, config, username, password, now, draw);
            o.result.Ok? ==>
              var user := UserByName(us, username).value;
              && lib.verifies(user.passwordHash, password)
              && Authenticate(lib, config, o.result.value.access, at)
                 == (if at < o.result.value.accessExpiresAt then Ok(Principal(user.id, user.systemAdmin)) else Err(ExpiredToken))
              && (FreshDraw(o.users, NewToken(lib, config, at, draw')) ==>
                    (RefreshOutcome(o.users, lib, config, o.result.value.refresh, at, draw').result.Ok?
                     <==> at < o.result.value.refreshExpiresAt))
  {
    hide Prune, InsertToken, Verify, Mint, RefreshOutcome, FreshDraw;
    var o := LoginOutcome(us, lib, config, username, password, now, draw);
    if o.result.Ok? {
      var user := UserByName(us, username).value;
      MintedTokenVerifies(lib.crypto, config.secret.value, user.id, user.systemAdmin, config.accessTtl, now, draw.accessId, at);
      var minted := NewToken(lib, config, now, draw);
      AfterPrune(us, now);
      FreshForAll(us, minted);
      InsertTokenRefines(Prune(us, now), user.id, minted);
      AfterInsert(Prune(us, now), user.id, minted);
      if FreshDraw(o.users, NewToken(lib, config, at, draw')) {
        RefreshExchangesOneToken(o.users, lib, config, o.result.value.refresh, at, draw');
        assert TokenOf(o.users, user.id, minted);
        forall id, k | TokenOf(o.users, id, k) && k.hash == minted.hash ensures k == minted {
        }
      }
    }
  }

  lemma TokensAfterPrune(us: seq<User>, now: u64)
    requires Distinct(us)
    ensures Distinct(Prune(us, now))
    ensures forall id, k :: TokenOf(Prune(us, now), id, k) <==> TokenOf(us, id, k) && k.expiresAt > now
  {
    PruneRefines(us, now);
    forall id, k ensures TokenOf(Prune(us, now), id, k) <==> TokenOf(us, id, k) && k.expiresAt > now {
      if id in ById(us) {
        DropExpiredKeeps(ById(us)[id].tokens, now);
      }
    }
  }

  lemma AfterPrune(us: seq<User>, now: u64)
    requires Distinct(us) && TokensDistinct(us)
    ensures Distinct(Prune(us, now)) && TokensDistinct(Prune(us, now))
    ensures forall id, k :: TokenOf(Prune(us, now), id, k) <==> TokenOf(us, id, k) && k.expiresAt > now
  {
    TokensAfterPrune(us, now);
  }

  /// What each answer means
  /// ----------------------

  /** The accounts are the same, in the same order, whatever became of their tokens. */
  predicate OnlyTokensDiffer(us: seq<User>, vs: seq<User>) {
    |vs| == |us| && forall i :: 0 <= i < |us| ==> vs[i].(tokens := []) == us[i].(tokens := [])
  }

  predicate MayEnter(lib: Library, u: User, username: string, password: string) {
    EqIgnoreCase(u.username, username) && lib.verifies(u.passwordHash, password)
  }

  /** With a secret set a sign-in succeeds exactly when some account has the username, up to case, and
      the password verifies against its hash. A refusal says only that the credentials are wrong and
      leaves the list; a success drops every expired token and records the new one under that account. */
  lemma SignInExactly(us: seq<User>, lib: Library, config: Config, username: string, password: string, now: u64, draw: Draw)
    requires Distinct(us)
    ensures var o := LoginOutcome(us, lib, config, username, password, now, draw);
            && (config.secret.None? ==> o.result == Err(Internal) && o.users == us)
            && (config.secret.Some? ==>
                  && (o.result.Ok? <==> exists u :: u in us && MayEnter(lib, u, username, password))
                  && (o.result.Err? ==> o.result == Err(InvalidCredentials) && o.users == us))
            && OnlyTokensDiffer(us, o.users)
            && (o.result.Ok? ==>
                  exists u :: u in us && MayEnter(lib, u, username, password) &&
                    forall id, k ::
                      TokenOf(o.users, id, k)
                      <==> (TokenOf(us, id, k) && k.expiresAt > now)
                           || (id == u.id && k == RefreshToken(draw.id, lib.digest(draw.refreshToken), SaturatingAdd(now, config.refreshTtl))))
  {
    hide Prune, InsertToken, Mint, EqIgnoreCase, Distinct, UserByName, TokenOf, OnlyTokensDiffer;
    EntersByName(us, username);
    OnlyTokensPruned(us, now);
    var found := UserByName(us, username);
    if config.secret.Some? && found.Some? && lib.verifies(found.value.passwordHash, password) {
      IssuesToEntered(us, found.value, now, NewToken(lib, config, now, draw));
      assert MayEnter(lib, found.value, username, password);
    }
  }

  lemma EntersByName(us: seq<User>, username: string)
    requires Distinct(us)
    ensures var found := UserByName(us, username);
            && (found.Some? ==> found.value in us && EqIgnoreCase(found.value.username, username))
            && forall u :: u in us && EqIgnoreCase(u.username, username) ==> found == Some(u)
    ensures OnlyTokensDiffer(us, us)
  {
    hide EqIgnoreCase, Distinct;
    NameLookup(us, username);
    forall u | u in us && EqIgnoreCase(u.username, username) ensures UserByName(us, username) == Some(u) {
      var i :| 0 <= i < |us| && us[i] == u;
      NameNamesOneAccount(us, username, i);
    }
  }

  lemma IssuesToEntered(us: seq<User>, user: User, now: u64, minted: RefreshToken)
    requires Distinct(us) && user in us
    ensures InsertToken(Prune(us, now), user.id, minted).Ok?
    ensures var vs := InsertToken(Prune(us, now), user.id, minted).value;
            && OnlyTokensDiffer(us, vs)
            && forall id, k :: TokenOf(vs, id, k) <==> (TokenOf(us, id, k) && k.expiresAt > now) || (id == user.id && k == minted)
  {
    hide Prune, InsertToken, Distinct, TokenOf;
    MapKeys(us, user.id);
    TokensAfterPrune(us, now);
    PruneRefines(us, now);
    RecordsOneToken(Prune(us, now), user.id, minted);
    OnlyTokensPruned(us, now);
  }

  lemma OnlyTokensPruned(us: seq<User>, now: u64)
    ensures OnlyTokensDiffer(us, Prune(us, now))
  {
  }

  lemma RecordsOneToken(us: seq<User>, owner: string, minted: RefreshToken)
    requires Distinct(us) && owner in ById(us)
    ensures InsertToken(us, owner, minted).Ok?
    ensures var vs := InsertToken(us, owner, minted).value;
            && OnlyTokensDiffer(us, vs)
            && forall id, token :: TokenOf(vs, id, token) <==> TokenOf(us, id, token) || (id == owner && token == minted)
  {
    InsertTokenRefines(us, owner, minted);
    var vs := InsertToken(us, owner, minted).value;
    forall id, token ensures TokenOf(vs, id, token) <==> TokenOf(us, id, token) || (id == owner && token == minted) {
      if id == owner {
        assert ById(vs)[id].tokens == ById(us)[owner].tokens + [minted];
      }
    }
  }

  /** A refused refresh answers alike whatever the reason, and takes the presented token with it if the
      store holds one. */
  lemma RefreshRefuses(us: seq<User>, lib: Library, config: Config, token: string, now: u64, draw: Draw)
    requires Distinct(us) && TokensDistinct(us)
    ensures var o := RefreshOutcome(us, lib, config, token, now, draw);
            && (config.secret.None? ==> o.result == Err(Internal) && o.users == us)
            && (config.secret.Some? && o.result.Err? ==>
                  && o.result == Err(InvalidRefreshToken)
                  && forall id, k :: TokenOf(o.users, id, k) <==> TokenOf(us, id, k) && k.hash != lib.digest(token))
            && OnlyTokensDiffer(us, o.users)
  {
    hide Distinct, InsertToken, Revoke, Revokes, HoldingOf, Mint;
    var o := RefreshOutcome(us, lib, config, token, now, draw);
    HoldingOfFinds(us, lib.digest(token));
    if config.secret.Some? && HoldingOf(us, lib.digest(token)).Some? {
      var h := HoldingOf(us, lib.digest(token)).value;
      PresentedTokenGoes(us, lib.digest(token), h);
      var vs := Revoke(us, h.user.id, h.token.id);
      RecordsOneToken(vs, h.user.id, NewToken(lib, config, now, draw));
    }
  }

  /** Revoking the token a digest resolves to takes every token with that digest. */
  lemma PresentedTokenGoes(us: seq<User>, hash: string, h: Holding)
    requires Distinct(us) && TokensDistinct(us) && HoldingOf(us, hash) == Some(h)
    ensures var vs := Revoke(us, h.user.id, h.token.id);
            && Distinct(vs) && Revokes(us, h.user.id, h.token.id) && h.user.id in ById(vs) && OnlyTokensDiffer(us, vs)
            && forall id, k :: TokenOf(vs, id, k) <==> TokenOf(us, id, k) && k.hash != hash
  {
    HoldingOfFinds(us, hash);
    assert TokenOf(us, h.user.id, h.token);
    AfterRevoke(us, h.user.id, h.token);
    var vs := Revoke(us, h.user.id, h.token.id);
    forall id, k ensures TokenOf(vs, id, k) <==> TokenOf(us, id, k) && k.hash != hash {
      assert TokenOf(us, id, k) && k.hash == hash ==> k == h.token;
    }
  }

  /** A sign-out takes the presented token when the caller holds it, and nothing else. */
  lemma LogoutTakesOneToken(us: seq<User>, lib: Library, principal: Principal, token: string)
    requires Distinct(us) && TokensDistinct(us)
    ensures var o := LogoutOutcome(us, lib, principal, token);
            && OnlyTokensDiffer(us, o.users)
            && forall id, k ::
                 TokenOf(o.users, id, k) <==> TokenOf(us, id, k) && !(id == principal.userId && k.hash == lib.digest(token))
  {
    hide Distinct, Revoke, HoldingOf;
    var o := LogoutOutcome(us, lib, principal, token);
    HoldingOfFinds(us, lib.digest(token));
    if HoldingOf(us, lib.digest(token)).Some? {
      var h := HoldingOf(us, lib.digest(token)).value;
      PresentedTokenGoes(us, lib.digest(token), h);
      assert TokenOf(us, h.user.id, h.token);
      forall id, k | TokenOf(us, id, k) && k.hash == lib.digest(token) ensures id == h.user.id {
      }
    }
  }

  function Earlier(a: int, b: int): int { if a < b then a else b }

  /** The tokens drawn and the instants they stop being valid: `now` and their lifetimes added up, but
      never past the last instant a clock can show. */
  predicate IsPairOf(lib: Library, config: Config, u: User, now: u64, draw: Draw, pair: SessionTokens, at: u64) {
    && pair.refresh == draw.refreshToken
    && pair.accessExpiresAt == Earlier(now + config.accessTtl, 0xFFFF_FFFF_FFFF_FFFF)
    && pair.refreshExpiresAt == Earlier(now + config.refreshTtl, 0xFFFF_FFFF_FFFF_FFFF)
    && Authenticate(lib, config, pair.access, at)
       == if at < pair.accessExpiresAt then Ok(Principal(u.id, u.systemAdmin)) else Err(ExpiredToken)
  }

  lemma PairIsIssued(us: seq<User>, lib: Library, config: Config, user: User, now: u64, draw: Draw, at: u64)
    requires config.secret.Some? && Faithful(lib.crypto) && IssueOutcome(us, lib, config, user, now, draw).result.Ok?
    ensures IsPairOf(lib, config, user, now, draw, IssueOutcome(us, lib, config, user, now, draw).result.value, at)
  {
    hide Verify, Mint, InsertToken;
    MintedTokenVerifies(lib.crypto, config.secret.value, user.id, user.systemAdmin, config.accessTtl, now, draw.accessId, at);
  }

  /** A successful sign-in hands out a pair for the account that entered, a successful refresh one for
      the account that held the token. */
  lemma PairsGoToTheirAccount(us: seq<User>, lib: Library, config: Config, username: string, password: string,
                              token: string, now: u64, draw: Draw, at: u64)
    requires Distinct(us) && Faithful(lib.crypto)
    ensures var signIn := LoginOutcome(us, lib, config, username, password, now, draw).result;
            signIn.Ok? ==>
              exists u :: u in us && MayEnter(lib, u, username, password)
                          && IsPairOf(lib, config, u, now, draw, signIn.value, at)
    ensures var refresh := RefreshOutcome(us, lib, config, token, now, draw).result;
            refresh.Ok? ==>
              exists u, k :: u in us && k in u.tokens && k.hash == lib.digest(token)
                             && IsPairOf(lib, config, u, now, draw, refresh.value, at)
  {
    hide Verify, Mint, InsertToken, Prune, Distinct, EqIgnoreCase, HoldingOf, Revoke, Revokes, Authenticate;
    var signIn := LoginOutcome(us, lib, config, username, password, now, draw).result;
    if signIn.Ok? {
      var user := UserByName(us, username).value;
      NameLookup(us, username);
      PairIsIssued(Prune(us, now), lib, config, user, now, draw, at);
      assert user in us && MayEnter(lib, user, username, password);
    }
    var refresh := RefreshOutcome(us, lib, config, token, now, draw).result;
    if refresh.Ok? {
      var h := HoldingOf(us, lib.digest(token)).value;
      HoldingOfFinds(us, lib.digest(token));
      MapKeys(us, h.user.id);
      PairIsIssued(Revoke(us, h.user.id, h.token.id), lib, config, h.user, now, draw, at);
      assert h.user in us && h.token in h.user.tokens;
    }
  }

  /// Who a token names and what a role admits
  /// ----------------------------------------

  ghost predicate Signed(lib: Library, config: Config, token: string, claims: Claims) {
    config.secret.Some? && exists header, payload :: Carries(lib.crypto, config.secret.value, token, header, payload, claims)
  }

  /** Exactly a token signed with the server's secret, before its expiry, names a caller: the subject and
      the flag of its claims. Past its expiry it is an expired token, and every other token is invalid. */
  lemma AuthenticatesExactly(lib: Library, config: Config, token: string, now: u64, p: Principal)
    ensures Authenticate(lib, config, token, now) == Ok(p)
       <==> exists claims :: Signed(lib, config, token, claims) && claims.expiresAt > now
                             && p == Principal(claims.subject, claims.systemAdmin)
    ensures Authenticate(lib, config, token, now) == Err(ExpiredToken)
       <==> exists claims :: Signed(lib, config, token, claims) && claims.expiresAt <= now
    ensures config.secret.None? <==> Authenticate(lib, config, token, now) == Err(Internal)
    ensures Authenticate(lib, config, token, now).Err? ==>
              Authenticate(lib, config, token, now).error in {Internal, ExpiredToken, InvalidToken}
  {
    hide Verify, Carries;
    if config.secret.Some? {
      var secret := config.secret.value;
      RefusesExactly(lib.crypto, secret, token, now);
      forall claims ensures Verify(lib.crypto, secret, token, now) == Ok(claims)
                            <==> claims.expiresAt > now && Signed(lib, config, token, claims)
      {
        AcceptsExactlySignedTokens(lib.crypto, secret, token, now, claims);
      }
      if Verify(lib.crypto, secret, token, now) == Err(Expired) {
        var header, payload, claims :| Carries(lib.crypto, secret, token, header, payload, claims) && claims.expiresAt <= now;
        assert Signed(lib, config, token, claims);
      }
    }
  }

  /** A check lets an administrator pass, and everyone else exactly with a role the required one admits:
      any role for a viewer, editors and owners for an editor, owners alone for an owner. */
  lemma RolesAdmitExactly(grants: map<string, Grants>, principal: Principal, project: string, required: Role)
    ensures var held := if GrantFolder(project).Ok? then RoleIn(grants, GrantFolder(project).value, principal.userId) else None;
            && (RequireRole(grants, principal, project, required).Ok?
                <==> principal.systemAdmin
                     || (held == Some(Owner))
                     || (held == Some(Editor) && required != Owner)
                     || (held == Some(Viewer) && required == Viewer))
            && (RequireRole(grants, principal, project, required).Err? ==>
                  RequireRole(grants, principal, project, required)
                  == if GrantFolder(project).Ok? then Err(Forbidden(required)) else Err(Storage(InvalidInput)))
  {
  }

  /// The protocol, without interference
  /// ----------------------------------

  /** Start, lookup, redemption, and the recording of what was minted. */
  function RunAlone(s: SessionProtocol.State, t: nat, request: SessionProtocol.Thread, lib: Library, config: Config, draw: Draw)
    : SessionProtocol.State
  {
    var s1 := SessionProtocol.Step(s, SessionProtocol.Start(t, request));
    var s2 := SessionProtocol.Step(s1, SessionProtocol.Advance(t));
    var s3 := SessionProtocol.Step(s2, SessionProtocol.Advance(t));
    SessionProtocol.Step(s3, SessionProtocol.Mint(t, draw.id, lib.digest(draw.refreshToken), config.refreshTtl))
  }

  lemma RedeemAlone(s: SessionProtocol.State, t: nat, lib: Library, config: Config, now: u64, draw: Draw, h: Holding)
    requires t in s.threads && s.threads[t] == SessionProtocol.RefreshFound(now, h.user, h.token)
    requires h.token.id in s.issued && SessionProtocol.Fresh(s, draw.id, lib.digest(draw.refreshToken))
    requires config.secret.Some?
    requires !Revokes(s.users, h.user.id, h.token.id) ==> Revoke(s.users, h.user.id, h.token.id) == s.users
    ensures var s3 := SessionProtocol.Step(s, SessionProtocol.Advance(t));
            var s4 := SessionProtocol.Step(s3, SessionProtocol.Mint(t, draw.id, lib.digest(draw.refreshToken), config.refreshTtl));
            var vs := Revoke(s.users, h.user.id, h.token.id);
            var refused := h.token.expiresAt <= now || !Revokes(s.users, h.user.id, h.token.id);
            var o := if refused then Outcome(vs, Err(InvalidRefreshToken)) else IssueOutcome(vs, lib, config, h.user, now, draw);
            && s4.users == o.users && t in s4.threads && s4.threads[t] == SessionProtocol.Done(Answer(o.result, draw))
  {
    var s3 := SessionProtocol.Step(s, SessionProtocol.Advance(t));
    var refused := h.token.expiresAt <= now || !Revokes(s.users, h.user.id, h.token.id);
    if refused {
      assert s3.threads[t] == SessionProtocol.Done(SessionProtocol.Refused);
    } else {
      assert s3.threads[t] == SessionProtocol.RefreshWon(now, h.user, h.token);
      assert s3.issued == s.issued && s3.users == Revoke(s.users, h.user.id, h.token.id);
    }
  }

  function Answer(r: Result<SessionTokens, SessionError>, draw: Draw): SessionProtocol.Outcome {
    match r
    case Ok(_) => SessionProtocol.Issued(draw.id)
    case Err(e) => if e.Storage? then SessionProtocol.Failed else SessionProtocol.Refused
  }

  /** A thread that rotates a token with nothing in between does what one refresh does. */
  lemma RefreshAloneIsRefresh(s: SessionProtocol.State, t: nat, lib: Library, config: Config, token: string, now: u64, draw: Draw)
    requires SessionProtocol.Inv(s) && t !in s.threads && config.secret.Some?
    requires SessionProtocol.Fresh(s, draw.id, lib.digest(draw.refreshToken))
    ensures var o := RefreshOutcome(s.users, lib, config, token, now, draw);
            var s' := RunAlone(s, t, SessionProtocol.RefreshStart(lib.digest(token), now), lib, config, draw);
            && s'.users == o.users
            && t in s'.threads
            && s'.threads[t] == SessionProtocol.Done(Answer(o.result, draw))
  {
    hide Revoke, Revokes, HoldingOf, IssueOutcome, SessionProtocol.Redeem;
    var s1 := SessionProtocol.Step(s, SessionProtocol.Start(t, SessionProtocol.RefreshStart(lib.digest(token), now)));
    var s2 := SessionProtocol.Step(s1, SessionProtocol.Advance(t));
    assert s1.users == s.users && s1.threads[t] == SessionProtocol.RefreshStart(lib.digest(token), now);
    match HoldingOf(s.users, lib.digest(token))
    case None =>
      assert s2.threads[t] == SessionProtocol.Done(SessionProtocol.Refused);
    case Some(h) =>
      SessionProtocol.FoundIsKnown(s.users, s.issued, lib.digest(token));
      RevokeRefines(s.users, h.user.id, h.token.id);
      assert s2.threads[t] == SessionProtocol.RefreshFound(now, h.user, h.token);
      RedeemAlone(s2, t, lib, config, now, draw, h);
  }

  /** Without interference a thread that signs out does what one sign-out does. */
  lemma LogoutAloneIsLogout(s: SessionProtocol.State, t: nat, lib: Library, principal: Principal, token: string)
    requires t !in s.threads
    ensures var o := LogoutOutcome(s.users, lib, principal, token);
            var s1 := SessionProtocol.Step(s, SessionProtocol.Start(t, SessionProtocol.LogoutStart(principal.userId, lib.digest(token))));
            var s3 := SessionProtocol.Step(SessionProtocol.Step(s1, SessionProtocol.Advance(t)), SessionProtocol.Advance(t));
            && s3.users == o.users && o.result.Ok?
            && t in s3.threads && s3.threads[t] == SessionProtocol.Done(SessionProtocol.SignedOut(o.result.value))
  {
    hide Revoke, HoldingOf, SessionProtocol.LiveIds;
    var request := SessionProtocol.LogoutStart(principal.userId, lib.digest(token));
    var s1 := SessionProtocol.Step(s, SessionProtocol.Start(t, request));
    var s2 := SessionProtocol.Step(s1, SessionProtocol.Advance(t));
    assert s1.users == s.users && s1.threads[t] == request;
    match HoldingOf(s.users, lib.digest(token))
    case None =>
      assert s2.threads[t] == SessionProtocol.Done(SessionProtocol.SignedOut(false));
    case Some(h) =>
      if h.user.id == principal.userId {
        assert s2.threads[t] == SessionProtocol.LogoutFound(h.user, h.token);
      } else {
        assert s2.threads[t] == SessionProtocol.Done(SessionProtocol.SignedOut(false));
      }
  }

  /** Without interference a thread that signs in does what one sign-in does. */
  lemma LoginAloneIsLogin(s: SessionProtocol.State, t: nat, lib: Library, config: Config, username: string, password: string,
                          now: u64, draw: Draw)
    requires t !in s.threads && config.secret.Some?
    requires SessionProtocol.Fresh(s, draw.id, lib.digest(draw.refreshToken))
    ensures var o := LoginOutcome(s.users, lib, config, username, password, now, draw);
            var found := UserByName(s.users, username);
            var matches := lib.verifies(if found.Some? then found.value.passwordHash else DECOY_HASH, password);
            var s' := RunAlone(s, t, SessionProtocol.LoginStart(username, matches, now), lib, config, draw);
            && s'.users == o.users
            && t in s'.threads && s'.threads[t] == SessionProtocol.Done(Answer(o.result, draw))
  {
    hide UserByName, Prune, InsertToken, IssueOutcome, SessionProtocol.LiveIds, SessionProtocol.MintFor;
    var found := UserByName(s.users, username);
    var matches := lib.verifies(if found.Some? then found.value.passwordHash else DECOY_HASH, password);
    var request := SessionProtocol.LoginStart(username, matches, now);
    var s1 := SessionProtocol.Step(s, SessionProtocol.Start(t, request));
    var s2 := SessionProtocol.Step(s1, SessionProtocol.Advance(t));
    assert s1.users == s.users && s1.threads[t] == request;
    if found.None? || !matches {
      assert s2.threads[t] == SessionProtocol.Done(SessionProtocol.Refused);
      NothingMinted(s2, t, draw.id, lib.digest(draw.refreshToken), config.refreshTtl);
    } else {
      assert s2.threads[t] == SessionProtocol.LoginVerified(found.value, now);
      var s3 := SessionProtocol.Step(s2, SessionProtocol.Advance(t));
      assert s3.users == Prune(s.users, now) && s3.threads[t] == SessionProtocol.LoginPruned(found.value, now);
      assert s3.issued == s.issued;
      MintsForSignIn(s3, t, lib, config, found.value, now, draw);
    }
  }

  lemma NothingMinted(s: SessionProtocol.State, t: nat, id: string, hash: string, ttl: u64)
    requires t in s.threads && s.threads[t].Done?
    ensures SessionProtocol.Step(s, SessionProtocol.Mint(t, id, hash, ttl)) == s
    ensures SessionProtocol.Step(s, SessionProtocol.Advance(t)) == s
  {
  }

  lemma MintsForSignIn(s: SessionProtocol.State, t: nat, lib: Library, config: Config, user: User, now: u64, draw: Draw)
    requires t in s.threads && s.threads[t] == SessionProtocol.LoginPruned(user, now) && config.secret.Some?
    requires SessionProtocol.Fresh(s, draw.id, lib.digest(draw.refreshToken))
    ensures var s' := SessionProtocol.Step(s, SessionProtocol.Mint(t, draw.id, lib.digest(draw.refreshToken), config.refreshTtl));
            var o := IssueOutcome(s.users, lib, config, user, now, draw);
            && s'.users == o.users && t in s'.threads && s'.threads[t] == SessionProtocol.Done(Answer(o.result, draw))
  {
    hide InsertToken, Mint;
  }
}
