/**
 The refresh-token protocol of `src/auth/session.rs` over the account store, as a
 step system.

 Requests are threads. Each runs the steps its function takes in the source, and
 any other action may fall between two of them: another request, an account
 added or removed, a prune, or a crash. A lookup is one lockless read, every write
 is one locked transaction, and publishing a file is an atomic swap of the list.

 `issued`, `exchanged` and `discarded` are a record of what happened; they never
 decide what a step does, except that a minted identifier and digest are fresh.
 */
module SessionProtocol {
  import opened Wrappers
  import opened Accounts

  /** A recorded token: whose it is, and the sign-in its rotations descend from. */
  datatype Issue = Issue(token: RefreshToken, owner: string, session: string)

  datatype Outcome = Refused | Issued(id: string) | SignedOut(removed: bool) | Failed

  datatype Thread =
    | RefreshStart(digest: string, now: u64)
    | RefreshFound(now: u64, user: User, token: RefreshToken)
    | RefreshWon(now: u64, user: User, token: RefreshToken)
    | LoginStart(username: string, matches: bool, now: u64)
    | LoginVerified(user: User, now: u64)
    | LoginPruned(user: User, now: u64)
    | LogoutStart(principal: string, digest: string)
    | LogoutFound(user: User, token: RefreshToken)
    | Done(outcome: Outcome)

  datatype State = State(
    users: seq<User>,
    threads: map<nat, Thread>,
    issued: map<string, Issue>,
    exchanged: map<string, nat>,
    discarded: set<string>)

  datatype Action =
    | Start(thread: nat, request: Thread)
    | Advance(thread: nat)
    | Mint(thread: nat, id: string, hash: string, ttl: u64)
    | Crash(thread: nat)
    | AddAccount(user: User)
    | RemoveAccount(id: string)
    | PruneStore(now: u64)

  const EMPTY := State([], map[], map[], map[], {})

  /// Live tokens
  /// -----------

  /** The account the token was recorded for still holds it. */
  predicate LiveIn(us: seq<User>, issue: Issue) {
    var m := ById(us);
    issue.owner in m && issue.token in m[issue.owner].tokens
  }

  function LiveIds(us: seq<User>, issued: map<string, Issue>): set<string> {
    set id | id in issued && LiveIn(us, issued[id])
  }

  function Live(s: State): set<string> { LiveIds(s.users, s.issued) }

  /** Replaces the list; every token that stops being live without an exchange is discarded. */
  function Publish(s: State, us: seq<User>): State {
    s.(users := us, discarded := s.discarded + (Live(s) - LiveIds(us, s.issued)))
  }

  function Put(s: State, t: nat, thread: Thread): State {
    s.(threads := s.threads[t := thread])
  }

  /// Steps
  /// -----

  predicate IsRequest(thread: Thread) {
    thread.RefreshStart? || thread.LoginStart? || thread.LogoutStart?
  }

  function Look(s: State, t: nat, thread: Thread): State
    requires IsRequest(thread)
  {
    match thread
    case RefreshStart(digest, now) =>
      (match HoldingOf(s.users, digest)
       case None => Put(s, t, Done(Refused))
       case Some(h) => Put(s, t, RefreshFound(now, h.user, h.token)))
    case LoginStart(username, matches, now) =>
      (match UserByName(s.users, username)
       case None => Put(s, t, Done(Refused))
       case Some(user) => if matches then Put(s, t, LoginVerified(user, now)) else Put(s, t, Done(Refused)))
    case LogoutStart(principal, digest) =>
      (match HoldingOf(s.users, digest)
       case None => Put(s, t, Done(SignedOut(false)))
       case Some(h) =>
         if h.user.id != principal then Put(s, t, Done(SignedOut(false)))
         else Put(s, t, LogoutFound(h.user, h.token)))
  }

  /** An expired record is dropped and refused; otherwise the revocation decides. */
  function Redeem(s: State, t: nat, now: u64, user: User, token: RefreshToken): State {
    var us := Revoke(s.users, user.id, token.id);
    if token.expiresAt <= now then Put(Publish(s, us), t, Done(Refused))
    else if Revokes(s.users, user.id, token.id) then
      Put(s.(users := us, exchanged := s.exchanged[token.id := t]), t, RefreshWon(now, user, token))
    else Put(s, t, Done(Refused))
  }

  function Proceed(s: State, t: nat): State
    requires t in s.threads
  {
    match s.threads[t]
    case RefreshFound(now, user, token) => Redeem(s, t, now, user, token)
    case LoginVerified(user, now) => Put(Publish(s, Prune(s.users, now)), t, LoginPruned(user, now))
    case LogoutFound(user, token) =>
      // The answer does not look at whether the revocation removed anything.
      Put(Publish(s, Revoke(s.users, user.id, token.id)), t, Done(SignedOut(true)))
    case RefreshWon(_, _, _) => s
    case LoginPruned(_, _) => s
    case Done(_) => s
    case _ => Look(s, t, s.threads[t])
  }

  predicate Fresh(s: State, id: string, hash: string) {
    id !in s.issued && forall x :: x in s.issued ==> s.issued[x].token.hash != hash
  }

  function Record(s: State, t: nat, owner: string, session: string, token: RefreshToken): State {
    match InsertToken(s.users, owner, token)
    case Err(_) => Put(s, t, Done(Failed))
    case Ok(us) =>
      Put(s.(users := us, issued := s.issued[token.id := Issue(token, owner, session)]), t, Done(Issued(token.id)))
  }

  function MintFor(s: State, t: nat, id: string, hash: string, ttl: u64): State
    requires t in s.threads
  {
    if !Fresh(s, id, hash) then s
    else
      match s.threads[t]
      case RefreshWon(now, user, token) =>
        if token.id !in s.issued then s
        else Record(s, t, user.id, s.issued[token.id].session, RefreshToken(id, hash, SaturatingAdd(now, ttl)))
      case LoginPruned(user, now) =>
        Record(s, t, user.id, id, RefreshToken(id, hash, SaturatingAdd(now, ttl)))
      case _ => s
  }

  function Step(s: State, a: Action): State {
    match a
    case Start(t, request) =>
      if t in s.threads || !IsRequest(request) then s else Put(s, t, request)
    case Advance(t) => if t in s.threads then Proceed(s, t) else s
    case Mint(t, id, hash, ttl) => if t in s.threads then MintFor(s, t, id, hash, ttl) else s
    case Crash(t) => if t in s.threads && !s.threads[t].Done? then Put(s, t, Done(Failed)) else s
    case AddAccount(user) =>
      (match Insert(s.users, user.(tokens := []))
       case Err(_) => s
       case Ok(us) => s.(users := us))
    case RemoveAccount(id) => Publish(s, DropUser(s.users, id))
    case PruneStore(now) => Publish(s, Prune(s.users, now))
  }

  function Run(s: State, actions: seq<Action>): State {
    if actions == [] then s
    else Step(Run(s, actions[..|actions| - 1]), actions[|actions| - 1])
  }

  /** The action is a refresh passing its revocation gate for the token `id`. */
  predicate PassesGate(s: State, a: Action, id: string) {
    a.Advance? && a.thread in s.threads && s.threads[a.thread].RefreshFound? &&
    var f := s.threads[a.thread];
    f.token.id == id && f.token.expiresAt > f.now && Revokes(s.users, f.user.id, id)
  }

  /// The invariant
  /// -------------

  /** Every stored token is on record, under its owner. */
  ghost predicate Owned(us: seq<User>, issued: map<string, Issue>) {
    var m := ById(us);
    forall id, token :: id in m && token in m[id].tokens ==>
      token.id in issued && issued[token.id].token == token && issued[token.id].owner == id
  }

  ghost predicate Named(issued: map<string, Issue>) {
    && (forall x :: x in issued ==> issued[x].token.id == x)
    && (forall x, y :: x in issued && y in issued && issued[x].token.hash == issued[y].token.hash ==> x == y)
    && (forall x {:trigger SessionOf(issued, x)} :: x in issued ==> SessionOf(issued, x) in issued)
  }

  /** A session is named by the token its sign-in was issued. */
  function SessionOf(issued: map<string, Issue>, x: string): string
    requires x in issued
  {
    issued[x].session
  }

  /** Each token ever issued is live, exchanged or discarded, and only one of the three. */
  ghost predicate Conserved(issued: set<string>, live: set<string>, exchanged: set<string>, discarded: set<string>) {
    && issued == live + exchanged + discarded
    && live !! exchanged && live !! discarded && exchanged !! discarded
  }

  ghost predicate Knows(issued: map<string, Issue>, user: User, token: RefreshToken) {
    token.id in issued && issued[token.id].token == token && issued[token.id].owner == user.id
  }

  ghost predicate ThreadOk(issued: map<string, Issue>, exchanged: map<string, nat>, t: nat, thread: Thread) {
    match thread
    case RefreshFound(_, user, token) => Knows(issued, user, token)
    case LogoutFound(user, token) => Knows(issued, user, token)
    case RefreshWon(_, user, token) =>
      Knows(issued, user, token) && token.id in exchanged && exchanged[token.id] == t
    case _ => true
  }

  ghost predicate ThreadsOk(issued: map<string, Issue>, exchanged: map<string, nat>, threads: map<nat, Thread>) {
    forall t :: t in threads ==> ThreadOk(issued, exchanged, t, threads[t])
  }

  /** The rotations between their gate and their insertion, and the token each spent. */
  function InFlight(threads: map<nat, Thread>): map<nat, string> {
    map t | t in threads && threads[t].RefreshWon? :: threads[t].token.id
  }

  predicate SameSession(issued: map<string, Issue>, x: string, y: string) {
    x in issued && y in issued && issued[x].session == issued[y].session
  }

  /** A session is carried by one live token or by one rotation in flight, never by two carriers. */
  ghost predicate OneCarrier(issued: map<string, Issue>, live: set<string>, flights: map<nat, string>) {
    && (forall x, y :: x in live && y in live && SameSession(issued, x, y) ==> x == y)
    && (forall t, x :: t in flights && x in live ==> !SameSession(issued, flights[t], x))
    && (forall t, u :: t in flights && u in flights && SameSession(issued, flights[t], flights[u]) ==> t == u)
  }

  /** What the account list says of the record. */
  ghost predicate Stored(us: seq<User>, issued: map<string, Issue>) {
    Distinct(us) && Owned(us, issued) && Named(issued)
  }

  /** What the record says of the tokens and the threads. */
  ghost predicate Ledger(issued: map<string, Issue>, live: set<string>, exchanged: map<string, nat>,
                         discarded: set<string>, threads: map<nat, Thread>)
  {
    && Conserved(issued.Keys, live, exchanged.Keys, discarded)
    && ThreadsOk(issued, exchanged, threads)
    && OneCarrier(issued, live, InFlight(threads))
  }

  ghost predicate Inv(s: State) {
    Stored(s.users, s.issued) && Ledger(s.issued, Live(s), s.exchanged, s.discarded, s.threads)
  }

  /// The ledger under each kind of step
  /// ----------------------------------

  /** Moving a thread that holds no rotation. */
  lemma LedgerPut(issued: map<string, Issue>, live: set<string>, exchanged: map<string, nat>,
                  discarded: set<string>, threads: map<nat, Thread>, t: nat, thread: Thread)
    requires Ledger(issued, live, exchanged, discarded, threads)
    requires !thread.RefreshWon? && ThreadOk(issued, exchanged, t, thread)
    ensures Ledger(issued, live, exchanged, discarded, threads[t := thread])
  {
    assert InFlight(threads[t := thread]) == InFlight(threads) - {t};
  }

  /** Passing the gate turns the session's live token into a rotation in flight. */
  lemma LedgerGate(issued: map<string, Issue>, live: set<string>, exchanged: map<string, nat>,
                   discarded: set<string>, threads: map<nat, Thread>, t: nat, now: u64, user: User, token: RefreshToken)
    requires Ledger(issued, live, exchanged, discarded, threads)
    requires Knows(issued, user, token) && token.id in live
    ensures Ledger(issued, live - {token.id}, exchanged[token.id := t], discarded,
                   threads[t := RefreshWon(now, user, token)])
  {
    var threads' := threads[t := RefreshWon(now, user, token)];
    forall u | u in threads' ensures ThreadOk(issued, exchanged[token.id := t], u, threads'[u]) {
      if u != t {
        assert ThreadOk(issued, exchanged, u, threads[u]);
      }
    }
    assert InFlight(threads') == InFlight(threads)[t := token.id];
    assert forall x, y :: SameSession(issued, x, y) ==> SameSession(issued, y, x);
  }

  /** A rotation's session has no live token, and no other rotation in flight. */
  lemma WinnerHoldsTheSession(issued: map<string, Issue>, live: set<string>, exchanged: map<string, nat>,
                              discarded: set<string>, threads: map<nat, Thread>, t: nat)
    requires Ledger(issued, live, exchanged, discarded, threads)
    requires t in threads && threads[t].RefreshWon?
    ensures threads[t].token.id in issued
    ensures Vacant(issued, live, InFlight(threads) - {t}, issued[threads[t].token.id].session)
  {
    var flights := InFlight(threads);
    var id := threads[t].token.id;
    assert ThreadOk(issued, exchanged, t, threads[t]) && flights[t] == id;
    forall x | x in live ensures x in issued && issued[x].session != issued[id].session {
      assert !SameSession(issued, flights[t], x);
    }
    forall u | u in flights && u != t
      ensures flights[u] in issued && issued[flights[u]].session != issued[id].session
    {
      assert ThreadOk(issued, exchanged, u, threads[u]);
      assert !SameSession(issued, flights[t], flights[u]);
    }
  }

  /** Nothing carries the session. */
  ghost predicate Vacant(issued: map<string, Issue>, live: set<string>, flights: map<nat, string>, session: string) {
    && (forall x :: x in live ==> x in issued && issued[x].session != session)
    && (forall u :: u in flights ==> flights[u] in issued && issued[flights[u]].session != session)
  }

  /** A fresh identifier names a session nothing carries. */
  lemma FreshSessionIsVacant(issued: map<string, Issue>, live: set<string>, exchanged: map<string, nat>,
                             discarded: set<string>, threads: map<nat, Thread>, id: string)
    requires Ledger(issued, live, exchanged, discarded, threads) && Named(issued) && id !in issued
    ensures Vacant(issued, live, InFlight(threads), id)
  {
    forall x | x in issued ensures issued[x].session != id {
      assert SessionOf(issued, x) in issued;
    }
    forall u | u in InFlight(threads) ensures InFlight(threads)[u] in issued {
      assert ThreadOk(issued, exchanged, u, threads[u]);
    }
  }

  lemma MoreIssued(issued: map<string, Issue>, exchanged: map<string, nat>, threads: map<nat, Thread>,
                   t: nat, id: string, issue: Issue)
    requires ThreadsOk(issued, exchanged, threads) && id !in issued
    ensures ThreadsOk(issued[id := issue], exchanged, threads[t := Done(Issued(id))])
  {
    var issued', threads' := issued[id := issue], threads[t := Done(Issued(id))];
    forall u | u in threads' ensures ThreadOk(issued', exchanged, u, threads'[u]) {
      if u != t {
        assert ThreadOk(issued, exchanged, u, threads[u]);
      }
    }
  }

  lemma NewCarrier(issued: map<string, Issue>, live: set<string>, flights: map<nat, string>, id: string, issue: Issue)
    requires OneCarrier(issued, live, flights) && id !in issued && Vacant(issued, live, flights, issue.session)
    ensures OneCarrier(issued[id := issue], live + {id}, flights)
  {
    var issued' := issued[id := issue];
    assert forall x, y :: x in issued && y in issued ==> (SameSession(issued', x, y) <==> SameSession(issued, x, y));
  }

  /** Recording a fresh token gives a vacant session its carrier. */
  lemma LedgerRecord(issued: map<string, Issue>, live: set<string>, exchanged: map<string, nat>,
                     discarded: set<string>, threads: map<nat, Thread>, t: nat, id: string, issue: Issue)
    requires Ledger(issued, live, exchanged, discarded, threads) && id !in issued
    requires Vacant(issued, live, InFlight(threads) - {t}, issue.session)
    ensures Ledger(issued[id := issue], live + {id}, exchanged, discarded, threads[t := Done(Issued(id))])
  {
    var issued', threads' := issued[id := issue], threads[t := Done(Issued(id))];
    assert Conserved(issued'.Keys, live + {id}, exchanged.Keys, discarded) by {
      assert issued'.Keys == issued.Keys + {id};
    }
    MoreIssued(issued, exchanged, threads, t, id, issue);
    assert InFlight(threads') == InFlight(threads) - {t};
    NewCarrier(issued, live, InFlight(threads) - {t}, id, issue);
  }

  /// Each step keeps the invariant
  /// -----------------------------

  ghost predicate LosesOnly(us: seq<User>, vs: seq<User>) {
    && Distinct(vs)
    && forall id, token :: id in ById(vs) && token in ById(vs)[id].tokens ==>
         id in ById(us) && token in ById(us)[id].tokens
  }

  /** A list that only loses tokens can be published. */
  lemma PublishKeeps(s: State, us: seq<User>)
    requires Inv(s) && LosesOnly(s.users, us)
    ensures Inv(Publish(s, us)) && Publish(s, us).threads == s.threads
  {
    assert LiveIds(us, s.issued) <= Live(s);
  }

  lemma PutKeeps(s: State, t: nat, thread: Thread)
    requires Inv(s) && !thread.RefreshWon? && ThreadOk(s.issued, s.exchanged, t, thread)
    ensures Inv(Put(s, t, thread))
  {
    LedgerPut(s.issued, Live(s), s.exchanged, s.discarded, s.threads, t, thread);
  }

  lemma FoundIsKnown(us: seq<User>, issued: map<string, Issue>, digest: string)
    requires Distinct(us) && Owned(us, issued) && HoldingOf(us, digest).Some?
    ensures var h := HoldingOf(us, digest).value;
            Knows(issued, h.user, h.token) && h.token.id in LiveIds(us, issued) && h.token.hash == digest
  {
    HoldingOfFinds(us, digest);
  }

  lemma LookKeeps(s: State, t: nat, thread: Thread)
    requires Inv(s) && IsRequest(thread)
    ensures Inv(Look(s, t, thread))
  {
    hide HoldingOf, UserByName, Ledger;
    if !thread.LoginStart? && HoldingOf(s.users, thread.digest).Some? {
      FoundIsKnown(s.users, s.issued, thread.digest);
    }
    PutKeeps(s, t, Look(s, t, thread).threads[t]);
  }

  lemma RevokeLosesOnly(us: seq<User>, userId: string, tokenId: string)
    requires Distinct(us)
    ensures LosesOnly(us, Revoke(us, userId, tokenId))
  {
    RevokeRefines(us, userId, tokenId);
    if userId in ById(us) {
      DropTokenKeeps(ById(us)[userId].tokens, tokenId);
    }
  }

  /** Revoking a known token ends exactly that token, and reports whether it was live. */
  lemma RevokeEnds(us: seq<User>, issued: map<string, Issue>, user: User, token: RefreshToken)
    requires Distinct(us) && Owned(us, issued) && Named(issued) && Knows(issued, user, token)
    ensures Revokes(us, user.id, token.id) <==> token.id in LiveIds(us, issued)
    ensures LiveIds(Revoke(us, user.id, token.id), issued) == LiveIds(us, issued) - {token.id}
  {
    hide Revoke, Distinct;
    var m := ById(us);
    RevokeRefines(us, user.id, token.id);
    if user.id in m {
      var tokens := m[user.id].tokens;
      DropTokenKeeps(tokens, token.id);
      if HasId(tokens, token.id) {
        var tk :| tk in tokens && tk.id == token.id;
        assert tk == token;
      }
    }
    assert forall x :: x in issued ==> issued[x].token.id == x;
  }

  lemma GateKeeps(s: State, t: nat, now: u64, user: User, token: RefreshToken)
    requires Inv(s) && Knows(s.issued, user, token) && Revokes(s.users, user.id, token.id)
    ensures Inv(Put(s.(users := Revoke(s.users, user.id, token.id), exchanged := s.exchanged[token.id := t]),
                    t, RefreshWon(now, user, token)))
  {
    RevokeEnds(s.users, s.issued, user, token);
    RevokeLosesOnly(s.users, user.id, token.id);
    LedgerGate(s.issued, Live(s), s.exchanged, s.discarded, s.threads, t, now, user, token);
  }

  lemma RedeemKeeps(s: State, t: nat, now: u64, user: User, token: RefreshToken)
    requires Inv(s) && Knows(s.issued, user, token)
    ensures Inv(Redeem(s, t, now, user, token))
  {
    var us := Revoke(s.users, user.id, token.id);
    if token.expiresAt <= now {
      RevokeLosesOnly(s.users, user.id, token.id);
      PublishKeeps(s, us);
      PutKeeps(Publish(s, us), t, Done(Refused));
    } else if Revokes(s.users, user.id, token.id) {
      GateKeeps(s, t, now, user, token);
    } else {
      PutKeeps(s, t, Done(Refused));
    }
  }

  lemma PruneLosesOnly(us: seq<User>, now: u64)
    requires Distinct(us)
    ensures LosesOnly(us, Prune(us, now))
  {
    PruneRefines(us, now);
    forall id, token | id in ById(Prune(us, now)) && token in ById(Prune(us, now))[id].tokens
      ensures id in ById(us) && token in ById(us)[id].tokens
    {
      DropExpiredKeeps(ById(us)[id].tokens, now);
    }
  }

  lemma ProceedKeeps(s: State, t: nat)
    requires Inv(s) && t in s.threads
    ensures Inv(Proceed(s, t))
  {
    var thread := s.threads[t];
    assert ThreadOk(s.issued, s.exchanged, t, thread);
    match thread
    case RefreshFound(now, user, token) =>
      RedeemKeeps(s, t, now, user, token);
    case LoginVerified(user, now) =>
      PruneLosesOnly(s.users, now);
      PublishKeeps(s, Prune(s.users, now));
      PutKeeps(Publish(s, Prune(s.users, now)), t, LoginPruned(user, now));
    case LogoutFound(user, token) =>
      RevokeLosesOnly(s.users, user.id, token.id);
      PublishKeeps(s, Revoke(s.users, user.id, token.id));
      PutKeeps(Publish(s, Revoke(s.users, user.id, token.id)), t, Done(SignedOut(true)));
    case RefreshWon(_, _, _) =>
    case LoginPruned(_, _) =>
    case Done(_) =>
    case _ =>
      LookKeeps(s, t, thread);
  }

  /** Recording a fresh token makes it live and ends no other. */
  lemma RecordAddsOne(us: seq<User>, issued: map<string, Issue>, owner: string, session: string, token: RefreshToken)
    requires Distinct(us) && Owned(us, issued) && Named(issued) && token.id !in issued
    requires InsertToken(us, owner, token).Ok?
    ensures var vs := InsertToken(us, owner, token).value;
            var issued' := issued[token.id := Issue(token, owner, session)];
            Distinct(vs) && Owned(vs, issued') && LiveIds(vs, issued') == LiveIds(us, issued) + {token.id}
  {
    hide InsertToken, Distinct;
    InsertTokenRefines(us, owner, token);
    var vs := InsertToken(us, owner, token).value;
    var m, m' := ById(us), ById(vs);
    var issued' := issued[token.id := Issue(token, owner, session)];
    forall x | x in issued
      ensures LiveIn(vs, issued'[x]) <==> LiveIn(us, issued[x])
    {
      assert issued[x].token.id == x;
    }
    forall id, tk | id in m' && tk in m'[id].tokens
      ensures tk.id in issued' && issued'[tk.id].token == tk && issued'[tk.id].owner == id
    {
      assert tk in m[id].tokens || (tk == token && id == owner);
    }
  }

  lemma RecordKeeps(s: State, t: nat, owner: string, session: string, token: RefreshToken)
    requires Inv(s) && Fresh(s, token.id, token.hash)
    requires session in s.issued || session == token.id
    requires Vacant(s.issued, Live(s), InFlight(s.threads) - {t}, session)
    ensures Inv(Record(s, t, owner, session, token))
  {
    if InsertToken(s.users, owner, token).Err? {
      PutKeeps(s, t, Done(Failed));
    } else {
      var issue := Issue(token, owner, session);
      RecordAddsOne(s.users, s.issued, owner, session, token);
      StillNamed(s.issued, token.id, issue);
      LedgerRecord(s.issued, Live(s), s.exchanged, s.discarded, s.threads, t, token.id, issue);
    }
  }

  lemma StillNamed(issued: map<string, Issue>, id: string, issue: Issue)
    requires Named(issued) && id !in issued && issue.token.id == id
    requires forall x :: x in issued ==> issued[x].token.hash != issue.token.hash
    requires issue.session in issued || issue.session == id
    ensures Named(issued[id := issue])
  {
    forall x | x in issued ensures SessionOf(issued[id := issue], x) in issued {
      assert SessionOf(issued, x) in issued;
    }
  }

  lemma MintKeeps(s: State, t: nat, id: string, hash: string, ttl: u64)
    requires Inv(s) && t in s.threads
    ensures Inv(MintFor(s, t, id, hash, ttl))
  {
    if Fresh(s, id, hash) {
      match s.threads[t]
      case RefreshWon(now, user, token) =>
        WinnerHoldsTheSession(s.issued, Live(s), s.exchanged, s.discarded, s.threads, t);
        var session := SessionOf(s.issued, token.id);
        assert session in s.issued;
        RecordKeeps(s, t, user.id, session, RefreshToken(id, hash, SaturatingAdd(now, ttl)));
      case LoginPruned(user, now) =>
        FreshSessionIsVacant(s.issued, Live(s), s.exchanged, s.discarded, s.threads, id);
        RecordKeeps(s, t, user.id, id, RefreshToken(id, hash, SaturatingAdd(now, ttl)));
      case _ =>
    }
  }

  lemma AddAccountKeeps(s: State, user: User)
    requires Inv(s)
    ensures Inv(Step(s, AddAccount(user)))
  {
    hide Insert, Distinct;
    var bare := user.(tokens := []);
    InsertRefines(s.users, bare);
    if Insert(s.users, bare).Ok? {
      var us := Insert(s.users, bare).value;
      LookupIsTheMap(s.users, bare.id);
      assert LiveIds(us, s.issued) == Live(s);
    }
  }

  lemma RemoveAccountKeeps(s: State, id: string)
    requires Inv(s)
    ensures Inv(Step(s, RemoveAccount(id)))
  {
    DropUserFilters(s.users, id);
    DropUserRefines(s.users, id);
    PublishKeeps(s, DropUser(s.users, id));
  }

  lemma StepKeeps(s: State, a: Action)
    requires Inv(s)
    ensures Inv(Step(s, a))
  {
    match a
    case Start(t, request) =>
      if t !in s.threads && IsRequest(request) {
        PutKeeps(s, t, request);
      }
    case Advance(t) =>
      if t in s.threads {
        ProceedKeeps(s, t);
      }
    case Mint(t, id, hash, ttl) =>
      if t in s.threads {
        MintKeeps(s, t, id, hash, ttl);
      }
    case Crash(t) =>
      if t in s.threads {
        PutKeeps(s, t, Done(Failed));
      }
    case AddAccount(user) => AddAccountKeeps(s, user);
    case RemoveAccount(id) => RemoveAccountKeeps(s, id);
    case PruneStore(now) =>
      PruneLosesOnly(s.users, now);
      PublishKeeps(s, Prune(s.users, now));
  }

  /** Every state reached from one that satisfies the invariant satisfies it. */
  lemma {:induction false} RunKeeps(s: State, actions: seq<Action>)
    requires Inv(s)
    ensures Inv(Run(s, actions))
  {
    if actions != [] {
      RunKeeps(s, actions[..|actions| - 1]);
      StepKeeps(Run(s, actions[..|actions| - 1]), actions[|actions| - 1]);
    }
  }

  /// What every run satisfies
  /// ------------------------

  /** The record only grows: nothing issued, exchanged or discarded is ever forgotten. */
  ghost predicate Grows(s: State, s': State) {
    && (forall x :: x in s.issued ==> x in s'.issued && s'.issued[x] == s.issued[x])
    && (forall x :: x in s.exchanged ==> x in s'.exchanged && s'.exchanged[x] == s.exchanged[x])
    && s.discarded <= s'.discarded
  }

  lemma RedeemGrows(s: State, t: nat, now: u64, user: User, token: RefreshToken)
    requires Inv(s) && Knows(s.issued, user, token)
    ensures Grows(s, Redeem(s, t, now, user, token))
  {
    RevokeEnds(s.users, s.issued, user, token);
    assert token.id in s.exchanged ==> token.id !in Live(s);
  }

  lemma PublishGrows(s: State, us: seq<User>, t: nat, thread: Thread)
    ensures Grows(s, Put(Publish(s, us), t, thread)) && Grows(s, Put(s, t, thread))
  {
  }

  lemma ProceedGrows(s: State, t: nat)
    requires Inv(s) && t in s.threads
    ensures Grows(s, Proceed(s, t))
  {
    var thread := s.threads[t];
    if thread.RefreshFound? {
      assert ThreadOk(s.issued, s.exchanged, t, thread);
      RedeemGrows(s, t, thread.now, thread.user, thread.token);
    } else if thread.LoginVerified? {
      PublishGrows(s, Prune(s.users, thread.now), t, LoginPruned(thread.user, thread.now));
    } else if thread.LogoutFound? {
      PublishGrows(s, Revoke(s.users, thread.user.id, thread.token.id), t, Done(SignedOut(true)));
    }
  }

  lemma OtherStepsGrow(s: State, a: Action)
    requires !a.Advance?
    ensures Grows(s, Step(s, a))
  {
  }

  lemma StepGrows(s: State, a: Action)
    requires Inv(s)
    ensures Grows(s, Step(s, a))
  {
    if !a.Advance? {
      OtherStepsGrow(s, a);
    } else if a.thread in s.threads {
      ProceedGrows(s, a.thread);
    }
  }

  lemma {:induction false} RunGrows(s: State, actions: seq<Action>)
    requires Inv(s)
    ensures Grows(s, Run(s, actions))
  {
    if actions != [] {
      var before := actions[..|actions| - 1];
      RunKeeps(s, before);
      RunGrows(s, before);
      StepGrows(Run(s, before), actions[|actions| - 1]);
    }
  }

  lemma {:induction false} RunSplits(s: State, actions: seq<Action>, i: nat)
    requires i <= |actions|
    ensures Run(s, actions) == Run(Run(s, actions[..i]), actions[i..])
  {
    if i == |actions| {
      assert actions[..i] == actions;
    } else {
      var before, rest := actions[..|actions| - 1], actions[i..];
      RunSplits(s, before, i);
      assert before[..i] == actions[..i] && before[i..] == rest[..|rest| - 1];
      assert rest[|rest| - 1] == actions[|actions| - 1];
    }
  }

  /** The gate passes a live token and leaves it exchanged by that thread. */
  lemma GateExchanges(s: State, a: Action, id: string)
    requires Inv(s) && PassesGate(s, a, id)
    ensures id in Live(s) && id in Step(s, a).exchanged && Step(s, a).exchanged[id] == a.thread
  {
    var f := s.threads[a.thread];
    assert ThreadOk(s.issued, s.exchanged, a.thread, f);
    RevokeEnds(s.users, s.issued, f.user, f.token);
  }

  /** No refresh passes its gate for a token already exchanged. */
  lemma ExchangedPassesNoGate(s: State, a: Action, id: string)
    requires Inv(s) && id in s.exchanged
    ensures !PassesGate(s, a, id)
  {
    if PassesGate(s, a, id) {
      GateExchanges(s, a, id);
      assert false;
    }
  }

  lemma ExchangedStaysExchanged(actions: seq<Action>, i: nat, j: nat, id: string)
    requires i <= j <= |actions| && id in Run(EMPTY, actions[..i]).exchanged
    ensures id in Run(EMPTY, actions[..j]).exchanged
  {
    RunKeeps(EMPTY, actions[..i]);
    RunSplits(EMPTY, actions[..j], i);
    assert actions[..j][..i] == actions[..i];
    RunGrows(Run(EMPTY, actions[..i]), actions[..j][i..]);
  }

  lemma RunOneMore(actions: seq<Action>, i: nat)
    requires i < |actions|
    ensures Run(EMPTY, actions[..i + 1]) == Step(Run(EMPTY, actions[..i]), actions[i])
  {
    assert actions[..i + 1][..i] == actions[..i];
  }

  /** One refresh token is exchanged at most once, whatever falls between the steps. */
  lemma ExchangedAtMostOnce(actions: seq<Action>, i: nat, j: nat, id: string)
    requires i < j < |actions|
    requires PassesGate(Run(EMPTY, actions[..i]), actions[i], id)
    ensures !PassesGate(Run(EMPTY, actions[..j]), actions[j], id)
  {
    RunKeeps(EMPTY, actions[..i]);
    RunKeeps(EMPTY, actions[..j]);
    GateExchanges(Run(EMPTY, actions[..i]), actions[i], id);
    RunOneMore(actions, i);
    ExchangedStaysExchanged(actions, i + 1, j, id);
    ExchangedPassesNoGate(Run(EMPTY, actions[..j]), actions[j], id);
  }

  /** A digest resolves exactly when it is the digest of a live token. */
  lemma ResolvesExactlyLiveTokens(s: State, id: string)
    requires Inv(s) && id in s.issued
    ensures HoldingOf(s.users, s.issued[id].token.hash).Some? <==> id in Live(s)
  {
    HoldingOfFinds(s.users, s.issued[id].token.hash);
  }

  /** A spent digest is never live again: once it stops resolving, it never resolves. */
  lemma SpentIsForever(before: seq<Action>, after: seq<Action>, id: string)
    requires id in Run(EMPTY, before).issued
    requires HoldingOf(Run(EMPTY, before).users, Run(EMPTY, before).issued[id].token.hash).None?
    ensures HoldingOf(Run(EMPTY, before + after).users, Run(EMPTY, before).issued[id].token.hash).None?
  {
    var s := Run(EMPTY, before);
    RunKeeps(EMPTY, before);
    RunSplits(EMPTY, before + after, |before|);
    assert (before + after)[..|before|] == before && (before + after)[|before|..] == after;
    RunKeeps(s, after);
    RunGrows(s, after);
    ResolvesExactlyLiveTokens(s, id);
    ResolvesExactlyLiveTokens(Run(s, after), id);
  }

  /** A rotation is not a copy: the tokens one sign-in leads to are never live together, and
      none is live while a rotation of the sign-in is between its gate and its insertion. */
  lemma OneLiveTokenPerSession(actions: seq<Action>)
    ensures var s := Run(EMPTY, actions);
            && s.issued.Keys == Live(s) + s.exchanged.Keys + s.discarded
            && (forall x, y :: x in Live(s) && y in Live(s) && SameSession(s.issued, x, y) ==> x == y)
            && (forall t, x :: t in InFlight(s.threads) && x in Live(s) ==> !SameSession(s.issued, InFlight(s.threads)[t], x))
  {
    RunKeeps(EMPTY, actions);
  }

  /// Competing rotations of one token
  /// --------------------------------

  ghost predicate ExchangedBy(s: State, id: string, t: nat) {
    id in s.exchanged && s.exchanged[id] == t
  }

  /** Where a rotation of the unexpired token `id` can stand. A refusal is an answer the thread
      is only given once the token is no longer live. */
  ghost predicate Rotating(s: State, t: nat, id: string) {
    id in s.issued && t in s.threads &&
    match s.threads[t]
    case RefreshStart(digest, now) =>
      digest == s.issued[id].token.hash && now < s.issued[id].token.expiresAt && !ExchangedBy(s, id, t)
    case RefreshFound(now, _, token) =>
      token.id == id && now < s.issued[id].token.expiresAt && !ExchangedBy(s, id, t)
    case RefreshWon(_, _, token) => token.id == id
    case Done(Refused) => id !in Live(s) && !ExchangedBy(s, id, t)
    case Done(Issued(_)) => ExchangedBy(s, id, t)
    case Done(Failed) => true
    case _ => false
  }

  lemma LookRotates(s: State, t: nat, id: string)
    requires Inv(s) && Rotating(s, t, id) && s.threads[t].RefreshStart?
    ensures Rotating(Look(s, t, s.threads[t]), t, id)
  {
    ResolvesExactlyLiveTokens(s, id);
    if id in Live(s) {
      FoundIsKnown(s.users, s.issued, s.threads[t].digest);
    }
  }

  lemma RedeemRotates(s: State, t: nat, id: string)
    requires Inv(s) && Rotating(s, t, id) && s.threads[t].RefreshFound?
    ensures var f := s.threads[t]; Rotating(Redeem(s, t, f.now, f.user, f.token), t, id)
  {
    var f := s.threads[t];
    assert ThreadOk(s.issued, s.exchanged, t, f);
    RevokeEnds(s.users, s.issued, f.user, f.token);
  }

  lemma OwnStepRotates(s: State, a: Action, t: nat, id: string)
    requires Inv(s) && Rotating(s, t, id)
    requires (a.Advance? || a.Mint? || a.Crash? || a.Start?) && a.thread == t
    ensures Rotating(Step(s, a), t, id)
  {
    var thread := s.threads[t];
    assert ThreadOk(s.issued, s.exchanged, t, thread);
    if a.Advance? && thread.RefreshStart? {
      LookRotates(s, t, id);
    } else if a.Advance? && thread.RefreshFound? {
      RedeemRotates(s, t, id);
    } else if a.Mint? && thread.RefreshWon? {
      StepGrows(s, a);
    }
  }

  predicate ActsOn(a: Action, t: nat) {
    (a.Advance? || a.Mint? || a.Crash? || a.Start?) && a.thread == t
  }

  lemma ProceedTouchesOnly(s: State, u: nat, t: nat, id: string)
    requires t in s.threads && u in s.threads && u != t
    ensures t in Proceed(s, u).threads && Proceed(s, u).threads[t] == s.threads[t]
    ensures ExchangedBy(Proceed(s, u), id, t) ==> ExchangedBy(s, id, t)
  {
    match s.threads[u]
    case RefreshFound(now, user, token) =>
    case _ =>
  }

  lemma OtherStepKeepsThread(s: State, a: Action, t: nat, id: string)
    requires t in s.threads && !ActsOn(a, t)
    ensures t in Step(s, a).threads && Step(s, a).threads[t] == s.threads[t]
    ensures ExchangedBy(Step(s, a), id, t) ==> ExchangedBy(s, id, t)
  {
    if a.Advance? && a.thread in s.threads {
      ProceedTouchesOnly(s, a.thread, t, id);
    }
  }

  lemma StepRotates(s: State, a: Action, t: nat, id: string)
    requires Inv(s) && Rotating(s, t, id)
    ensures Rotating(Step(s, a), t, id)
  {
    if ActsOn(a, t) {
      OwnStepRotates(s, a, t, id);
    } else {
      var s' := Step(s, a);
      OtherStepKeepsThread(s, a, t, id);
      StepGrows(s, a);
      StepKeeps(s, a);
      assert id !in Live(s) ==> id !in Live(s');
    }
  }

  lemma {:induction false} RunRotates(s: State, actions: seq<Action>, t: nat, id: string)
    requires Inv(s) && Rotating(s, t, id)
    ensures Rotating(Run(s, actions), t, id)
  {
    if actions != [] {
      var before := actions[..|actions| - 1];
      RunKeeps(s, before);
      RunRotates(s, before, t, id);
      StepRotates(Run(s, before), actions[|actions| - 1], t, id);
    }
  }

  predicate Completed(thread: Thread) {
    thread.Done? && (thread.outcome.Refused? || thread.outcome.Issued?)
  }

  /** The thread is a rotation of the token that has not looked it up yet, at an instant before
      the token expires. */
  predicate AboutToRotate(s: State, t: nat, id: string) {
    id in s.issued && t in s.threads && s.threads[t].RefreshStart? &&
    s.threads[t].digest == s.issued[id].token.hash && s.threads[t].now < s.issued[id].token.expiresAt
  }

  /** When one or more rotations of a live, unexpired token all complete and nothing else takes
      the token, exactly one of them is issued a replacement and every other one is refused. */
  lemma ExactlyOneRotationWins(before: seq<Action>, during: seq<Action>, rotations: set<nat>, id: string)
    returns (winner: nat)
    requires var s := Run(EMPTY, before);
             id in Live(s) && rotations != {} && forall t :: t in rotations ==> AboutToRotate(s, t, id)
    requires var s' := Run(Run(EMPTY, before), during);
             && id !in s'.discarded
             && (id in s'.exchanged ==> s'.exchanged[id] in rotations)
             && forall t :: t in rotations ==> t in s'.threads && Completed(s'.threads[t])
    ensures var s' := Run(Run(EMPTY, before), during);
            && winner in rotations
            && s'.threads[winner].outcome.Issued?
            && forall t :: t in rotations && t != winner ==> s'.threads[t] == Done(Refused)
  {
    var s := Run(EMPTY, before);
    var s' := Run(s, during);
    RunKeeps(EMPTY, before);
    RunKeeps(s, during);
    RunGrows(s, during);
    forall t | t in rotations ensures Rotating(s', t, id) {
      AboutToRotateIsRotating(s, t, id);
      RunRotates(s, during, t, id);
    }
    winner := WinnerAmong(s', rotations, id);
  }

  lemma AboutToRotateIsRotating(s: State, t: nat, id: string)
    requires Inv(s) && id in Live(s) && AboutToRotate(s, t, id)
    ensures Rotating(s, t, id)
  {
    assert id !in s.exchanged;
  }

  lemma WinnerAmong(s: State, rotations: set<nat>, id: string) returns (winner: nat)
    requires Inv(s) && id in s.issued && id !in s.discarded && rotations != {}
    requires id in s.exchanged ==> s.exchanged[id] in rotations
    requires forall t :: t in rotations ==> Rotating(s, t, id) && Completed(s.threads[t])
    ensures winner in rotations && winner in s.threads && s.threads[winner].Done? && s.threads[winner].outcome.Issued?
    ensures forall t :: t in rotations && t != winner ==> t in s.threads && s.threads[t] == Done(Refused)
  {
    var t :| t in rotations;
    assert Rotating(s, t, id);
    assert id in s.exchanged;
    winner := s.exchanged[id];
    assert Rotating(s, winner, id);
  }

  /// Signing out
  /// -----------

  /** Whatever came between its lookup and its revocation, a sign-out that answers true leaves
      the token dead; it took the token itself exactly when the token was still live. */
  lemma SignOutEndsTheToken(s: State, t: nat)
    requires Inv(s) && t in s.threads && s.threads[t].LogoutFound?
    ensures var id := s.threads[t].token.id;
            && Proceed(s, t).threads[t] == Done(SignedOut(true))
            && Live(Proceed(s, t)) == Live(s) - {id}
            && (Live(Proceed(s, t)) != Live(s) <==> id in Live(s))
  {
    var f := s.threads[t];
    assert ThreadOk(s.issued, s.exchanged, t, f);
    RevokeEnds(s.users, s.issued, f.user, f.token);
  }

  /** The answer alone does not say who removed the token: two sign-outs of one token can both
      answer true, the second having removed nothing. */
  lemma TwoSignOutsCanAnswerTrue() returns (actions: seq<Action>)
    ensures var s := Run(EMPTY, actions);
            && 1 in s.threads && s.threads[1] == Done(SignedOut(true))
            && 2 in s.threads && s.threads[2] == Done(SignedOut(true))
    ensures |actions| > 0 && actions[|actions| - 1] == Advance(2)
    ensures Run(EMPTY, actions).users == Run(EMPTY, actions[..|actions| - 1]).users
  {
    hide Step;
    var token := RefreshToken("i", "h", 10);
    var s;
    s, actions := BothLookUp(token);
    var s' := s;
    s, actions := Then(s, actions, Advance(1));
    assert s.users == [ALICE] && s.threads == s'.threads[1 := Done(SignedOut(true))] by {
      RevokesAlice(s', 1, token);
    }
    s' := s;
    s, actions := Then(s, actions, Advance(2));
    assert s.users == [ALICE] && s.threads == s'.threads[2 := Done(SignedOut(true))] by {
      RevokesAlice(s', 2, token);
    }
  }

  lemma RevokesAlice(s: State, t: nat, token: RefreshToken)
    requires token == RefreshToken("i", "h", 10) && t in s.threads
    requires s.users == [ALICE.(tokens := [token])] || s.users == [ALICE]
    requires s.threads[t] == LogoutFound(ALICE.(tokens := [token]), token)
    ensures var s' := Step(s, Advance(t)); s'.users == [ALICE] && s'.threads == s.threads[t := Done(SignedOut(true))]
  {
    hide Revoke, LiveIds;
    AliceEvaluates(token);
  }

  lemma BothLookUp(token: RefreshToken) returns (s: State, actions: seq<Action>)
    requires token == RefreshToken("i", "h", 10)
    ensures s == Run(EMPTY, actions) && s.users == [ALICE.(tokens := [token])]
    ensures 1 in s.threads && 2 in s.threads
    ensures s.threads[1] == s.threads[2] == LogoutFound(ALICE.(tokens := [token]), token)
  {
    hide Revoke, HoldingOf, LiveIds;
    AliceEvaluates(token);
    s, actions := AliceSignsIn(token);
    s, actions := Then(s, actions, Start(1, LogoutStart("u", "h")));
    s, actions := Then(s, actions, Start(2, LogoutStart("u", "h")));
    s, actions := Then(s, actions, Advance(1));
    s, actions := Then(s, actions, Advance(2));
  }

  lemma AliceSignsIn(token: RefreshToken) returns (s: State, actions: seq<Action>)
    requires token == RefreshToken("i", "h", 10)
    ensures s == Run(EMPTY, actions) && s.users == [ALICE.(tokens := [token])] && s.threads == map[0 := Done(Issued("i"))]
  {
    hide Insert, UserByName, Prune, InsertToken, LiveIds;
    AliceEvaluates(token);
    s, actions := Then(EMPTY, [], AddAccount(ALICE));
    s, actions := Then(s, actions, Start(0, LoginStart("alice", true, 0)));
    s, actions := Then(s, actions, Advance(0));
    s, actions := Then(s, actions, Advance(0));
    s, actions := Then(s, actions, Mint(0, "i", "h", 10));
  }

  const ALICE := User("u", "alice", "", false, 0, [])

  lemma AliceEvaluates(token: RefreshToken)
    requires token == RefreshToken("i", "h", 10)
    ensures var holder := ALICE.(tokens := [token]);
            && Insert([], ALICE) == Ok([ALICE])
            && UserByName([ALICE], "alice") == Some(ALICE)
            && Prune([ALICE], 0) == [ALICE]
            && InsertToken([ALICE], "u", token) == Ok([holder])
            && HoldingOf([holder], "h") == Some(Holding(holder, token))
            && Revoke([holder], "u", "i") == [ALICE] && Revoke([ALICE], "u", "i") == [ALICE]
  {
    assert EqIgnoreCase("alice", "alice");
    assert IndexOfId([ALICE], "u") == 0;
    assert TokenByHash([token], "h") == Some(token);
    assert DropToken([token], "i") == [];
    assert [] + [ALICE] == [ALICE] && [] + [token] == [token];
    assert [ALICE][0 := ALICE.(tokens := [token])] == [ALICE.(tokens := [token])];
  }

  /** One more action. */
  lemma Then(s: State, actions: seq<Action>, a: Action) returns (s': State, actions': seq<Action>)
    requires s == Run(EMPTY, actions)
    ensures actions' == actions + [a] && actions'[..|actions'| - 1] == actions
    ensures s' == Step(s, a) == Run(EMPTY, actions')
  {
    actions' := actions + [a];
    assert actions'[..|actions|] == actions;
    s' := Step(s, a);
  }
}
