/**
 Pruning expired tokens is never seen by a request whose clock has reached the
 instant pruned at (`src/auth/store.rs`, `src/auth/session.rs`).
 */
module Pruning {
  import opened Wrappers
  import opened Accounts
  import opened Sessions
  import SessionProtocol

  /// Pruning commutes with the other transactions
  /// --------------------------------------------

  lemma {:induction false} PruneTwice(tokens: seq<RefreshToken>, t: u64)
    ensures DropExpired(DropExpired(tokens, t), t) == DropExpired(tokens, t)
  {
    if tokens != [] {
      PruneTwice(tokens[1..], t);
      var rest := DropExpired(tokens[1..], t);
      assert ([tokens[0]] + rest)[1..] == rest && [] + rest == rest;
    }
  }

  lemma FirstDrops(token: RefreshToken, rest: seq<RefreshToken>, id: string, t: u64)
    ensures DropExpired([token] + rest, t) == (if token.expiresAt > t then [token] else []) + DropExpired(rest, t)
    ensures DropToken([token] + rest, id) == (if token.id == id then [] else [token]) + DropToken(rest, id)
  {
    assert ([token] + rest)[1..] == rest;
  }

  lemma {:induction false} DropsCommute(tokens: seq<RefreshToken>, id: string, t: u64)
    ensures DropExpired(DropToken(tokens, id), t) == DropToken(DropExpired(tokens, t), id)
  {
    if tokens != [] {
      hide DropExpired, DropToken;
      var first, rest := tokens[0], tokens[1..];
      var unexpired, others := DropExpired(rest, t), DropToken(rest, id);
      assert tokens == [first] + rest;
      FirstDrops(first, rest, id, t);
      FirstDrops(first, unexpired, id, t);
      FirstDrops(first, others, id, t);
      DropsCommute(rest, id, t);
      assert [] + unexpired == unexpired && [] + others == others;
    }
  }

  lemma {:induction false} DropExpiredOfAppended(tokens: seq<RefreshToken>, token: RefreshToken, t: u64)
    ensures DropExpired(tokens + [token], t) == DropExpired(tokens, t) + DropExpired([token], t)
  {
    if tokens == [] {
      assert tokens + [token] == [token];
    } else {
      assert (tokens + [token])[1..] == tokens[1..] + [token];
      DropExpiredOfAppended(tokens[1..], token, t);
    }
  }

  lemma PruneOfUpdate(us: seq<User>, i: nat, tokens: seq<RefreshToken>, t: u64)
    requires i < |us|
    ensures Prune(us[i := us[i].(tokens := tokens)], t) == Prune(us, t)[i := us[i].(tokens := DropExpired(tokens, t))]
  {
  }

  lemma PruneIdempotent(us: seq<User>, t: u64)
    ensures Prune(Prune(us, t), t) == Prune(us, t)
  {
    forall i | 0 <= i < |us| ensures Prune(Prune(us, t), t)[i] == Prune(us, t)[i] {
      PruneTwice(us[i].tokens, t);
    }
  }

  lemma PruneOfRevoke(us: seq<User>, userId: string, tokenId: string, t: u64)
    ensures Prune(Revoke(us, userId, tokenId), t) == Revoke(Prune(us, t), userId, tokenId)
  {
    var i := IndexOfId(us, userId);
    assert IndexOfId(Prune(us, t), userId) == i;
    if i < |us| {
      DropsCommute(us[i].tokens, tokenId, t);
      PruneOfUpdate(us, i, DropToken(us[i].tokens, tokenId), t);
    }
  }

  lemma PruneOfInsert(us: seq<User>, userId: string, token: RefreshToken, t: u64)
    ensures match InsertToken(us, userId, token)
            case Err(e) => InsertToken(Prune(us, t), userId, token) == Err(e)
            case Ok(vs) =>
              InsertToken(Prune(us, t), userId, token).Ok? &&
              Prune(InsertToken(Prune(us, t), userId, token).value, t) == Prune(vs, t)
  {
    var ps := Prune(us, t);
    var i := IndexOfId(us, userId);
    assert IndexOfId(ps, userId) == i;
    if i < |us| {
      PruneOfUpdate(us, i, us[i].tokens + [token], t);
      PruneOfUpdate(ps, i, ps[i].tokens + [token], t);
      DropExpiredOfAppended(us[i].tokens, token, t);
      DropExpiredOfAppended(ps[i].tokens, token, t);
      PruneTwice(us[i].tokens, t);
      PruneIdempotent(us, t);
    }
  }

  /// Lookups on a pruned list
  /// ------------------------

  /** On a pruned list a digest resolves to the same token, unless that token has expired. */
  lemma PrunedLookup(us: seq<User>, digest: string, t: u64)
    requires Distinct(us) && TokensDistinct(us)
    ensures match HoldingOf(us, digest)
            case None => HoldingOf(Prune(us, t), digest).None?
            case Some(h) =>
              && (h.token.expiresAt <= t ==> HoldingOf(Prune(us, t), digest).None?)
              && (h.token.expiresAt > t ==>
                    HoldingOf(Prune(us, t), digest) == Some(Holding(h.user.(tokens := DropExpired(h.user.tokens, t)), h.token)))
  {
    var ps := Prune(us, t);
    AfterPrune(us, t);
    PruneRefines(us, t);
    HoldingOfFinds(us, digest);
    HoldingOfFinds(ps, digest);
    if HoldingOf(ps, digest).Some? {
      var g := HoldingOf(ps, digest).value;
      assert TokenOf(ps, g.user.id, g.token);
      LookupFinds(us, g.user.id, g.token);
    }
    if HoldingOf(us, digest).Some? {
      var h := HoldingOf(us, digest).value;
      assert TokenOf(us, h.user.id, h.token);
      if h.token.expiresAt > t {
        LookupFinds(ps, h.user.id, h.token);
      }
    }
  }

  /** Every reachable state of the protocol has distinct tokens, so what follows applies to it. */
  lemma ProtocolKeepsTokensDistinct(s: SessionProtocol.State)
    requires SessionProtocol.Inv(s)
    ensures Distinct(s.users) && TokensDistinct(s.users)
  {
    forall a, b, x, y | TokenOf(s.users, a, x) && TokenOf(s.users, b, y) && (x.hash == y.hash || x.id == y.id)
      ensures a == b && x == y
    {
      assert s.issued[x.id].token == x && s.issued[y.id].token == y;
    }
  }

  /// Pruning is not seen
  /// -------------------

  lemma IssuingAfterPruning(us: seq<User>, lib: Library, config: Config, user: User, user': User, now: u64, draw: Draw, t: u64)
    requires config.secret.Some? && user'.id == user.id && user'.systemAdmin == user.systemAdmin
    ensures var o := IssueOutcome(us, lib, config, user, now, draw);
            var o' := IssueOutcome(Prune(us, t), lib, config, user', now, draw);
            o.result == o'.result && Prune(o.users, t) == Prune(o'.users, t)
  {
    PruneOfInsert(us, user.id, NewToken(lib, config, now, draw), t);
    PruneIdempotent(us, t);
  }

  /** Pruning at `t` changes neither the answer of a refresh whose clock has reached `t`, nor, up to
      expired tokens, the accounts it leaves. */
  lemma RefreshDoesNotSeePruning(us: seq<User>, lib: Library, config: Config, token: string, now: u64, draw: Draw, t: u64)
    requires Distinct(us) && TokensDistinct(us) && t <= now
    ensures var o := RefreshOutcome(us, lib, config, token, now, draw);
            var o' := RefreshOutcome(Prune(us, t), lib, config, token, now, draw);
            o.result == o'.result && Prune(o.users, t) == Prune(o'.users, t)
  {
    hide IssueOutcome, Prune, Revoke, ById;
    PruneIdempotent(us, t);
    PrunedLookup(us, lib.digest(token), t);
    if config.secret.Some? && HoldingOf(us, lib.digest(token)).Some? {
      var h := HoldingOf(us, lib.digest(token)).value;
      HoldingOfFinds(us, lib.digest(token));
      assert TokenOf(us, h.user.id, h.token);
      AfterRevoke(us, h.user.id, h.token);
      PruneOfRevoke(us, h.user.id, h.token.id, t);
      if h.token.expiresAt <= t {
        RevokingTheExpired(us, h.user.id, h.token, t);
      } else {
        AfterPrune(us, t);
        AfterRevoke(Prune(us, t), h.user.id, h.token);
        var h' := HoldingOf(Prune(us, t), lib.digest(token)).value;
        PruneIdempotent(Revoke(us, h.user.id, h.token.id), t);
        IssuingAfterPruning(Revoke(us, h.user.id, h.token.id), lib, config, h.user, h'.user, now, draw, t);
      }
    }
  }

  /** Revoking an expired token is invisible once the list is pruned. */
  lemma RevokingTheExpired(us: seq<User>, userId: string, token: RefreshToken, t: u64)
    requires Distinct(us) && TokensDistinct(us) && TokenOf(us, userId, token) && token.expiresAt <= t
    ensures Prune(Revoke(us, userId, token.id), t) == Prune(us, t)
  {
    PruneOfRevoke(us, userId, token.id, t);
    AfterPrune(us, t);
    RevokeRefines(Prune(us, t), userId, token.id);
    PruneRefines(us, t);
    forall k | k in ById(Prune(us, t))[userId].tokens ensures k.id != token.id {
      assert TokenOf(Prune(us, t), userId, k);
      assert k.id == token.id ==> k == token;
    }
  }

  /** Two stores that differ only in tokens expired at `t` answer every refresh from `t` on alike. */
  lemma PruneEquivalentStoresAnswerAlike(us: seq<User>, vs: seq<User>, lib: Library, config: Config, token: string,
                                         now: u64, draw: Draw, t: u64)
    requires Distinct(us) && TokensDistinct(us) && Distinct(vs) && TokensDistinct(vs)
    requires Prune(us, t) == Prune(vs, t) && t <= now
    ensures var o := RefreshOutcome(us, lib, config, token, now, draw);
            var o' := RefreshOutcome(vs, lib, config, token, now, draw);
            o.result == o'.result && Prune(o.users, t) == Prune(o'.users, t)
  {
    RefreshDoesNotSeePruning(us, lib, config, token, now, draw, t);
    RefreshDoesNotSeePruning(vs, lib, config, token, now, draw, t);
  }
}
