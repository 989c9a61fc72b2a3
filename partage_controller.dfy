/** PartageController: accepting an exchange, joining it (both parties receive 40 tokens), and
    deleting it. */
module PartageController {
  import opened Php
  import opened Store
  import opened Http
  import opened PartageEntity
  import UserModel
  import SessionModel
  import PartageModel

  /** What the joining user and the requester each receive. */
  const JoinReward := 40

  /** The tables after the exchange under `s` is accepted by `u`: only its accepter changes. */
  function AcceptedBy(t: Tables, s: int, u: UserId): Tables
    requires s in t.exchanges
  {
    PartageModel.UpsertExchange(t, s, t.exchanges[s].(accepterId := Some(u)))
  }

  /** The tables after a committed joinPartage: the acceptance and the two credits. */
  function Reward(t: Tables, s: int, u: UserId, requester: UserId): Tables
    requires s in t.exchanges
  {
    UserModel.Credit(UserModel.Credit(AcceptedBy(t, s, u), u, JoinReward), requester, JoinReward)
  }

  /** The exchange can be joined: it exists and its accepter is falsy (null or 0). */
  predicate Open(t: Tables, s: int)
  {
    PartageModel.PartageExists(t, s) && !Truthy(t.exchanges[s].accepterId)
  }

  /** joinPartage gets past its checks and opens its transaction. */
  predicate Attempted(t: Tables, user: Option<UserId>, s: int)
  {
    user.Some? && Open(t, s)
  }

  /** The store accepts the three writes and the exchange has a requester to credit. */
  predicate Settles(t: Tables, failing: set<Table>, s: int)
    requires s in t.exchanges
  {
    && SessionTable !in failing
    && ExchangeTable !in failing
    && AppUser !in failing
    && t.exchanges[s].requesterId.Some?
  }

  /** Saving the entity getById built writes back the same session row. */
  lemma ResaveSessionUnchanged(t: Tables, s: int)
    requires Consistent(t) && s in t.sessions
    ensures SessionModel.SavedSession(t, Some(s), t.sessions[s]) == t
    ensures SessionModel.SavedId(t, Some(s)) == s
  {
    assert t.sessions[s := t.sessions[s]] == t.sessions;
  }

  /** A committed join mints 40 tokens for the joining user and 40 for the requester; a
      requester joining their own exchange is not refused and receives 80. */
  lemma RewardBalances(t: Tables, s: int, u: UserId, requester: UserId)
    requires s in t.exchanges
    requires u in t.balance && requester in t.balance
    ensures u != requester ==> UserModel.Balance(Reward(t, s, u, requester), u) == UserModel.Balance(t, u) + 40
    ensures u != requester ==> UserModel.Balance(Reward(t, s, u, requester), requester) == UserModel.Balance(t, requester) + 40
    ensures u == requester ==> UserModel.Balance(Reward(t, s, u, requester), u) == UserModel.Balance(t, u) + 80
    ensures forall v :: v != u && v != requester ==> UserModel.Balance(Reward(t, s, u, requester), v) == UserModel.Balance(t, v)
    ensures Reward(t, s, u, requester).exchanges[s].accepterId == Some(u)
  {
  }

  /** After one committed join by a user with a non-zero id the exchange is closed: any later
      joinPartage or accept on it is refused. */
  lemma {:induction false} JoinedExchangeIsClosed(t: Tables, s: int, u: UserId, requester: UserId)
    requires Open(t, s)
    requires u != 0
    ensures PartageModel.PartageExists(Reward(t, s, u, requester), s)
    ensures !Open(Reward(t, s, u, requester), s)
  {
    assert Reward(t, s, u, requester).exchanges[s] == t.exchanges[s].(accepterId := Some(u));
  }

  /** The truthiness test lets an exchange accepted by user id 0 be joined again. */
  lemma {:induction false} ZeroAccepterStaysOpen(t: Tables, s: int, requester: UserId)
    requires Open(t, s)
    ensures Open(Reward(t, s, 0, requester), s)
  {
    assert Reward(t, s, 0, requester).exchanges[s] == t.exchanges[s].(accepterId := Some(0));
  }

  /** PartageController::accept: refuses a missing or already accepted exchange without writing;
      otherwise sets the accepter and saves the exchange. */
  method Accept(db: Connection, s: int, u: UserId) returns (r: Response)
    requires db.Valid()
    modifies db
    ensures db.Valid()
    ensures db.inTransaction == old(db.inTransaction)
    ensures old(db.inTransaction) ==> db.snapshot == old(db.snapshot)
    ensures !PartageModel.PartageExists(old(db.data), s) ==> r == Response(Error, Some("Partage non trouvé"))
    ensures PartageModel.PartageExists(old(db.data), s) && Truthy(old(db.data).exchanges[s].accepterId) ==>
              r == Response(Error, Some("Ce partage a déjà été accepté"))
    ensures Open(old(db.data), s) ==>
              r == if SessionTable !in db.failing && ExchangeTable !in db.failing
                   then Response(Success, Some("Partage accepté avec succès"))
                   else Response(Error, Some("Erreur lors de l'acceptation du partage"))
    ensures db.data == if r.status == Success then AcceptedBy(old(db.data), s, u) else old(db.data)
  {
    var partage := PartageModel.GetById(db, s);
    if partage == null {
      return Response(Error, Some("Partage non trouvé"));
    }
    if Truthy(partage.exchangeAccepterId) {
      return Response(Error, Some("Ce partage a déjà été accepté"));
    }
    ResaveSessionUnchanged(db.data, s);
    partage.SetExchangeAccepterId(Some(u));
    var saved := PartageModel.Save(db, partage);
    if saved {
      r := Response(Success, Some("Partage accepté avec succès"));
    } else {
      r := Response(Error, Some("Erreur lors de l'acceptation du partage"));
    }
  }

  /** PartageController::joinPartage. Inside one transaction: the acceptance is saved, then the
      joining user and the requester are each credited 40 tokens; any failure rolls all of it back.
      An exchange without a requester makes `updateBalance(null, 40)` throw a TypeError, which the
      `catch (\Exception)` does not catch: the request dies and its open transaction is discarded. */
  method JoinPartage(db: Connection, user: Option<UserId>, s: int) returns (r: Redirect)
    requires db.Valid()
    modifies db
    ensures db.Valid()
    ensures user.None? ==> r == ToLogin
    ensures user.Some? && !PartageModel.PartageExists(old(db.data), s) ==> r == ToSessions(ErrorCode("exchange_not_found"))
    ensures user.Some? && PartageModel.PartageExists(old(db.data), s) && Truthy(old(db.data).exchanges[s].accepterId) ==>
              r == ToSessions(ErrorCode("exchange_already_accepted"))
    ensures !Attempted(old(db.data), user, s) ==>
              db.data == old(db.data) && db.inTransaction == old(db.inTransaction) && db.snapshot == old(db.snapshot)
    ensures Attempted(old(db.data), user, s) && old(db.inTransaction) ==>
              r == ToSessions(ErrorCode("cannot_join_exchange")) && !db.inTransaction
              && db.data == Restored(old(db.snapshot), old(db.data))
    ensures Attempted(old(db.data), user, s) && !old(db.inTransaction) ==> !db.inTransaction
    ensures Attempted(old(db.data), user, s) && !old(db.inTransaction) ==>
              (r == ToSessions(SuccessCode("joined_exchange")) <==> Settles(old(db.data), db.failing, s))
    ensures Attempted(old(db.data), user, s) && !old(db.inTransaction) ==>
              (r == Fatal <==> && SessionTable !in db.failing && ExchangeTable !in db.failing
                               && AppUser !in db.failing && old(db.data).exchanges[s].requesterId.None?)
    ensures Attempted(old(db.data), user, s) && !old(db.inTransaction) ==>
              r in {ToSessions(SuccessCode("joined_exchange")), ToSessions(ErrorCode("cannot_join_exchange")), Fatal}
    ensures Attempted(old(db.data), user, s) && !old(db.inTransaction) ==>
              db.data == if Settles(old(db.data), db.failing, s)
                         then Reward(old(db.data), s, user.value, old(db.data).exchanges[s].requesterId.value)
                         else old(db.data)
  {
    if user.None? {
      return ToLogin;
    }
    var u := user.value;
    var partage := PartageModel.GetById(db, s);
    if partage == null {
      return ToSessions(ErrorCode("exchange_not_found"));
    }
    if Truthy(partage.exchangeAccepterId) {
      return ToSessions(ErrorCode("exchange_already_accepted"));
    }
    var requesterId := partage.exchangeRequesterId;
    if db.inTransaction {
      // beginTransaction throws a PDOException; the catch rolls back the active transaction
      db.RollBack();
      return ToSessions(ErrorCode("cannot_join_exchange"));
    }
    db.BeginTransaction();
    ResaveSessionUnchanged(db.data, s);
    partage.SetExchangeAccepterId(Some(u));
    var saved := PartageModel.Save(db, partage);
    if !saved {
      db.RollBack();
      return ToSessions(ErrorCode("cannot_join_exchange"));
    }
    var credited := UserModel.UpdateBalance(db, u, JoinReward);
    if !credited {
      db.RollBack();
      return ToSessions(ErrorCode("cannot_join_exchange"));
    }
    if requesterId.None? {
      // TypeError: the request ends here and the database discards the open transaction
      db.RollBack();
      return Fatal;
    }
    var requesterCredited := UserModel.UpdateBalance(db, requesterId.value, JoinReward);
    if !requesterCredited {
      db.RollBack();
      return ToSessions(ErrorCode("cannot_join_exchange"));
    }
    db.Commit();
    r := ToSessions(SuccessCode("joined_exchange"));
  }

  /** PartageController::destroy: "not found" without writing for a missing exchange, otherwise
      the outcome of PartageModel::delete. */
  method Destroy(db: Connection, s: int) returns (r: Response)
    requires db.Valid()
    modifies db
    ensures db.Valid()
    ensures !PartageModel.PartageExists(old(db.data), s) ==>
              r == Response(Error, Some("Partage non trouvé")) && db.data == old(db.data)
              && db.inTransaction == old(db.inTransaction) && db.snapshot == old(db.snapshot)
    ensures PartageModel.PartageExists(old(db.data), s) ==> !db.inTransaction
    ensures PartageModel.PartageExists(old(db.data), s) && old(db.inTransaction) ==>
              r == Response(Error, Some("Erreur lors de la suppression du partage"))
              && db.data == Restored(old(db.snapshot), old(db.data))
    ensures PartageModel.PartageExists(old(db.data), s) ==>
              r == if r.status == Success then Response(Success, Some("Partage supprimé avec succès"))
                   else Response(Error, Some("Erreur lors de la suppression du partage"))
    ensures PartageModel.PartageExists(old(db.data), s) && !old(db.inTransaction) ==>
              (r.status == Success <==> ExchangeTable !in db.failing && SessionTable !in db.failing)
    ensures PartageModel.PartageExists(old(db.data), s) && !old(db.inTransaction) ==>
              db.data == if r.status == Success then PartageModel.DeletePartage(old(db.data), Some(s)) else old(db.data)
  {
    var partage := PartageModel.GetById(db, s);
    if partage == null {
      return Response(Error, Some("Partage non trouvé"));
    }
    var deleted := PartageModel.Delete(db, partage);
    if deleted {
      r := Response(Success, Some("Partage supprimé avec succès"));
    } else {
      r := Response(Error, Some("Erreur lors de la suppression du partage"));
    }
  }
}
