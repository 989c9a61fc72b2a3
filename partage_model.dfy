/** PartageModel: persistence of exchanges, a session row plus an `exchange` row under the same id. */
module PartageModel {
  import opened Php
  import opened Store
  import opened SessionEntity
  import opened PartageEntity
  import SessionModel

  /** getById finds an exchange exactly when both its session row and its exchange row exist. */
  predicate PartageExists(t: Tables, id: int)
  {
    id in t.sessions && id in t.exchanges
  }

  /** UPDATE of the exchange row when one exists for the key, INSERT otherwise: either way the
      row under `key` becomes `row` and no other row changes. */
  function UpsertExchange(t: Tables, key: int, row: ExchangeRow): Tables
  {
    t.(exchanges := t.exchanges[key := row])
  }

  /** The tables after a successful save of an exchange whose session part has this id and
      these fields. */
  function SavedPartage(t: Tables, id: Option<int>, session: SessionRow, exchange: ExchangeRow): Tables
  {
    UpsertExchange(SessionModel.SavedSession(t, id, session), SessionModel.SavedId(t, id), exchange)
  }

  /** The round trip of save and getById: a saved exchange is found under the id save leaves on
      the entity, with the saved session fields and the saved requested skill, requester and
      accepter; every other exchange is untouched. */
  lemma SaveThenGetById(t: Tables, id: Option<int>, session: SessionRow, exchange: ExchangeRow)
    requires Consistent(t)
    requires Truthy(id) ==> id.value in t.sessions
    ensures PartageExists(SavedPartage(t, id, session, exchange), SessionModel.SavedId(t, id))
    ensures SavedPartage(t, id, session, exchange).sessions[SessionModel.SavedId(t, id)] == session
    ensures SavedPartage(t, id, session, exchange).exchanges[SessionModel.SavedId(t, id)] == exchange
    ensures forall k :: k in t.exchanges && k != SessionModel.SavedId(t, id) ==>
              SavedPartage(t, id, session, exchange).exchanges[k] == t.exchanges[k]
  {
    SessionModel.SaveThenGetById(t, id, session);
  }

  /** The cascade of delete: the exchange row, then the session row. */
  function DeletePartage(t: Tables, id: Option<int>): (r: Tables)
    ensures id.Some? ==> id.value !in r.exchanges && id.value !in r.sessions
    ensures forall k :: k in t.exchanges && id != Some(k) ==> k in r.exchanges && r.exchanges[k] == t.exchanges[k]
    ensures forall k :: k in t.sessions && id != Some(k) ==> k in r.sessions && r.sessions[k] == t.sessions[k]
    ensures r == t.(exchanges := r.exchanges, sessions := r.sessions)
  {
    var withoutExchange := t.(exchanges := if id.Some? then t.exchanges - {id.value} else t.exchanges);
    SessionModel.DeleteSession(withoutExchange, id)
  }

  /** PartageModel::save. It opens a transaction only when none is active and commits or rolls
      back only one it opened. The session part is saved first, then the exchange row is written
      under the session's id. Inside a caller's transaction a failed exchange write is not rolled
      back here: the caller's transaction keeps the session write. */
  method Save(db: Connection, partage: Partage) returns (ok: bool)
    requires db.Valid()
    modifies db, partage.session
    ensures db.Valid()
    ensures ok == (SessionTable !in db.failing && ExchangeTable !in db.failing)
    ensures ok ==> db.data == SavedPartage(old(db.data), old(partage.session.sessionId),
                                           old(partage.session.Row()), partage.Exchange())
    ensures old(db.inTransaction) ==> db.inTransaction && db.snapshot == old(db.snapshot)
    ensures old(db.inTransaction) && SessionTable in db.failing ==> db.data == old(db.data)
    ensures old(db.inTransaction) && SessionTable !in db.failing && !ok ==>
              db.data == SessionModel.SavedSession(old(db.data), old(partage.session.sessionId), old(partage.session.Row()))
    ensures !old(db.inTransaction) ==> !db.inTransaction
    ensures !old(db.inTransaction) && !ok ==>
              db.data == Restored(old(db.data), if SessionTable in db.failing then old(db.data)
                                                else SessionModel.SavedSession(old(db.data), old(partage.session.sessionId), old(partage.session.Row())))
    ensures partage.session.sessionId == if SessionTable !in db.failing
                                         then Some(SessionModel.SavedId(old(db.data), old(partage.session.sessionId)))
                                         else old(partage.session.sessionId)
    ensures partage.session.Row() == old(partage.session.Row())
  {
    var started := false;
    if !db.inTransaction {
      db.BeginTransaction();
      started := true;
    }
    var saved := SessionModel.Save(db, partage.session);
    if !saved {
      if started {
        db.RollBack();
      }
      return false;
    }
    var id := partage.session.sessionId.value;
    if ExchangeTable in db.failing {
      // the PDOException is caught; only a transaction opened here is rolled back
      if started {
        db.RollBack();
      }
      return false;
    }
    db.data := UpsertExchange(db.data, id, partage.Exchange());
    if started {
      db.Commit();
    }
    ok := true;
  }

  /** PartageModel::getById: a new Partage built from the session row and the exchange row, or
      null when either is missing. */
  method GetById(db: Connection, id: int) returns (partage: Partage?)
    ensures partage == null <==> !PartageExists(db.data, id)
    ensures partage != null ==> fresh(partage) && fresh(partage.session)
    ensures partage != null ==> partage.session.sessionId == Some(id)
                                && partage.session.Row() == db.data.sessions[id]
                                && partage.Exchange() == db.data.exchanges[id]
  {
    var session := SessionModel.GetById(db, id);
    if session == null || id !in db.data.exchanges {
      return null;
    }
    var row := db.data.exchanges[id];
    partage := new Partage(session.sessionId, session.startTime, session.endTime, session.dateSession,
                           session.description, session.rateId, session.skillTaughtId,
                           row.skillRequestedId, row.requesterId, row.accepterId);
  }

  /** PartageModel::delete: in one transaction, the exchange row then the session row; a failure
      rolls both back. It calls beginTransaction unconditionally: inside a caller's transaction
      that call throws, and the catch rolls back the caller's transaction. */
  method Delete(db: Connection, partage: Partage) returns (ok: bool)
    requires db.Valid()
    modifies db
    ensures db.Valid()
    ensures !db.inTransaction
    ensures old(db.inTransaction) ==> !ok && db.data == Restored(old(db.snapshot), old(db.data))
    ensures !old(db.inTransaction) ==> ok == (ExchangeTable !in db.failing && SessionTable !in db.failing)
    ensures !old(db.inTransaction) ==> db.data == if ok then DeletePartage(old(db.data), partage.session.sessionId)
                                                  else old(db.data)
  {
    if db.inTransaction {
      db.RollBack();
      return false;
    }
    db.BeginTransaction();
    var id := partage.session.sessionId;
    if ExchangeTable in db.failing {
      db.RollBack();
      return false;
    }
    db.data := db.data.(exchanges := if id.Some? then db.data.exchanges - {id.value} else db.data.exchanges);
    var deleted := SessionModel.Delete(db, partage.session);
    if !deleted {
      db.RollBack();
      return false;
    }
    db.Commit();
    ok := true;
  }
}
