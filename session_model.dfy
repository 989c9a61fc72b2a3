/** SessionModel: persistence of the `session` table, shared by courses and exchanges. */
module SessionModel {
  import opened Php
  import opened Store
  import opened SessionEntity

  /** `INSERT INTO session ...`: the new row takes the next AUTO_INCREMENT id. */
  function InsertSession(t: Tables, row: SessionRow): Tables
  {
    t.(sessions := t.sessions[t.nextSessionId := row], nextSessionId := t.nextSessionId + 1)
  }

  /** `UPDATE session ... WHERE session_id = id`: matches no row when the id is unknown. */
  function UpdateSession(t: Tables, id: int, row: SessionRow): Tables
  {
    if id in t.sessions then t.(sessions := t.sessions[id := row]) else t
  }

  /** The tables after a successful save of an entity with this id and these fields:
      a truthy id selects the UPDATE, anything else the INSERT. */
  function SavedSession(t: Tables, id: Option<int>, row: SessionRow): Tables
  {
    if Truthy(id) then UpdateSession(t, id.value, row) else InsertSession(t, row)
  }

  /** The id the entity carries after a successful save. */
  function SavedId(t: Tables, id: Option<int>): int
  {
    if Truthy(id) then id.value else t.nextSessionId
  }

  /** An insert takes an id no session has, and a save is then found under the id it leaves
      on the entity with exactly the saved fields, while every other session is unchanged. */
  lemma SaveThenGetById(t: Tables, id: Option<int>, row: SessionRow)
    requires Consistent(t)
    requires Truthy(id) ==> id.value in t.sessions
    ensures !Truthy(id) ==> SavedId(t, id) !in t.sessions
    ensures SavedId(t, id) in SavedSession(t, id, row).sessions
    ensures SavedSession(t, id, row).sessions[SavedId(t, id)] == row
    ensures forall k :: k in t.sessions && k != SavedId(t, id) ==>
              k in SavedSession(t, id, row).sessions && SavedSession(t, id, row).sessions[k] == t.sessions[k]
  {
  }

  /** A truthy id that names no session makes the save an UPDATE matching no row: save still
      succeeds, yet the tables are unchanged and getById will not find the id. */
  lemma StaleIdSaveChangesNothing(t: Tables, k: int, row: SessionRow)
    requires k != 0 && k !in t.sessions
    ensures SavedSession(t, Some(k), row) == t
    ensures SavedId(t, Some(k)) == k && k !in SavedSession(t, Some(k), row).sessions
  {
  }

  /** SessionModel::save. A session whose id is truthy is UPDATEd and keeps its id; any other
      is INSERTed and receives the new id (`setSessionId(lastInsertId())`). A rejected write
      returns false and assigns no id. It never opens or closes a transaction. */
  method Save(db: Connection, s: Session) returns (ok: bool)
    requires db.Valid()
    modifies db, s
    ensures db.Valid()
    ensures db.inTransaction == old(db.inTransaction) && db.snapshot == old(db.snapshot)
    ensures ok == (SessionTable !in db.failing)
    ensures db.data == if ok then SavedSession(old(db.data), old(s.sessionId), old(s.Row())) else old(db.data)
    ensures s.sessionId == if ok then Some(SavedId(old(db.data), old(s.sessionId))) else old(s.sessionId)
    ensures s.Row() == old(s.Row())
  {
    if SessionTable in db.failing {
      return false;
    }
    if Truthy(s.sessionId) {
      db.data := UpdateSession(db.data, s.sessionId.value, s.Row());
    } else {
      var lastId := db.data.nextSessionId;
      db.data := InsertSession(db.data, s.Row());
      s.SetSessionId(Some(lastId));
    }
    ok := true;
  }

  /** SessionModel::getById: a new Session holding the row's seven fields, or null. */
  method GetById(db: Connection, id: int) returns (s: Session?)
    ensures s == null <==> id !in db.data.sessions
    ensures s != null ==> fresh(s) && s.sessionId == Some(id) && s.Row() == db.data.sessions[id]
  {
    if id !in db.data.sessions {
      return null;
    }
    var row := db.data.sessions[id];
    s := new Session(Some(id), row.startTime, row.endTime, row.dateSession, row.description,
                     row.rateId, row.skillTaughtId);
  }

  /** `DELETE FROM session WHERE session_id = id`; `session_id = NULL` matches no row. */
  function DeleteSession(t: Tables, id: Option<int>): (r: Tables)
    ensures id.Some? ==> id.value !in r.sessions
    ensures forall k :: k in t.sessions && id != Some(k) ==> k in r.sessions && r.sessions[k] == t.sessions[k]
    ensures r.sessions.Keys <= t.sessions.Keys
    ensures r == t.(sessions := r.sessions)
  {
    if id.Some? then t.(sessions := t.sessions - {id.value}) else t
  }

  /** SessionModel::delete: removes only the row with the entity's id (success even if there is none). */
  method Delete(db: Connection, s: Session) returns (ok: bool)
    requires db.Valid()
    modifies db
    ensures db.Valid()
    ensures db.inTransaction == old(db.inTransaction) && db.snapshot == old(db.snapshot)
    ensures ok == (SessionTable !in db.failing)
    ensures db.data == if ok then DeleteSession(old(db.data), s.sessionId) else old(db.data)
  {
    if SessionTable in db.failing {
      return false;
    }
    db.data := DeleteSession(db.data, s.sessionId);
    ok := true;
  }

  /** The `['cours' => ..., 'partage' => ...]` array of getAllAttendableUserSession. */
  datatype Agenda<L> = Agenda(cours: seq<L>, partage: seq<L>)

  /** SessionModel::getAllAttendableUserSession. The four listing queries are parameters;
      `None` stands for the empty array returned when nobody is logged in. */
  function AttendableUserSessions<L>(user: Option<UserId>,
                                     hosted: UserId -> seq<L>, attended: UserId -> seq<L>,
                                     requested: UserId -> seq<L>, accepted: UserId -> seq<L>): (r: Option<Agenda<L>>)
    ensures r.None? <==> user.None?
    ensures user.Some? ==> |r.value.cours| == |hosted(user.value)| + |attended(user.value)|
    ensures user.Some? ==> r.value.cours[..|hosted(user.value)|] == hosted(user.value)
    ensures user.Some? ==> r.value.cours[|hosted(user.value)|..] == attended(user.value)
    ensures user.Some? ==> |r.value.partage| == |requested(user.value)| + |accepted(user.value)|
    ensures user.Some? ==> r.value.partage[..|requested(user.value)|] == requested(user.value)
    ensures user.Some? ==> r.value.partage[|requested(user.value)|..] == accepted(user.value)
  {
    match user
    case None => None
    case Some(u) => Some(Agenda(hosted(u) + attended(u), requested(u) + accepted(u)))
  }
}
