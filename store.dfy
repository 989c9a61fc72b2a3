/** The database behind the PDO connection, as in-memory tables, and the connection's
    transaction discipline (beginTransaction / commit / rollBack / inTransaction). */
module Store {
  import opened Php

  type UserId = int

  /** A row of `session` without its key `session_id`. */
  datatype SessionRow = SessionRow(
    startTime: Option<string>,
    endTime: Option<string>,
    dateSession: Option<string>,
    description: Option<string>,
    rateId: Option<int>,
    skillTaughtId: Option<int>)

  /** A row of `lesson` without its key `lesson_session_id`. */
  datatype LessonRow = LessonRow(locationId: Option<int>, hostId: Option<int>, maxAttendees: Option<int>)

  /** A row of `exchange` without its key `exchange_session_id`. */
  datatype ExchangeRow = ExchangeRow(skillRequestedId: Option<int>, requesterId: Option<int>, accepterId: Option<int>)

  /** A row of `attend`: one registration of a user to a lesson. */
  datatype AttendRow = AttendRow(attendId: int, lessonId: int, userId: UserId)

  datatype SkillRow = SkillRow(skillId: int, name: string, categoryId: int, searchCounter: int)

  datatype LocationRow = LocationRow(locationId: int, address: string, zipCode: string, city: string)

  /** The tables the core reads and writes. `balance` is the `balance` column of `app_user`,
      keyed by `user_id` (its key set is the set of existing users). Tables scanned in storage
      order are sequences. The `next...` fields are the AUTO_INCREMENT counters. */
  datatype Tables = Tables(
    balance: map<UserId, int>,
    sessions: map<int, SessionRow>,
    lessons: map<int, LessonRow>,
    exchanges: map<int, ExchangeRow>,
    attend: seq<AttendRow>,
    skills: seq<SkillRow>,
    locations: seq<LocationRow>,
    nextSessionId: int,
    nextSkillId: int,
    nextLocationId: int)

  /** The tables a write can target; a write to a table in `Connection.failing` raises PDOException. */
  datatype Table = AppUser | SessionTable | LessonTable | ExchangeTable | AttendTable | SkillTable | LocationTable

  ghost predicate UniqueAttendIds(rows: seq<AttendRow>)
  {
    forall i, j :: 0 <= i < j < |rows| ==> rows[i].attendId != rows[j].attendId
  }

  ghost predicate SkillIdsValid(rows: seq<SkillRow>, next: int)
  {
    && (forall i :: 0 <= i < |rows| ==> 1 <= rows[i].skillId < next)
    && (forall i, j :: 0 <= i < j < |rows| ==> rows[i].skillId != rows[j].skillId)
  }

  ghost predicate LocationIdsValid(rows: seq<LocationRow>, next: int)
  {
    && (forall i :: 0 <= i < |rows| ==> 1 <= rows[i].locationId < next)
    && (forall i, j :: 0 <= i < j < |rows| ==> rows[i].locationId != rows[j].locationId)
  }

  /** What holds of the tables between requests: no balance is negative, keys are unique
      and lie below their AUTO_INCREMENT counter. */
  ghost predicate Consistent(t: Tables)
  {
    && (forall u :: u in t.balance ==> t.balance[u] >= 0)
    && 1 <= t.nextSessionId
    && (forall k :: k in t.sessions ==> 1 <= k < t.nextSessionId)
    && UniqueAttendIds(t.attend)
    && 1 <= t.nextSkillId
    && SkillIdsValid(t.skills, t.nextSkillId)
    && 1 <= t.nextLocationId
    && LocationIdsValid(t.locations, t.nextLocationId)
  }

  /** AUTO_INCREMENT counters only move forward. */
  ghost predicate CountersNotBehind(before: Tables, after: Tables)
  {
    && before.nextSessionId <= after.nextSessionId
    && before.nextSkillId <= after.nextSkillId
    && before.nextLocationId <= after.nextLocationId
  }

  /** The tables after a rollback: every row as at the snapshot, the AUTO_INCREMENT counters as they
      are now (neither MySQL's InnoDB nor PostgreSQL's sequences give back values on rollback). */
  function Restored(snap: Tables, current: Tables): (r: Tables)
    ensures r.balance == snap.balance && r.sessions == snap.sessions && r.lessons == snap.lessons
    ensures r.exchanges == snap.exchanges && r.attend == snap.attend
    ensures r.skills == snap.skills && r.locations == snap.locations
    ensures CountersNotBehind(current, r) && CountersNotBehind(r, current)
    ensures CountersNotBehind(current, snap) && CountersNotBehind(snap, current) ==> r == snap
  {
    snap.(nextSessionId := current.nextSessionId,
          nextSkillId := current.nextSkillId,
          nextLocationId := current.nextLocationId)
  }

  /** The PDO connection of one request. `data` is what the connection sees (its own uncommitted
      writes included); while `inTransaction`, `snapshot` is the state a rollBack returns to. */
  class Connection {
    var data: Tables
    var inTransaction: bool
    var snapshot: Tables
    const failing: set<Table>

    ghost predicate Valid()
      reads this
    {
      && Consistent(data)
      && (inTransaction ==> Consistent(snapshot) && CountersNotBehind(snapshot, data))
    }

    constructor (initial: Tables, failing: set<Table>)
      requires Consistent(initial)
      ensures Valid() && data == initial && !inTransaction && this.failing == failing
    {
      data := initial;
      inTransaction := false;
      snapshot := initial;
      this.failing := failing;
    }

    /** PDO::beginTransaction. PDO throws when a transaction is already active; callers
        that may hit that case model the throw themselves. */
    method BeginTransaction()
      requires Valid() && !inTransaction
      modifies this
      ensures Valid() && inTransaction && snapshot == data && data == old(data)
    {
      inTransaction := true;
      snapshot := data;
    }

    /** PDO::commit: the writes since beginTransaction become permanent. */
    method Commit()
      requires Valid() && inTransaction
      modifies this
      ensures Valid() && !inTransaction && data == old(data) && snapshot == old(snapshot)
    {
      inTransaction := false;
    }

    /** PDO::rollBack: every row written since beginTransaction is put back. */
    method RollBack()
      requires Valid() && inTransaction
      modifies this
      ensures Valid() && !inTransaction && data == Restored(old(snapshot), old(data))
      ensures snapshot == old(snapshot)
    {
      data := Restored(snapshot, data);
      inTransaction := false;
    }
  }
}
