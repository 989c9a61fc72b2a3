/** CoursModel: persistence of lessons and the enrolment engine over the `attend` table
    (capacity check, duplicate check, fresh `attend_id`). */
module CoursModel {
  import opened Php
  import opened Store
  import opened SessionEntity
  import opened CoursEntity
  import SessionModel

  // ---------------------------------------------------------------------------------------
  // The queries on `attend`, as functions of the table

  /** getById finds a course exactly when both its session row and its lesson row exist. */
  predicate CourseExists(t: Tables, c: int)
  {
    c in t.sessions && c in t.lessons
  }

  /** Whether some `attend` row registers user `u` to course `c`. */
  predicate Registered(rows: seq<AttendRow>, c: int, u: UserId)
  {
    exists i :: 0 <= i < |rows| && rows[i].lessonId == c && rows[i].userId == u
  }

  /** `SELECT COUNT(*) FROM attend WHERE attend_lesson_id = c`. */
  function CountFor(rows: seq<AttendRow>, c: int): (n: nat)
    ensures n <= |rows|
    ensures n == 0 <==> forall i :: 0 <= i < |rows| ==> rows[i].lessonId != c
    decreases |rows|
  {
    if rows == [] then 0
    else CountFor(rows[..|rows| - 1], c) + (if rows[|rows| - 1].lessonId == c then 1 else 0)
  }

  /** The users getAttendees lists: one per `attend` row of course `c` whose user still exists
      (the query joins `app_user`), in table order. */
  function AttendeesOf(rows: seq<AttendRow>, c: int, users: set<UserId>): (r: seq<UserId>)
    ensures |r| <= CountFor(rows, c)
    ensures forall v :: v in r ==> v in users && Registered(rows, c, v)
    decreases |rows|
  {
    if rows == [] then []
    else
      var last := rows[|rows| - 1];
      var front := AttendeesOf(rows[..|rows| - 1], c, users);
      assert forall v :: Registered(rows[..|rows| - 1], c, v) ==> Registered(rows, c, v) by {
        forall v | Registered(rows[..|rows| - 1], c, v) ensures Registered(rows, c, v) {
          var i :| 0 <= i < |rows| - 1 && rows[..|rows| - 1][i].lessonId == c && rows[..|rows| - 1][i].userId == v;
          assert rows[i] == rows[..|rows| - 1][i];
        }
      }
      front + (if last.lessonId == c && last.userId in users then [last.userId] else [])
  }

  /** How many `attend` rows register user `u` to course `c`. */
  function PairCount(rows: seq<AttendRow>, c: int, u: UserId): nat
    decreases |rows|
  {
    if rows == [] then 0
    else PairCount(rows[..|rows| - 1], c, u) + (if rows[|rows| - 1].lessonId == c && rows[|rows| - 1].userId == u then 1 else 0)
  }

  /** `SELECT MAX(attend_id) FROM attend`: NULL on an empty table. */
  function MaxAttendId(rows: seq<AttendRow>): (m: Option<int>)
    ensures m.None? <==> rows == []
    ensures m.Some? ==> forall i :: 0 <= i < |rows| ==> rows[i].attendId <= m.value
    ensures m.Some? ==> exists i :: 0 <= i < |rows| && rows[i].attendId == m.value
    decreases |rows|
  {
    if rows == [] then None
    else
      var first := rows[0].attendId;
      match MaxAttendId(rows[1..])
      case None => Some(first)
      case Some(rest) =>
        assert forall i :: 1 <= i < |rows| ==> rows[i] == rows[1..][i - 1];
        Some(if first > rest then first else rest)
  }

  /** `($row['max_id'] ?? 0) + 1`: larger than every id in the table, and 1 on an empty table. */
  function NewAttendId(rows: seq<AttendRow>): (id: int)
    ensures forall i :: 0 <= i < |rows| ==> rows[i].attendId < id
    ensures rows == [] ==> id == 1
  {
    match MaxAttendId(rows)
    case None => 1
    case Some(m) => m + 1
  }

  /** The INSERT addAttendee performs. */
  function Enroll(t: Tables, c: int, u: UserId): Tables
  {
    t.(attend := t.attend + [AttendRow(NewAttendId(t.attend), c, u)])
  }

  /** What addAttendee checks before inserting: the course exists, it is not full by the count of
      getAttendees (`count >= max_attendees`, always true for a NULL capacity), and the user is not
      registered to it yet. Nothing checks that the user is not the course's host. */
  predicate CanEnroll(t: Tables, c: int, u: UserId)
  {
    && CourseExists(t, c)
    && !AtLeast(|AttendeesOf(t.attend, c, t.balance.Keys)|, t.lessons[c].maxAttendees)
    && !Registered(t.attend, c, u)
  }

  /** The rows a `DELETE FROM attend WHERE ...` leaves: those `drop` does not match, in order. */
  function Without(rows: seq<AttendRow>, drop: AttendRow -> bool): (r: seq<AttendRow>)
    ensures |r| <= |rows|
    decreases |rows|
  {
    if rows == [] then []
    else Without(rows[..|rows| - 1], drop) + (if drop(rows[|rows| - 1]) then [] else [rows[|rows| - 1]])
  }

  /** A DELETE keeps exactly the rows its condition does not match. */
  lemma {:induction false} WithoutMembers(rows: seq<AttendRow>, drop: AttendRow -> bool)
    ensures forall x :: x in Without(rows, drop) <==> x in rows && !drop(x)
    decreases |rows|
  {
    if rows != [] {
      var last := rows[|rows| - 1];
      assert rows == rows[..|rows| - 1] + [last];
      WithoutMembers(rows[..|rows| - 1], drop);
    }
  }

  /** `WHERE attend_lesson_id = c AND attend_user_id = u`. */
  function PairMatch(c: int, u: UserId): AttendRow -> bool
  {
    (x: AttendRow) => x.lessonId == c && x.userId == u
  }

  /** `WHERE attend_lesson_id = c`; `= NULL` matches no row. */
  function LessonMatch(c: Option<int>): AttendRow -> bool
  {
    (x: AttendRow) => Some(x.lessonId) == c
  }

  /** `DELETE FROM attend WHERE attend_lesson_id = c AND attend_user_id = u`. */
  function RemovePair(rows: seq<AttendRow>, c: int, u: UserId): seq<AttendRow>
  {
    Without(rows, PairMatch(c, u))
  }

  /** `DELETE FROM attend WHERE attend_lesson_id = c`. */
  function RemoveLesson(rows: seq<AttendRow>, c: Option<int>): seq<AttendRow>
  {
    Without(rows, LessonMatch(c))
  }

  /** UPDATE of the lesson row when one exists for the key, INSERT otherwise: either way the
      row under `key` becomes `row` and no other row changes. */
  function UpsertLesson(t: Tables, key: int, row: LessonRow): Tables
  {
    t.(lessons := t.lessons[key := row])
  }

  /** The cascade of delete: the course's `attend` rows, its lesson row, then its session row. */
  function DeleteCourse(t: Tables, id: Option<int>): (r: Tables)
    ensures forall x :: x in r.attend <==> x in t.attend && Some(x.lessonId) != id
    ensures id.Some? ==> id.value !in r.lessons && id.value !in r.sessions
    ensures forall k :: k in t.lessons && id != Some(k) ==> k in r.lessons && r.lessons[k] == t.lessons[k]
    ensures forall k :: k in t.sessions && id != Some(k) ==> k in r.sessions && r.sessions[k] == t.sessions[k]
    ensures r == t.(attend := r.attend, lessons := r.lessons, sessions := r.sessions)
  {
    WithoutMembers(t.attend, LessonMatch(id));
    var withoutLesson := t.(attend := RemoveLesson(t.attend, id),
                            lessons := if id.Some? then t.lessons - {id.value} else t.lessons);
    SessionModel.DeleteSession(withoutLesson, id)
  }

  // ---------------------------------------------------------------------------------------
  // Lemmas about the enrolment rules

  lemma {:induction false} AttendeesOfAppend(rows: seq<AttendRow>, x: AttendRow, c: int, users: set<UserId>)
    ensures AttendeesOf(rows + [x], c, users)
         == AttendeesOf(rows, c, users) + (if x.lessonId == c && x.userId in users then [x.userId] else [])
  {
    assert (rows + [x])[..|rows + [x]| - 1] == rows;
  }

  /** A successful addAttendee never pushes the course above its capacity. */
  lemma {:induction false} EnrollRespectsCapacity(t: Tables, c: int, u: UserId)
    requires CanEnroll(t, c, u)
    ensures t.lessons[c].maxAttendees.Some?
    ensures |AttendeesOf(Enroll(t, c, u).attend, c, t.balance.Keys)| <= t.lessons[c].maxAttendees.value
  {
    AttendeesOfAppend(t.attend, AttendRow(NewAttendId(t.attend), c, u), c, t.balance.Keys);
  }

  lemma {:induction false} PairCountZero(rows: seq<AttendRow>, c: int, u: UserId)
    requires !Registered(rows, c, u)
    ensures PairCount(rows, c, u) == 0
    decreases |rows|
  {
    if rows != [] {
      var front := rows[..|rows| - 1];
      forall i | 0 <= i < |front| ensures !(front[i].lessonId == c && front[i].userId == u) {
        assert front[i] == rows[i];
      }
      PairCountZero(front, c, u);
    }
  }

  /** After a successful addAttendee the (course, user) pair appears exactly once. */
  lemma {:induction false} EnrollRegistersOnce(t: Tables, c: int, u: UserId)
    requires CanEnroll(t, c, u)
    ensures PairCount(Enroll(t, c, u).attend, c, u) == 1
    ensures Registered(Enroll(t, c, u).attend, c, u)
  {
    var rows := Enroll(t, c, u).attend;
    assert rows[..|rows| - 1] == t.attend;
    PairCountZero(t.attend, c, u);
    assert rows[|rows| - 1].lessonId == c && rows[|rows| - 1].userId == u;
  }

  /** The new `attend_id` keeps the ids unique. */
  lemma EnrollKeepsIdsUnique(t: Tables, c: int, u: UserId)
    requires UniqueAttendIds(t.attend)
    ensures UniqueAttendIds(Enroll(t, c, u).attend)
  {
    var rows := Enroll(t, c, u).attend;
    forall i, j | 0 <= i < j < |rows| ensures rows[i].attendId != rows[j].attendId {
      if j == |rows| - 1 {
        assert rows[i] == t.attend[i];
      } else {
        assert rows[i] == t.attend[i] && rows[j] == t.attend[j];
      }
    }
  }

  /** With a capacity of one, once a user has enrolled nobody else can. */
  lemma {:induction false} CapacityOneScenario(t: Tables, c: int, u: UserId, other: UserId)
    requires CanEnroll(t, c, u)
    requires t.lessons[c].maxAttendees == Some(1)
    requires u in t.balance
    ensures !CanEnroll(Enroll(t, c, u), c, other)
  {
    var t' := Enroll(t, c, u);
    AttendeesOfAppend(t.attend, AttendRow(NewAttendId(t.attend), c, u), c, t.balance.Keys);
    assert |AttendeesOf(t'.attend, c, t'.balance.Keys)| == |AttendeesOf(t.attend, c, t.balance.Keys)| + 1;
  }

  lemma {:induction false} WithoutAppend(rows: seq<AttendRow>, x: AttendRow, drop: AttendRow -> bool)
    ensures Without(rows + [x], drop) == Without(rows, drop) + (if drop(x) then [] else [x])
  {
    assert (rows + [x])[..|rows + [x]| - 1] == rows;
  }

  lemma {:induction false} CountForAppend(rows: seq<AttendRow>, x: AttendRow, c: int)
    ensures CountFor(rows + [x], c) == CountFor(rows, c) + (if x.lessonId == c then 1 else 0)
  {
    assert (rows + [x])[..|rows + [x]| - 1] == rows;
  }

  /** Deleting rows keeps the remaining `attend_id`s unique. */
  lemma {:induction false} WithoutKeepsIdsUnique(rows: seq<AttendRow>, drop: AttendRow -> bool)
    requires UniqueAttendIds(rows)
    ensures UniqueAttendIds(Without(rows, drop))
    decreases |rows|
  {
    if rows != [] {
      var front := rows[..|rows| - 1];
      var last := rows[|rows| - 1];
      assert rows == front + [last];
      assert UniqueAttendIds(front) by {
        forall i, j | 0 <= i < j < |front| ensures front[i].attendId != front[j].attendId {
          assert front[i] == rows[i] && front[j] == rows[j];
        }
      }
      WithoutKeepsIdsUnique(front, drop);
      var rf := Without(front, drop);
      WithoutMembers(front, drop);
      if !drop(last) {
        var r := rf + [last];
        forall i, j | 0 <= i < j < |r| ensures r[i].attendId != r[j].attendId {
          if j == |r| - 1 {
            assert r[i] == rf[i] && rf[i] in front;
            var k :| 0 <= k < |front| && front[k] == rf[i];
            assert rows[k] == front[k];
          } else {
            assert r[i] == rf[i] && r[j] == rf[j];
          }
        }
      }
    }
  }

  /** Deleting twice with the same condition deletes nothing more. */
  lemma {:induction false} WithoutIdempotent(rows: seq<AttendRow>, drop: AttendRow -> bool)
    ensures Without(Without(rows, drop), drop) == Without(rows, drop)
    decreases |rows|
  {
    if rows != [] {
      var front := rows[..|rows| - 1];
      var last := rows[|rows| - 1];
      assert rows == front + [last];
      WithoutAppend(front, last, drop);
      WithoutIdempotent(front, drop);
      if drop(last) {
        assert Without(rows, drop) == Without(front, drop) + [];
        assert Without(front, drop) + [] == Without(front, drop);
      } else {
        WithoutAppend(Without(front, drop), last, drop);
      }
    }
  }

  /** removeAttendee is safe to repeat: a second call removes nothing, and the pair is gone. */
  lemma RemovePairIdempotent(rows: seq<AttendRow>, c: int, u: UserId)
    ensures RemovePair(RemovePair(rows, c, u), c, u) == RemovePair(rows, c, u)
    ensures !Registered(RemovePair(rows, c, u), c, u)
  {
    var r := RemovePair(rows, c, u);
    WithoutIdempotent(rows, PairMatch(c, u));
    WithoutMembers(rows, PairMatch(c, u));
    forall i | 0 <= i < |r| ensures !(r[i].lessonId == c && r[i].userId == u) {
      assert r[i] in r;
    }
  }

  /** Deleting a course leaves every other course's registrations in place. */
  lemma {:induction false} RemoveLessonKeepsOthers(rows: seq<AttendRow>, c: Option<int>, d: int)
    requires c != Some(d)
    ensures CountFor(RemoveLesson(rows, c), d) == CountFor(rows, d)
    decreases |rows|
  {
    if rows != [] {
      var front := rows[..|rows| - 1];
      var last := rows[|rows| - 1];
      assert rows == front + [last];
      RemoveLessonKeepsOthers(front, c, d);
      WithoutAppend(front, last, LessonMatch(c));
      CountForAppend(front, last, d);
      assert LessonMatch(c)(last) == (Some(last.lessonId) == c);
      if Some(last.lessonId) == c {
        assert Without(front, LessonMatch(c)) + [] == Without(front, LessonMatch(c));
      } else {
        CountForAppend(Without(front, LessonMatch(c)), last, d);
      }
    }
  }

  // ---------------------------------------------------------------------------------------
  // The model's methods

  /** CoursModel::save. It opens a transaction only when none is active and commits or rolls
      back only one it opened. It saves the session part first (which gives a new course its id),
      then writes the lesson row under that id. Inside a caller's transaction a failed lesson
      write is not rolled back here: the caller's transaction keeps the session write. */
  method Save(db: Connection, cours: Cours) returns (ok: bool)
    requires db.Valid()
    modifies db, cours.session
    ensures db.Valid()
    ensures ok == (SessionTable !in db.failing && LessonTable !in db.failing)
    ensures ok ==> db.data == UpsertLesson(
              SessionModel.SavedSession(old(db.data), old(cours.session.sessionId), old(cours.session.Row())),
              SessionModel.SavedId(old(db.data), old(cours.session.sessionId)), cours.Lesson())
    ensures old(db.inTransaction) ==> db.inTransaction && db.snapshot == old(db.snapshot)
    ensures old(db.inTransaction) && SessionTable in db.failing ==> db.data == old(db.data)
    ensures old(db.inTransaction) && SessionTable !in db.failing && !ok ==>
              db.data == SessionModel.SavedSession(old(db.data), old(cours.session.sessionId), old(cours.session.Row()))
    ensures !old(db.inTransaction) ==> !db.inTransaction
    ensures !old(db.inTransaction) && !ok ==>
              db.data == Restored(old(db.data), if SessionTable in db.failing then old(db.data)
                                                else SessionModel.SavedSession(old(db.data), old(cours.session.sessionId), old(cours.session.Row())))
    ensures cours.session.sessionId == if SessionTable !in db.failing
                                       then Some(SessionModel.SavedId(old(db.data), old(cours.session.sessionId)))
                                       else old(cours.session.sessionId)
    ensures cours.session.Row() == old(cours.session.Row())
  {
    var started := false;
    if !db.inTransaction {
      db.BeginTransaction();
      started := true;
    }
    var saved := SessionModel.Save(db, cours.session);
    if !saved {
      if started {
        db.RollBack();
      }
      return false;
    }
    var id := cours.session.sessionId.value;
    if LessonTable in db.failing {
      // the PDOException is caught; only a transaction opened here is rolled back
      if started {
        db.RollBack();
      }
      return false;
    }
    db.data := UpsertLesson(db.data, id, cours.Lesson());
    if started {
      db.Commit();
    }
    ok := true;
  }

  /** CoursModel::getById: a new Cours built from the session row and the lesson row, or null
      when either is missing. */
  method GetById(db: Connection, id: int) returns (cours: Cours?)
    ensures cours == null <==> !CourseExists(db.data, id)
    ensures cours != null ==> fresh(cours) && fresh(cours.session)
    ensures cours != null ==> cours.session.sessionId == Some(id)
                              && cours.session.Row() == db.data.sessions[id]
                              && cours.Lesson() == db.data.lessons[id]
  {
    var session := SessionModel.GetById(db, id);
    if session == null || id !in db.data.lessons {
      return null;
    }
    var row := db.data.lessons[id];
    cours := new Cours(session.sessionId, session.startTime, session.endTime, session.dateSession,
                       session.description, session.rateId, session.skillTaughtId,
                       row.locationId, row.hostId, row.maxAttendees);
  }

  /** CoursModel::delete: in one transaction, the course's registrations, its lesson row and its
      session row; any failure rolls all three back. It calls beginTransaction unconditionally:
      inside a caller's transaction that call throws, and the catch rolls back the caller's
      transaction. */
  method Delete(db: Connection, cours: Cours) returns (ok: bool)
    requires db.Valid()
    modifies db
    ensures db.Valid()
    ensures !db.inTransaction
    ensures old(db.inTransaction) ==> !ok && db.data == Restored(old(db.snapshot), old(db.data))
    ensures !old(db.inTransaction) ==> ok == (AttendTable !in db.failing && LessonTable !in db.failing
                                              && SessionTable !in db.failing)
    ensures !old(db.inTransaction) ==> db.data == if ok then DeleteCourse(old(db.data), cours.session.sessionId)
                                                  else old(db.data)
  {
    if db.inTransaction {
      db.RollBack();
      return false;
    }
    db.BeginTransaction();
    var id := cours.session.sessionId;
    if AttendTable in db.failing {
      db.RollBack();
      return false;
    }
    WithoutKeepsIdsUnique(db.data.attend, LessonMatch(id));
    db.data := db.data.(attend := RemoveLesson(db.data.attend, id));
    if LessonTable in db.failing {
      db.RollBack();
      return false;
    }
    db.data := db.data.(lessons := if id.Some? then db.data.lessons - {id.value} else db.data.lessons);
    var deleted := SessionModel.Delete(db, cours.session);
    if !deleted {
      db.RollBack();
      return false;
    }
    db.Commit();
    ok := true;
  }

  /** CoursModel::getAttendees: the fetch loop over the joined rows. */
  method GetAttendees(db: Connection, c: int) returns (attendees: seq<UserId>)
    ensures attendees == AttendeesOf(db.data.attend, c, db.data.balance.Keys)
  {
    var rows := db.data.attend;
    var users := db.data.balance.Keys;
    attendees := [];
    var i := 0;
    while i < |rows|
      invariant 0 <= i <= |rows|
      invariant attendees == AttendeesOf(rows[..i], c, users)
    {
      assert rows[..i + 1][..i] == rows[..i];
      if rows[i].lessonId == c && rows[i].userId in users {
        attendees := attendees + [rows[i].userId];
      }
      i := i + 1;
    }
    assert rows[..|rows|] == rows;
  }

  /** CoursModel::isUserRegistered. */
  method IsUserRegistered(db: Connection, c: int, u: UserId) returns (registered: bool)
    ensures registered <==> exists i :: 0 <= i < |db.data.attend| && db.data.attend[i].lessonId == c
                                         && db.data.attend[i].userId == u
  {
    registered := Registered(db.data.attend, c, u);
  }

  /** CoursModel::countAttendees. */
  method CountAttendees(db: Connection, c: int) returns (n: nat)
    ensures n == CountFor(db.data.attend, c)
  {
    n := CountFor(db.data.attend, c);
  }

  /** CoursModel::isFull: false for an unknown course, otherwise `count >= max_attendees`. */
  method IsFull(db: Connection, c: int) returns (full: bool)
    ensures !CourseExists(db.data, c) ==> !full
    ensures CourseExists(db.data, c) ==> full == AtLeast(CountFor(db.data.attend, c), db.data.lessons[c].maxAttendees)
  {
    var cours := GetById(db, c);
    if cours == null {
      return false;
    }
    var count := CountAttendees(db, c);
    full := AtLeast(count, cours.maxAttendees);
  }

  /** CoursModel::addAttendee: inserts one registration with `attend_id = MAX + 1`, or fails
      without writing when the course is missing, full or already joined by the user, or when the
      store rejects the insert. */
  method AddAttendee(db: Connection, c: int, u: UserId) returns (ok: bool)
    requires db.Valid()
    modifies db
    ensures db.Valid()
    ensures db.inTransaction == old(db.inTransaction) && db.snapshot == old(db.snapshot)
    ensures ok == (CanEnroll(old(db.data), c, u) && AttendTable !in db.failing)
    ensures db.data == if ok then Enroll(old(db.data), c, u) else old(db.data)
  {
    var cours := GetById(db, c);
    if cours == null {
      return false;
    }
    var attendees := GetAttendees(db, c);
    if AtLeast(|attendees|, cours.maxAttendees) {
      return false;
    }
    var registered := IsUserRegistered(db, c, u);
    if registered {
      return false;
    }
    var newId := NewAttendId(db.data.attend);
    if AttendTable in db.failing {
      return false;
    }
    EnrollKeepsIdsUnique(db.data, c, u);
    db.data := db.data.(attend := db.data.attend + [AttendRow(newId, c, u)]);
    ok := true;
  }

  /** CoursModel::removeAttendee: deletes the pair's rows and reports success even when there
      was none. */
  method RemoveAttendee(db: Connection, c: int, u: UserId) returns (ok: bool)
    requires db.Valid()
    modifies db
    ensures db.Valid()
    ensures db.inTransaction == old(db.inTransaction) && db.snapshot == old(db.snapshot)
    ensures ok == (AttendTable !in db.failing)
    ensures db.data == if ok then old(db.data).(attend := RemovePair(old(db.data.attend), c, u)) else old(db.data)
  {
    if AttendTable in db.failing {
      return false;
    }
    var rows := RemovePair(db.data.attend, c, u);
    WithoutKeepsIdsUnique(db.data.attend, PairMatch(c, u));
    db.data := db.data.(attend := rows);
    ok := true;
  }
}
