/** CoursController: joining a paid lesson (the user pays 25 tokens, the host receives 20) and
    the thin register / unregister / destroy actions. */
module CoursController {
  import opened Php
  import opened Store
  import opened Http
  import opened CoursEntity
  import UserModel
  import CoursModel

  /** What a user pays to join a lesson, and what its host receives. */
  const JoinPrice := 25
  const HostReward := 20

  // ---------------------------------------------------------------------------------------
  // The settlement

  /** The tables after a committed joinCours: the registration, the user's debit, the host's credit. */
  function Settle(t: Tables, s: int, u: UserId, host: UserId): Tables
  {
    UserModel.Credit(UserModel.Credit(CoursModel.Enroll(t, s, u), u, -JoinPrice), host, HostReward)
  }

  /** joinCours gets past its checks and opens its transaction: a logged-in user, an existing
      course, and at least 25 tokens. */
  predicate Attempted(t: Tables, user: Option<UserId>, s: int)
  {
    user.Some? && CoursModel.CourseExists(t, s) && UserModel.Balance(t, user.value) >= JoinPrice
  }

  /** The three writes of the transaction are all accepted: the enrolment passes the capacity and
      duplicate checks, the store accepts the writes, and the course has a host. The debit cannot
      be refused for funds (the balance was checked), nor the credit (it is positive). */
  predicate Settles(t: Tables, failing: set<Table>, s: int, u: UserId)
  {
    && CoursModel.CanEnroll(t, s, u)
    && AttendTable !in failing
    && AppUser !in failing
    && t.lessons[s].hostId.Some?
  }

  /** A committed join moves exactly 25 tokens out of the user's balance and 20 into the
      host's, and no other balance changes. A host joining their own lesson is not refused and
      loses 5 tokens net. */
  lemma SettleBalances(t: Tables, s: int, u: UserId, host: UserId)
    requires u in t.balance && host in t.balance
    ensures u != host ==> UserModel.Balance(Settle(t, s, u, host), u) == UserModel.Balance(t, u) - 25
    ensures u != host ==> UserModel.Balance(Settle(t, s, u, host), host) == UserModel.Balance(t, host) + 20
    ensures u == host ==> UserModel.Balance(Settle(t, s, u, host), u) == UserModel.Balance(t, u) - 5
    ensures forall v :: v != u && v != host ==> UserModel.Balance(Settle(t, s, u, host), v) == UserModel.Balance(t, v)
  {
  }

  /** A committed join registers the user exactly once, raises the lesson's attendee count by
      exactly one, and touches no table but `attend` and the balances. */
  lemma {:induction false} SettleRegistersOnce(t: Tables, s: int, u: UserId, host: UserId)
    requires CoursModel.CanEnroll(t, s, u)
    ensures CoursModel.PairCount(Settle(t, s, u, host).attend, s, u) == 1
    ensures CoursModel.CountFor(Settle(t, s, u, host).attend, s) == CoursModel.CountFor(t.attend, s) + 1
    ensures Settle(t, s, u, host) == t.(attend := Settle(t, s, u, host).attend, balance := Settle(t, s, u, host).balance)
  {
    CoursModel.EnrollRegistersOnce(t, s, u);
    CoursModel.CountForAppend(t.attend, AttendRow(CoursModel.NewAttendId(t.attend), s, u), s);
  }

  /** A committed join never makes a balance negative. */
  lemma SettleKeepsBalancesNonNegative(t: Tables, s: int, u: UserId, host: UserId)
    requires UserModel.NonNegative(t)
    requires UserModel.Balance(t, u) >= JoinPrice
    ensures UserModel.NonNegative(Settle(t, s, u, host))
  {
    var debited := UserModel.Credit(CoursModel.Enroll(t, s, u), u, -JoinPrice);
    assert UserModel.NonNegative(debited) by {
      forall v | v in debited.balance ensures debited.balance[v] >= 0 {
        assert UserModel.Balance(debited, v) == debited.balance[v];
      }
    }
  }

  /** CoursController::joinCours. The balance is checked before the transaction opens; inside it,
      the enrolment, the debit and the credit are all applied or none is. A course without a host
      makes `updateBalance(null, 20)` throw a TypeError, which the `catch (\Exception)` does not
      catch: the request dies and its open transaction is discarded. */
  method JoinCours(db: Connection, user: Option<UserId>, s: int) returns (r: Redirect)
    requires db.Valid()
    modifies db
    ensures db.Valid()
    ensures user.None? ==> r == ToLogin
    ensures user.Some? && !CoursModel.CourseExists(old(db.data), s) ==> r == ToSessions(ErrorCode("course_not_found"))
    ensures user.Some? && CoursModel.CourseExists(old(db.data), s) && UserModel.Balance(old(db.data), user.value) < JoinPrice ==>
              r == ToSessions(ErrorCode("not_enough_tokens"))
    ensures !Attempted(old(db.data), user, s) ==>
              db.data == old(db.data) && db.inTransaction == old(db.inTransaction) && db.snapshot == old(db.snapshot)
    ensures Attempted(old(db.data), user, s) && old(db.inTransaction) ==>
              r == ToSessions(ErrorCode("cannot_join_course")) && !db.inTransaction
              && db.data == Restored(old(db.snapshot), old(db.data))
    ensures Attempted(old(db.data), user, s) && !old(db.inTransaction) ==> !db.inTransaction
    ensures Attempted(old(db.data), user, s) && !old(db.inTransaction) ==>
              (r == ToSessions(SuccessCode("joined_course")) <==> Settles(old(db.data), db.failing, s, user.value))
    ensures Attempted(old(db.data), user, s) && !old(db.inTransaction) ==>
              (r == Fatal <==> && CoursModel.CanEnroll(old(db.data), s, user.value)
                               && AttendTable !in db.failing && AppUser !in db.failing
                               && old(db.data).lessons[s].hostId.None?)
    ensures Attempted(old(db.data), user, s) && !old(db.inTransaction) ==>
              r in {ToSessions(SuccessCode("joined_course")), ToSessions(ErrorCode("cannot_join_course")), Fatal}
    ensures Attempted(old(db.data), user, s) && !old(db.inTransaction) ==>
              db.data == if Settles(old(db.data), db.failing, s, user.value)
                         then Settle(old(db.data), s, user.value, old(db.data).lessons[s].hostId.value)
                         else old(db.data)
  {
    if user.None? {
      return ToLogin;
    }
    var u := user.value;
    var cours := CoursModel.GetById(db, s);
    if cours == null {
      return ToSessions(ErrorCode("course_not_found"));
    }
    var hostId := cours.lessonHostId;
    var enough := UserModel.HasEnoughTokens(db, u, JoinPrice);
    if !enough {
      return ToSessions(ErrorCode("not_enough_tokens"));
    }
    if db.inTransaction {
      // beginTransaction throws a PDOException; the catch rolls back the active transaction
      db.RollBack();
      return ToSessions(ErrorCode("cannot_join_course"));
    }
    db.BeginTransaction();
    var added := CoursModel.AddAttendee(db, s, u);
    if !added {
      db.RollBack();
      return ToSessions(ErrorCode("cannot_join_course"));
    }
    var debited := UserModel.UpdateBalance(db, u, -JoinPrice);
    if !debited {
      db.RollBack();
      return ToSessions(ErrorCode("cannot_join_course"));
    }
    if hostId.None? {
      // TypeError: the request ends here and the database discards the open transaction
      db.RollBack();
      return Fatal;
    }
    var credited := UserModel.UpdateBalance(db, hostId.value, HostReward);
    if !credited {
      db.RollBack();
      return ToSessions(ErrorCode("cannot_join_course"));
    }
    db.Commit();
    r := ToSessions(SuccessCode("joined_course"));
  }

  // ---------------------------------------------------------------------------------------
  // The thin actions

  /** CoursController::register: success exactly when addAttendee succeeds. */
  method Register(db: Connection, s: int, u: UserId) returns (r: Response)
    requires db.Valid()
    modifies db
    ensures db.Valid()
    ensures db.inTransaction == old(db.inTransaction) && db.snapshot == old(db.snapshot)
    ensures r.status == Success <==> CoursModel.CanEnroll(old(db.data), s, u) && AttendTable !in db.failing
    ensures r == if r.status == Success then Response(Success, Some("Inscription au cours réussie"))
                 else Response(Error, Some("Erreur lors de l'inscription au cours"))
    ensures db.data == if r.status == Success then CoursModel.Enroll(old(db.data), s, u) else old(db.data)
  {
    var added := CoursModel.AddAttendee(db, s, u);
    if added {
      r := Response(Success, Some("Inscription au cours réussie"));
    } else {
      r := Response(Error, Some("Erreur lors de l'inscription au cours"));
    }
  }

  /** CoursController::unregister: success exactly when removeAttendee succeeds. */
  method Unregister(db: Connection, s: int, u: UserId) returns (r: Response)
    requires db.Valid()
    modifies db
    ensures db.Valid()
    ensures db.inTransaction == old(db.inTransaction) && db.snapshot == old(db.snapshot)
    ensures r.status == Success <==> AttendTable !in db.failing
    ensures r == if r.status == Success then Response(Success, Some("Désinscription du cours réussie"))
                 else Response(Error, Some("Erreur lors de la désinscription du cours"))
    ensures db.data == if r.status == Success then old(db.data).(attend := CoursModel.RemovePair(old(db.data.attend), s, u))
                       else old(db.data)
  {
    var removed := CoursModel.RemoveAttendee(db, s, u);
    if removed {
      r := Response(Success, Some("Désinscription du cours réussie"));
    } else {
      r := Response(Error, Some("Erreur lors de la désinscription du cours"));
    }
  }

  /** CoursController::destroy: "not found" without writing for a missing course, otherwise the
      outcome of CoursModel::delete. */
  method Destroy(db: Connection, s: int) returns (r: Response)
    requires db.Valid()
    modifies db
    ensures db.Valid()
    ensures !CoursModel.CourseExists(old(db.data), s) ==>
              r == Response(Error, Some("Cours non trouvé")) && db.data == old(db.data)
              && db.inTransaction == old(db.inTransaction) && db.snapshot == old(db.snapshot)
    ensures CoursModel.CourseExists(old(db.data), s) ==> !db.inTransaction
    ensures CoursModel.CourseExists(old(db.data), s) && old(db.inTransaction) ==>
              r == Response(Error, Some("Erreur lors de la suppression du cours"))
              && db.data == Restored(old(db.snapshot), old(db.data))
    ensures CoursModel.CourseExists(old(db.data), s) ==>
              r == if r.status == Success then Response(Success, Some("Cours supprimé avec succès"))
                   else Response(Error, Some("Erreur lors de la suppression du cours"))
    ensures CoursModel.CourseExists(old(db.data), s) && !old(db.inTransaction) ==>
              (r.status == Success <==> AttendTable !in db.failing && LessonTable !in db.failing
                                        && SessionTable !in db.failing)
    ensures CoursModel.CourseExists(old(db.data), s) && !old(db.inTransaction) ==>
              db.data == if r.status == Success then CoursModel.DeleteCourse(old(db.data), Some(s)) else old(db.data)
  {
    var cours := CoursModel.GetById(db, s);
    if cours == null {
      return Response(Error, Some("Cours non trouvé"));
    }
    var deleted := CoursModel.Delete(db, cours);
    if deleted {
      r := Response(Success, Some("Cours supprimé avec succès"));
    } else {
      r := Response(Error, Some("Erreur lors de la suppression du cours"));
    }
  }
}
