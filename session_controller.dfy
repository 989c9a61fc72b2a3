/** SessionController: the banner messages of the sessions page, and the show / edit / update /
    destroy actions on a bare session. */
module SessionController {
  import opened Php
  import opened Store
  import opened Http
  import opened SessionEntity
  import SessionModel

  // ---------------------------------------------------------------------------------------
  // The banners of displaySessions

  /** The `success` banner for the `?success=` parameter: nothing when the parameter is absent or
      falsy, a dedicated message for each join, the creation message for any other value. */
  function SuccessMessage(success: Option<string>): (m: Option<string>)
    ensures m.None? <==> success.None? || !StringTruthy(success.value)
  {
    if success.None? || !StringTruthy(success.value) then None
    else if success.value == "joined_course" then Some("Vous avez rejoint le cours avec succès et payé 25 jetons")
    else if success.value == "joined_exchange" then Some("Vous avez rejoint l'échange avec succès et gagné 40 jetons")
    else Some("Création réussie")
  }

  /** The `error` banner for the `?error=` parameter: nothing when absent or falsy, dedicated
      messages for missing tokens and for an exchange already taken, a generic one otherwise. */
  function ErrorMessage(error: Option<string>): (m: Option<string>)
    ensures m.None? <==> error.None? || !StringTruthy(error.value)
  {
    if error.None? || !StringTruthy(error.value) then None
    else if error.value == "not_enough_tokens" then Some("Vous n'avez pas assez de jetons pour rejoindre ce cours")
    else if error.value == "exchange_already_accepted" then Some("Ce partage a déjà été accepté par quelqu'un d'autre")
    else Some("Une erreur est survenue")
  }

  /** The two banners the sessions page shows after a redirect with this query. */
  function Banners(q: Query): (Option<string>, Option<string>)
  {
    match q
    case SuccessCode(code) => (SuccessMessage(Some(code)), ErrorMessage(None))
    case ErrorCode(code) => (SuccessMessage(None), ErrorMessage(Some(code)))
  }

  /** Every redirect the two join actions produce shows exactly one banner: a success banner
      naming the price or the reward for the two successes, the dedicated messages for missing
      tokens and for an exchange already taken, and the generic error for the other failures. */
  lemma JoinOutcomesShowOneBanner()
    ensures Banners(SuccessCode("joined_course")) == (Some("Vous avez rejoint le cours avec succès et payé 25 jetons"), None)
    ensures Banners(SuccessCode("joined_exchange")) == (Some("Vous avez rejoint l'échange avec succès et gagné 40 jetons"), None)
    ensures Banners(ErrorCode("not_enough_tokens")) == (None, Some("Vous n'avez pas assez de jetons pour rejoindre ce cours"))
    ensures Banners(ErrorCode("exchange_already_accepted")) == (None, Some("Ce partage a déjà été accepté par quelqu'un d'autre"))
    ensures forall code :: code in {"course_not_found", "cannot_join_course", "exchange_not_found", "cannot_join_exchange"} ==>
              Banners(ErrorCode(code)) == (None, Some("Une erreur est survenue"))
  {
  }

  // ---------------------------------------------------------------------------------------
  // The actions on one session

  /** SessionController::show (and edit, which is identical): the session, or "not found". */
  method Show(db: Connection, s: int) returns (r: Response, session: Session?)
    ensures s !in db.data.sessions ==> r == Response(Error, Some("Session non trouvée")) && session == null
    ensures s in db.data.sessions ==> r == Response(Success, None) && session != null && fresh(session)
                                      && session.sessionId == Some(s) && session.Row() == db.data.sessions[s]
  {
    session := SessionModel.GetById(db, s);
    if session == null {
      return Response(Error, Some("Session non trouvée")), null;
    }
    r := Response(Success, None);
  }

  /** SessionController::edit. */
  method Edit(db: Connection, s: int) returns (r: Response, session: Session?)
    ensures s !in db.data.sessions ==> r == Response(Error, Some("Session non trouvée")) && session == null
    ensures s in db.data.sessions ==> r == Response(Success, None) && session != null && fresh(session)
                                      && session.sessionId == Some(s) && session.Row() == db.data.sessions[s]
  {
    r, session := Show(db, s);
  }

  /** SessionController::update: overwrites the six fields from the request and saves; the
      session keeps its id, so the save is an UPDATE of that row. */
  method Update(db: Connection, s: int, request: SessionRow) returns (r: Response, session: Session?)
    requires db.Valid()
    modifies db
    ensures db.Valid()
    ensures db.inTransaction == old(db.inTransaction) && db.snapshot == old(db.snapshot)
    ensures s !in old(db.data.sessions) ==>
              r == Response(Error, Some("Session non trouvée")) && session == null && db.data == old(db.data)
    ensures s in old(db.data.sessions) ==>
              r == if SessionTable !in db.failing then Response(Success, Some("Session mise à jour avec succès"))
                   else Response(Error, Some("Erreur lors de la mise à jour de la session"))
    ensures s in old(db.data.sessions) ==>
              db.data == if r.status == Success then old(db.data).(sessions := old(db.data.sessions)[s := request])
                         else old(db.data)
    ensures s in old(db.data.sessions) && r.status == Success ==>
              session != null && session.sessionId == Some(s) && session.Row() == request
  {
    session := SessionModel.GetById(db, s);
    if session == null {
      return Response(Error, Some("Session non trouvée")), null;
    }
    session.SetStartTime(request.startTime);
    session.SetEndTime(request.endTime);
    session.SetDateSession(request.dateSession);
    session.SetDescription(request.description);
    session.SetRateId(request.rateId);
    session.SetSkillTaughtId(request.skillTaughtId);
    var saved := SessionModel.Save(db, session);
    if saved {
      r := Response(Success, Some("Session mise à jour avec succès"));
    } else {
      r := Response(Error, Some("Erreur lors de la mise à jour de la session"));
    }
  }

  /** SessionController::destroy: "not found" without writing, otherwise the outcome of
      SessionModel::delete. */
  method Destroy(db: Connection, s: int) returns (r: Response)
    requires db.Valid()
    modifies db
    ensures db.Valid()
    ensures db.inTransaction == old(db.inTransaction) && db.snapshot == old(db.snapshot)
    ensures s !in old(db.data.sessions) ==> r == Response(Error, Some("Session non trouvée")) && db.data == old(db.data)
    ensures s in old(db.data.sessions) ==>
              r == if SessionTable !in db.failing then Response(Success, Some("Session supprimée avec succès"))
                   else Response(Error, Some("Erreur lors de la suppression de la session"))
    ensures s in old(db.data.sessions) ==>
              db.data == if r.status == Success then SessionModel.DeleteSession(old(db.data), Some(s)) else old(db.data)
  {
    var session := SessionModel.GetById(db, s);
    if session == null {
      return Response(Error, Some("Session non trouvée"));
    }
    var deleted := SessionModel.Delete(db, session);
    if deleted {
      r := Response(Success, Some("Session supprimée avec succès"));
    } else {
      r := Response(Error, Some("Erreur lors de la suppression de la session"));
    }
  }
}
