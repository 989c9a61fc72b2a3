/** The Partage entity: a skill-for-skill exchange proposed by a requester and accepted by
    at most one other user. `Partage extends Session` becomes composition, as for Cours. */
module PartageEntity {
  import opened Php
  import opened Store
  import opened SessionEntity

  class Partage {
    const session: Session
    var skillRequestedId: Option<int>
    var exchangeRequesterId: Option<int>
    var exchangeAccepterId: Option<int>

    /** The three columns of the `exchange` row this entity is saved to. */
    function Exchange(): ExchangeRow
      reads this
    {
      ExchangeRow(skillRequestedId, exchangeRequesterId, exchangeAccepterId)
    }

    /** The ten-argument constructor: the first seven go to the Session part. */
    constructor (sessionId: Option<int>, startTime: Option<string>, endTime: Option<string>,
                 dateSession: Option<string>, description: Option<string>,
                 rateId: Option<int>, skillTaughtId: Option<int>,
                 skillRequestedId: Option<int>, exchangeRequesterId: Option<int>, exchangeAccepterId: Option<int>)
      ensures fresh(session)
      ensures session.sessionId == sessionId
      ensures session.Row() == SessionRow(startTime, endTime, dateSession, description, rateId, skillTaughtId)
      ensures Exchange() == ExchangeRow(skillRequestedId, exchangeRequesterId, exchangeAccepterId)
    {
      session := new Session(sessionId, startTime, endTime, dateSession, description, rateId, skillTaughtId);
      this.skillRequestedId := skillRequestedId;
      this.exchangeRequesterId := exchangeRequesterId;
      this.exchangeAccepterId := exchangeAccepterId;
    }

    /** `new Partage()`: every field null, so a fresh Partage is not accepted. */
    constructor Empty()
      ensures fresh(session)
      ensures session.sessionId == None && session.Row() == SessionRow(None, None, None, None, None, None)
      ensures Exchange() == ExchangeRow(None, None, None)
      ensures !Truthy(exchangeAccepterId)
    {
      session := new Session.Empty();
      skillRequestedId := None;
      exchangeRequesterId := None;
      exchangeAccepterId := None;
    }

    method SetSkillRequestedId(v: Option<int>)
      modifies this
      ensures Exchange() == old(Exchange()).(skillRequestedId := v)
      ensures unchanged(session)
    {
      skillRequestedId := v;
    }

    method SetExchangeRequesterId(v: Option<int>)
      modifies this
      ensures Exchange() == old(Exchange()).(requesterId := v)
      ensures unchanged(session)
    {
      exchangeRequesterId := v;
    }

    /** Overwrites unconditionally, even an accepter already set: single acceptance is
        enforced only by the callers. */
    method SetExchangeAccepterId(v: Option<int>)
      modifies this
      ensures Exchange() == old(Exchange()).(accepterId := v)
      ensures unchanged(session)
    {
      exchangeAccepterId := v;
    }
  }
}
