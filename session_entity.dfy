/** The Session entity: the fields every bookable session has. Its getters are plain
    reads of the fields below. */
module SessionEntity {
  import opened Php
  import opened Store

  class Session {
    var sessionId: Option<int>
    var startTime: Option<string>
    var endTime: Option<string>
    var dateSession: Option<string>
    var description: Option<string>
    var rateId: Option<int>
    var skillTaughtId: Option<int>

    /** The six columns of the `session` row this entity is saved to. */
    function Row(): SessionRow
      reads this
    {
      SessionRow(startTime, endTime, dateSession, description, rateId, skillTaughtId)
    }

    constructor (sessionId: Option<int>, startTime: Option<string>, endTime: Option<string>,
                 dateSession: Option<string>, description: Option<string>,
                 rateId: Option<int>, skillTaughtId: Option<int>)
      ensures this.sessionId == sessionId
      ensures Row() == SessionRow(startTime, endTime, dateSession, description, rateId, skillTaughtId)
    {
      this.sessionId := sessionId;
      this.startTime := startTime;
      this.endTime := endTime;
      this.dateSession := dateSession;
      this.description := description;
      this.rateId := rateId;
      this.skillTaughtId := skillTaughtId;
    }

    /** `new Session()`: every field null; a null id means the session is not yet persisted. */
    constructor Empty()
      ensures sessionId == None
      ensures Row() == SessionRow(None, None, None, None, None, None)
    {
      sessionId := None;
      startTime := None;
      endTime := None;
      dateSession := None;
      description := None;
      rateId := None;
      skillTaughtId := None;
    }

    method SetSessionId(v: Option<int>)
      modifies this
      ensures sessionId == v && Row() == old(Row())
    {
      sessionId := v;
    }

    method SetStartTime(v: Option<string>)
      modifies this
      ensures sessionId == old(sessionId) && Row() == old(Row()).(startTime := v)
    {
      startTime := v;
    }

    method SetEndTime(v: Option<string>)
      modifies this
      ensures sessionId == old(sessionId) && Row() == old(Row()).(endTime := v)
    {
      endTime := v;
    }

    method SetDateSession(v: Option<string>)
      modifies this
      ensures sessionId == old(sessionId) && Row() == old(Row()).(dateSession := v)
    {
      dateSession := v;
    }

    method SetDescription(v: Option<string>)
      modifies this
      ensures sessionId == old(sessionId) && Row() == old(Row()).(description := v)
    {
      description := v;
    }

    method SetRateId(v: Option<int>)
      modifies this
      ensures sessionId == old(sessionId) && Row() == old(Row()).(rateId := v)
    {
      rateId := v;
    }

    method SetSkillTaughtId(v: Option<int>)
      modifies this
      ensures sessionId == old(sessionId) && Row() == old(Row()).(skillTaughtId := v)
    {
      skillTaughtId := v;
    }
  }
}
