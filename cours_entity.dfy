/** The Cours entity: a paid lesson. The source's `Cours extends Session` becomes composition:
    a Cours owns the Session object that carries the inherited fields. */
module CoursEntity {
  import opened Php
  import opened Store
  import opened SessionEntity

  class Cours {
    const session: Session
    var locationId: Option<int>
    var lessonHostId: Option<int>
    var maxAttendees: Option<int>

    /** The three columns of the `lesson` row this entity is saved to. */
    function Lesson(): LessonRow
      reads this
    {
      LessonRow(locationId, lessonHostId, maxAttendees)
    }

    /** The ten-argument constructor: the first seven go to the Session part. */
    constructor (sessionId: Option<int>, startTime: Option<string>, endTime: Option<string>,
                 dateSession: Option<string>, description: Option<string>,
                 rateId: Option<int>, skillTaughtId: Option<int>,
                 locationId: Option<int>, lessonHostId: Option<int>, maxAttendees: Option<int>)
      ensures fresh(session)
      ensures session.sessionId == sessionId
      ensures session.Row() == SessionRow(startTime, endTime, dateSession, description, rateId, skillTaughtId)
      ensures Lesson() == LessonRow(locationId, lessonHostId, maxAttendees)
    {
      session := new Session(sessionId, startTime, endTime, dateSession, description, rateId, skillTaughtId);
      this.locationId := locationId;
      this.lessonHostId := lessonHostId;
      this.maxAttendees := maxAttendees;
    }

    /** `new Cours()`: every field null, the inherited ones included. */
    constructor Empty()
      ensures fresh(session)
      ensures session.sessionId == None && session.Row() == SessionRow(None, None, None, None, None, None)
      ensures Lesson() == LessonRow(None, None, None)
    {
      session := new Session.Empty();
      locationId := None;
      lessonHostId := None;
      maxAttendees := None;
    }

    method SetLocationId(v: Option<int>)
      modifies this
      ensures Lesson() == old(Lesson()).(locationId := v)
      ensures unchanged(session)
    {
      locationId := v;
    }

    method SetLessonHostId(v: Option<int>)
      modifies this
      ensures Lesson() == old(Lesson()).(hostId := v)
      ensures unchanged(session)
    {
      lessonHostId := v;
    }

    method SetMaxAttendees(v: Option<int>)
      modifies this
      ensures Lesson() == old(Lesson()).(maxAttendees := v)
      ensures unchanged(session)
    {
      maxAttendees := v;
    }
  }
}
