/** Attendance: the append-only log of check-in and check-out events, and the
    presence the attendance board derives from a resident's latest event. */
module Attendance {
  import opened Common
  import opened Clock

  datatype EventType = CheckIn | CheckOut

  /** One row of attendance_events; `eventTime` is seconds. */
  datatype AttendanceEvent = AttendanceEvent(
    residentId: int,
    shelter: string,
    eventType: EventType,
    eventTime: int,
    staffUserId: Option<int>,
    note: Option<string>,
    expectedBackTime: Option<string>)

  type AttendanceLog = seq<AttendanceEvent>

  /** One row of residents. */
  datatype Resident = Resident(
    shelter: string,
    firstName: string,
    lastName: string,
    dob: string,
    isActive: bool,
    createdAt: int)

  type ResidentTable = map<int, Resident>

  /** The event belongs to resident `rid` at `shelter`. */
  predicate Matches(e: AttendanceEvent, rid: int, shelter: string) {
    e.residentId == rid && e.shelter == shelter
  }

  /** The resident's latest event at the shelter (ORDER BY event_time DESC
      LIMIT 1). Of events with the same time the one appended last is taken. */
  function LatestEvent(log: AttendanceLog, rid: int, shelter: string): (r: Option<AttendanceEvent>)
    ensures r.None? <==> forall i :: 0 <= i < |log| ==> !Matches(log[i], rid, shelter)
    ensures r.Some? ==> r.value in log && Matches(r.value, rid, shelter)
    ensures r.Some? ==> forall i :: 0 <= i < |log| && Matches(log[i], rid, shelter) ==>
                          log[i].eventTime <= r.value.eventTime
    decreases |log|
  {
    if log == [] then None
    else
      var e := log[|log| - 1];
      var earlier := LatestEvent(log[..|log| - 1], rid, shelter);
      if Matches(e, rid, shelter) && (earlier.None? || earlier.value.eventTime <= e.eventTime)
      then Some(e)
      else earlier
  }

  /** What the board shows for one resident. `time` is None where the source
      shows an empty time. */
  datatype Presence = Presence(status: EventType, time: Option<int>, expectedBackTime: string,
                               isOverdue: bool)

  /** A check-out whose expected-back time is given, parses, and lies before
      `now`; a value that does not parse is not overdue. */
  predicate OverdueEvent(e: AttendanceEvent, now: int) {
    && e.eventType == CheckOut
    && e.expectedBackTime.Some? && e.expectedBackTime.value != ""
    && ParseInstant(e.expectedBackTime.value).Some?
    && ParseInstant(e.expectedBackTime.value).value < now
  }

  /** The board entry of resident `rid`: the latest event's type, time and
      expected-back time, or checked in with nothing else when there is no
      event. */
  function PresenceOf(log: AttendanceLog, rid: int, shelter: string, now: int): (p: Presence)
    ensures p.isOverdue ==> p.status == CheckOut && p.expectedBackTime != ""
    ensures p.time.None? ==> p == Presence(CheckIn, None, "", false)
  {
    match LatestEvent(log, rid, shelter)
    case None => Presence(CheckIn, None, "", false)
    case Some(e) => Presence(e.eventType, Some(e.eventTime), EmptyIfNone(e.expectedBackTime),
                             OverdueEvent(e, now))
  }

  /** With no events the resident shows as checked in, with no time, and is
      not overdue. */
  lemma NoEventsMeansIn(log: AttendanceLog, rid: int, shelter: string, now: int)
    requires forall i :: 0 <= i < |log| ==> !Matches(log[i], rid, shelter)
    ensures PresenceOf(log, rid, shelter, now) == Presence(CheckIn, None, "", false)
  {
  }

  /** The entry follows the latest event: status is its type, the time is its
      time, the expected-back text is its own (blank when NULL), and overdue holds exactly when that event is an overdue check-out. */
  lemma PresenceFollowsLatest(log: AttendanceLog, rid: int, shelter: string, now: int, i: int)
    requires 0 <= i < |log| && Matches(log[i], rid, shelter)
    ensures var p := PresenceOf(log, rid, shelter, now);
            && p.time.Some? && log[i].eventTime <= p.time.value
            && (exists j :: 0 <= j < |log| && Matches(log[j], rid, shelter)
                   && p.status == log[j].eventType && p.time == Some(log[j].eventTime)
                   && p.expectedBackTime == EmptyIfNone(log[j].expectedBackTime)
                   && (p.isOverdue <==> OverdueEvent(log[j], now)))
  {
    var e := LatestEvent(log, rid, shelter).value;
    var j :| 0 <= j < |log| && log[j] == e;
  }

  /** No earlier event of the resident is later than `at`: the clock did not
      run backwards. */
  predicate NotBefore(log: AttendanceLog, rid: int, shelter: string, at: int) {
    forall i :: 0 <= i < |log| && Matches(log[i], rid, shelter) ==> log[i].eventTime <= at
  }

  /** Appending the resident's event at a time no earlier than their other
      events makes it the latest one. */
  lemma AppendedIsLatest(log: AttendanceLog, e: AttendanceEvent, rid: int, shelter: string)
    requires Matches(e, rid, shelter) && NotBefore(log, rid, shelter, e.eventTime)
    ensures LatestEvent(log + [e], rid, shelter) == Some(e)
  {
    assert (log + [e])[..|log|] == log;
  }

  /** Appending some other resident's (or shelter's) event leaves the entry
      unchanged. */
  lemma OthersUnaffected(log: AttendanceLog, e: AttendanceEvent, rid: int, shelter: string, now: int)
    requires !Matches(e, rid, shelter)
    ensures PresenceOf(log + [e], rid, shelter, now) == PresenceOf(log, rid, shelter, now)
  {
    assert (log + [e])[..|log|] == log;
  }

  /** A check-in recorded at the current time shows the resident as in,
      clears overdue and, since a check-in stores no expected-back time, shows
      none. */
  lemma CheckInClearsOverdue(log: AttendanceLog, e: AttendanceEvent, rid: int, shelter: string, now: int)
    requires Matches(e, rid, shelter) && e.eventType == CheckIn
    requires NotBefore(log, rid, shelter, e.eventTime)
    ensures var p := PresenceOf(log + [e], rid, shelter, now);
            && p.status == CheckIn && !p.isOverdue && p.time == Some(e.eventTime)
            && p.expectedBackTime == EmptyIfNone(e.expectedBackTime)
            && (e.expectedBackTime.None? ==> p.expectedBackTime == "")
  {
    AppendedIsLatest(log, e, rid, shelter);
  }

  /** A check-out recorded at the current time shows the resident as out,
      with its expected-back time, overdue exactly once that time has passed. */
  lemma CheckOutShowsOut(log: AttendanceLog, e: AttendanceEvent, rid: int, shelter: string, now: int)
    requires Matches(e, rid, shelter) && e.eventType == CheckOut
    requires NotBefore(log, rid, shelter, e.eventTime)
    ensures var p := PresenceOf(log + [e], rid, shelter, now);
            && p.status == CheckOut && p.time == Some(e.eventTime)
            && p.expectedBackTime == EmptyIfNone(e.expectedBackTime)
            && (p.isOverdue <==> e.expectedBackTime.Some?
                                 && ParseInstant(e.expectedBackTime.value).Some?
                                 && ParseInstant(e.expectedBackTime.value).value < now)
  {
    AppendedIsLatest(log, e, rid, shelter);
  }

  /** Overdue is monotone in time: a resident overdue now stays overdue later
      until a new event is recorded. */
  lemma OverdueStays(log: AttendanceLog, rid: int, shelter: string, now: int, later: int)
    requires now <= later && PresenceOf(log, rid, shelter, now).isOverdue
    ensures PresenceOf(log, rid, shelter, later).isOverdue
  {
  }

  /** The residents the board lists: the active ones of the shelter. */
  predicate Listed(r: Resident, shelter: string) {
    r.shelter == shelter && r.isActive
  }

  /** The board's status map: for every listed resident, their entry. */
  function Board(residents: ResidentTable, log: AttendanceLog, shelter: string, now: int)
    : (m: map<int, Presence>)
    ensures forall rid :: rid in m <==> rid in residents && Listed(residents[rid], shelter)
    ensures forall rid :: rid in m ==> m[rid] == PresenceOf(log, rid, shelter, now)
  {
    map rid | rid in residents && Listed(residents[rid], shelter) :: PresenceOf(log, rid, shelter, now)
  }

  /** UPDATE residents SET is_active ... WHERE id and shelter. */
  function SetActive(t: ResidentTable, rid: int, shelter: string, active: bool): ResidentTable {
    if rid in t && t[rid].shelter == shelter then t[rid := t[rid].(isActive := active)] else t
  }

  /** Deactivating takes a resident off the board and activating puts one of
      the shelter's residents on it; no other resident's listing changes. */
  lemma SetActiveLists(t: ResidentTable, log: AttendanceLog, rid: int, shelter: string, active: bool,
                       now: int)
    ensures var m := Board(SetActive(t, rid, shelter, active), log, shelter, now);
            && (rid in t && t[rid].shelter == shelter ==> (rid in m <==> active))
            && (rid !in t || t[rid].shelter != shelter ==> (rid in m <==> rid in Board(t, log, shelter, now)))
            && (forall other :: other != rid ==> (other in m <==> other in Board(t, log, shelter, now)))
  {
  }
}
