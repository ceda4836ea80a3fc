/** The kiosk's database and the request handlers that change it. Each table
    is a field of the Database; each handler is a method whose contract gives
    the new state of the tables it writes as the table update of its module
    (Leave, Transport, Attendance) applied to the old state, and the entry it
    appends to the audit log. The session values a handler reads (staff id,
    shelter) are parameters, as is the current time. */
module App {
  import opened Common
  import opened Clock
  import Leave
  import Transport
  import Attendance
  import Access

  /** One row of staff_users, keyed by its unique username. */
  datatype StaffUser = StaffUser(id: int, role: string, isActive: bool, createdAt: int)

  class Database {
    var leaveRequests: Leave.LeaveTable
    var nextLeaveId: int
    var transportRequests: Transport.TransportTable
    var nextTransportId: int
    var residents: Attendance.ResidentTable
    var nextResidentId: int
    var attendance: Attendance.AttendanceLog
    var staffUsers: map<string, StaffUser>
    var nextStaffId: int
    var audit: seq<AuditEntry>

    /** Every stored row satisfies its table's invariant and row ids stay
        below the next id to be handed out. */
    predicate Valid()
      reads this`leaveRequests, this`nextLeaveId, this`transportRequests, this`nextTransportId
      reads this`residents, this`nextResidentId, this`staffUsers, this`nextStaffId
    {
      && 1 <= nextLeaveId && Leave.TableValid(leaveRequests, nextLeaveId)
      && 1 <= nextTransportId && Transport.TableValid(transportRequests, nextTransportId)
      && 1 <= nextResidentId && (forall rid :: rid in residents ==> 0 < rid < nextResidentId)
      && 1 <= nextStaffId
      && (forall u :: u in staffUsers ==>
            0 < staffUsers[u].id < nextStaffId && Access.KnownRole(staffUsers[u].role))
    }

    /** An empty database. */
    constructor ()
      ensures Valid()
      ensures leaveRequests == map[] && transportRequests == map[] && residents == map[]
      ensures attendance == [] && staffUsers == map[] && audit == []
    {
      leaveRequests, nextLeaveId := map[], 1;
      transportRequests, nextTransportId := map[], 1;
      residents, nextResidentId := map[], 1;
      attendance := [];
      staffUsers, nextStaffId := map[], 1;
      audit := [];
    }

    /** log_action: one entry appended to the audit log, stamped `now`. */
    method LogAction(entityType: string, entityId: Option<int>, shelter: Option<string>,
                     staffUserId: Option<int>, actionType: string, details: string, now: int)
      modifies this`audit
      ensures audit == old(audit) + [AuditEntry(entityType, entityId, shelter, staffUserId,
                                                actionType, details, now)]
    {
      audit := audit + [AuditEntry(entityType, entityId, shelter, staffUserId, actionType, details, now)];
    }

    // ---- Resident submissions -------------------------------------------

    /** INSERT INTO leave_requests: the row gets the next id. */
    method InsertLeave(row: Leave.LeaveRequest) returns (id: int)
      requires Valid() && Leave.RowValid(row)
      modifies this`leaveRequests, this`nextLeaveId
      ensures Valid()
      ensures id == old(nextLeaveId) && id !in old(leaveRequests)
      ensures leaveRequests == old(leaveRequests)[id := row] && nextLeaveId == old(nextLeaveId) + 1
    {
      id := nextLeaveId;
      leaveRequests := leaveRequests[id := row];
      nextLeaveId := nextLeaveId + 1;
    }

    /** INSERT INTO transport_requests: the row gets the next id. */
    method InsertTransport(row: Transport.TransportRequest) returns (id: int)
      requires Valid() && Transport.RowValid(row)
      modifies this`transportRequests, this`nextTransportId
      ensures Valid()
      ensures id == old(nextTransportId) && id !in old(transportRequests)
      ensures transportRequests == old(transportRequests)[id := row]
      ensures nextTransportId == old(nextTransportId) + 1
    {
      id := nextTransportId;
      transportRequests := transportRequests[id := row];
      nextTransportId := nextTransportId + 1;
    }

    /** The leave handler after its shelter check, on the stripped form and
        what its two time fields parse to: every check runs and all failures
        are flashed; an accepted request is inserted as pending and logged. */
    method AcceptLeave(f: Leave.LeaveForm, leaveAt: Option<int>, returnAt: Option<int>, now: int)
      returns (outcome: Submission)
      requires Valid()
      modifies this`leaveRequests, this`nextLeaveId, this`audit
      ensures Valid()
      ensures outcome.Created? <==> Leave.Admissible(f, leaveAt, returnAt)
      ensures outcome.Rejected? ==>
                && outcome.messages != []
                && Leave.Flashed(outcome.messages, f, leaveAt, returnAt)
                && (forall e: Leave.LeaveError :: e.Message() in outcome.messages <==> e.Raised(f, leaveAt, returnAt))
                && leaveRequests == old(leaveRequests) && nextLeaveId == old(nextLeaveId) && audit == old(audit)
      ensures outcome.Created? ==>
                && outcome.id == old(nextLeaveId) && outcome.id !in old(leaveRequests)
                && nextLeaveId == old(nextLeaveId) + 1
                && leaveRequests == old(leaveRequests)[outcome.id :=
                     Leave.NewRequest(f, leaveAt.value, returnAt.value, now)]
                && audit == old(audit) + [AuditEntry("leave", Some(outcome.id), Some(f.shelter), None,
                                                     "create", "Resident submitted leave request", now)]
    {
      var errors := Leave.ValidateLeave(f, leaveAt, returnAt);
      if errors != [] {
        var message := (e: Leave.LeaveError) => e.Message();
        Leave.MessagesDiffer();
        assert RankedBy(errors, (e: Leave.LeaveError) => e.Rank());
        assert Leave.Flashed(Flash(errors, message), f, leaveAt, returnAt);
        forall e: Leave.LeaveError ensures e.Message() in Flash(errors, message) <==> e in errors {
          FlashNamesErrors(errors, message, e);
        }
        return Rejected(Flash(errors, message));
      }
      var row := Leave.NewRequest(f, leaveAt.value, returnAt.value, now);
      Leave.NewRequestValid(f, leaveAt, returnAt, now);
      var id := InsertLeave(row);
      LogAction("leave", Some(id), Some(f.shelter), None, "create", "Resident submitted leave request", now);
      outcome := Created(id);
    }

    /** The leave form's POST: the fields are stripped, a shelter outside the
        list is refused first, and the rest is AcceptLeave. */
    method SubmitLeave(form: Leave.LeaveForm, now: int) returns (outcome: Submission)
      requires Valid()
      modifies this`leaveRequests, this`nextLeaveId, this`audit
      ensures Valid()
      ensures var f := Leave.Cleaned(form);
              var leaveAt := ParseInstant(f.leaveAt);
              var returnAt := ParseInstant(f.returnAt);
              && (outcome.Created? <==> IsShelter(f.shelter) && Leave.Admissible(f, leaveAt, returnAt))
              && (!IsShelter(f.shelter) ==> outcome == Rejected(["Select a valid shelter."]))
              && (IsShelter(f.shelter) && outcome.Rejected? ==>
                    && Leave.Flashed(outcome.messages, f, leaveAt, returnAt)
                    && forall e: Leave.LeaveError :: e.Message() in outcome.messages <==> e.Raised(f, leaveAt, returnAt))
              && (outcome.Rejected? ==>
                    leaveRequests == old(leaveRequests) && nextLeaveId == old(nextLeaveId) && audit == old(audit))
              && (outcome.Created? ==>
                    && outcome.id == old(nextLeaveId) && outcome.id !in old(leaveRequests)
                    && leaveRequests == old(leaveRequests)[outcome.id :=
                         Leave.NewRequest(f, leaveAt.value, returnAt.value, now)]
                    && audit == old(audit) + [AuditEntry("leave", Some(outcome.id), Some(f.shelter), None,
                                                         "create", "Resident submitted leave request", now)])
    {
      var f := Leave.Cleaned(form);
      if !IsShelter(f.shelter) {
        return Rejected(["Select a valid shelter."]);
      }
      outcome := AcceptLeave(f, ParseInstant(f.leaveAt), ParseInstant(f.returnAt), now);
    }

    /** The transport handler after its shelter check, on the stripped form
        and what its needed time parses to. */
    method AcceptTransport(f: Transport.TransportForm, neededAt: Option<int>, now: int)
      returns (outcome: Submission)
      requires Valid()
      modifies this`transportRequests, this`nextTransportId, this`audit
      ensures Valid()
      ensures outcome.Created? <==> !Transport.MissingRequired(f) && Transport.NeededOk(neededAt, now)
      ensures outcome.Rejected? ==>
                && outcome.messages != []
                && Transport.Flashed(outcome.messages, f, neededAt, now)
                && (forall e: Transport.TransportError :: e.Message() in outcome.messages <==> e.Raised(f, neededAt, now))
                && transportRequests == old(transportRequests) && nextTransportId == old(nextTransportId)
                && audit == old(audit)
      ensures outcome.Created? ==>
                && outcome.id == old(nextTransportId) && outcome.id !in old(transportRequests)
                && nextTransportId == old(nextTransportId) + 1
                && transportRequests == old(transportRequests)[outcome.id :=
                     Transport.NewRequest(f, neededAt.value, now)]
                && audit == old(audit) + [AuditEntry("transport", Some(outcome.id), Some(f.shelter), None,
                                                     "create", "Resident submitted transportation request", now)]
    {
      var errors := Transport.ValidateTransport(f, neededAt, now);
      if errors != [] {
        var message := (e: Transport.TransportError) => e.Message();
        Transport.MessagesDiffer();
        assert RankedBy(errors, (e: Transport.TransportError) => e.Rank());
        assert Transport.Flashed(Flash(errors, message), f, neededAt, now);
        forall e: Transport.TransportError ensures e.Message() in Flash(errors, message) <==> e in errors {
          FlashNamesErrors(errors, message, e);
        }
        return Rejected(Flash(errors, message));
      }
      var id := InsertTransport(Transport.NewRequest(f, neededAt.value, now));
      LogAction("transport", Some(id), Some(f.shelter), None, "create",
                "Resident submitted transportation request", now);
      outcome := Created(id);
    }

    /** The transport form's POST: the fields are stripped, a shelter outside
        the list is refused first, and the rest is AcceptTransport. */
    method SubmitTransport(form: Transport.TransportForm, now: int) returns (outcome: Submission)
      requires Valid()
      modifies this`transportRequests, this`nextTransportId, this`audit
      ensures Valid()
      ensures var f := Transport.Cleaned(form);
              var neededAt := ParseInstant(f.neededAt);
              && (outcome.Created? <==>
                    IsShelter(f.shelter) && !Transport.MissingRequired(f) && Transport.NeededOk(neededAt, now))
              && (!IsShelter(f.shelter) ==> outcome == Rejected(["Select a valid shelter."]))
              && (IsShelter(f.shelter) && outcome.Rejected? ==>
                    && Transport.Flashed(outcome.messages, f, neededAt, now)
                    && forall e: Transport.TransportError :: e.Message() in outcome.messages <==> e.Raised(f, neededAt, now))
              && (outcome.Rejected? ==>
                    && transportRequests == old(transportRequests) && nextTransportId == old(nextTransportId)
                    && audit == old(audit))
              && (outcome.Created? ==>
                    && outcome.id == old(nextTransportId) && outcome.id !in old(transportRequests)
                    && transportRequests == old(transportRequests)[outcome.id :=
                         Transport.NewRequest(f, neededAt.value, now)]
                    && audit == old(audit) + [AuditEntry("transport", Some(outcome.id), Some(f.shelter), None,
                                                         "create", "Resident submitted transportation request", now)])
    {
      var f := Transport.Cleaned(form);
      if !IsShelter(f.shelter) {
        return Rejected(["Select a valid shelter."]);
      }
      outcome := AcceptTransport(f, ParseInstant(f.neededAt), now);
    }

    // ---- Staff decisions on leave ---------------------------------------

    /** Approve: refused unless the row is in the shelter and pending;
        otherwise the row is approved and the decision logged. */
    method ApproveLeave(id: int, shelter: string, staffId: int, rawNote: string, now: int)
      returns (reply: Reply)
      requires Valid()
      modifies this`leaveRequests, this`audit
      ensures Valid()
      ensures var note := Strip(rawNote);
              && leaveRequests == Leave.Approve(old(leaveRequests), id, shelter, staffId, note, now)
              && (reply.Ok? <==> Leave.InShelter(old(leaveRequests), id, shelter)
                                 && old(leaveRequests)[id].status == Leave.Pending)
              && (reply.Err? ==> reply == Err("Not pending.") && audit == old(audit))
              && (reply.Ok? ==>
                    reply == Ok("Approved.") && audit == old(audit) +
                      [AuditEntry("leave", Some(id), Some(shelter), Some(staffId), "approve", note, now)])
    {
      var note := Strip(rawNote);
      if !(id in leaveRequests && leaveRequests[id].shelter == shelter)
         || leaveRequests[id].status != Leave.Pending {
        return Err("Not pending.");
      }
      Leave.TransitionsKeepValid(leaveRequests, nextLeaveId, id, shelter, staffId, note, now);
      leaveRequests := Leave.Approve(leaveRequests, id, shelter, staffId, note, now);
      LogAction("leave", Some(id), Some(shelter), Some(staffId), "approve", note, now);
      reply := Ok("Approved.");
    }

    /** Deny: an empty note is refused with nothing written; otherwise the
        conditional update runs and the denial is logged and reported whether
        or not a pending row of the shelter matched. */
    method DenyLeave(id: int, shelter: string, staffId: int, rawNote: string, now: int)
      returns (reply: Reply)
      requires Valid()
      modifies this`leaveRequests, this`audit
      ensures Valid()
      ensures var note := Strip(rawNote);
              && (note == "" ==> reply == Err("Denial note required.")
                                 && leaveRequests == old(leaveRequests) && audit == old(audit))
              && (note != "" ==>
                    && reply == Ok("Denied.")
                    && leaveRequests == Leave.Deny(old(leaveRequests), id, shelter, staffId, note, now)
                    && audit == old(audit) +
                         [AuditEntry("leave", Some(id), Some(shelter), Some(staffId), "deny", note, now)])
    {
      var note := Strip(rawNote);
      if note == "" {
        return Err("Denial note required.");
      }
      Leave.TransitionsKeepValid(leaveRequests, nextLeaveId, id, shelter, staffId, note, now);
      leaveRequests := Leave.Deny(leaveRequests, id, shelter, staffId, note, now);
      LogAction("leave", Some(id), Some(shelter), Some(staffId), "deny", note, now);
      reply := Ok("Denied.");
    }

    /** Check in a returning resident: the conditional update runs, and the
        check-in is logged and reported whether or not a row matched. */
    method CheckInLeave(id: int, shelter: string, staffId: int, rawNote: string, now: int)
      returns (reply: Reply)
      requires Valid()
      modifies this`leaveRequests, this`audit
      ensures Valid()
      ensures reply == Ok("Checked in.")
      ensures leaveRequests == Leave.CheckIn(old(leaveRequests), id, shelter, staffId, now)
      ensures audit == old(audit) +
                [AuditEntry("leave", Some(id), Some(shelter), Some(staffId), "check_in", Strip(rawNote), now)]
    {
      var note := Strip(rawNote);
      Leave.TransitionsKeepValid(leaveRequests, nextLeaveId, id, shelter, staffId, note, now);
      leaveRequests := Leave.CheckIn(leaveRequests, id, shelter, staffId, now);
      LogAction("leave", Some(id), Some(shelter), Some(staffId), "check_in", note, now);
      reply := Ok("Checked in.");
    }

    // ---- Staff scheduling of transport ----------------------------------

    /** Schedule: an empty driver name is refused with nothing written;
        otherwise the conditional update runs and the scheduling is logged
        and reported whether or not a pending row of the shelter matched. */
    method ScheduleTransport(id: int, shelter: string, staffId: int, rawDriver: string,
                             rawNotes: string, now: int) returns (reply: Reply)
      requires Valid()
      modifies this`transportRequests, this`audit
      ensures Valid()
      ensures var driver := Strip(rawDriver);
              && (driver == "" ==> reply == Err("Driver name required.")
                                   && transportRequests == old(transportRequests) && audit == old(audit))
              && (driver != "" ==>
                    && reply == Ok("Scheduled.")
                    && transportRequests == Transport.Schedule(old(transportRequests), id, shelter, staffId,
                                                               driver, Strip(rawNotes), now)
                    && audit == old(audit) + [AuditEntry("transport", Some(id), Some(shelter), Some(staffId),
                                                         "schedule", "Driver " + driver, now)])
    {
      var driver := Strip(rawDriver);
      var notes := Strip(rawNotes);
      if driver == "" {
        return Err("Driver name required.");
      }
      Transport.ScheduleKeepsValid(transportRequests, nextTransportId, id, shelter, staffId, driver, notes, now);
      transportRequests := Transport.Schedule(transportRequests, id, shelter, staffId, driver, notes, now);
      LogAction("transport", Some(id), Some(shelter), Some(staffId), "schedule", "Driver " + driver, now);
      reply := Ok("Scheduled.");
    }

    // ---- Attendance -----------------------------------------------------

    /** A check-in event appended for the resident, stamped `now`, and logged.
        The resident id is not looked up. */
    method AttendanceCheckIn(rid: int, shelter: string, staffId: int, rawNote: string, now: int)
      modifies this`attendance, this`audit
      ensures var note := Strip(rawNote);
              && attendance == old(attendance) + [Attendance.AttendanceEvent(rid, shelter, Attendance.CheckIn,
                                                      now, Some(staffId), NoneIfEmpty(note), None)]
              && audit == old(audit) +
                   [AuditEntry("attendance", Some(rid), Some(shelter), Some(staffId), "check_in", note, now)]
    {
      var note := Strip(rawNote);
      attendance := attendance + [Attendance.AttendanceEvent(rid, shelter, Attendance.CheckIn, now,
                                                             Some(staffId), NoneIfEmpty(note), None)];
      LogAction("attendance", Some(rid), Some(shelter), Some(staffId), "check_in", note, now);
    }

    /** A check-out event with its expected-back time appended and logged. */
    method AttendanceCheckOut(rid: int, shelter: string, staffId: int, rawNote: string,
                              rawExpectedBack: string, now: int)
      modifies this`attendance, this`audit
      ensures var note := Strip(rawNote);
              var expectedBack := Strip(rawExpectedBack);
              && attendance == old(attendance) + [Attendance.AttendanceEvent(rid, shelter, Attendance.CheckOut,
                                                      now, Some(staffId), NoneIfEmpty(note), NoneIfEmpty(expectedBack))]
              && audit == old(audit) + [AuditEntry("attendance", Some(rid), Some(shelter), Some(staffId),
                                                   "check_out", Strip("expected_back=" + expectedBack + " " + note), now)]
    {
      var note := Strip(rawNote);
      var expectedBack := Strip(rawExpectedBack);
      attendance := attendance + [Attendance.AttendanceEvent(rid, shelter, Attendance.CheckOut, now,
                                                             Some(staffId), NoneIfEmpty(note), NoneIfEmpty(expectedBack))];
      LogAction("attendance", Some(rid), Some(shelter), Some(staffId), "check_out",
                Strip("expected_back=" + expectedBack + " " + note), now);
    }

    /** The latest-event query, as a scan of the log. */
    method QueryLatestEvent(rid: int, shelter: string) returns (last: Option<Attendance.AttendanceEvent>)
      ensures last == Attendance.LatestEvent(attendance, rid, shelter)
    {
      last := None;
      var i := 0;
      while i < |attendance|
        invariant 0 <= i <= |attendance|
        invariant last == Attendance.LatestEvent(attendance[..i], rid, shelter)
      {
        var e := attendance[i];
        assert attendance[..i + 1][..i] == attendance[..i];
        if Attendance.Matches(e, rid, shelter) && (last.None? || last.value.eventTime <= e.eventTime) {
          last := Some(e);
        }
        i := i + 1;
      }
      assert attendance[..i] == attendance;
    }

    /** The attendance page: one entry per active resident of the shelter,
        filled in one resident at a time from their latest event. */
    method AttendanceBoard(shelter: string, now: int) returns (statusMap: map<int, Attendance.Presence>)
      ensures statusMap == Attendance.Board(residents, attendance, shelter, now)
    {
      var todo := set rid | rid in residents && Attendance.Listed(residents[rid], shelter);
      statusMap := map[];
      while todo != {}
        invariant todo <= residents.Keys
        invariant forall rid :: rid in statusMap <==>
                    rid in residents && Attendance.Listed(residents[rid], shelter) && rid !in todo
        invariant forall rid :: rid in todo ==> Attendance.Listed(residents[rid], shelter)
        invariant forall rid :: rid in statusMap ==>
                    statusMap[rid] == Attendance.PresenceOf(attendance, rid, shelter, now)
        decreases |todo|
      {
        assert exists x :: x in todo by {
          if forall x :: x !in todo { assert false; }
        }
        var rid :| rid in todo;
        var last := QueryLatestEvent(rid, shelter);
        var entry;
        if last.None? {
          entry := Attendance.Presence(Attendance.CheckIn, None, "", false);
        } else {
          var e := last.value;
          var isOverdue := false;
          if e.eventType == Attendance.CheckOut && e.expectedBackTime.Some? && e.expectedBackTime.value != "" {
            var parsed := ParseInstant(e.expectedBackTime.value);
            isOverdue := parsed.Some? && parsed.value < now;
          }
          entry := Attendance.Presence(e.eventType, Some(e.eventTime), EmptyIfNone(e.expectedBackTime), isOverdue);
        }
        statusMap := statusMap[rid := entry];
        todo := todo - {rid};
      }
      var board := Attendance.Board(residents, attendance, shelter, now);
      forall rid ensures rid in statusMap <==> rid in board {
        assert rid !in todo;
      }
      assert statusMap.Keys == board.Keys;
    }

    // ---- Residents ------------------------------------------------------

    /** Adding a resident at the selected shelter: first name, last name and
        date of birth are required; the resident starts active. */
    method AddResident(shelter: string, staffId: int, rawFirst: string, rawLast: string, rawDob: string,
                       now: int) returns (reply: Reply)
      requires Valid()
      modifies this`residents, this`nextResidentId, this`audit
      ensures Valid()
      ensures var first, last, dob := Strip(rawFirst), Strip(rawLast), Strip(rawDob);
              && (first == "" || last == "" || dob == "" ==>
                    && reply == Err("First name, last name, and date of birth are required.")
                    && residents == old(residents) && nextResidentId == old(nextResidentId)
                    && audit == old(audit))
              && (first != "" && last != "" && dob != "" ==>
                    && reply == Ok("Resident added.")
                    && old(nextResidentId) !in old(residents)
                    && residents == old(residents)[old(nextResidentId) :=
                         Attendance.Resident(shelter, first, last, dob, true, now)]
                    && nextResidentId == old(nextResidentId) + 1
                    && audit == old(audit) + [AuditEntry("resident", None, Some(shelter), Some(staffId),
                                                         "create", first + " " + last + " " + dob, now)])
    {
      var first, last, dob := Strip(rawFirst), Strip(rawLast), Strip(rawDob);
      if first == "" || last == "" || dob == "" {
        return Err("First name, last name, and date of birth are required.");
      }
      residents := residents[nextResidentId := Attendance.Resident(shelter, first, last, dob, true, now)];
      nextResidentId := nextResidentId + 1;
      LogAction("resident", None, Some(shelter), Some(staffId), "create", first + " " + last + " " + dob, now);
      reply := Ok("Resident added.");
    }

    /** Activating or deactivating a resident: the flag must be "0" or "1";
        the update is scoped to the shelter and is logged and reported whether
        or not a resident matched. */
    method SetResidentActive(rid: int, shelter: string, staffId: int, rawActive: string, now: int)
      returns (reply: Reply)
      requires Valid()
      modifies this`residents, this`audit
      ensures Valid()
      ensures var flag := Access.ActiveFlag(rawActive);
              && (flag.None? ==> reply == Err("Invalid action.")
                                 && residents == old(residents) && audit == old(audit))
              && (flag.Some? ==>
                    && reply == Ok("Updated.")
                    && residents == Attendance.SetActive(old(residents), rid, shelter, flag.value)
                    && audit == old(audit) + [AuditEntry("resident", Some(rid), Some(shelter), Some(staffId),
                                                         "set_active", "active=" + Strip(rawActive), now)])
    {
      var flag := Access.ActiveFlag(rawActive);
      if flag.None? {
        return Err("Invalid action.");
      }
      residents := Attendance.SetActive(residents, rid, shelter, flag.value);
      LogAction("resident", Some(rid), Some(shelter), Some(staffId), "set_active", "active=" + Strip(rawActive), now);
      reply := Ok("Updated.");
    }

    // ---- Staff accounts -------------------------------------------------

    /** The new-user form: the checks of Access.CheckNewUser on the stripped
        values; an accepted account is active with the requested role. */
    method CreateUser(rawUsername: string, rawPassword: string, rawRole: string, now: int)
      returns (reply: Reply)
      requires Valid()
      modifies this`staffUsers, this`nextStaffId
      ensures Valid()
      ensures var username := Strip(rawUsername);
              var role := Access.RequestedRole(rawRole);
              var check := Access.CheckNewUser(username, Strip(rawPassword), role, old(staffUsers).Keys);
              && (check.Some? ==> reply == Err(check.value.Message())
                                  && staffUsers == old(staffUsers) && nextStaffId == old(nextStaffId))
              && (check.None? ==>
                    && reply == Ok("User created.")
                    && staffUsers == old(staffUsers)[username := StaffUser(old(nextStaffId), role, true, now)]
                    && nextStaffId == old(nextStaffId) + 1)
    {
      var username := Strip(rawUsername);
      var role := Access.RequestedRole(rawRole);
      var check := Access.CheckNewUser(username, Strip(rawPassword), role, staffUsers.Keys);
      if check.Some? {
        return Err(check.value.Message());
      }
      staffUsers := staffUsers[username := StaffUser(nextStaffId, role, true, now)];
      nextStaffId := nextStaffId + 1;
      reply := Ok("User created.");
    }

    /** Deleting an account: the signed-in user's own account is refused;
        any other username is removed, whether or not it exists. */
    method DeleteUser(username: string, session: Access.Session) returns (reply: Reply)
      requires Valid()
      modifies this`staffUsers
      ensures Valid()
      ensures session.username == Some(username) ==>
                reply == Err("You cannot delete yourself.") && staffUsers == old(staffUsers)
      ensures session.username != Some(username) ==>
                reply == Ok("User '" + username + "' deleted.") && staffUsers == old(staffUsers) - {username}
    {
      var refusal := Access.CheckDelete(username, session);
      if refusal.Some? {
        return Err(refusal.value);
      }
      staffUsers := staffUsers - {username};
      reply := Ok("User '" + username + "' deleted.");
    }
  }
}
