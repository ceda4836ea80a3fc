/** Leave requests: what a resident submits, the checks a submission must
    pass, the three staff transitions (approve, deny, check in) as updates of
    the leave_requests table, and the three staff boards (pending, away now,
    overdue) as queries over it. */
module Leave {
  import opened Common
  import opened Clock
  import Ordering

  const MaxLeaveDays := 7
  const MaxLeaveSeconds := MaxLeaveDays * SecondsPerDay

  /** The last instant Python's datetime can hold, 9999-12-31 23:59:59. */
  const LastInstant := 315537983999

  /** LastInstant is the instant of 9999-12-31 23:59:59. */
  lemma LastInstantIsLastDate()
    ensures Valid(DateTime(9999, 12, 31, 23, 59, 59))
    ensures LastInstant == ToSeconds(DateTime(9999, 12, 31, 23, 59, 59))
  {
    assert DaysBeforeYear(9999) == 3651694;
    assert Ordinal(DateTime(9999, 12, 31, 23, 59, 59)) == 3652059;
  }

  datatype LeaveStatus = Pending | Approved | Denied | CheckedIn

  /** One row of leave_requests; instants are seconds. */
  datatype LeaveRequest = LeaveRequest(
    shelter: string,
    firstName: string,
    lastName: string,
    dob: string,
    destination: string,
    reason: Option<string>,
    residentNotes: Option<string>,
    leaveAt: int,
    returnAt: int,
    status: LeaveStatus,
    submittedAt: int,
    decidedAt: Option<int>,
    decidedBy: Option<int>,
    decisionNote: Option<string>,
    checkInAt: Option<int>,
    checkInBy: Option<int>)

  /** leave_requests, keyed by row id. */
  type LeaveTable = map<int, LeaveRequest>

  /** The leave form as posted; a missing field is empty. */
  datatype LeaveForm = LeaveForm(
    shelter: string,
    firstName: string,
    lastName: string,
    dob: string,
    destination: string,
    reason: string,
    residentNotes: string,
    leaveAt: string,
    returnAt: string,
    agreed: string)

  /** The form with every text field stripped, as the handler reads it; the
      agreement box is compared as posted. */
  function Cleaned(f: LeaveForm): LeaveForm {
    LeaveForm(Strip(f.shelter), Strip(f.firstName), Strip(f.lastName), Strip(f.dob),
              Strip(f.destination), Strip(f.reason), Strip(f.residentNotes),
              Strip(f.leaveAt), Strip(f.returnAt), f.agreed)
  }

  /** Cleaning a cleaned form changes nothing. */
  lemma CleanedIsIdempotent(f: LeaveForm)
    ensures Cleaned(Cleaned(f)) == Cleaned(f)
  {
    StripIdempotent(f.shelter);
    StripIdempotent(f.firstName);
    StripIdempotent(f.lastName);
    StripIdempotent(f.dob);
    StripIdempotent(f.destination);
    StripIdempotent(f.reason);
    StripIdempotent(f.residentNotes);
    StripIdempotent(f.leaveAt);
    StripIdempotent(f.returnAt);
  }

  predicate Agreed(f: LeaveForm) {
    f.agreed == "on"
  }

  predicate MissingRequired(f: LeaveForm) {
    f.firstName == "" || f.lastName == "" || f.dob == "" || f.destination == ""
    || f.leaveAt == "" || f.returnAt == ""
  }

  /** The reasons a submission is refused, each with the message it flashes. */
  datatype LeaveError = NotAgreed | MissingFields | ReturnNotAfterLeave | TooLong | InvalidDateTime
  {
    function Message(): string {
      match this
      case NotAgreed => "You must accept the agreement."
      case MissingFields => "Complete all required fields."
      case ReturnNotAfterLeave => "Return must be after leave."
      case TooLong => "Maximum leave is 7 days."
      case InvalidDateTime => "Invalid date or time."
    }

    /** The handler raises this error for the cleaned form `f`, given what
        its two time fields parse to (None where parse_dt raised). Adding
        MaxLeaveDays to a leave time on the last representable week
        overflows, which the handler reports as an invalid date. */
    predicate Raised(f: LeaveForm, leaveAt: Option<int>, returnAt: Option<int>) {
      match this
      case NotAgreed => !Agreed(f)
      case MissingFields => MissingRequired(f)
      case ReturnNotAfterLeave =>
        leaveAt.Some? && returnAt.Some? && returnAt.value <= leaveAt.value
      case TooLong =>
        leaveAt.Some? && returnAt.Some? && leaveAt.value + MaxLeaveSeconds <= LastInstant
        && returnAt.value > leaveAt.value + MaxLeaveSeconds
      case InvalidDateTime =>
        leaveAt.None? || returnAt.None? || leaveAt.value + MaxLeaveSeconds > LastInstant
    }

    /** The order in which the handler checks, and so flashes, them. */
    function Rank(): nat {
      match this
      case NotAgreed => 0
      case MissingFields => 1
      case ReturnNotAfterLeave => 2
      case TooLong => 3
      case InvalidDateTime => 4
    }
  }

  /** Both times parsed, and the return falls after the leave and at most
      MaxLeaveDays later (the sum itself must still be a representable
      date-time, or Python's addition overflows). */
  predicate WindowOk(leaveAt: Option<int>, returnAt: Option<int>) {
    && leaveAt.Some? && returnAt.Some?
    && leaveAt.value < returnAt.value
    && leaveAt.value + MaxLeaveSeconds <= LastInstant
    && returnAt.value <= leaveAt.value + MaxLeaveSeconds
  }

  /** A submission the handler accepts, given what its two times parse to. */
  predicate Admissible(f: LeaveForm, leaveAt: Option<int>, returnAt: Option<int>) {
    Agreed(f) && !MissingRequired(f) && WindowOk(leaveAt, returnAt)
  }

  /** Errors listed in the order the handler checks for them, none twice. */
  predicate InCheckOrder(errors: seq<LeaveError>) {
    forall i, j :: 0 <= i < j < |errors| ==> errors[i].Rank() < errors[j].Rank()
  }

  /** The `try` block of the leave handler: the checks on the two parsed
      times. `leaveAt` and `returnAt` are what parse_dt made of the two time
      fields (None where it raised). */
  method CheckWindow(leaveAt: Option<int>, returnAt: Option<int>) returns (errors: seq<LeaveError>)
    ensures ReturnNotAfterLeave in errors <==>
              leaveAt.Some? && returnAt.Some? && returnAt.value <= leaveAt.value
    ensures TooLong in errors <==>
              leaveAt.Some? && returnAt.Some? && leaveAt.value + MaxLeaveSeconds <= LastInstant
              && returnAt.value > leaveAt.value + MaxLeaveSeconds
    ensures InvalidDateTime in errors <==>
              leaveAt.None? || returnAt.None? || leaveAt.value + MaxLeaveSeconds > LastInstant
    ensures forall e :: e in errors ==> e.Rank() >= 2
    ensures InCheckOrder(errors)
    ensures errors == [] <==> WindowOk(leaveAt, returnAt)
  {
    errors := [];
    if leaveAt.None? || returnAt.None? {
      errors := [InvalidDateTime];
    } else {
      if returnAt.value <= leaveAt.value {
        errors := errors + [ReturnNotAfterLeave];
      }
      if leaveAt.value + MaxLeaveSeconds > LastInstant {
        // leave_dt + timedelta(days=7) raises OverflowError
        errors := errors + [InvalidDateTime];
      } else if returnAt.value > leaveAt.value + MaxLeaveSeconds {
        errors := errors + [TooLong];
      }
    }
  }

  lemma ConcatInOrder(a: seq<LeaveError>, b: seq<LeaveError>)
    requires InCheckOrder(a) && InCheckOrder(b)
    requires forall e :: e in a ==> e.Rank() < 2
    requires forall e :: e in b ==> e.Rank() >= 2
    ensures InCheckOrder(a + b)
  {
    forall i, j | 0 <= i < j < |a + b| ensures (a + b)[i].Rank() < (a + b)[j].Rank() {
      if j < |a| {
      } else if i < |a| {
        assert (a + b)[i] in a && (a + b)[j] in b;
      }
    }
  }

  /** The form checks and the window checks together raise exactly the
      errors whose conditions hold. */
  lemma ConcatRaised(front: seq<LeaveError>, window: seq<LeaveError>, f: LeaveForm,
                     leaveAt: Option<int>, returnAt: Option<int>)
    requires forall e :: e in front ==> e.Rank() < 2
    requires NotAgreed in front <==> !Agreed(f)
    requires MissingFields in front <==> MissingRequired(f)
    requires forall e :: e in window ==> e.Rank() >= 2
    requires ReturnNotAfterLeave in window <==> ReturnNotAfterLeave.Raised(f, leaveAt, returnAt)
    requires TooLong in window <==> TooLong.Raised(f, leaveAt, returnAt)
    requires InvalidDateTime in window <==> InvalidDateTime.Raised(f, leaveAt, returnAt)
    ensures forall e :: e in front + window <==> e.Raised(f, leaveAt, returnAt)
  {
    forall e ensures e in front + window <==> e.Raised(f, leaveAt, returnAt) {
      if e.Rank() < 2 {
        assert e !in window;
      } else {
        assert e !in front;
      }
    }
  }

  /** The checks of the leave handler, accumulated into an error list in the
      order the handler makes them. */
  method ValidateLeave(f: LeaveForm, leaveAt: Option<int>, returnAt: Option<int>)
    returns (errors: seq<LeaveError>)
    ensures forall e :: e in errors <==> e.Raised(f, leaveAt, returnAt)
    ensures InCheckOrder(errors)
    ensures errors == [] <==> Admissible(f, leaveAt, returnAt)
  {
    errors := [];
    if !Agreed(f) {
      errors := errors + [NotAgreed];
    }
    if MissingRequired(f) {
      errors := errors + [MissingFields];
    }
    var windowErrors := CheckWindow(leaveAt, returnAt);
    ConcatInOrder(errors, windowErrors);
    ConcatRaised(errors, windowErrors, f, leaveAt, returnAt);
    errors := errors + windowErrors;
  }

  /** No two errors flash the same message or share a place in the check
      order. */
  lemma MessagesDiffer()
    ensures forall a: LeaveError, b: LeaveError :: a.Message() == b.Message() ==> a == b
    ensures forall a: LeaveError, b: LeaveError :: a.Rank() == b.Rank() ==> a == b
  {
  }

  /** The messages the handler flashes when it refuses a submission: those of
      the raised errors, in check order (Common.FlashedForUnique: there is
      one such list). */
  ghost predicate Flashed(ms: seq<string>, f: LeaveForm, leaveAt: Option<int>, returnAt: Option<int>) {
    FlashedFor(ms, (e: LeaveError) => e.Raised(f, leaveAt, returnAt), (e: LeaveError) => e.Rank(),
               (e: LeaveError) => e.Message())
  }

  /** The row an accepted submission inserts. */
  function NewRequest(f: LeaveForm, leaveAt: int, returnAt: int, now: int): (r: LeaveRequest)
    ensures r.status == Pending && r.shelter == f.shelter
    ensures r.leaveAt == leaveAt && r.returnAt == returnAt && r.submittedAt == now
    ensures r.decidedAt.None? && r.decidedBy.None? && r.decisionNote.None?
    ensures r.checkInAt.None? && r.checkInBy.None?
  {
    LeaveRequest(f.shelter, f.firstName, f.lastName, f.dob, f.destination,
                 NoneIfEmpty(f.reason), NoneIfEmpty(f.residentNotes),
                 leaveAt, returnAt, Pending, now, None, None, None, None, None)
  }

  // ---- The table invariant ----------------------------------------------

  /** What every stored row satisfies: its window passed the submission
      checks, and its decision and check-in fields agree with its status. */
  predicate RowValid(r: LeaveRequest) {
    && r.leaveAt < r.returnAt <= r.leaveAt + MaxLeaveSeconds
    && (r.status == Pending <==> r.decidedBy.None?)
    && (r.status == Pending <==> r.decidedAt.None?)
    && (r.status == Pending ==> r.decisionNote.None?)
    && (r.status == Denied ==> r.decisionNote.Some? && r.decisionNote.value != "")
    && (r.status == CheckedIn <==> r.checkInAt.Some?)
    && (r.status == CheckedIn <==> r.checkInBy.Some?)
  }

  /** Row ids are positive and below the next id to be handed out. */
  predicate TableValid(t: LeaveTable, nextId: int) {
    forall id :: id in t ==> 0 < id < nextId && RowValid(t[id])
  }

  /** The row of an admissible submission satisfies the table invariant. */
  lemma NewRequestValid(f: LeaveForm, leaveAt: Option<int>, returnAt: Option<int>, now: int)
    requires WindowOk(leaveAt, returnAt)
    ensures RowValid(NewRequest(f, leaveAt.value, returnAt.value, now))
  {
  }

  // ---- Transitions: the UPDATE statements of the staff handlers --------

  predicate InShelter(t: LeaveTable, id: int, shelter: string) {
    id in t && t[id].shelter == shelter
  }

  /** The approve handler's update, taken only when the row is in the
      shelter and still pending. */
  function Approve(t: LeaveTable, id: int, shelter: string, staffId: int, note: string, now: int): LeaveTable {
    if InShelter(t, id, shelter) && t[id].status == Pending then
      t[id := t[id].(status := Approved, decidedAt := Some(now), decidedBy := Some(staffId),
                     decisionNote := NoneIfEmpty(note))]
    else t
  }

  /** UPDATE ... SET status = 'denied' ... WHERE id, shelter and status = 'pending'. */
  function Deny(t: LeaveTable, id: int, shelter: string, staffId: int, note: string, now: int): LeaveTable {
    if InShelter(t, id, shelter) && t[id].status == Pending then
      t[id := t[id].(status := Denied, decidedAt := Some(now), decidedBy := Some(staffId),
                     decisionNote := Some(note))]
    else t
  }

  /** UPDATE ... SET status = 'checked_in' ... WHERE id, shelter,
      status = 'approved' and check_in_at IS NULL. */
  function CheckIn(t: LeaveTable, id: int, shelter: string, staffId: int, now: int): LeaveTable {
    if InShelter(t, id, shelter) && t[id].status == Approved && t[id].checkInAt.None? then
      t[id := t[id].(status := CheckedIn, checkInAt := Some(now), checkInBy := Some(staffId))]
    else t
  }

  /** The moves a row's status may make: none, pending to approved or
      denied, approved to checked in. */
  predicate Forward(a: LeaveStatus, b: LeaveStatus) {
    a == b || (a == Pending && (b == Approved || b == Denied)) || (a == Approved && b == CheckedIn)
  }

  /** Two rows carry the same request: what the resident submitted and when.
      No staff transition writes these columns. */
  predicate SameRequest(a: LeaveRequest, b: LeaveRequest) {
    && a.shelter == b.shelter && a.firstName == b.firstName && a.lastName == b.lastName
    && a.dob == b.dob && a.destination == b.destination && a.reason == b.reason
    && a.residentNotes == b.residentNotes && a.leaveAt == b.leaveAt && a.returnAt == b.returnAt
    && a.submittedAt == b.submittedAt
  }

  /** `u` differs from `t` in row `id` at most, every status there moved
      forward, and every row still carries its request. */
  predicate OnlyRowMovedForward(t: LeaveTable, u: LeaveTable, id: int) {
    && u.Keys == t.Keys
    && (forall k :: k in t && k != id ==> u[k] == t[k])
    && (forall k :: k in t ==> Forward(t[k].status, u[k].status))
    && (forall k :: k in t ==> SameRequest(t[k], u[k]))
  }

  /** Every transition changes at most the row it names, never adds or
      removes a row, and only moves statuses forward, so no handler takes a
      row out of denied or checked in. */
  lemma TransitionsMoveForward(t: LeaveTable, id: int, shelter: string, staffId: int, note: string, now: int)
    ensures OnlyRowMovedForward(t, Approve(t, id, shelter, staffId, note, now), id)
    ensures OnlyRowMovedForward(t, Deny(t, id, shelter, staffId, note, now), id)
    ensures OnlyRowMovedForward(t, CheckIn(t, id, shelter, staffId, now), id)
  {
  }

  /** Denied and checked-in rows are final. */
  lemma FinalStatesStay(t: LeaveTable, id: int, shelter: string, staffId: int, note: string, now: int)
    requires id in t && (t[id].status == Denied || t[id].status == CheckedIn)
    ensures Approve(t, id, shelter, staffId, note, now) == t
    ensures Deny(t, id, shelter, staffId, note, now) == t
    ensures CheckIn(t, id, shelter, staffId, now) == t
  {
  }

  /** Each transition keeps the table invariant (a denial always carries a
      note: the handler refuses an empty one before updating). */
  lemma TransitionsKeepValid(t: LeaveTable, nextId: int, id: int, shelter: string, staffId: int,
                             note: string, now: int)
    requires TableValid(t, nextId)
    ensures TableValid(Approve(t, id, shelter, staffId, note, now), nextId)
    ensures note != "" ==> TableValid(Deny(t, id, shelter, staffId, note, now), nextId)
    ensures TableValid(CheckIn(t, id, shelter, staffId, now), nextId)
  {
  }

  /** Approving takes effect exactly on a pending row of the shelter; it sets
      the decision fields of that row and nothing else, and a second approval
      changes nothing. */
  lemma ApproveOnlyOnce(t: LeaveTable, id: int, shelter: string, s1: int, n1: string, at1: int,
                        s2: int, n2: string, at2: int)
    ensures var u := Approve(t, id, shelter, s1, n1, at1);
            && (u != t <==> InShelter(t, id, shelter) && t[id].status == Pending)
            && (u != t ==> u == t[id := t[id].(status := Approved, decidedAt := Some(at1),
                                                decidedBy := Some(s1), decisionNote := NoneIfEmpty(n1))])
            && Approve(u, id, shelter, s2, n2, at2) == u
  {
    var u := Approve(t, id, shelter, s1, n1, at1);
    if InShelter(t, id, shelter) && t[id].status == Pending {
      assert u[id].status != t[id].status;
    }
  }

  /** Denying takes effect exactly on a pending row of the shelter, sets the
      decision fields of that row and nothing else, and a denied row cannot be
      approved afterwards. */
  lemma DenyIsPermanent(t: LeaveTable, id: int, shelter: string, s1: int, n1: string, at1: int,
                        s2: int, n2: string, at2: int)
    ensures var u := Deny(t, id, shelter, s1, n1, at1);
            && (u != t <==> InShelter(t, id, shelter) && t[id].status == Pending)
            && (u != t ==> u == t[id := t[id].(status := Denied, decidedAt := Some(at1),
                                                decidedBy := Some(s1), decisionNote := Some(n1))]
                           && Approve(u, id, shelter, s2, n2, at2) == u)
  {
    var u := Deny(t, id, shelter, s1, n1, at1);
    if InShelter(t, id, shelter) && t[id].status == Pending {
      assert u[id].status != t[id].status;
    }
  }

  /** Checking in takes effect exactly on an approved, not yet checked-in row
      of the shelter, sets the check-in fields of that row and nothing else,
      and a second check-in leaves the table as the first one left it. */
  lemma CheckInIdempotent(t: LeaveTable, id: int, shelter: string, s1: int, at1: int, s2: int, at2: int)
    ensures var u := CheckIn(t, id, shelter, s1, at1);
            && (u != t <==> InShelter(t, id, shelter) && t[id].status == Approved && t[id].checkInAt.None?)
            && (u != t ==> u == t[id := t[id].(status := CheckedIn, checkInAt := Some(at1),
                                                checkInBy := Some(s1))])
            && CheckIn(u, id, shelter, s2, at2) == u
  {
    var u := CheckIn(t, id, shelter, s1, at1);
    if InShelter(t, id, shelter) && t[id].status == Approved && t[id].checkInAt.None? {
      assert u[id].status != t[id].status;
    }
  }

  // ---- Boards: the SELECT statements of the staff views ----------------

  predicate PendingRow(r: LeaveRequest, shelter: string) {
    r.status == Pending && r.shelter == shelter
  }

  predicate AwayNowRow(r: LeaveRequest, shelter: string, now: int) {
    r.status == Approved && r.shelter == shelter && r.leaveAt <= now && r.checkInAt.None?
  }

  predicate OverdueRow(r: LeaveRequest, shelter: string, now: int) {
    r.status == Approved && r.shelter == shelter && r.returnAt < now && r.checkInAt.None?
  }

  /** The pending board: the shelter's pending requests, newest submission
      first. */
  function PendingBoard(t: LeaveTable, shelter: string): (v: seq<int>)
    ensures forall id :: id in v <==> id in t && PendingRow(t[id], shelter)
    ensures forall a, b :: 0 <= a < b < |v| ==>
              v[a] != v[b] && t[v[a]].submittedAt >= t[v[b]].submittedAt
  {
    Ordering.OrderBy(t, Ordering.Where(t, r => PendingRow(r, shelter)), (r: LeaveRequest) => -r.submittedAt)
  }

  /** The away-now board: approved requests of the shelter whose leave has
      started and that are not checked in, soonest return first. */
  function AwayNow(t: LeaveTable, shelter: string, now: int): (v: seq<int>)
    ensures forall id :: id in v <==> id in t && AwayNowRow(t[id], shelter, now)
    ensures forall a, b :: 0 <= a < b < |v| ==> v[a] != v[b] && t[v[a]].returnAt <= t[v[b]].returnAt
  {
    Ordering.OrderBy(t, Ordering.Where(t, r => AwayNowRow(r, shelter, now)), (r: LeaveRequest) => r.returnAt)
  }

  /** The overdue board: approved requests of the shelter, not checked in,
      whose return time has passed, soonest return first. */
  function Overdue(t: LeaveTable, shelter: string, now: int): (v: seq<int>)
    ensures forall id :: id in v <==> id in t && OverdueRow(t[id], shelter, now)
    ensures forall a, b :: 0 <= a < b < |v| ==> v[a] != v[b] && t[v[a]].returnAt <= t[v[b]].returnAt
  {
    Ordering.OrderBy(t, Ordering.Where(t, r => OverdueRow(r, shelter, now)), (r: LeaveRequest) => r.returnAt)
  }

  /** In a valid table every overdue request is also on the away-now board:
      its leave started before its return, which has passed. */
  lemma OverdueIsAway(t: LeaveTable, nextId: int, shelter: string, now: int)
    requires TableValid(t, nextId)
    ensures forall id :: id in Overdue(t, shelter, now) ==> id in AwayNow(t, shelter, now)
  {
  }

  /** A check-in that takes effect takes the row off both boards, and off
      them for good. */
  lemma CheckInClearsBoards(t: LeaveTable, id: int, shelter: string, staffId: int, at: int, now: int)
    requires InShelter(t, id, shelter) && t[id].status == Approved && t[id].checkInAt.None?
    ensures var u := CheckIn(t, id, shelter, staffId, at);
            id !in AwayNow(u, shelter, now) && id !in Overdue(u, shelter, now)
  {
  }

  /** Approving a pending request whose leave has started puts it on the
      away-now board of its shelter. */
  lemma ApprovalShowsAway(t: LeaveTable, id: int, shelter: string, staffId: int, note: string,
                          at: int, now: int)
    requires InShelter(t, id, shelter) && t[id].status == Pending && t[id].checkInAt.None?
    requires t[id].leaveAt <= now
    ensures id in AwayNow(Approve(t, id, shelter, staffId, note, at), shelter, now)
    ensures id !in PendingBoard(Approve(t, id, shelter, staffId, note, at), shelter)
  {
  }

  /** A request is never both waiting for a decision and away. */
  lemma PendingNotAway(t: LeaveTable, shelter: string, now: int)
    ensures forall id :: id in PendingBoard(t, shelter) ==> id !in AwayNow(t, shelter, now)
    ensures forall id :: id in PendingBoard(t, shelter) ==> id !in Overdue(t, shelter, now)
  {
  }

  /** A return exactly MaxLeaveDays after the leave is accepted; one second
      later is too long. */
  lemma WindowBoundary(leaveAt: int)
    requires leaveAt + MaxLeaveSeconds <= LastInstant
    ensures WindowOk(Some(leaveAt), Some(leaveAt + MaxLeaveSeconds))
    ensures !WindowOk(Some(leaveAt), Some(leaveAt + MaxLeaveSeconds + 1))
  {
  }
}
