/** Transportation requests: the resident's submission and its checks, the
    staff scheduling step as an update of the transport_requests table, and
    the pending board. */
module Transport {
  import opened Common
  import opened Clock
  import Ordering

  /** How far in the past a needed time may lie: one minute. */
  const PastToleranceSeconds := 60

  /** Completed and cancelled exist in the table's schema; no handler of the
      kiosk sets them. */
  datatype TransportStatus = Pending | Scheduled | Completed | Cancelled

  /** One row of transport_requests; instants are seconds. */
  datatype TransportRequest = TransportRequest(
    shelter: string,
    firstName: string,
    lastName: string,
    dob: string,
    neededAt: int,
    pickupLocation: string,
    destination: string,
    reason: Option<string>,
    residentNotes: Option<string>,
    callbackPhone: Option<string>,
    status: TransportStatus,
    submittedAt: int,
    scheduledAt: Option<int>,
    scheduledBy: Option<int>,
    driverName: Option<string>,
    staffNotes: Option<string>,
    completedAt: Option<int>,
    completedBy: Option<int>,
    cancelledAt: Option<int>,
    cancelledBy: Option<int>,
    cancelReason: Option<string>)

  type TransportTable = map<int, TransportRequest>

  /** The transport form as posted; a missing field is empty. */
  datatype TransportForm = TransportForm(
    shelter: string,
    firstName: string,
    lastName: string,
    dob: string,
    neededAt: string,
    pickupLocation: string,
    destination: string,
    reason: string,
    residentNotes: string,
    callbackPhone: string)

  /** The form with every field stripped, as the handler reads it. */
  function Cleaned(f: TransportForm): TransportForm {
    TransportForm(Strip(f.shelter), Strip(f.firstName), Strip(f.lastName), Strip(f.dob),
                  Strip(f.neededAt), Strip(f.pickupLocation), Strip(f.destination),
                  Strip(f.reason), Strip(f.residentNotes), Strip(f.callbackPhone))
  }

  /** Cleaning a cleaned form changes nothing. */
  lemma CleanedIsIdempotent(f: TransportForm)
    ensures Cleaned(Cleaned(f)) == Cleaned(f)
  {
    StripIdempotent(f.shelter);
    StripIdempotent(f.firstName);
    StripIdempotent(f.lastName);
    StripIdempotent(f.dob);
    StripIdempotent(f.neededAt);
    StripIdempotent(f.pickupLocation);
    StripIdempotent(f.destination);
    StripIdempotent(f.reason);
    StripIdempotent(f.residentNotes);
    StripIdempotent(f.callbackPhone);
  }

  predicate MissingRequired(f: TransportForm) {
    f.firstName == "" || f.lastName == "" || f.dob == "" || f.neededAt == ""
    || f.pickupLocation == "" || f.destination == ""
  }

  datatype TransportError = MissingFields | NeededInPast | InvalidNeededAt
  {
    function Message(): string {
      match this
      case MissingFields => "Complete all required fields."
      case NeededInPast => "Needed time cannot be in the past."
      case InvalidNeededAt => "Invalid needed date or time."
    }

    /** The handler raises this error for the cleaned form `f`, given what
        the needed time parses to (None where parse_dt raised) and the
        current time. */
    predicate Raised(f: TransportForm, neededAt: Option<int>, now: int) {
      match this
      case MissingFields => MissingRequired(f)
      case NeededInPast => neededAt.Some? && neededAt.value < now - PastToleranceSeconds
      case InvalidNeededAt => neededAt.None?
    }

    /** The order in which the handler checks, and so flashes, them; the
        last two exclude each other. */
    function Rank(): nat {
      match this
      case MissingFields => 0
      case InvalidNeededAt => 1
      case NeededInPast => 2
    }
  }

  /** The needed time parsed and is at most a minute in the past. */
  predicate NeededOk(neededAt: Option<int>, now: int) {
    neededAt.Some? && neededAt.value >= now - PastToleranceSeconds
  }

  /** Errors listed in the order the handler checks for them, none twice. */
  predicate InCheckOrder(errors: seq<TransportError>) {
    forall i, j :: 0 <= i < j < |errors| ==> errors[i].Rank() < errors[j].Rank()
  }

  /** The checks of the transport handler, accumulated in its order.
      `neededAt` is what parse_dt made of the needed time (None where it
      raised); `now` is the current UTC time. */
  method ValidateTransport(f: TransportForm, neededAt: Option<int>, now: int)
    returns (errors: seq<TransportError>)
    ensures forall e :: e in errors <==> e.Raised(f, neededAt, now)
    ensures InCheckOrder(errors)
    ensures forall i, j :: 0 <= i < j < |errors| ==> errors[i] != errors[j]
    ensures |errors| <= 2 && (MissingFields in errors ==> errors[0] == MissingFields)
    ensures errors == [] <==> !MissingRequired(f) && NeededOk(neededAt, now)
  {
    errors := [];
    if MissingRequired(f) {
      errors := errors + [MissingFields];
    }
    if neededAt.None? {
      errors := errors + [InvalidNeededAt];
    } else if neededAt.value < now - PastToleranceSeconds {
      errors := errors + [NeededInPast];
    }
  }

  /** No two errors flash the same message or share a place in the check
      order. */
  lemma MessagesDiffer()
    ensures forall a: TransportError, b: TransportError :: a.Message() == b.Message() ==> a == b
    ensures forall a: TransportError, b: TransportError :: a.Rank() == b.Rank() ==> a == b
  {
  }

  /** The messages the handler flashes when it refuses a submission: those of
      the raised errors, in check order (Common.FlashedForUnique: there is
      one such list). */
  ghost predicate Flashed(ms: seq<string>, f: TransportForm, neededAt: Option<int>, now: int) {
    FlashedFor(ms, (e: TransportError) => e.Raised(f, neededAt, now), (e: TransportError) => e.Rank(),
               (e: TransportError) => e.Message())
  }

  /** The row an accepted submission inserts. */
  function NewRequest(f: TransportForm, neededAt: int, now: int): (r: TransportRequest)
    ensures r.status == Pending && r.shelter == f.shelter && r.neededAt == neededAt
    ensures r.submittedAt == now && r.scheduledAt.None? && r.scheduledBy.None? && r.driverName.None?
  {
    TransportRequest(f.shelter, f.firstName, f.lastName, f.dob, neededAt, f.pickupLocation,
                     f.destination, NoneIfEmpty(f.reason), NoneIfEmpty(f.residentNotes),
                     NoneIfEmpty(f.callbackPhone), Pending, now,
                     None, None, None, None, None, None, None, None, None)
  }

  /** What every stored row satisfies: it is pending or scheduled, and its
      scheduling fields are set exactly when it is scheduled, with a driver
      named. */
  predicate RowValid(r: TransportRequest) {
    && (r.status == Pending || r.status == Scheduled)
    && (r.status == Scheduled <==> r.scheduledAt.Some?)
    && (r.status == Scheduled <==> r.scheduledBy.Some?)
    && (r.status == Scheduled <==> r.driverName.Some?)
    && (r.driverName.Some? ==> r.driverName.value != "")
    && (r.status == Pending ==> r.staffNotes.None?)
    && r.completedAt.None? && r.completedBy.None?
    && r.cancelledAt.None? && r.cancelledBy.None? && r.cancelReason.None?
  }

  predicate TableValid(t: TransportTable, nextId: int) {
    forall id :: id in t ==> 0 < id < nextId && RowValid(t[id])
  }

  /** UPDATE ... SET status = 'scheduled' ... WHERE id, shelter and
      status = 'pending'. */
  function Schedule(t: TransportTable, id: int, shelter: string, staffId: int, driver: string,
                    notes: string, now: int): TransportTable
  {
    if id in t && t[id].shelter == shelter && t[id].status == Pending then
      t[id := t[id].(status := Scheduled, scheduledAt := Some(now), scheduledBy := Some(staffId),
                     driverName := Some(driver), staffNotes := NoneIfEmpty(notes))]
    else t
  }

  /** Two rows carry the same request: what the resident submitted and when.
      Scheduling does not write these columns. */
  predicate SameRequest(a: TransportRequest, b: TransportRequest) {
    && a.shelter == b.shelter && a.firstName == b.firstName && a.lastName == b.lastName
    && a.dob == b.dob && a.neededAt == b.neededAt && a.pickupLocation == b.pickupLocation
    && a.destination == b.destination && a.reason == b.reason
    && a.residentNotes == b.residentNotes && a.callbackPhone == b.callbackPhone
    && a.submittedAt == b.submittedAt
  }

  /** Scheduling takes effect exactly on a pending row of the shelter, sets
      the driver, the staff notes and the scheduling fields of that row and
      nothing else, keeps every row's request, and a second scheduling changes
      nothing. */
  lemma ScheduleOnlyFromPending(t: TransportTable, id: int, shelter: string, s1: int, d1: string,
                                n1: string, at1: int, s2: int, d2: string, n2: string, at2: int)
    ensures var u := Schedule(t, id, shelter, s1, d1, n1, at1);
            && u.Keys == t.Keys
            && (forall k :: k in t && k != id ==> u[k] == t[k])
            && (forall k :: k in t ==> SameRequest(t[k], u[k]))
            && (u != t <==> id in t && t[id].shelter == shelter && t[id].status == Pending)
            && (u != t ==> u == t[id := t[id].(status := Scheduled, scheduledAt := Some(at1),
                                                scheduledBy := Some(s1), driverName := Some(d1),
                                                staffNotes := NoneIfEmpty(n1))])
            && Schedule(u, id, shelter, s2, d2, n2, at2) == u
  {
    var u := Schedule(t, id, shelter, s1, d1, n1, at1);
    if id in t && t[id].shelter == shelter && t[id].status == Pending {
      assert u[id].status != t[id].status;
    }
  }

  /** Scheduling with a named driver keeps the table invariant. */
  lemma ScheduleKeepsValid(t: TransportTable, nextId: int, id: int, shelter: string, staffId: int,
                           driver: string, notes: string, now: int)
    requires TableValid(t, nextId) && driver != ""
    ensures TableValid(Schedule(t, id, shelter, staffId, driver, notes, now), nextId)
  {
  }

  predicate PendingRow(r: TransportRequest, shelter: string) {
    r.status == Pending && r.shelter == shelter
  }

  /** The pending transport board: the shelter's pending requests, newest
      submission first. */
  function PendingBoard(t: TransportTable, shelter: string): (v: seq<int>)
    ensures forall id :: id in v <==> id in t && PendingRow(t[id], shelter)
    ensures forall a, b :: 0 <= a < b < |v| ==>
              v[a] != v[b] && t[v[a]].submittedAt >= t[v[b]].submittedAt
  {
    Ordering.OrderBy(t, Ordering.Where(t, r => PendingRow(r, shelter)),
                     (r: TransportRequest) => -r.submittedAt)
  }

  /** A request that gets scheduled leaves the pending board. */
  lemma ScheduledLeavesPending(t: TransportTable, id: int, shelter: string, staffId: int,
                               driver: string, notes: string, now: int)
    requires id in t && PendingRow(t[id], shelter)
    ensures id in PendingBoard(t, shelter)
    ensures id !in PendingBoard(Schedule(t, id, shelter, staffId, driver, notes, now), shelter)
  {
  }
}
