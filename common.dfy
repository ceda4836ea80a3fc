/** Values shared by every part of the kiosk: optional values, the form-field
    clean-up every handler applies, the fixed list of shelters, the replies a
    handler gives, and the audit trail record. */
module Common {

  datatype Option<T> = None | Some(value: T)

  /** The shelters a session or a form may name (app.py's SHELTERS). */
  const Shelters: seq<string> := ["Abba", "Haven", "Gratitude"]

  predicate IsShelter(s: string) {
    s in Shelters
  }

  /** The characters for which Python's str.isspace() holds. */
  predicate IsSpace(c: char) {
    || c == '\t' || c == '\n' || c == '\U{0B}' || c == '\U{0C}' || c == '\r'
    || ('\U{1C}' <= c <= '\U{1F}') || c == ' ' || c == '\U{85}' || c == '\U{A0}'
    || c == '\U{1680}' || ('\U{2000}' <= c <= '\U{200A}') || c == '\U{2028}'
    || c == '\U{2029}' || c == '\U{202F}' || c == '\U{205F}' || c == '\U{3000}'
  }

  predicate AllSpace(s: string) {
    forall i :: 0 <= i < |s| ==> IsSpace(s[i])
  }

  /** Drops leading white space: what remains is a suffix of `s` that does
      not start with white space (TrimLeftDropsSpace: only white space was
      dropped). */
  function TrimLeft(s: string): (r: string)
    ensures |r| <= |s| && r == s[|s| - |r|..]
    ensures r == [] || !IsSpace(r[0])
  {
    if |s| > 0 && IsSpace(s[0]) then TrimLeft(s[1..]) else s
  }

  lemma {:induction false} TrimLeftDropsSpace(s: string)
    ensures AllSpace(s[..|s| - |TrimLeft(s)|])
  {
    if |s| > 0 && IsSpace(s[0]) {
      TrimLeftDropsSpace(s[1..]);
      assert s[..|s| - |TrimLeft(s)|] == [s[0]] + s[1..][..|s| - 1 - |TrimLeft(s[1..])|];
    }
  }

  /** Drops trailing white space: what remains is a prefix of `s` that does
      not end with white space (TrimRightDropsSpace: only white space was
      dropped). */
  function TrimRight(s: string): (r: string)
    ensures |r| <= |s| && r == s[..|r|]
    ensures r == [] || !IsSpace(r[|r| - 1])
  {
    if |s| > 0 && IsSpace(s[|s| - 1]) then TrimRight(s[..|s| - 1]) else s
  }

  lemma {:induction false} TrimRightDropsSpace(s: string)
    ensures AllSpace(s[|TrimRight(s)|..])
  {
    if |s| > 0 && IsSpace(s[|s| - 1]) {
      var t := s[..|s| - 1];
      TrimRightDropsSpace(t);
      assert s[|TrimRight(s)|..] == t[|TrimRight(t)|..] + [s[|s| - 1]];
    }
  }

  /** Python's str.strip(): white space is cut from both ends (StripIsSlice
      says which slice of `s` remains, StripEmpty when nothing does). */
  function Strip(s: string): (r: string)
    ensures |r| <= |s|
    ensures r == [] || (!IsSpace(r[0]) && !IsSpace(r[|r| - 1]))
  {
    TrimRight(TrimLeft(s))
  }

  /** Where the stripped value starts within `s`. */
  function StripStart(s: string): nat
    ensures StripStart(s) <= |s|
  {
    |s| - |TrimLeft(s)|
  }

  /** The stripped value is the slice of `s` from StripStart, with only white
      space before and after it. */
  lemma StripIsSlice(s: string)
    ensures StripStart(s) + |Strip(s)| <= |s|
    ensures Strip(s) == s[StripStart(s)..StripStart(s) + |Strip(s)|]
    ensures AllSpace(s[..StripStart(s)])
    ensures AllSpace(s[StripStart(s) + |Strip(s)|..])
  {
    var left := TrimLeft(s);
    var i := StripStart(s);
    var r := TrimRight(left);
    TrimLeftDropsSpace(s);
    TrimRightDropsSpace(left);
    assert r == Strip(s);
    assert left == s[i..];
    assert r == left[..|r|];
    assert s[i + |r|..] == left[|r|..];
  }

  /** Stripping leaves nothing exactly when `s` is all white space. */
  lemma StripEmpty(s: string)
    ensures Strip(s) == [] <==> AllSpace(s)
  {
    StripIsSlice(s);
    var i := StripStart(s);
    if Strip(s) == [] {
      assert TrimLeft(s) == [];
      assert s[..i] == s;
    } else {
      assert s[i] == Strip(s)[0];
    }
  }

  /** Stripping twice gives what stripping once gives. */
  lemma StripIdempotent(s: string)
    ensures Strip(Strip(s)) == Strip(s)
  {
    var r := Strip(s);
    NoEdgeSpaceIsFixed(r);
  }

  /** A string that neither starts nor ends with white space is left alone. */
  lemma NoEdgeSpaceIsFixed(s: string)
    requires s == [] || (!IsSpace(s[0]) && !IsSpace(s[|s| - 1]))
    ensures Strip(s) == s
  {
  }

  /** `value or None`: the source stores an empty optional field as NULL. */
  function NoneIfEmpty(s: string): (r: Option<string>)
    ensures r.None? <==> s == []
    ensures r.Some? ==> r.value == s
  {
    if s == [] then None else Some(s)
  }

  /** `value or ""`: the reverse, when a nullable value is shown. */
  function EmptyIfNone(o: Option<string>): (r: string)
    ensures o.Some? ==> r == o.value
    ensures o.None? ==> r == []
  {
    match o
    case None => []
    case Some(s) => s
  }

  /** The shelter pre-filled on the resident forms: the stripped query value
      when it names a shelter, otherwise blank. */
  function ShelterOrBlank(raw: string): (r: string)
    ensures r == [] || IsShelter(r)
    ensures IsShelter(Strip(raw)) ==> r == Strip(raw)
    ensures !IsShelter(Strip(raw)) ==> r == []
  {
    var s := Strip(raw);
    if IsShelter(s) then s else []
  }

  /** Choosing the session's shelter: only a listed shelter is accepted. */
  function SelectShelter(raw: string): (r: Option<string>)
    ensures r.Some? <==> IsShelter(Strip(raw))
    ensures r.Some? ==> r.value == Strip(raw)
  {
    var s := Strip(raw);
    if IsShelter(s) then Some(s) else None
  }

  /** The messages flashed for a list of errors, one per error, in its
      order. */
  function Flash<E>(errors: seq<E>, message: E -> string): (ms: seq<string>)
    ensures |ms| == |errors|
    ensures forall i :: 0 <= i < |errors| ==> ms[i] == message(errors[i])
  {
    if errors == [] then [] else [message(errors[0])] + Flash(errors[1..], message)
  }

  /** When no two errors share a message, the flashed messages name exactly
      the errors raised. */
  lemma {:induction false} FlashNamesErrors<E>(errors: seq<E>, message: E -> string, e: E)
    requires forall a, b :: message(a) == message(b) ==> a == b
    ensures message(e) in Flash(errors, message) <==> e in errors
  {
    if errors != [] {
      FlashNamesErrors(errors[1..], message, e);
      assert errors == [errors[0]] + errors[1..];
    }
  }

  /** `s` lists its elements by strictly increasing `rank`, so none twice. */
  predicate RankedBy<E>(s: seq<E>, rank: E -> int) {
    forall i, j :: 0 <= i < j < |s| ==> rank(s[i]) < rank(s[j])
  }

  /** Of a ranked list, the tail holds exactly the elements other than the
      head. */
  lemma RankedTail<E>(a: seq<E>, rank: E -> int, e: E)
    requires RankedBy(a, rank) && a != []
    ensures e in a[1..] <==> e in a && e != a[0]
  {
    if e in a[1..] {
      var k :| 0 <= k < |a| - 1 && a[1..][k] == e;
      assert rank(a[0]) < rank(a[k + 1]);
    }
    if e in a && e != a[0] {
      var k :| 0 <= k < |a| && a[k] == e;
      assert a[1..][k - 1] == e;
    }
  }

  /** A ranked list starts with its least-ranked element. */
  lemma RankedHeadLeast<E>(a: seq<E>, rank: E -> int, i: int)
    requires RankedBy(a, rank) && 0 <= i < |a|
    ensures rank(a[0]) <= rank(a[i])
  {
    if i > 0 {
      assert rank(a[0]) < rank(a[i]);
    }
  }

  /** Two ranked lists with the same elements start alike. */
  lemma RankedHead<E>(a: seq<E>, b: seq<E>, rank: E -> int)
    requires forall x, y :: rank(x) == rank(y) ==> x == y
    requires RankedBy(a, rank) && RankedBy(b, rank)
    requires forall e :: e in a <==> e in b
    requires a != []
    ensures b != [] && a[0] == b[0]
  {
    assert a[0] in b;
    var i :| 0 <= i < |b| && b[i] == a[0];
    assert b[0] in a;
    var j :| 0 <= j < |a| && a[j] == b[0];
    RankedHeadLeast(b, rank, i);
    RankedHeadLeast(a, rank, j);
  }

  /** Two lists ranked by the same one-to-one rank that hold the same
      elements are the same list: a handler that checks in a fixed order
      flashes one determined list. */
  lemma {:induction false} RankedUnique<E>(a: seq<E>, b: seq<E>, rank: E -> int)
    requires forall x, y :: rank(x) == rank(y) ==> x == y
    requires RankedBy(a, rank) && RankedBy(b, rank)
    requires forall e :: e in a <==> e in b
    ensures a == b
    decreases |a|
  {
    assert b != [] ==> b[0] in a;
    if a != [] {
      RankedHead(a, b, rank);
      forall e ensures e in a[1..] <==> e in b[1..] {
        RankedTail(a, rank, e);
        RankedTail(b, rank, e);
      }
      assert RankedBy(a[1..], rank) && RankedBy(b[1..], rank);
      RankedUnique(a[1..], b[1..], rank);
      assert a == [a[0]] + a[1..];
      assert b == [b[0]] + b[1..];
    }
  }

  /** `ms` is what a handler flashes when it checks for the errors in `rank`
      order and raises those for which `raised` holds: one message per raised
      error, in check order. */
  ghost predicate FlashedFor<E(!new)>(ms: seq<string>, raised: E -> bool, rank: E -> int, message: E -> string) {
    exists errors: seq<E> ::
      && RankedBy(errors, rank)
      && (forall e :: e in errors <==> raised(e))
      && ms == Flash(errors, message)
  }

  /** With a one-to-one rank there is only one such list of messages. */
  lemma FlashedForUnique<E(!new)>(ms1: seq<string>, ms2: seq<string>, raised: E -> bool, rank: E -> int,
                            message: E -> string)
    requires forall x, y :: rank(x) == rank(y) ==> x == y
    requires FlashedFor(ms1, raised, rank, message) && FlashedFor(ms2, raised, rank, message)
    ensures ms1 == ms2
  {
    var errors1 :| RankedBy(errors1, rank) && (forall e :: e in errors1 <==> raised(e))
                   && ms1 == Flash(errors1, message);
    var errors2 :| RankedBy(errors2, rank) && (forall e :: e in errors2 <==> raised(e))
                   && ms2 == Flash(errors2, message);
    RankedUnique(errors1, errors2, rank);
  }

  /** With distinct messages, a message is among those flashed exactly when
      its error was raised. */
  lemma FlashedForNames<E(!new)>(ms: seq<string>, raised: E -> bool, rank: E -> int, message: E -> string,
                           e: E)
    requires forall x, y :: message(x) == message(y) ==> x == y
    requires FlashedFor(ms, raised, rank, message)
    ensures message(e) in ms <==> raised(e)
  {
    var errors :| RankedBy(errors, rank) && (forall e :: e in errors <==> raised(e))
                  && ms == Flash(errors, message);
    FlashNamesErrors(errors, message, e);
  }

  /** The outcome of a staff action: the flash message it shows. */
  datatype Reply = Ok(message: string) | Err(message: string)

  /** The outcome of a resident submission: the new row's id, or the
      messages that were flashed instead. */
  datatype Submission = Created(id: int) | Rejected(messages: seq<string>)

  /** One row of the append-only audit_log table. */
  datatype AuditEntry = AuditEntry(
    entityType: string,
    entityId: Option<int>,
    shelter: Option<string>,
    staffUserId: Option<int>,
    actionType: string,
    details: string,
    createdAt: int)
}
