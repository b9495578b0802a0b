/** A user's subscription records and the list logic the POST, PUT and
    DELETE handlers of app.js perform on them: the validation of a request,
    the merge of an update into a copy of the stored record, and the three
    array operations the handlers call (`reduce` for the largest id,
    `findIndex` and `filter`). */
module Subscriptions {
  import opened Wrappers
  import opened Text
  import opened DueDates

  /** A stored subscription. The id is None for a record without one;
      every record the handlers create has one. */
  datatype Subscription = Subscription(
    id: Option<int>,
    name: string,
    lastPaidMonth: string,
    recurrenceMonths: int,
    recurrenceDayOfMonth: int,
    nextDueDate: string)

  /** A text field of a JSON request body: absent, a string, or some other
      JSON value (number, boolean, null, array or object) with its truthiness. */
  datatype TextArg = Absent | Text(s: string) | NonText(truthy: bool)

  /** A numeric field after `parseInt`: absent, NaN, or an integer. */
  datatype IntArg = Omitted | NaN | Int(n: int)

  datatype CreateRequest = CreateRequest(
    name: TextArg,
    lastPaidMonth: TextArg,
    recurrenceMonths: IntArg,
    recurrenceDayOfMonth: IntArg)

  /** The body of a PUT: any subset of the four editable fields. */
  datatype UpdateRequest = UpdateRequest(
    name: TextArg,
    recurrenceMonths: IntArg,
    recurrenceDayOfMonth: IntArg,
    lastPaidMonth: TextArg)

  /** Why a request is turned down; each names one error response of the handlers. */
  datatype Rejection =
    | InvalidRequest      // POST: 'Invalid input.'
    | CannotCalculate     // POST: 'Could not calc next due date.'
    | InternalError       // POST: 'Failed add sub.' when name.trim() throws on a non-string
    | NameEmpty           // PUT: 'Name empty.'
    | MonthsNotPositive   // PUT: 'Months > 0.'
    | DayOutOfRange       // PUT: 'Day 1-31.'
    | InvalidMonthYear    // PUT: 'Invalid month/year.'
    | MonthNotYYYYMM      // PUT: 'Month YYYY-MM.'
    | RecalcFailed        // PUT: 'Err recalc due date.'

  /** The record invariant: the stored due date is what the calculator gives
      for the record's own month, interval and day. */
  predicate Consistent(s: Subscription) {
    CalculateNextDueDate(s.lastPaidMonth, s.recurrenceMonths, s.recurrenceDayOfMonth) == Some(s.nextDueDate)
  }

  /** No two records share an id. */
  predicate UniqueIds(subs: seq<Subscription>) {
    forall i, j | 0 <= i < j < |subs| :: subs[i].id.Some? ==> subs[i].id != subs[j].id
  }

  /** What the handlers keep true of a list they alone have written. */
  predicate WellFormed(subs: seq<Subscription>) {
    UniqueIds(subs) && AllConsistent(subs)
  }

  predicate AllConsistent(subs: seq<Subscription>) {
    forall s | s in subs :: Consistent(s)
  }

  predicate HasId(subs: seq<Subscription>, id: int) {
    exists i | 0 <= i < |subs| :: subs[i].id == Some(id)
  }

  // ---------------------------------------------------------------------------
  // reduce((max, sub) => Math.max(max, sub.id || 0), 0)

  /** `sub.id || 0`. */
  function IdOrZero(s: Subscription): int {
    if s.id.Some? then s.id.value else 0
  }

  function Max(a: int, b: int): int {
    if a >= b then a else b
  }

  /** The left fold of the POST handler: the largest id, counting a missing
      id as 0, and 0 for an empty list. */
  function MaxId(subs: seq<Subscription>): (m: int)
    ensures m >= 0
    ensures forall i | 0 <= i < |subs| :: IdOrZero(subs[i]) <= m
    ensures m == 0 || exists i | 0 <= i < |subs| :: IdOrZero(subs[i]) == m
  {
    if subs == [] then 0 else Max(MaxId(subs[..|subs| - 1]), IdOrZero(subs[|subs| - 1]))
  }

  method MaxIdOf(subs: seq<Subscription>) returns (m: int)
    ensures m == MaxId(subs)
  {
    m := 0;
    for i := 0 to |subs|
      invariant m == MaxId(subs[..i])
    {
      assert subs[..i + 1][..i] == subs[..i];
      m := Max(m, IdOrZero(subs[i]));
    }
    assert subs[..|subs|] == subs;
  }

  // ---------------------------------------------------------------------------
  // findIndex(sub => sub.id === id)

  /** The index of the first record with the given id, or -1. */
  function FirstIndexOf(subs: seq<Subscription>, id: int): (k: int)
    ensures -1 <= k < |subs|
    ensures k == -1 <==> !HasId(subs, id)
    ensures k >= 0 ==> subs[k].id == Some(id) && forall j | 0 <= j < k :: subs[j].id != Some(id)
  {
    if subs == [] then -1
    else if subs[0].id == Some(id) then 0
    else
      var k := FirstIndexOf(subs[1..], id);
      assert HasId(subs[1..], id) ==> HasId(subs, id);
      if k == -1 then -1 else k + 1
  }

  method FindIndexById(subs: seq<Subscription>, id: int) returns (k: int)
    ensures k == FirstIndexOf(subs, id)
  {
    k := 0;
    while k < |subs| && subs[k].id != Some(id)
      invariant 0 <= k <= |subs|
      invariant forall j | 0 <= j < k :: subs[j].id != Some(id)
    {
      k := k + 1;
    }
    if k == |subs| {
      k := -1;
    }
    FirstIndexUnique(subs, id, k);
  }

  /** FirstIndexOf is the only index that is -1 exactly when no record
      matches, and otherwise the first match. */
  lemma FirstIndexUnique(subs: seq<Subscription>, id: int, k: int)
    requires -1 <= k < |subs|
    requires k == -1 ==> !HasId(subs, id)
    requires k >= 0 ==> subs[k].id == Some(id) && forall j | 0 <= j < k :: subs[j].id != Some(id)
    ensures k == FirstIndexOf(subs, id)
  {
    var f := FirstIndexOf(subs, id);
    if k >= 0 {
      assert HasId(subs, id);
      assert subs[f].id == Some(id) && subs[k].id == Some(id);
    }
  }

  // ---------------------------------------------------------------------------
  // filter(sub => sub.id !== id)

  /** The records whose id is not the given one, in their original order. */
  function RemoveId(subs: seq<Subscription>, id: int): (r: seq<Subscription>)
    ensures |r| <= |subs|
    ensures forall x | x in r :: x in subs && x.id != Some(id)
  {
    if subs == [] then []
    else
      var rest := RemoveId(subs[..|subs| - 1], id);
      var last := subs[|subs| - 1];
      if last.id == Some(id) then rest else rest + [last]
  }

  method FilterOutId(subs: seq<Subscription>, id: int) returns (kept: seq<Subscription>)
    ensures kept == RemoveId(subs, id)
  {
    kept := [];
    for i := 0 to |subs|
      invariant kept == RemoveId(subs[..i], id)
    {
      assert subs[..i + 1][..i] == subs[..i];
      if subs[i].id != Some(id) {
        kept := kept + [subs[i]];
      }
    }
    assert subs[..|subs|] == subs;
  }

  /** filter distributes over concatenation, so it keeps the order of what it keeps. */
  lemma {:induction false} RemoveIdAppend(a: seq<Subscription>, b: seq<Subscription>, id: int)
    ensures RemoveId(a + b, id) == RemoveId(a, id) + RemoveId(b, id)
    decreases |b|
  {
    if b == [] {
      assert a + b == a;
    } else {
      var b' := b[..|b| - 1];
      assert (a + b)[..|a + b| - 1] == a + b';
      RemoveIdAppend(a, b', id);
    }
  }

  /** A member of a non-empty list is a member of all but its last record, or that last record. */
  lemma MemberInitOrLast(subs: seq<Subscription>, x: Subscription)
    requires subs != []
    ensures x in subs <==> x in subs[..|subs| - 1] || x == subs[|subs| - 1]
  {
    if x in subs {
      var i :| 0 <= i < |subs| && subs[i] == x;
      if i < |subs| - 1 {
        assert subs[..|subs| - 1][i] == x;
      }
    }
  }

  lemma HasIdInitOrLast(subs: seq<Subscription>, id: int)
    requires subs != []
    ensures HasId(subs, id) <==> HasId(subs[..|subs| - 1], id) || subs[|subs| - 1].id == Some(id)
  {
    var init := subs[..|subs| - 1];
    if HasId(subs, id) {
      var i :| 0 <= i < |subs| && subs[i].id == Some(id);
      if i < |subs| - 1 {
        assert init[i].id == Some(id);
      }
    }
    if HasId(init, id) {
      var i :| 0 <= i < |init| && init[i].id == Some(id);
      assert subs[i].id == Some(id);
    }
  }

  /** Every record without the id is kept; no record with it is. */
  lemma {:induction false} RemoveIdMembers(subs: seq<Subscription>, id: int, x: Subscription)
    ensures x in RemoveId(subs, id) <==> x in subs && x.id != Some(id)
    decreases |subs|
  {
    if subs != [] {
      RemoveIdMembers(subs[..|subs| - 1], id, x);
      MemberInitOrLast(subs, x);
    }
  }

  /** When no record has the id, filtering leaves the list as it was. */
  lemma {:induction false} RemoveIdNoMatch(subs: seq<Subscription>, id: int)
    requires !HasId(subs, id)
    ensures RemoveId(subs, id) == subs
    decreases |subs|
  {
    if subs != [] {
      var init := subs[..|subs| - 1];
      HasIdInitOrLast(subs, id);
      RemoveIdNoMatch(init, id);
      assert init + [subs[|subs| - 1]] == subs;
    }
  }

  /** Nothing is removed exactly when no record has the id; then the list is the same. */
  lemma {:induction false} RemoveIdSameLength(subs: seq<Subscription>, id: int)
    ensures |RemoveId(subs, id)| == |subs| <==> !HasId(subs, id)
    ensures !HasId(subs, id) ==> RemoveId(subs, id) == subs
    decreases |subs|
  {
    if subs != [] {
      RemoveIdSameLength(subs[..|subs| - 1], id);
      HasIdInitOrLast(subs, id);
    }
    if !HasId(subs, id) {
      RemoveIdNoMatch(subs, id);
    }
  }

  /** With unique ids, deleting by id removes at most one record. */
  lemma {:induction false} RemoveIdAtMostOne(subs: seq<Subscription>, id: int)
    requires UniqueIds(subs)
    ensures |RemoveId(subs, id)| >= |subs| - 1
    decreases |subs|
  {
    if subs != [] {
      var init := subs[..|subs| - 1];
      var last := subs[|subs| - 1];
      assert UniqueIds(init);
      RemoveIdAtMostOne(init, id);
      if last.id == Some(id) {
        forall i | 0 <= i < |init| ensures init[i].id != Some(id) {
          assert subs[i].id != subs[|subs| - 1].id;
        }
        RemoveIdSameLength(init, id);
      }
    }
  }

  /** Dropping the last record keeps the ids unique. */
  lemma UniquePrefix(subs: seq<Subscription>)
    requires UniqueIds(subs) && subs != []
    ensures UniqueIds(subs[..|subs| - 1])
  {
    var init := subs[..|subs| - 1];
    forall i, j | 0 <= i < j < |init| && init[i].id.Some? ensures init[i].id != init[j].id {
      assert init[i] == subs[i] && init[j] == subs[j];
    }
  }

  /** Appending a record whose id no record has keeps the ids unique. */
  lemma UniqueAppend(subs: seq<Subscription>, s: Subscription)
    requires UniqueIds(subs)
    requires forall x | x in subs && x.id.Some? :: x.id != s.id
    ensures UniqueIds(subs + [s])
  {
    var all := subs + [s];
    forall i, j | 0 <= i < j < |all| && all[i].id.Some? ensures all[i].id != all[j].id {
      assert all[i] == subs[i] && subs[i] in subs;
      if j < |subs| {
        assert all[j] == subs[j];
      }
    }
  }

  /** Filtering by id keeps the ids unique. */
  lemma {:induction false} RemoveIdKeepsUnique(subs: seq<Subscription>, id: int)
    requires UniqueIds(subs)
    ensures UniqueIds(RemoveId(subs, id))
    decreases |subs|
  {
    if subs != [] {
      var init := subs[..|subs| - 1];
      var last := subs[|subs| - 1];
      UniquePrefix(subs);
      RemoveIdKeepsUnique(init, id);
      var rest := RemoveId(init, id);
      if last.id != Some(id) {
        forall x | x in rest && x.id.Some? ensures x.id != last.id {
          var j :| 0 <= j < |init| && init[j] == x;
          assert subs[j] == x;
        }
        UniqueAppend(rest, last);
      }
    }
  }

  /** Deleting keeps the ids unique and every kept record consistent. */
  lemma RemoveIdKeepsWellFormed(subs: seq<Subscription>, id: int)
    requires WellFormed(subs)
    ensures WellFormed(RemoveId(subs, id))
  {
    RemoveIdKeepsUnique(subs, id);
  }

  // ---------------------------------------------------------------------------
  // POST /api/subscriptions

  /** JavaScript truthiness of a body field. */
  predicate Truthy(a: TextArg) {
    match a
    case Absent => false
    case Text(s) => s != ""
    case NonText(t) => t
  }

  /** The checks of the POST handler before it calls the calculator: a truthy
      name, a month string of the right shape (the month itself is not
      range-checked), a positive month count and a day from 1 to 31. */
  predicate CreateFieldsValid(req: CreateRequest) {
    Truthy(req.name)
    && req.lastPaidMonth.Text? && IsMonthShape(req.lastPaidMonth.s)
    && req.recurrenceMonths.Int? && req.recurrenceMonths.n > 0
    && req.recurrenceDayOfMonth.Int? && 1 <= req.recurrenceDayOfMonth.n <= 31
  }

  /** The record the POST handler appends to `subs`, or why it appends none. */
  function NewSubscription(subs: seq<Subscription>, req: CreateRequest): (r: Result<Subscription, Rejection>)
    ensures !CreateFieldsValid(req) ==> r == Failure(InvalidRequest)
    ensures r.Success? ==> CreateFieldsValid(req) && req.name.Text?
    ensures r.Success? ==>
      && r.value.id == Some(MaxId(subs) + 1)
      && r.value.name == Trim(req.name.s)
      && r.value.lastPaidMonth == req.lastPaidMonth.s
      && r.value.recurrenceMonths == req.recurrenceMonths.n
      && r.value.recurrenceDayOfMonth == req.recurrenceDayOfMonth.n
      && CalculateNextDueDate(req.lastPaidMonth.s, req.recurrenceMonths.n, req.recurrenceDayOfMonth.n)
         == Some(r.value.nextDueDate)
    ensures r.Success? ==> forall i | 0 <= i < |subs| :: IdOrZero(subs[i]) < r.value.id.value
    ensures CreateFieldsValid(req) ==>
      (r == Failure(CannotCalculate) <==>
        CalculateNextDueDate(req.lastPaidMonth.s, req.recurrenceMonths.n, req.recurrenceDayOfMonth.n).None?)
    ensures (CreateFieldsValid(req)
             && CalculateNextDueDate(req.lastPaidMonth.s, req.recurrenceMonths.n, req.recurrenceDayOfMonth.n).Some?) ==>
      (if req.name.Text? then r.Success? else r == Failure(InternalError))
  {
    if !CreateFieldsValid(req) then Failure(InvalidRequest)
    else
      var month, months, day := req.lastPaidMonth.s, req.recurrenceMonths.n, req.recurrenceDayOfMonth.n;
      var due := CalculateNextDueDate(month, months, day);
      if due.None? then Failure(CannotCalculate)
      else if !req.name.Text? then Failure(InternalError)
      else
        Success(Subscription(Some(MaxId(subs) + 1), Trim(req.name.s), month, months, day, due.value))
  }

  /** The record a valid request with a string name creates, field by field. */
  lemma CreatedRecord(subs: seq<Subscription>, req: CreateRequest, due: string)
    requires CreateFieldsValid(req) && req.name.Text?
    requires CalculateNextDueDate(req.lastPaidMonth.s, req.recurrenceMonths.n, req.recurrenceDayOfMonth.n) == Some(due)
    ensures NewSubscription(subs, req) == Success(Subscription(Some(MaxId(subs) + 1), Trim(req.name.s),
      req.lastPaidMonth.s, req.recurrenceMonths.n, req.recurrenceDayOfMonth.n, due))
  {
    var r := NewSubscription(subs, req);
    assert r.Success?;
    assert r.value.nextDueDate == due;
  }

  /** Appending a created record keeps the list well formed: its id is above
      every id in the list and its due date is the calculator's. */
  lemma CreateKeepsWellFormed(subs: seq<Subscription>, req: CreateRequest)
    requires WellFormed(subs) && NewSubscription(subs, req).Success?
    ensures WellFormed(subs + [NewSubscription(subs, req).value])
  {
    var s := NewSubscription(subs, req).value;
    forall x | x in subs && x.id.Some? ensures x.id != s.id {
      var i :| 0 <= i < |subs| && subs[i] == x;
      assert IdOrZero(subs[i]) < s.id.value;
    }
    assert Consistent(s);
    UniqueAppend(subs, s);
  }

  /** A name of white space only passes the POST check (it is a non-empty
      string) and is stored as the empty string. */
  lemma BlankNameStoredEmpty(subs: seq<Subscription>, req: CreateRequest)
    requires req.name.Text? && req.name.s != [] && AllWhiteSpace(req.name.s)
    requires NewSubscription(subs, req.(name := Text("x"))).Success?
    ensures NewSubscription(subs, req).Success?
    ensures NewSubscription(subs, req).value.name == ""
  {
    TrimEmptyIff(req.name.s);
  }

  /** Ids are not stable: creating a record, deleting it and sending the same
      request again yields the same record, id included, because the next id
      is one more than the largest id still in the list. */
  lemma DeletedLargestIdReused(subs: seq<Subscription>, req: CreateRequest)
    requires NewSubscription(subs, req).Success?
    ensures var s := NewSubscription(subs, req).value;
      && RemoveId(subs + [s], s.id.value) == subs
      && NewSubscription(subs, req) == NewSubscription(RemoveId(subs + [s], s.id.value), req)
  {
    var s := NewSubscription(subs, req).value;
    var id := s.id.value;
    forall i | 0 <= i < |subs| ensures subs[i].id != Some(id) {
      assert IdOrZero(subs[i]) < id;
    }
    RemoveIdSameLength(subs, id);
    RemoveIdAppend(subs, [s], id);
    assert RemoveId([s], id) == RemoveId([], id);
  }

  // ---------------------------------------------------------------------------
  // PUT /api/subscriptions/:id

  predicate NameOk(req: UpdateRequest) {
    match req.name
    case Absent => true
    case Text(s) => Trim(s) != ""
    case NonText(_) => false
  }

  predicate MonthsOk(req: UpdateRequest) {
    match req.recurrenceMonths
    case Omitted => true
    case NaN => false
    case Int(n) => n > 0
  }

  predicate DayOk(req: UpdateRequest) {
    match req.recurrenceDayOfMonth
    case Omitted => true
    case NaN => false
    case Int(n) => 1 <= n <= 31
  }

  /** A supplied month is a string of the shape YYYY-MM. */
  predicate MonthShapeOk(req: UpdateRequest) {
    match req.lastPaidMonth
    case Absent => true
    case Text(s) => IsMonthShape(s)
    case NonText(_) => false
  }

  /** A supplied month of the right shape has a year after 1900 and a month from 1 to 12. */
  predicate MonthRangeOk(req: UpdateRequest)
    requires MonthShapeOk(req)
  {
    req.lastPaidMonth.Absent?
    || (ShapeYear(req.lastPaidMonth.s) > 1900 && 1 <= ShapeMonth(req.lastPaidMonth.s) <= 12)
  }

  predicate FieldsOk(req: UpdateRequest) {
    NameOk(req) && MonthsOk(req) && DayOk(req) && MonthShapeOk(req) && MonthRangeOk(req)
  }

  /** The update supplies a field the due date is computed from. */
  predicate Drives(req: UpdateRequest) {
    !req.recurrenceMonths.Omitted? || !req.recurrenceDayOfMonth.Omitted? || !req.lastPaidMonth.Absent?
  }

  /** The first failing field check, in the handler's order: name, months, day, month. */
  function FieldError(req: UpdateRequest): (e: Option<Rejection>)
    ensures e.None? <==> FieldsOk(req)
    ensures e == Some(NameEmpty) <==> !NameOk(req)
    ensures e == Some(MonthsNotPositive) <==> NameOk(req) && !MonthsOk(req)
    ensures e == Some(DayOutOfRange) <==> NameOk(req) && MonthsOk(req) && !DayOk(req)
    ensures e == Some(MonthNotYYYYMM) <==> NameOk(req) && MonthsOk(req) && DayOk(req) && !MonthShapeOk(req)
    ensures e == Some(InvalidMonthYear) <==>
      NameOk(req) && MonthsOk(req) && DayOk(req) && MonthShapeOk(req) && !MonthRangeOk(req)
  {
    if !NameOk(req) then Some(NameEmpty)
    else if !MonthsOk(req) then Some(MonthsNotPositive)
    else if !DayOk(req) then Some(DayOutOfRange)
    else if !MonthShapeOk(req) then Some(MonthNotYYYYMM)
    else if !MonthRangeOk(req) then Some(InvalidMonthYear)
    else None
  }

  /** The copy `{ ...original }` with every supplied field laid over it:
      a supplied field takes the supplied (trimmed) value, every other field,
      the id and the due date keep the stored one. */
  function Overlay(original: Subscription, req: UpdateRequest): (u: Subscription)
    requires FieldsOk(req)
    ensures u.id == original.id && u.nextDueDate == original.nextDueDate
    ensures u.name == (if req.name.Absent? then original.name else Trim(req.name.s))
    ensures u.recurrenceMonths == (if req.recurrenceMonths.Omitted? then original.recurrenceMonths else req.recurrenceMonths.n)
    ensures u.recurrenceDayOfMonth == (if req.recurrenceDayOfMonth.Omitted? then original.recurrenceDayOfMonth else req.recurrenceDayOfMonth.n)
    ensures u.lastPaidMonth == (if req.lastPaidMonth.Absent? then original.lastPaidMonth else req.lastPaidMonth.s)
  {
    original.(
      name := if req.name.Text? then Trim(req.name.s) else original.name,
      recurrenceMonths := if req.recurrenceMonths.Int? then req.recurrenceMonths.n else original.recurrenceMonths,
      recurrenceDayOfMonth := if req.recurrenceDayOfMonth.Int? then req.recurrenceDayOfMonth.n else original.recurrenceDayOfMonth,
      lastPaidMonth := if req.lastPaidMonth.Text? then req.lastPaidMonth.s else original.lastPaidMonth)
  }

  /** Whether the due date computed from the merged fields is null. */
  predicate RecalcIsNull(original: Subscription, req: UpdateRequest)
    requires FieldsOk(req)
  {
    var m := Overlay(original, req);
    CalculateNextDueDate(m.lastPaidMonth, m.recurrenceMonths, m.recurrenceDayOfMonth).None?
  }

  /** The record the PUT handler stores in place of `original`, or why it
      stores nothing. It fails exactly when a supplied field fails its check
      (the first failure decides the error) or when a driving field was
      supplied and the due date of the merged fields is null. A stored record
      keeps its id, takes every supplied field and keeps every other one; its
      due date is the stored one when no driving field was supplied, and the
      calculator's value for its own fields otherwise. */
  function ApplyUpdate(original: Subscription, req: UpdateRequest): (r: Result<Subscription, Rejection>)
    ensures r.Failure? <==> !FieldsOk(req) || (Drives(req) && RecalcIsNull(original, req))
    ensures FieldError(req).Some? ==> r == Failure(FieldError(req).value)
    ensures r == Failure(RecalcFailed) <==> FieldsOk(req) && Drives(req) && RecalcIsNull(original, req)
    ensures r.Success? ==>
      var u := r.value;
      && u.id == original.id
      && u.name == (if req.name.Absent? then original.name else Trim(req.name.s))
      && u.recurrenceMonths == (if req.recurrenceMonths.Omitted? then original.recurrenceMonths else req.recurrenceMonths.n)
      && u.recurrenceDayOfMonth == (if req.recurrenceDayOfMonth.Omitted? then original.recurrenceDayOfMonth else req.recurrenceDayOfMonth.n)
      && u.lastPaidMonth == (if req.lastPaidMonth.Absent? then original.lastPaidMonth else req.lastPaidMonth.s)
      && (!Drives(req) ==> u.nextDueDate == original.nextDueDate)
      && (Drives(req) ==> Consistent(u))
  {
    match FieldError(req)
    case Some(e) => Failure(e)
    case None =>
      var m := Overlay(original, req);
      if !Drives(req) then Success(m)
      else
        match CalculateNextDueDate(m.lastPaidMonth, m.recurrenceMonths, m.recurrenceDayOfMonth)
        case None => Failure(RecalcFailed)
        case Some(due) => Success(m.(nextDueDate := due))
  }

  /** A successful update leaves a consistent record consistent; an update
      that supplies a driving field makes any record consistent. */
  lemma UpdateKeepsConsistent(original: Subscription, req: UpdateRequest)
    requires ApplyUpdate(original, req).Success?
    requires Consistent(original) || Drives(req)
    ensures Consistent(ApplyUpdate(original, req).value)
  {
  }

  /** Replacing a record by one with the same id keeps the ids unique. */
  lemma UniqueReplace(subs: seq<Subscription>, k: int, u: Subscription)
    requires UniqueIds(subs) && 0 <= k < |subs| && u.id == subs[k].id
    ensures UniqueIds(subs[k := u])
  {
    var all := subs[k := u];
    forall i, j | 0 <= i < j < |all| && all[i].id.Some? ensures all[i].id != all[j].id {
      assert all[i].id == subs[i].id && all[j].id == subs[j].id;
    }
  }

  /** Replacing the record at k by its successful update keeps the list well formed. */
  lemma UpdateKeepsWellFormed(subs: seq<Subscription>, k: int, req: UpdateRequest)
    requires WellFormed(subs) && 0 <= k < |subs| && ApplyUpdate(subs[k], req).Success?
    ensures WellFormed(subs[k := ApplyUpdate(subs[k], req).value])
  {
    var u := ApplyUpdate(subs[k], req).value;
    UniqueReplace(subs, k, u);
    assert Consistent(u) by {
      assert subs[k] in subs;
      UpdateKeepsConsistent(subs[k], req);
    }
    forall x | x in subs[k := u] ensures Consistent(x) {
      var j :| 0 <= j < |subs| && subs[k := u][j] == x;
      if j != k {
        assert subs[j] in subs;
      }
    }
  }

  /** Only the PUT handler range-checks the month: a month string of the
      right shape whose month is past 12 passes the POST checks but is
      refused by an update. */
  lemma MonthRangeCheckedOnlyOnUpdate(s: string, original: Subscription)
    requires IsMonthShape(s) && ShapeMonth(s) > 12
    ensures CreateFieldsValid(CreateRequest(Text("x"), Text(s), Int(1), Int(1)))
    ensures ApplyUpdate(original, UpdateRequest(Absent, Omitted, Omitted, Text(s))) == Failure(InvalidMonthYear)
  {
  }
}
