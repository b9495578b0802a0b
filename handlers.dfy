/** The per-user subscription list and the POST, PUT and DELETE handlers of
    app.js as methods on it. The handlers change the list in place
    (`push`, an index assignment, and a reassignment with the filtered
    array); the response each one sends is the method's outcome. */
module Handlers {
  import opened Wrappers
  import opened Text
  import opened DueDates
  import opened Subscriptions

  /** The response of a handler: 201 with the new record, 200 with the
      updated one, 204, or one of the error statuses. */
  datatype Outcome =
    | Created(sub: Subscription)
    | Updated(sub: Subscription)
    | Deleted
    | InvalidId                 // 400 'Invalid ID.'
    | NotFound(id: int)         // 404 'Sub ID … not found.'
    | Rejected(reason: Rejection)

  /** The field-by-field merge of the PUT handler: each supplied field is
      checked in turn (name, months, day, month) and laid over a copy of the
      stored record; the first field that fails decides the answer. When a
      field the due date depends on was supplied, the due date is computed
      again, and a failure there leaves nothing to store. */
  method MergeUpdate(original: Subscription, req: UpdateRequest) returns (res: Result<Subscription, Rejection>)
    ensures res == ApplyUpdate(original, req)
  {
    var updated := original;
    var recalc := false;
    match req.name {
      case Absent =>
      case Text(n) =>
        if Trim(n) == "" { return Failure(NameEmpty); }
        updated := updated.(name := Trim(n));
      case NonText(_) => return Failure(NameEmpty);
    }
    match req.recurrenceMonths {
      case Omitted =>
      case NaN => return Failure(MonthsNotPositive);
      case Int(nm) =>
        if nm <= 0 { return Failure(MonthsNotPositive); }
        updated := updated.(recurrenceMonths := nm);
        recalc := true;
    }
    match req.recurrenceDayOfMonth {
      case Omitted =>
      case NaN => return Failure(DayOutOfRange);
      case Int(nd) =>
        if nd <= 0 || nd > 31 { return Failure(DayOutOfRange); }
        updated := updated.(recurrenceDayOfMonth := nd);
        recalc := true;
    }
    match req.lastPaidMonth {
      case Absent =>
      case NonText(_) => return Failure(MonthNotYYYYMM);
      case Text(m) =>
        if !IsMonthShape(m) { return Failure(MonthNotYYYYMM); }
        var y, mo := ShapeYear(m), ShapeMonth(m);
        if !(y > 1900 && mo >= 1 && mo <= 12) { return Failure(InvalidMonthYear); }
        updated := updated.(lastPaidMonth := m);
        recalc := true;
    }
    assert FieldsOk(req) && updated == Overlay(original, req) && recalc == Drives(req);
    if recalc {
      var newNext := CalculateNextDueDate(updated.lastPaidMonth, updated.recurrenceMonths, updated.recurrenceDayOfMonth);
      if newNext.None? {
        return Failure(RecalcFailed);
      }
      updated := updated.(nextDueDate := newNext.value);
    }
    return Success(updated);
  }

  /** One user's entry in the database: the list of subscriptions. */
  class UserData {
    var subscriptions: seq<Subscription>

    constructor (subs: seq<Subscription>)
      ensures subscriptions == subs
    {
      subscriptions := subs;
    }

    /** POST /api/subscriptions: validate, compute the due date, then append
        a record whose id is one more than the largest id in the list. */
    method Create(req: CreateRequest) returns (out: Outcome)
      modifies this
      ensures match NewSubscription(old(subscriptions), req)
        case Success(s) => out == Created(s) && subscriptions == old(subscriptions) + [s]
        case Failure(e) => out == Rejected(e) && subscriptions == old(subscriptions)
      ensures WellFormed(old(subscriptions)) ==> WellFormed(subscriptions)
    {
      if !CreateFieldsValid(req) {
        return Rejected(InvalidRequest);
      }
      var month, months, day := req.lastPaidMonth.s, req.recurrenceMonths.n, req.recurrenceDayOfMonth.n;
      var nextDueDate := CalculateNextDueDate(month, months, day);
      if nextDueDate.None? {
        return Rejected(CannotCalculate);
      }
      var maxId := MaxIdOf(subscriptions);
      var nextId := maxId + 1;
      if !req.name.Text? {
        // name.trim() throws on a value that is not a string
        return Rejected(InternalError);
      }
      var s := Subscription(Some(nextId), Trim(req.name.s), month, months, day, nextDueDate.value);
      CreatedRecord(subscriptions, req, nextDueDate.value);
      subscriptions := subscriptions + [s];
      out := Created(s);
      if WellFormed(old(subscriptions)) {
        CreateKeepsWellFormed(old(subscriptions), req);
      }
    }

    /** PUT /api/subscriptions/:id: find the first record with the id, lay
        the supplied fields over a copy field by field, recompute the due
        date when a driving field was supplied, and store the copy in place. */
    method Update(idParam: Option<int>, req: UpdateRequest) returns (out: Outcome)
      modifies this
      ensures idParam.None? ==> out == InvalidId && subscriptions == old(subscriptions)
      ensures idParam.Some? && !HasId(old(subscriptions), idParam.value) ==>
        out == NotFound(idParam.value) && subscriptions == old(subscriptions)
      ensures idParam.Some? && HasId(old(subscriptions), idParam.value) ==>
        var k := FirstIndexOf(old(subscriptions), idParam.value);
        match ApplyUpdate(old(subscriptions)[k], req)
        case Success(u) => out == Updated(u) && subscriptions == old(subscriptions)[k := u]
        case Failure(e) => out == Rejected(e) && subscriptions == old(subscriptions)
      ensures WellFormed(old(subscriptions)) ==> WellFormed(subscriptions)
    {
      if idParam.None? {
        return InvalidId;
      }
      var id := idParam.value;
      var k := FindIndexById(subscriptions, id);
      if k == -1 {
        return NotFound(id);
      }
      var merged := MergeUpdate(subscriptions[k], req);
      if merged.Failure? {
        return Rejected(merged.error);
      }
      var updated := merged.value;
      subscriptions := subscriptions[k := updated];
      out := Updated(updated);
      if WellFormed(old(subscriptions)) {
        UpdateKeepsWellFormed(old(subscriptions), k, req);
      }
    }

    /** DELETE /api/subscriptions/:id: replace the list by the records without
        the id, and answer 404 when that removed nothing. */
    method Delete(idParam: Option<int>) returns (out: Outcome)
      modifies this
      ensures idParam.None? ==> out == InvalidId && subscriptions == old(subscriptions)
      ensures idParam.Some? ==>
        && subscriptions == RemoveId(old(subscriptions), idParam.value)
        && (out == Deleted <==> HasId(old(subscriptions), idParam.value))
        && (out != Deleted ==> out == NotFound(idParam.value) && subscriptions == old(subscriptions))
      ensures UniqueIds(old(subscriptions)) && out == Deleted ==> |subscriptions| == |old(subscriptions)| - 1
      ensures WellFormed(old(subscriptions)) ==> WellFormed(subscriptions)
    {
      if idParam.None? {
        return InvalidId;
      }
      var id := idParam.value;
      var initialLen := |subscriptions|;
      subscriptions := FilterOutId(subscriptions, id);
      RemoveIdSameLength(old(subscriptions), id);
      if |subscriptions| == initialLen {
        out := NotFound(id);
      } else {
        out := Deleted;
      }
      if UniqueIds(old(subscriptions)) {
        RemoveIdAtMostOne(old(subscriptions), id);
      }
      if WellFormed(old(subscriptions)) {
        RemoveIdKeepsWellFormed(old(subscriptions), id);
      }
    }
  }
}
