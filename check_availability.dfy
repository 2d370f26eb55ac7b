/**
 * The availability endpoint: validates that both bounds of the requested
 * window were sent, asks the store for every reservation that strictly
 * overlaps the window, and answers whether the window is free together
 * with the conflicting reservations.
 */
module CheckAvailability {
  import opened Wrappers
  import opened Reservations
  import Seqs

  /** A request field as it arrives: missing, the empty string, or an instant. */
  datatype Bound = Absent | Blank | At(instant: int)

  datatype AvailabilityRequest = AvailabilityRequest(startDateTime: Bound, endDateTime: Bound)

  /**
   * The reservation table as the query sees it: the rows at the time of the
   * query, or the error message the store reports instead of rows.
   */
  datatype Store = Store(rows: seq<Reservation>, queryError: Option<string>)

  datatype Body =
    | AvailabilityBody(available: bool, conflictingReservations: seq<Reservation>)
    | ErrorBody(error: string)

  datatype Response = Response(status: int, body: Body)

  const MissingBoundsMessage: string := "start_date_time and end_date_time are required"

  /** JavaScript falsiness of a request field: absent and "" both count as missing. */
  predicate IsMissing(b: Bound) {
    b.Absent? || b.Blank?
  }

  /**
   * The row test of the query: the reservation starts before the requested
   * end and ends after the requested start. Touching at an endpoint is not an overlap.
   */
  predicate Overlaps(r: Reservation, start: int, end: int) {
    r.startDateTime < end && r.endDateTime > start
  }

  /** The rows the overlap query returns, in the order the store holds them. */
  function Overlapping(rows: seq<Reservation>, start: int, end: int): (conflicts: seq<Reservation>)
    ensures forall r :: r in conflicts <==> r in rows && Overlaps(r, start, end)
  {
    Seqs.Filter(rows, (r: Reservation) => Overlaps(r, start, end))
  }

  /** The whole endpoint, from parsed request and store state to the response. */
  function HandleCheckAvailability(req: AvailabilityRequest, store: Store): (resp: Response)
    // a missing bound is answered before the store is consulted
    ensures IsMissing(req.startDateTime) || IsMissing(req.endDateTime) ==>
      resp == Response(400, ErrorBody(MissingBoundsMessage))
    ensures !IsMissing(req.startDateTime) && !IsMissing(req.endDateTime) && store.queryError.Some? ==>
      resp == Response(500, ErrorBody(store.queryError.value))
    ensures !IsMissing(req.startDateTime) && !IsMissing(req.endDateTime) && store.queryError.None? ==>
      var start, end := req.startDateTime.instant, req.endDateTime.instant;
      resp.status == 200 && resp.body.AvailabilityBody? &&
      (resp.body.available <==> forall r :: r in store.rows ==> !Overlaps(r, start, end)) &&
      (resp.body.available ==> resp.body.conflictingReservations == []) &&
      (!resp.body.available ==> resp.body.conflictingReservations == Overlapping(store.rows, start, end))
  {
    if IsMissing(req.startDateTime) || IsMissing(req.endDateTime) then
      Response(400, ErrorBody(MissingBoundsMessage))
    else if store.queryError.Some? then
      Response(500, ErrorBody(store.queryError.value))
    else
      var overlapping := Overlapping(store.rows, req.startDateTime.instant, req.endDateTime.instant);
      var isAvailable := |overlapping| == 0;
      assert !isAvailable ==> overlapping[0] in overlapping;
      Response(200, AvailabilityBody(isAvailable, if isAvailable then [] else overlapping))
  }

  /** A stored reservation is reported exactly when it strictly overlaps the window. */
  lemma ConflictIff(rows: seq<Reservation>, start: int, end: int, r: Reservation)
    requires r in rows
    ensures r in Overlapping(rows, start, end) <==> r.startDateTime < end && r.endDateTime > start
  {
  }

  /** A reservation that only touches the window at an endpoint is never a conflict. */
  lemma BoundaryIsNotConflict(rows: seq<Reservation>, start: int, end: int, r: Reservation)
    requires r.endDateTime == start || r.startDateTime == end
    ensures r !in Overlapping(rows, start, end)
  {
  }

  /** Reported conflicts keep the store's order and repeat no row more often than stored. */
  lemma ConflictsAreOrderedSubsequence(rows: seq<Reservation>, start: int, end: int)
    ensures Seqs.IsSubsequence(Overlapping(rows, start, end), rows)
    ensures forall r :: multiset(Overlapping(rows, start, end))[r] ==
                        if Overlaps(r, start, end) then multiset(rows)[r] else 0
  {
    var p := (r: Reservation) => Overlaps(r, start, end);
    Seqs.FilterIsSubsequence(rows, p);
    forall r ensures multiset(Overlapping(rows, start, end))[r] ==
      if Overlaps(r, start, end) then multiset(rows)[r] else 0
    {
      Seqs.FilterCount(rows, p, r);
    }
  }

  /** The store's row order does not change the verdict nor the set of conflicts. */
  lemma VerdictIgnoresRowOrder(req: AvailabilityRequest, a: Store, b: Store)
    requires multiset(a.rows) == multiset(b.rows) && a.queryError == b.queryError
    ensures HandleCheckAvailability(req, a).status == HandleCheckAvailability(req, b).status
    ensures HandleCheckAvailability(req, a).body.AvailabilityBody? ==>
      HandleCheckAvailability(req, b).body.AvailabilityBody? &&
      HandleCheckAvailability(req, a).body.available == HandleCheckAvailability(req, b).body.available &&
      multiset(HandleCheckAvailability(req, a).body.conflictingReservations) ==
        multiset(HandleCheckAvailability(req, b).body.conflictingReservations)
  {
    if !IsMissing(req.startDateTime) && !IsMissing(req.endDateTime) && a.queryError.None? {
      var start, end := req.startDateTime.instant, req.endDateTime.instant;
      Seqs.FilterPermutation(a.rows, b.rows, (r: Reservation) => Overlaps(r, start, end));
    }
  }

  /**
   * The window is never checked for start < end: an inverted window is
   * answered with status 200, and a reservation that covers it is reported.
   */
  lemma InvertedWindowIsAnswered(start: int, end: int, rows: seq<Reservation>, r: Reservation)
    requires end <= start && r in rows
    requires r.startDateTime < end && start < r.endDateTime
    ensures var resp := HandleCheckAvailability(AvailabilityRequest(At(start), At(end)), Store(rows, None));
      resp.status == 200 && !resp.body.available && r in resp.body.conflictingReservations
  {
  }
}
