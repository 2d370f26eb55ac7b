/**
 * The dashboard's reservation-list state: the list shown, the ids
 * highlighted as new, and the loading and error flags, updated by the
 * local delete, by a fetch, and by the realtime INSERT and DELETE events.
 * The list updaters are pure functions on sequences and sets; the
 * `ReservationsState` class holds the state and applies them.
 */
module UseReservations {
  import opened Wrappers
  import opened Reservations
  import Seqs

  /** What a failed store call throws: an `Error` carrying a message, or anything else. */
  datatype Thrown = ErrorInstance(message: string) | OtherValue

  /** The outcome of the fetch query: rows (possibly null) or a thrown failure. */
  datatype FetchOutcome = Fetched(data: Option<seq<Reservation>>) | FetchFailed(thrown: Thrown)

  const UnknownErrorMessage: string := "An unknown error occurred"

  /** The text stored in `error` for a caught failure. */
  function ErrorText(t: Thrown): string {
    match t
    case ErrorInstance(m) => m
    case OtherValue => UnknownErrorMessage
  }

  /** Some entry of the list carries this id. */
  predicate HasId(list: seq<Reservation>, id: string) {
    exists i :: 0 <= i < |list| && list[i].id == id
  }

  /** No two entries of the list carry the same id. */
  predicate UniqueIds(list: seq<Reservation>) {
    forall i, j :: 0 <= i < j < |list| ==> list[i].id != list[j].id
  }

  /** The realtime INSERT updater: skip a known id, else put the new row first. */
  function InsertReservation(list: seq<Reservation>, r: Reservation): (out: seq<Reservation>)
    ensures forall id :: HasId(out, id) <==> HasId(list, id) || id == r.id
    ensures |out| == |list| || |out| == |list| + 1
    ensures out[|out| - |list|..] == list
    ensures UniqueIds(list) ==> UniqueIds(out)
  {
    if HasId(list, r.id) then list
    else
      var out := [r] + list;
      assert forall i :: 0 <= i < |list| ==> out[i + 1] == list[i];
      assert out[0] == r;
      out
  }

  /** The delete updater: keep every entry whose id differs. */
  function RemoveReservation(list: seq<Reservation>, id: string): (out: seq<Reservation>)
    ensures forall x :: x in out <==> x in list && x.id != id
    ensures !HasId(out, id)
  {
    Seqs.Filter(list, (x: Reservation) => x.id != id)
  }

  /** Removing an id keeps the other entries, each as often as before and in their order. */
  lemma RemoveKeepsOthersInOrder(list: seq<Reservation>, id: string)
    ensures Seqs.IsSubsequence(RemoveReservation(list, id), list)
    ensures forall x :: multiset(RemoveReservation(list, id))[x] ==
                        if x.id == id then 0 else multiset(list)[x]
  {
    var p := (x: Reservation) => x.id != id;
    Seqs.FilterIsSubsequence(list, p);
    forall x ensures multiset(RemoveReservation(list, id))[x] ==
                     if x.id == id then 0 else multiset(list)[x]
    {
      Seqs.FilterCount(list, p, x);
    }
  }

  /** A list without the id is left as it is. */
  lemma RemoveAbsentIsNoOp(list: seq<Reservation>, id: string)
    requires !HasId(list, id)
    ensures RemoveReservation(list, id) == list
  {
    Seqs.FilterKeepsAll(list, (x: Reservation) => x.id != id);
  }

  /** Removing preserves distinct ids. */
  lemma {:induction false} RemovePreservesUniqueIds(list: seq<Reservation>, id: string)
    requires UniqueIds(list)
    ensures UniqueIds(RemoveReservation(list, id))
  {
    if list != [] {
      var rest := RemoveReservation(list[1..], id);
      RemovePreservesUniqueIds(list[1..], id);
      if list[0].id != id {
        assert RemoveReservation(list, id) == [list[0]] + rest;
        forall k | 0 <= k < |rest| ensures rest[k].id != list[0].id {
          assert rest[k] in list[1..];
        }
      } else {
        assert RemoveReservation(list, id) == rest;
      }
    }
  }

  /** A second INSERT of the same row changes nothing. */
  lemma InsertIdempotent(list: seq<Reservation>, r: Reservation)
    ensures InsertReservation(InsertReservation(list, r), r) == InsertReservation(list, r)
  {
  }

  /** An INSERT whose id is already listed leaves the list as it was. */
  lemma InsertKnownIdIsNoOp(list: seq<Reservation>, r: Reservation)
    requires HasId(list, r.id)
    ensures InsertReservation(list, r) == list
  {
  }

  /** An INSERT of a new id puts the row first and keeps the rest in order. */
  lemma InsertFreshIdPrepends(list: seq<Reservation>, r: Reservation)
    requires !HasId(list, r.id)
    ensures InsertReservation(list, r) == [r] + list
  {
  }

  /** A second DELETE of the same id changes nothing. */
  lemma RemoveIdempotent(list: seq<Reservation>, id: string)
    ensures RemoveReservation(RemoveReservation(list, id), id) == RemoveReservation(list, id)
  {
    Seqs.FilterIdempotent(list, (x: Reservation) => x.id != id);
  }

  /** A realtime change event as delivered to the dashboard. */
  datatype ChangeEvent = InsertEvent(row: Reservation) | DeleteEvent(deletedId: string)

  function ApplyEvent(list: seq<Reservation>, e: ChangeEvent): (out: seq<Reservation>)
    ensures e.InsertEvent? ==> HasId(out, e.row.id)
    ensures e.DeleteEvent? ==> !HasId(out, e.deletedId)
  {
    match e
    case InsertEvent(r) => InsertReservation(list, r)
    case DeleteEvent(id) => RemoveReservation(list, id)
  }

  function ApplyEvents(list: seq<Reservation>, events: seq<ChangeEvent>): seq<Reservation>
    decreases |events|
  {
    if events == [] then list else ApplyEvents(ApplyEvent(list, events[0]), events[1..])
  }

  /** Any stream of realtime events keeps the ids of the list distinct. */
  lemma {:induction false} EventsPreserveUniqueIds(list: seq<Reservation>, events: seq<ChangeEvent>)
    requires UniqueIds(list)
    ensures UniqueIds(ApplyEvents(list, events))
    decreases |events|
  {
    if events != [] {
      var next := ApplyEvent(list, events[0]);
      if events[0].DeleteEvent? {
        RemovePreservesUniqueIds(list, events[0].deletedId);
      }
      EventsPreserveUniqueIds(next, events[1..]);
    }
  }

  /** The highlight step of the INSERT handler: mark the id as new. */
  function AddHighlight(ids: set<string>, id: string): (out: set<string>)
    ensures id in out
    ensures forall other :: other != id ==> (other in out <==> other in ids)
  {
    ids + {id}
  }

  /** The expiry that the INSERT handler schedules: unmark that id only. */
  function ExpireHighlight(ids: set<string>, id: string): (out: set<string>)
    ensures id !in out
    ensures forall other :: other != id ==> (other in out <==> other in ids)
  {
    ids - {id}
  }

  /**
   * The hook's state. Each method is one completed update: the store
   * outcome it awaited is a parameter.
   */
  class ReservationsState {
    var reservations: seq<Reservation>
    var loading: bool
    var error: Option<string>
    var newReservationIds: set<string>

    constructor ()
      ensures reservations == [] && loading && error == None && newReservationIds == {}
    {
      reservations := [];
      loading := true;
      error := None;
      newReservationIds := {};
    }

    /** `deleteReservation`: `storeError` is what the store's delete call reported. */
    method DeleteReservation(id: string, storeError: Option<Thrown>) returns (deleted: bool)
      modifies this
      ensures deleted <==> storeError.None?
      ensures deleted ==> reservations == RemoveReservation(old(reservations), id) && error == old(error)
      ensures !deleted ==> reservations == old(reservations) && error == Some(if storeError.value.ErrorInstance? then storeError.value.message
                                                       else UnknownErrorMessage)
      ensures UniqueIds(old(reservations)) ==> UniqueIds(reservations)
      ensures loading == old(loading) && newReservationIds == old(newReservationIds)
    {
      if storeError.Some? {
        error := Some(ErrorText(storeError.value));
        deleted := false;
      } else {
        if UniqueIds(reservations) {
          RemovePreservesUniqueIds(reservations, id);
        }
        reservations := RemoveReservation(reservations, id);
        deleted := true;
      }
    }

    /** `fetchReservations`, from its start to its `finally`. */
    method FetchReservations(outcome: FetchOutcome)
      modifies this
      ensures !loading
      ensures outcome.Fetched? && outcome.data.Some? ==> reservations == outcome.data.value
      ensures outcome.Fetched? && outcome.data.None? ==> reservations == []
      ensures outcome.Fetched? ==> error == old(error)
      ensures outcome.FetchFailed? ==>
        reservations == old(reservations) &&
        error == Some(if outcome.thrown.ErrorInstance? then outcome.thrown.message else UnknownErrorMessage)
      ensures newReservationIds == old(newReservationIds)
    {
      loading := true;
      match outcome {
        case Fetched(data) =>
          if data.Some? {
            reservations := data.value;
          } else {
            reservations := [];
          }
        case FetchFailed(thrown) =>
          error := Some(ErrorText(thrown));
      }
      loading := false;
    }

    /** The realtime INSERT handler: update the list, then mark the row as new. */
    method OnInsert(r: Reservation)
      modifies this
      ensures reservations == InsertReservation(old(reservations), r)
      ensures newReservationIds == AddHighlight(old(newReservationIds), r.id)
      ensures UniqueIds(old(reservations)) ==> UniqueIds(reservations)
      ensures loading == old(loading) && error == old(error)
    {
      reservations := InsertReservation(reservations, r);
      newReservationIds := AddHighlight(newReservationIds, r.id);
    }

    /** The highlight timeout that `OnInsert` schedules, when it fires. */
    method OnHighlightExpired(id: string)
      modifies this
      ensures newReservationIds == ExpireHighlight(old(newReservationIds), id)
      ensures reservations == old(reservations) && loading == old(loading) && error == old(error)
    {
      newReservationIds := ExpireHighlight(newReservationIds, id);
    }

    /** The realtime DELETE handler. */
    method OnDelete(deletedId: string)
      modifies this
      ensures reservations == RemoveReservation(old(reservations), deletedId)
      ensures UniqueIds(old(reservations)) ==> UniqueIds(reservations)
      ensures newReservationIds == old(newReservationIds)
      ensures loading == old(loading) && error == old(error)
    {
      if UniqueIds(reservations) {
        RemovePreservesUniqueIds(reservations, deletedId);
      }
      reservations := RemoveReservation(reservations, deletedId);
    }
  }
}
