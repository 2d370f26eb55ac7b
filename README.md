# Restaurant reservations: availability check, dashboard list state, table display

A Dafny model of the sequential logic in a small restaurant-reservation
dashboard and its availability endpoint:

- **The availability endpoint** (`check_availability.dfy`, module `CheckAvailability`).
  It rejects a request that lacks either bound with status 400. It selects
  every stored reservation that strictly overlaps the requested window
  (`start < requested end` and `end > requested start`). The window is free
  exactly when that selection is empty. The response carries `[]` when the
  window is free and the whole selection otherwise. A store error becomes
  status 500 with the store's message. Instants are integers. A request field
  is `Absent`, `Blank` (the empty string) or an instant, so JavaScript's
  falsiness test is modelled. The store is a snapshot of rows, or an error message.
- **The reservation-list hook** (`use_reservations.dfy`, module `UseReservations`).
  The state is the class `ReservationsState`: the list, the set of ids highlighted
  as new, and the `loading` and `error` flags. Its methods are the local delete
  after a store call, the fetch, the realtime INSERT and DELETE handlers, and the
  highlight expiry. The local delete, the realtime handlers and the highlight
  expiry each apply a pure updater (`InsertReservation`, `RemoveReservation`,
  `AddHighlight`, `ExpireHighlight`); the fetch assigns the returned rows. The lemmas about those
  updaters state deduplication, order preservation, idempotence and distinct ids.
  The outcome of each awaited store call is a parameter.
- **The table's display logic** (`reservation_table.dfy`, module `ReservationTable`).
  It covers phone-number normalisation, the sort-column toggle (class
  `TableSort`), the stable sort by guest count, and the capitalised
  special-occasion cell.
- `seqs.dfy` (module `Seqs`) defines the order-preserving filter used by all three.
  It proves the filter's membership, multiplicity, order and concatenation laws.
  `reservation.dfy` holds the reservation record and `wrappers.dfy` an `Option` type.

Where the documented design and the code differ, the model follows the code:

- The code never checks `start < end`. An inverted window is answered with
  status 200 (`InvertedWindowIsAnswered`), not with a window error.
- The endpoint has no operating-hours check and no alternative-slot search. Its
  response holds `available` and `conflicting_reservations` only.
- The endpoint reads `start_date_time` and `end_date_time` directly from the body
  (supabase/functions/check-availability/index.ts:43). It does not unwrap a nested
  `args` envelope.
- The stored-row type names the columns `reservation_date` and
  `reservation_time`, while the endpoint queries `start_date_time` and
  `end_date_time`. The record here carries the latter, as instants.

Behaviour worth knowing, stated in the contracts:

- A successful fetch does not clear a previously set `error`
  (`ReservationsState.FetchReservations`).
- A duplicate INSERT leaves the list unchanged but still highlights the id
  again. The first pending expiry then clears that highlight.

## Model

| member | source | states |
|---|---|---|
| `CheckAvailability.Overlapping` | supabase/functions/check-availability/index.ts:57-61 | a reservation is in the result iff it is a stored row that starts before the requested end and ends after the requested start |
| `CheckAvailability.HandleCheckAvailability` | supabase/functions/check-availability/index.ts:47-90 | a missing or empty bound gives 400 with the fixed message, whatever the store holds; a store error gives 500 with its message; otherwise 200, `available` iff no stored row overlaps, conflicts `[]` when available and the full overlap list otherwise |
| `CheckAvailability.ConflictIff` | supabase/functions/check-availability/index.ts:57-61 | a stored reservation is reported iff start < requested end and end > requested start |
| `CheckAvailability.BoundaryIsNotConflict` | supabase/functions/check-availability/index.ts:60-61 | a reservation ending exactly at the requested start or starting exactly at the requested end is never reported |
| `CheckAvailability.ConflictsAreOrderedSubsequence` | supabase/functions/check-availability/index.ts:57-61 | the conflicts are a subsequence of the stored rows, each overlapping row occurring as often as stored and no other row at all |
| `CheckAvailability.VerdictIgnoresRowOrder` | supabase/functions/check-availability/index.ts:57-77 | permuting the stored rows changes neither the status, the verdict nor the multiset of conflicts |
| `CheckAvailability.InvertedWindowIsAnswered` | supabase/functions/check-availability/index.ts:47-61 | no start < end check: an inverted window gets status 200 and a reservation spanning it is reported |
| `UseReservations.InsertReservation` | src/hooks/useReservations.ts:103-113 | the ids present afterwards are the old ids plus the new one; the old list is kept unchanged as the suffix; at most one row is added; distinct ids stay distinct |
| `UseReservations.InsertKnownIdIsNoOp` | src/hooks/useReservations.ts:105-109 | an INSERT whose id is already listed leaves the list unchanged |
| `UseReservations.InsertFreshIdPrepends` | src/hooks/useReservations.ts:112 | an INSERT of a new id yields the new row followed by the old list |
| `UseReservations.InsertIdempotent` | src/hooks/useReservations.ts:103-113 | applying the same INSERT twice equals applying it once |
| `UseReservations.RemoveReservation` | src/hooks/useReservations.ts:146-148 | a row survives iff it was listed and its id differs from the removed id; the id is absent afterwards |
| `UseReservations.RemoveKeepsOthersInOrder` | src/hooks/useReservations.ts:146-148 | the result is a subsequence of the list, and each row with another id keeps its multiplicity |
| `UseReservations.RemoveAbsentIsNoOp` | src/hooks/useReservations.ts:146-148 | removing an id that is not listed changes nothing |
| `UseReservations.RemovePreservesUniqueIds` | src/hooks/useReservations.ts:146-148 | removal keeps ids pairwise distinct |
| `UseReservations.RemoveIdempotent` | src/hooks/useReservations.ts:146-148 | a repeated DELETE of the same id changes nothing |
| `UseReservations.ApplyEvent` | src/hooks/useReservations.ts:96-149 | after an INSERT event the row's id is listed; after a DELETE event the id is not |
| `UseReservations.EventsPreserveUniqueIds` | src/hooks/useReservations.ts:96-149 | any sequence of realtime INSERT and DELETE events keeps ids pairwise distinct |
| `UseReservations.AddHighlight` | src/hooks/useReservations.ts:116-119 | the inserted id is highlighted and every other id keeps its status |
| `UseReservations.ExpireHighlight` | src/hooks/useReservations.ts:121-126 | the expiring id is no longer highlighted and every other id keeps its status |
| `UseReservations.ReservationsState.constructor` | src/hooks/useReservations.ts:8-11 | empty list, loading, no error, nothing highlighted |
| `UseReservations.ReservationsState.DeleteReservation` | src/hooks/useReservations.ts:13-36 | returns true iff the store reported no error; on success the id is removed from the list and `error` is kept; on failure the list is unchanged and `error` is the thrown `Error`'s message, or the fixed unknown-error text for any other thrown value; distinct ids stay distinct |
| `UseReservations.ReservationsState.FetchReservations` | src/hooks/useReservations.ts:38-64 | `loading` ends false; on success the list is the returned rows, or empty when none, and `error` is kept; on failure the list is kept and `error` is the thrown `Error`'s message, or the fixed unknown-error text for any other thrown value |
| `UseReservations.ReservationsState.OnInsert` | src/hooks/useReservations.ts:96-134 | the list is the INSERT update of the old list and the id joins the highlighted set |
| `UseReservations.ReservationsState.OnHighlightExpired` | src/hooks/useReservations.ts:121-127 | only the highlighted set changes, losing that id |
| `UseReservations.ReservationsState.OnDelete` | src/hooks/useReservations.ts:142-149 | the list is the old list without the deleted id; highlights and flags are unchanged |
| `ReservationTable.Digits` | src/components/ReservationTable.tsx:43 | the result holds only ASCII digits, and every digit of the input occurs in it |
| `ReservationTable.DigitsExact` | src/components/ReservationTable.tsx:43 | the digit string is a subsequence of the input and holds each digit exactly as often as the input does, and no non-digit |
| `ReservationTable.FormatPhoneNumber` | src/components/ReservationTable.tsx:41-58 | ten digits, or eleven with a leading 1, give `+1-AAA-EEE-NNNN` from the last ten digits; any other count gives `+1-` before the unstripped input |
| `ReservationTable.ElevenDigitsFormatAsTrailingTen` | src/components/ReservationTable.tsx:48-49 | an eleven-digit number with a leading 1 formats exactly like its trailing ten digits |
| `ReservationTable.FormatIgnoresNonDigits` | src/components/ReservationTable.tsx:43-49 | for the ten- and eleven-digit cases, inputs with the same digits format identically |
| `ReservationTable.FormatIdempotent` | src/components/ReservationTable.tsx:43-49 | re-formatting a formatted ten- or eleven-digit number returns it unchanged |
| `ReservationTable.Flip` | src/components/ReservationTable.tsx:63 | the flipped direction differs from the old one |
| `ReservationTable.NextSort` | src/components/ReservationTable.tsx:60-69 | the clicked column becomes the sort column; the direction flips if it was already the sort column and is ascending otherwise |
| `ReservationTable.SameHeaderTwiceRestores` | src/components/ReservationTable.tsx:60-69 | two clicks on the current sort column restore its direction |
| `ReservationTable.SecondClickReverses` | src/components/ReservationTable.tsx:60-69 | after any click, a second click on the same column reverses the direction |
| `ReservationTable.TableSort.constructor` | src/components/ReservationTable.tsx:9-10 | no sort column, ascending |
| `ReservationTable.TableSort.HandleSort` | src/components/ReservationTable.tsx:60-69 | the new column and direction are those of `NextSort` applied to the old ones |
| `ReservationTable.InsertSorted` | src/components/ReservationTable.tsx:74 | the result is the input plus the inserted row, as a multiset |
| `ReservationTable.InsertSortedKeepsOrder` | src/components/ReservationTable.tsx:74 | inserting into a sorted sequence keeps it sorted |
| `ReservationTable.SortBy` | src/components/ReservationTable.tsx:74 | the result is a permutation of the input, ordered by the key in the given direction |
| `ReservationTable.SortedReservations` | src/components/ReservationTable.tsx:71-95 | with no sort column the rows are shown unchanged; otherwise they are a permutation of the input, ordered by the column's key and direction |
| `ReservationTable.GuestsSortOrdersCounts` | src/components/ReservationTable.tsx:83-87 | sorting by guests gives non-decreasing counts ascending and non-increasing descending, a missing count standing for 0 |
| `ReservationTable.ToUpper` | src/components/ReservationTable.tsx:212 | a lower-case letter becomes the capital at the same place in the alphabet; the result is never a lower-case letter; it is a capital exactly when the input is a letter; it differs from the input exactly when the input is lower-case |
| `ReservationTable.OccasionLabel` | src/components/ReservationTable.tsx:212 | a missing or empty occasion shows `---`; otherwise same length, first character upper-cased, rest unchanged |
| `ReservationTable.OccasionLabelIdempotent` | src/components/ReservationTable.tsx:212 | a shown occasion cell is shown unchanged when displayed again |

## Left out

- Store access, `Deno.serve`, CORS preflight and headers, JSON parsing and the structured log are I/O. The store is a row snapshot plus an optional error message.
- How the store compares the timestamp strings of the query is not modelled. Instants are integers. A non-empty but unparsable bound reaches the model only as a store error.
- The realtime channel, its subscription status, the system connected and disconnected events and the reconnect timer are transport. Only the INSERT and DELETE payloads and the highlight expiry are modelled, as explicit operations.
- The 5-second delay before a highlight expires is a clock, so `OnHighlightExpired` is an operation the caller applies.
- `refreshReservations` (src/hooks/useReservations.ts:67-70) only sets `loading` and starts a fetch. Its completed effect is `FetchReservations`.
- The intermediate `loading == true` while a fetch is pending is not observable in the model, because each method is one completed update.
- React's batching of state updates is not modelled. Each updater runs once, in order.
- `formatDate` and `formatTime` are wrappers over date-fns and `Date`.
- The date column's `Date` parsing and the name column's lower-casing and `localeCompare` are library behaviour. `SortedReservations` takes their comparison key as the parameter `otherKey`.
- SortBy: stable by construction, but no lemma states the stability of `Array.prototype.sort`.
- A `NaN` guest count has no value of its own: it is falsy, so `guests || 0` compares it as 0, exactly like a missing count, and the model represents it as `None`.
- ToUpper: only ASCII letters are upper-cased. Unicode case mapping, including mappings that change the length, is not modelled.
- FormatPhoneNumber: the `catch` branch, reached only when the phone value is not a string, is not modelled. Phone numbers are strings.
- Booking endpoint, availability checker UI, delete confirmation modal, header, app shell, styling and the seed script are rendering, styling or a passthrough insert.
