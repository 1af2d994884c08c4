# Event management store: a verified model of `operations.c`

This project models the sequential behaviour of the event management store (EMS) in
`operations.c`. The store keeps events in creation order. Each event has an id, a grid of
`rows × cols` seats and a reservation counter. A seat holds 0 when it is free, or the id of
the reservation that took it.

Every store operation answers 0 on success and 1 on failure:

- `Init` creates the event list and records the access delay.
- `Terminate` drops the list.
- `Create` appends an event with a zeroed grid, unless the id is already taken.
- `Reserve` draws the next reservation id from the event's counter. It sorts the requested
  (row, column) pairs with the source's bubble sort, run twice. It then takes the seats
  all or none: it walks the requests, checks bounds and occupancy, and rolls back the
  seats and the counter on the first failure.
- `Show` returns the seat grid as text. Each row is one line, and the cells are separated
  by single spaces.
- `ListEvents` returns one `Event: <id>` line per event, or `No events` when there are none.

Both text operations print numbers through a ten-byte buffer, so a number is cut to its
first nine digits. The model keeps that truncation.

The modules follow the source:

- `Helpers` holds the integer helpers: `delay_to_timespec`, `seat_index`, and the unsigned
  32-bit counter arithmetic.
- `Sorting` holds `swap` and `sortReserves`, in place on arrays, together with the value
  functions they are proved against.
- `Seats` holds the seat-by-seat logic of a reservation, on values.
- `Text` holds the output formats and a parser for each of them, used in the round-trip
  lemmas.
- `Operations` holds the `Event` and `Store` classes. Their methods update the seat arrays
  and fields in place.

The code sorts the rows first and then, stably, the columns (`operations.c:186-187`), so
the requests are visited in (column, row) lexicographic order, not in row-major order
(`Sorting.TwoPassLex`). Whether a reservation succeeds does not depend on that order
(`Seats.WalkOkIffReservable`), and neither do the seats it writes (`Seats.MarkGranted`).

## Model

| member | source | states |
|---|---|---|
| Helpers.DelayToTimespec | operations.c:31-33 | the nanoseconds are below one second and a whole number of milliseconds, and seconds and milliseconds together give back the delay |
| Helpers.SeatIndex | operations.c:64 | an in-bounds seat has an index below rows*cols whose quotient and remainder by cols are the row and column counted from 0 |
| Helpers.SeatIndexInjective | operations.c:64 | two in-bounds seats share an index exactly when they are the same seat |
| Helpers.SeatIndexRowMajor | operations.c:64 | one seat index is below another exactly when its seat is in an earlier row, or in the same row and an earlier column (row-major order) |
| Helpers.SeatIndexOnto | operations.c:64 | every index below rows*cols is the index of some in-bounds seat |
| Helpers.Inc32 | operations.c:182-184 | the pre-increment of the unsigned counter stays below 2^32; it wraps to 0 exactly from 2^32-1 and otherwise adds one |
| Helpers.Dec32 | operations.c:213 | the pre-decrement of the unsigned counter stays below 2^32; it wraps to 2^32-1 exactly from 0 and otherwise subtracts one |
| Helpers.DecUndoesInc | operations.c:213 | the rollback decrement restores the counter the increment started from, wrap-around included |
| Sorting.Swap | operations.c:75-79 | the two cells are exchanged and every other cell is kept |
| Sorting.BubblePass | operations.c:83-88 | one inner pass equals the value-level pass `PassFrom` over the first m+1 cells |
| Sorting.SortReserves | operations.c:81-90 | the first n keys end up non-decreasing; the pairs (key, companion) are a permutation of the original ones in both orientations, and pairs with equal keys keep their order; cells from n on are untouched |
| Sorting.RoundsOrder | operations.c:82-89 | after i outer rounds the last i keys are sorted and no earlier key exceeds them |
| Sorting.RoundsSort | operations.c:81-90 | after n-1 rounds the first n keys are sorted and the cells from n on are unchanged |
| Sorting.RoundsKeepPairs | operations.c:81-90 | every round keeps the pair multisets and each key's subsequence of pairs (stability) |
| Sorting.SwapStep | operations.c:84-87 | exchanging a strictly out-of-order neighbour pair in both arrays keeps the pairs and each key's subsequence |
| Sorting.TwoPassLex | operations.c:186-187 | sorting by row and then stably by column leaves the (column, row) pairs in lexicographic order |
| Sorting.LexSortedUnique | operations.c:186-187 | two lexicographically sorted sequences of the same pairs are equal |
| Sorting.ZipFlipCount | operations.c:186-187 | a pair occurs among the (column, row) pairs as often as its mirror image occurs among the (row, column) pairs |
| Sorting.ZipFlipMultiset | operations.c:186-187 | two requests with the same (row, column) pairs have the same (column, row) pairs |
| Sorting.SameRequestsSameOrder | operations.c:186-187 | two sorted outcomes of the same requested pairs are equal arrays, so the visiting order is determined by the request multiset alone |
| Operations.SortRequests | operations.c:186-187 | after the two sorts the request pairs are a permutation of the originals, read as (row, column) and as (column, row), the columns are sorted, the (column, row) pairs are lexicographically sorted, and the cells past n are untouched |
| Seats.MarkValue | operations.c:208 | after the walk's writes a seat holds the reservation id exactly when it was requested, and every other seat keeps its value |
| Seats.GrantedValue | operations.c:189-209 | in the order-independent outcome of a reservation, a seat holds the id exactly when its pair is in the request multiset |
| Seats.MarkGranted | operations.c:189-209 | writing the requests one after another gives the order-independent outcome `Granted` of their multiset |
| Seats.MarkUndo | operations.c:212-218 | writing 0 back into the walked seats, which were all free, restores the grid |
| Seats.WalkOkPrefix | operations.c:189-209 | the walk's checks are prefix-closed |
| Seats.WalkStep | operations.c:194-206 | after i requests, request i passes exactly when the current grid shows 0 at its seat, which also catches a seat requested twice in the same call |
| Seats.WalkOkIffReservable | operations.c:189-212 | the sequential checks succeed exactly when every requested seat exists and was free and, unless the id wrapped to 0, no seat is requested twice |
| Seats.DistinctIffSingle | operations.c:202 | a request sequence has no repeated seat exactly when each seat has multiplicity 1 in its multiset |
| Operations.Event.constructor | operations.c:136-151 | the new event has the given id and dimensions, a fresh grid of rows*cols zeros, and a counter of 0 |
| Operations.Event.Walk | operations.c:189-209 | stops at the first request that is out of bounds or finds its seat taken; the passed prefix is checked, and exactly its seats now hold the id |
| Operations.Event.Release | operations.c:212-218 | writes 0 into the seats of the first i requests and leaves the rest of the grid as it was |
| Operations.Event.Book | operations.c:189-226 | answers 0 exactly when the request multiset is reservable, and the grid then is `Granted`; otherwise answers 1, the counter goes back one and the grid is unchanged |
| Operations.Event.Reserve | operations.c:182-226 | draws the incremented counter, leaves the requests sorted and permuted (as (row, column) and as (column, row) pairs), and answers 0 exactly when the original requests are reservable under the new id; success writes exactly those seats, failure leaves counter and grid unchanged |
| Operations.FindId | operations.c:122 | finds the first position of an id, and none exactly when the id is absent |
| Operations.Store.Lookup | operations.c:174 | finds an event with the id, and none exactly when no event has it |
| Operations.Store.constructor | operations.c:26-27 | the store starts uninitialised, with no events and a delay of 0, owning only fresh objects |
| Operations.Store.Init | operations.c:92-102 | fails and changes nothing when already initialised; otherwise answers 0 with an empty list and the given delay; the store comes to own no object allocated before the call |
| Operations.Store.Terminate | operations.c:104-113 | fails when not initialised; otherwise answers 0 and drops every event; the delay is kept and the store comes to own no older object |
| Operations.Store.Create | operations.c:115-164 | answers 0 exactly when initialised and the id is new, and then appends one fresh zeroed event with that id; otherwise nothing changes; the only objects the store comes to own are newly allocated, so arrays a caller already holds stay outside it |
| Operations.Store.Append | operations.c:153-160 | puts an event with a new id at the tail of the list; the ids grow by that id, a lookup finds it at the last position, and the store comes to own exactly the event and its seat array |
| Operations.Store.Reserve | operations.c:166-227 | fails with nothing changed when uninitialised or the id is unknown; otherwise the found event is reserved as in `Event.Reserve`, and every other event is untouched |
| Operations.Store.ReserveAt | operations.c:182-226 | the reservation on the event at a known position: reservable iff 0, `Granted` on success, unchanged on failure, and the store invariant is kept |
| Operations.Event.RowLine | operations.c:251-264 | builds row i as its truncated cells joined by single spaces |
| Operations.Store.Show | operations.c:229-280 | fails with no output when uninitialised or the id is unknown; otherwise answers 0 with `GridText` of the event's grid |
| Operations.Store.ListEvents | operations.c:282-314 | fails when uninitialised; otherwise answers 0 with `ListText` of the ids in list order |
| Text.Decimal | operations.c:258 | `%u` formatting gives at least one digit and no leading zero |
| Text.DecimalRoundTrip | operations.c:258 | reading back the decimal text of v gives v |
| Text.DecimalLength | operations.c:258 | the decimal text of v has at most k digits exactly when v < 10^k |
| Text.CellPrefix | operations.c:258 | `Cell`, what `snprintf` leaves in the ten-byte buffer, is a nonempty prefix of the decimal text of at most nine characters: the whole text, or its first nine characters |
| Text.CellExact | operations.c:258 | a number below 10^9 fits the ten-byte buffer whole and reads back as itself |
| Text.CellTruncates | operations.c:247 | 1000000000 and 1000000001 are both cut to the same nine digits `100000000` |
| Text.CellIsDigits | operations.c:258 | a printed cell is a nonempty string of digits |
| Text.RowBufferStep | operations.c:258-263 | appending cell j, followed by a space unless it is the last, extends the row buffer by one cell |
| Text.RowBufferFull | operations.c:250-264 | the completed row buffer is the cells joined by single spaces |
| Text.GridLinesSnoc | operations.c:266 | finishing one more row appends that row's text and a newline to the output |
| Text.SplitJoin | operations.c:259-263 | splitting the space-joined cells at spaces gives back the cells |
| Text.SplitLines | operations.c:266 | splitting newline-terminated lines at newlines gives back the lines and a final empty piece |
| Text.RowTextNoNewline | operations.c:258-263 | a row line holds no newline, for any number of columns |
| Text.GridTextSplit | operations.c:266 | for any grid, including one with no columns, splitting the grid text at newlines gives one line per row and a final empty piece |
| Text.GridTextLines | operations.c:250-267 | the grid text has one line per row, and each line splits at spaces into the row's cells |
| Text.ParseGridText | operations.c:250-267 | for any grid, including one with no columns, the grid text parses into exactly one parsed line per row, each the parse of that row's text |
| Text.RowRoundTrip | operations.c:250-267 | a row line of values below 10^9 parses back to that row of the grid |
| Text.GridRoundTrip | operations.c:250-267 | the grid text of values below 10^9 parses back to the grid's rows, in order |
| Text.ListTextEmpty | operations.c:291-295 | the listing is `No events` exactly when there are no events |
| Text.ListRoundTrip | operations.c:302-308 | the listing of ids below 10^9 parses back to the ids in order |
| Text.ListExample | operations.c:302-308 | the listing of events 1 and 2 is `Event: 1\nEvent: 2\n` |

## Left out

- Locks and the `createEventLock`, `parseMutex` and `waitCommandLock` protocol are not modelled. The model is sequential, so lock order and deadlock freedom are not stated. A seat requested twice in the same call fails as "already reserved", unless the new reservation id wrapped to 0, in which case the model grants it; in the source, POSIX leaves a second write lock by the holder undefined (it may deadlock; glibc returns EDEADLK, which `operations.c:200` ignores, and the seat test at line 202 then fails as in the model).
- The access delay is stored but never slept on. `get_event_with_delay` and `get_seat_with_delay` are modelled as the plain lookup and seat access, without their `nanosleep`. `ems_wait` (`operations.c:316-319`) only sleeps and touches no store state, so it is not modelled.
- `ems_file`, `threadFunc`, `switchCase`, the barrier and the command parsing are the command engine around the store, and are not modelled. Only one fact is taken from them: a RESERVE with no coordinates is rejected before `ems_reserve` (`operations.c:440-443`).
- Operations.Store.Reserve: requires at least one request, because `sortReserves` computes `n - 1` on an unsigned size and the caller never passes 0.
- Output goes to a file descriptor through `writeToFile`; the model returns it as a string. Write errors and the messages on standard error are not modelled.
- Allocation failures are not modelled: `create_list`, `malloc` and `append_to_list` failing, and `malloc(0)` returning NULL for an empty grid. `Init` and `Create` always succeed past their checks.
- `buffer[10000]` overflowing in `ems_show` and `ems_list_events` is not modelled; the output is unbounded.
- `num_rows * num_cols` overflowing `size_t`, and request coordinates wrapping as `size_t`, are not modelled: dimensions and coordinates are unbounded naturals.
- Event ids are naturals rather than `unsigned int`. The store only compares and prints them, and the nine-digit truncation of printed ids is modelled.
- `eventlist.h`/`eventlist.c` is not part of this model. The event list is a sequence, `get_event` is taken to return the first event with the id, and `append_to_list` to append at the tail.
- The request arrays are assumed not to be the seat array of any event and not to be each other.
- `main.c` and `inputAux.c` are the program's driver and its parsing, and are not modelled.
