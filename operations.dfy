/** The event management store: a list of events, each with a grid of seats and a
    reservation counter, and the operations init, terminate, create, reserve, show and list.
    Every operation answers 0 on success and 1 on failure, as the C functions do; show and
    list also return the text they write to the output file. */
module Operations {
  import opened Helpers
  import opened Sorting
  import opened Seats
  import opened Text

  /** An event: fixed id and grid size, the row-major seat array (0 is a free seat, any
      other value the id of the reservation holding it) and the number of the last
      reservation, an unsigned 32-bit counter. */
  class Event {
    const id: nat
    const rows: nat
    const cols: nat
    const seats: array<nat>
    var reservations: nat

    ghost predicate Valid()
      reads this
    {
      seats.Length == rows * cols && reservations < U32
    }

    /** A new event with every seat free and no reservation made yet. */
    constructor (id: nat, rows: nat, cols: nat)
      ensures this.id == id && this.rows == rows && this.cols == cols
      ensures fresh(seats) && seats[..] == seq(rows * cols, _ => 0)
      ensures reservations == 0
      ensures Valid()
    {
      this.id := id;
      this.rows := rows;
      this.cols := cols;
      var data := new nat[rows * cols];
      for i := 0 to rows * cols
        invariant forall k :: 0 <= k < i ==> data[k] == 0
      {
        data[i] := 0;
      }
      seats := data;
      reservations := 0;
    }

    /** Row i of the seat grid as `ems_show` prints it: the seat values of the row, each
        cut to what fits the ten-byte buffer, with single spaces between them. */
    method RowLine(i: nat) returns (line: string)
      requires Valid() && 1 <= i <= rows
      ensures line == RowText(seats[..], rows, cols, i)
    {
      ghost var cells := RowCells(seats[..], rows, cols, i);
      line := "";
      var j := 1;
      while j <= cols
        invariant 1 <= j <= cols + 1
        invariant line == RowBuffer(cells, j - 1)
      {
        var seatIndex := SeatIndex(rows, cols, i, j);
        var smallBuffer := Cell(seats[seatIndex]);
        assert smallBuffer == cells[j - 1];
        RowBufferStep(cells, j - 1);
        line := line + smallBuffer;
        if j < cols {
          line := line + " ";
        }
        j := j + 1;
      }
      RowBufferFull(cells);
    }

    /** The walk over the sorted requests (xs[t], ys[t]), t < n: checks each seat, stops at
        the first that is outside the grid or not free, and writes rid into every seat it
        passed. It returns how many requests it passed. */
    method Walk(xs: array<nat>, ys: array<nat>, n: nat, rid: nat) returns (i: nat)
      requires Valid() && n <= xs.Length && n <= ys.Length && xs != seats && ys != seats
      modifies seats
      ensures i <= n
      ensures var s := Zip(xs[..n], ys[..n]);
        WalkOk(rows, cols, old(seats[..]), s[..i], rid) &&
        AllInBounds(rows, cols, s[..i]) &&
        seats[..] == Mark(old(seats[..]), rows, cols, s[..i], rid) &&
        (i < n ==> !WalkOk(rows, cols, old(seats[..]), s[..i + 1], rid))
    {
      ghost var g0 := seats[..];
      ghost var s := Zip(xs[..n], ys[..n]);
      i := 0;
      while i < n
        invariant i <= n
        invariant WalkOk(rows, cols, g0, s[..i], rid)
        invariant AllInBounds(rows, cols, s[..i])
        invariant seats[..] == Mark(g0, rows, cols, s[..i], rid)
      {
        var row, col := xs[i], ys[i];
        assert s[i] == (row, col);
        if !InBounds(rows, cols, row, col) {
          assert s[..i + 1][i] == s[i];
          break;
        }
        var idx := SeatIndex(rows, cols, row, col);
        WalkStep(rows, cols, g0, s, i, rid);
        if seats[idx] != 0 {
          break;
        }
        seats[idx] := rid;
        assert s[..i + 1] == s[..i] + [s[i]];
        i := i + 1;
      }
    }

    /** Frees again the seats of the first i requests. */
    method Release(xs: array<nat>, ys: array<nat>, n: nat, i: nat)
      requires Valid() && i <= n <= xs.Length && n <= ys.Length && xs != seats && ys != seats
      requires AllInBounds(rows, cols, Zip(xs[..n], ys[..n])[..i])
      modifies seats
      ensures seats[..] == Mark(old(seats[..]), rows, cols, Zip(xs[..n], ys[..n])[..i], 0)
    {
      ghost var g1 := seats[..];
      ghost var s := Zip(xs[..n], ys[..n])[..i];
      for j := 0 to i
        invariant AllInBounds(rows, cols, s[..j])
        invariant seats[..] == Mark(g1, rows, cols, s[..j], 0)
      {
        assert s[j] == (xs[j], ys[j]);
        assert s[..j + 1] == s[..j] + [s[j]];
        var idx := SeatIndex(rows, cols, xs[j], ys[j]);
        seats[idx] := 0;
      }
      assert s[..i] == s;
    }

    /** Reservation rid of the n requests (xs[t], ys[t]), with the counter already at rid:
        either every requested seat gets rid and the answer is 0, or no seat changes, the
        counter goes back one and the answer is 1. */
    method Book(xs: array<nat>, ys: array<nat>, n: nat, rid: nat) returns (rc: nat)
      requires Valid() && n <= xs.Length && n <= ys.Length && xs != seats && ys != seats
      requires reservations == rid
      modifies this, seats
      ensures Valid()
      ensures rc == 0 || rc == 1
      ensures rc == 0 <==> Reservable(rows, cols, old(seats[..]), multiset(Zip(xs[..n], ys[..n])), rid)
      ensures rc == 0 ==> (AllInBounds(rows, cols, Zip(xs[..n], ys[..n])) &&
        reservations == rid &&
        seats[..] == Granted(old(seats[..]), rows, cols, multiset(Zip(xs[..n], ys[..n])), rid))
      ensures rc == 1 ==> reservations == Dec32(rid) && seats[..] == old(seats[..])
    {
      ghost var g0 := seats[..];
      ghost var s := Zip(xs[..n], ys[..n]);
      var i := Walk(xs, ys, n, rid);
      WalkOkIffReservable(rows, cols, g0, s, rid);
      if i < n {
        if WalkOk(rows, cols, g0, s, rid) {
          WalkOkPrefix(rows, cols, g0, s, rid, i + 1);
        }
        reservations := Dec32(rid);
        Release(xs, ys, n, i);
        MarkUndo(g0, rows, cols, s[..i], rid);
        rc := 1;
      } else {
        assert s[..i] == s;
        MarkGranted(g0, rows, cols, s, rid);
        rc := 0;
      }
    }

    /** Makes the next reservation of this event for the n seats (xs[t], ys[t]): bumps the
        counter, sorts the requests by column, then row, and takes the seats all or none. */
    method Reserve(xs: array<nat>, ys: array<nat>, n: nat) returns (rc: nat)
      requires Valid()
      requires 1 <= n <= xs.Length && n <= ys.Length && xs != ys && xs != seats && ys != seats
      modifies this, seats, xs, ys
      ensures Valid()
      ensures rc == 0 || rc == 1
      ensures multiset(Zip(xs[..n], ys[..n])) == multiset(Zip(old(xs[..n]), old(ys[..n])))
      ensures multiset(Zip(ys[..n], xs[..n])) == multiset(Zip(old(ys[..n]), old(xs[..n])))
      ensures LexSorted(Zip(ys[..n], xs[..n]))
      ensures xs[n..] == old(xs[n..]) && ys[n..] == old(ys[n..])
      ensures rc == 0 <==> Reservable(rows, cols, old(seats[..]),
        multiset(Zip(old(xs[..n]), old(ys[..n]))), Inc32(old(reservations)))
      ensures rc == 0 ==> (reservations == Inc32(old(reservations)) &&
        seats[..] == Granted(old(seats[..]), rows, cols, multiset(Zip(old(xs[..n]), old(ys[..n]))), reservations))
      ensures rc == 1 ==> (reservations == old(reservations) && seats[..] == old(seats[..]))
    {
      var rid := Inc32(reservations);
      DecUndoesInc(reservations);
      reservations := rid;
      SortRequests(xs, ys, n);
      assert seats[..] == old(seats[..]);
      rc := Book(xs, ys, n, rid);
    }
  }

  /** The first position of id in ids, if there is one. */
  function FindId(ids: seq<nat>, id: nat): (r: Option<nat>)
    ensures r.None? <==> id !in ids
    ensures r.Some? ==> r.value < |ids| && ids[r.value] == id && id !in ids[..r.value]
  {
    if ids == [] then None
    else if ids[0] == id then Some(0)
    else
      var r := FindId(ids[1..], id);
      if r.None? then None
      else
        assert ids[..r.value + 1] == [ids[0]] + ids[1..][..r.value];
        Some(r.value + 1)
  }

  /** Sorts the requests by column and, among equal columns, by row: first by row, then,
      with a stable sort, by column. */
  method SortRequests(xs: array<nat>, ys: array<nat>, n: nat)
    requires 1 <= n <= xs.Length && n <= ys.Length && xs != ys
    modifies xs, ys
    ensures multiset(Zip(xs[..n], ys[..n])) == multiset(Zip(old(xs[..n]), old(ys[..n])))
    ensures multiset(Zip(ys[..n], xs[..n])) == multiset(Zip(old(ys[..n]), old(xs[..n])))
    ensures Sorted(ys[..n]) && LexSorted(Zip(ys[..n], xs[..n]))
    ensures xs[n..] == old(xs[n..]) && ys[n..] == old(ys[n..])
  {
    SortReserves(xs, ys, n);
    ghost var xs1, ys1 := xs[..n], ys[..n];
    SortReserves(ys, xs, n);
    TwoPassLex(xs1, ys1, ys[..n], xs[..n]);
  }

  /** The whole store. `initialized` tells whether the event list exists. */
  class Store {
    var initialized: bool
    var accessDelayMs: nat
    var events: seq<Event>
    /** The objects the store owns: its events and their seat arrays. */
    ghost var Repr: set<object>

    ghost predicate Valid()
      reads this, Repr
    {
      this !in Repr &&
      (forall i :: 0 <= i < |events| ==> events[i] in Repr && events[i].seats in Repr) &&
      (!initialized ==> events == []) &&
      (forall i, j :: 0 <= i < j < |events| ==> events[i].id != events[j].id) &&
      (forall i, j :: 0 <= i < j < |events| ==> events[i].seats != events[j].seats) &&
      (forall i :: 0 <= i < |events| ==> events[i].Valid())
    }

    /** The ids of the events, in the order they were created. */
    function Ids(): (ids: seq<nat>)
      reads this, events
      ensures |ids| == |events| && forall i :: 0 <= i < |events| ==> ids[i] == events[i].id
    {
      seq(|events|, i reads this, events requires 0 <= i < |events| => events[i].id)
    }

    /** The position of the event with the given id. */
    function Lookup(id: nat): (r: Option<nat>)
      reads this, events
      ensures r.None? <==> forall i :: 0 <= i < |events| ==> events[i].id != id
      ensures r.Some? ==> r.value < |events| && events[r.value].id == id
    {
      var r := FindId(Ids(), id);
      if r.None? then None else Some(r.value)
    }

    /** A store that has not been initialised. */
    constructor ()
      ensures !initialized && accessDelayMs == 0 && events == []
      ensures Valid() && fresh(Repr)
    {
      initialized := false;
      accessDelayMs := 0;
      events := [];
      Repr := {};
    }

    /** Creates the empty event list and records the access delay; fails if the store
        already exists. */
    method Init(delayMs: nat) returns (rc: nat)
      requires Valid()
      modifies this
      ensures Valid()
      ensures old(initialized) ==> rc == 1 && initialized && accessDelayMs == old(accessDelayMs) && events == old(events)
      ensures !old(initialized) ==> rc == 0 && initialized && accessDelayMs == delayMs && events == []
      ensures fresh(Repr - old(Repr))
    {
      if initialized {
        return 1;
      }
      events := [];
      Repr := {};
      initialized := true;
      accessDelayMs := delayMs;
      return 0;
    }

    /** Drops the event list; fails if there is none. The access delay stays. */
    method Terminate() returns (rc: nat)
      requires Valid()
      modifies this
      ensures Valid()
      ensures !old(initialized) ==> rc == 1 && !initialized && events == []
      ensures old(initialized) ==> rc == 0 && !initialized && events == []
      ensures accessDelayMs == old(accessDelayMs)
      ensures fresh(Repr - old(Repr))
    {
      if !initialized {
        return 1;
      }
      events := [];
      Repr := {};
      initialized := false;
      return 0;
    }

    /** Appends a new event with all seats free, unless the store is not initialised or the
        id is taken. */
    method Create(id: nat, rows: nat, cols: nat) returns (rc: nat)
      requires Valid()
      modifies this
      ensures Valid()
      ensures initialized == old(initialized) && accessDelayMs == old(accessDelayMs)
      ensures rc == 0 || rc == 1
      ensures rc == 0 <==> old(initialized) && id !in old(Ids())
      ensures rc == 1 ==> events == old(events)
      ensures rc == 0 ==>
        |events| == |old(events)| + 1 && events[..|old(events)|] == old(events) &&
        var e := events[|old(events)|];
        fresh(e) && fresh(e.seats) && e.id == id && e.rows == rows && e.cols == cols &&
        e.reservations == 0 && e.seats[..] == seq(rows * cols, _ => 0)
      ensures rc == 0 ==> Ids() == old(Ids()) + [id] && Lookup(id) == Some(|old(events)|)
      ensures fresh(Repr - old(Repr))
    {
      if !initialized {
        return 1;
      }
      if Lookup(id).Some? {
        return 1;
      }
      var e := new Event(id, rows, cols);
      Append(e);
      return 0;
    }

    /** Puts an event whose id is new at the tail of the list; the store comes to own the
        event and its seat array. */
    method Append(e: Event)
      requires Valid() && initialized && e.Valid()
      requires e !in Repr && e.seats !in Repr
      requires e.id !in Ids()
      modifies this
      ensures Valid() && initialized && accessDelayMs == old(accessDelayMs)
      ensures events == old(events) + [e] && Repr == old(Repr) + {e, e.seats}
      ensures Ids() == old(Ids()) + [e.id] && Lookup(e.id) == Some(|old(events)|)
    {
      events := events + [e];
      Repr := Repr + {e, e.seats};
      assert Ids() == old(Ids()) + [e.id];
    }

    /** Reserves the n seats (xs[t], ys[t]) of event id under the next reservation id. The
        requests are first sorted by column, then by row; the seats are taken all or none. */
    method Reserve(id: nat, n: nat, xs: array<nat>, ys: array<nat>) returns (rc: nat)
      requires Valid()
      requires 1 <= n <= xs.Length && n <= ys.Length && xs != ys
      requires xs !in Repr && ys !in Repr
      modifies xs, ys, Repr
      ensures Valid()
      ensures rc == 0 || rc == 1
      ensures !initialized || old(Lookup(id)).None? ==>
        rc == 1 && xs[..] == old(xs[..]) && ys[..] == old(ys[..]) &&
        forall e | e in events :: e.reservations == old(e.reservations) && e.seats[..] == old(e.seats[..])
      ensures initialized && old(Lookup(id)).Some? ==>
        var k := old(Lookup(id)).value;
        var e := events[k];
        var m := multiset(Zip(old(xs[..n]), old(ys[..n])));
        var rid := Inc32(old(e.reservations));
        // the requests come out sorted by column, then row, and are the same requests
        multiset(Zip(xs[..n], ys[..n])) == m && LexSorted(Zip(ys[..n], xs[..n])) &&
        multiset(Zip(ys[..n], xs[..n])) == multiset(Zip(old(ys[..n]), old(xs[..n]))) &&
        xs[n..] == old(xs[n..]) && ys[n..] == old(ys[n..]) &&
        // all or nothing
        (rc == 0 <==> Reservable(e.rows, e.cols, old(e.seats[..]), m, rid)) &&
        (rc == 0 ==> e.reservations == rid && e.seats[..] == Granted(old(e.seats[..]), e.rows, e.cols, m, rid)) &&
        (rc == 1 ==> e.reservations == old(e.reservations) && e.seats[..] == old(e.seats[..])) &&
        // the other events are untouched
        forall j :: 0 <= j < |events| && j != k ==>
          events[j].reservations == old(events[j].reservations) && events[j].seats[..] == old(events[j].seats[..])
    {
      if !initialized {
        return 1;
      }
      var found := Lookup(id);
      if found.None? {
        return 1;
      }
      rc := ReserveAt(found.value, n, xs, ys);
    }

    /** The reservation on the event at position k, once the lookup has found it. */
    method ReserveAt(k: nat, n: nat, xs: array<nat>, ys: array<nat>) returns (rc: nat)
      requires Valid() && k < |events|
      requires 1 <= n <= xs.Length && n <= ys.Length && xs != ys
      requires xs !in Repr && ys !in Repr
      modifies xs, ys, events[k], events[k].seats
      ensures Valid()
      ensures rc == 0 || rc == 1
      ensures multiset(Zip(xs[..n], ys[..n])) == multiset(Zip(old(xs[..n]), old(ys[..n])))
      ensures multiset(Zip(ys[..n], xs[..n])) == multiset(Zip(old(ys[..n]), old(xs[..n])))
      ensures LexSorted(Zip(ys[..n], xs[..n]))
      ensures xs[n..] == old(xs[n..]) && ys[n..] == old(ys[n..])
      ensures rc == 0 <==> Reservable(events[k].rows, events[k].cols, old(events[k].seats[..]),
        multiset(Zip(old(xs[..n]), old(ys[..n]))), Inc32(old(events[k].reservations)))
      ensures rc == 0 ==> events[k].reservations == Inc32(old(events[k].reservations))
      ensures rc == 0 ==> events[k].seats[..] == Granted(old(events[k].seats[..]), events[k].rows, events[k].cols,
        multiset(Zip(old(xs[..n]), old(ys[..n]))), events[k].reservations)
      ensures rc == 1 ==> events[k].reservations == old(events[k].reservations) && events[k].seats[..] == old(events[k].seats[..])
      ensures forall j :: 0 <= j < |events| && j != k ==>
        events[j] != events[k] && events[j].seats != events[k].seats
    {
      var e := events[k];
      assert e.Valid();
      forall j | 0 <= j < |events| && j != k
        ensures events[j] != e && events[j].seats != e.seats
      {
        assert events[j].seats != events[k].seats;
      }
      ghost var g0, c0 := e.seats[..], e.reservations;
      ghost var m := multiset(Zip(xs[..n], ys[..n]));
      rc := e.Reserve(xs, ys, n);
      assert events == old(events) && e == events[k];
      assert LexSorted(Zip(ys[..n], xs[..n]));
      assert rc == 0 <==> Reservable(e.rows, e.cols, g0, m, Inc32(c0));
      forall j | 0 <= j < |events| && j != k
        ensures events[j].Valid()
      {
        assert old(events[j].Valid());
      }
    }

    /** The seat grid of event id as text: one line per row, the seat values of the row
        separated by single spaces. */
    method Show(id: nat) returns (rc: nat, out: string)
      requires Valid()
      ensures !initialized || Lookup(id).None? ==> rc == 1 && out == ""
      ensures initialized && Lookup(id).Some? ==>
        var e := events[Lookup(id).value];
        rc == 0 && out == GridText(e.seats[..], e.rows, e.cols)
    {
      if !initialized {
        return 1, "";
      }
      var found := Lookup(id);
      if found.None? {
        return 1, "";
      }
      var e := events[found.value];
      assert e.Valid();
      ghost var g := e.seats[..];
      var buffer := "";
      var i := 1;
      while i <= e.rows
        invariant 1 <= i <= e.rows + 1
        invariant buffer == Lines(GridLines(g, e.rows, e.cols, i - 1))
      {
        var line := e.RowLine(i);
        GridLinesSnoc(g, e.rows, e.cols, i - 1);
        buffer := buffer + line + "\n";
        i := i + 1;
      }
      return 0, buffer;
    }

    /** One "Event: <id>" line per event, in creation order, or "No events" when there is
        none. */
    method ListEvents() returns (rc: nat, out: string)
      requires Valid()
      ensures !initialized ==> rc == 1 && out == ""
      ensures initialized ==> rc == 0 && out == ListText(Ids())
    {
      if !initialized {
        return 1, "";
      }
      if |events| == 0 {
        return 0, NoEvents;
      }
      var buffer := "";
      var k := 0;
      while k < |events|
        invariant k <= |events|
        invariant buffer == Lines(EventLines(Ids()[..k]))
      {
        var line := EventPrefix + Cell(events[k].id);
        assert EventLines(Ids()[..k + 1]) == EventLines(Ids()[..k]) + [line];
        LinesSnoc(EventLines(Ids()[..k]), line);
        buffer := buffer + line + "\n";
        k := k + 1;
      }
      assert Ids()[..k] == Ids();
      return 0, buffer;
    }
  }
}
