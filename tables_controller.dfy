/**
 * The tables controller: seating a reservation at a table (the
 * `assignReservationId` chain), finishing a table (`deleteReservationId`),
 * reading a table, and the validators of the `create` chain.
 *
 * A chain runs its guards in order and the first guard that fails answers
 * with its HTTP error. A chain that passes every guard ends in one atomic
 * update of the table's `reservation_id` and the reservation's status.
 */
module TablesController {
  import opened Wrappers
  import opened Js
  import opened Text
  import RS = ReservationsService

  /** A row of the tables table; `reservationId` is the reservation seated there, or null. */
  datatype Table = Table(tableId: int, tableName: string, capacity: int, reservationId: Option<int>)

  /** An id in JavaScript's sense of truthy: neither null nor missing, and not 0. */
  predicate IdTruthy(id: Option<int>) {
    id.Some? && id.value != 0
  }

  /** The `data` of a seating request body. */
  datatype SeatRequest = SeatRequest(reservationId: Option<int>)

  /** The two tables the controller reads and writes, keyed by their primary keys. */
  datatype Store = Store(tables: map<int, Table>, reservations: map<int, RS.Reservation>)

  /** Each row sits under its own id. */
  predicate Keyed(s: Store) {
    (forall k :: k in s.tables ==> s.tables[k].tableId == k)
    && (forall k :: k in s.reservations ==> s.reservations[k].reservationId == k)
  }

  const Seated: string := "seated"

  const DataMissing := HttpError(400, "data is missing from request")
  const IdMissing := HttpError(400, "reservation_id is missing from request")
  const AlreadySeated := HttpError(400, "Reservation is already 'seated'")

  function ReservationNotFound(id: int): HttpError {
    HttpError(404, "Reservation with id: " + IntToString(id) + " was not found")
  }

  function TableNotFound(id: int): HttpError {
    HttpError(404, "Table with id: " + IntToString(id) + " was not found")
  }

  function TableOccupied(id: int): HttpError {
    HttpError(400, "Table id is occupied: " + IntToString(id))
  }

  function TooManyGuests(people: int): HttpError {
    HttpError(400, "Too many guests ( " + IntToString(people)
      + " ) for table size. Please choose table with capacity.")
  }

  function NotOccupied(id: int): HttpError {
    HttpError(400, "Table with id: " + IntToString(id) + " is not occupied")
  }

  /**
   * What the seating chain answers: the error of the first guard that fails,
   * or the table with the reservation's id written into it.
   */
  function SeatOutcome(s: Store, tableId: int, data: Option<SeatRequest>): (r: Result<Table, HttpError>)
    ensures r.Ok? ==> data.Some? && IdTruthy(data.value.reservationId)
    ensures r.Ok? ==> data.value.reservationId.value in s.reservations && tableId in s.tables
    ensures r.Ok? ==> r.value == s.tables[tableId].(reservationId := data.value.reservationId)
    ensures r.Err? ==> r.error.status == 400 || r.error.status == 404
  {
    if data.None? then Err(DataMissing)
    else if !IdTruthy(data.value.reservationId) then Err(IdMissing)
    else
      var rid := data.value.reservationId.value;
      if rid !in s.reservations then Err(ReservationNotFound(rid))
      else if s.reservations[rid].status == Seated then Err(AlreadySeated)
      else if tableId !in s.tables then Err(TableNotFound(tableId))
      else if IdTruthy(s.tables[tableId].reservationId) then Err(TableOccupied(s.tables[tableId].tableId))
      else if s.tables[tableId].capacity < s.reservations[rid].people then
        Err(TooManyGuests(s.reservations[rid].people))
      else Ok(s.tables[tableId].(reservationId := Some(rid)))
  }

  /** The store after the seating chain: the update runs only when every guard passed. */
  function AfterSeat(s: Store, tableId: int, data: Option<SeatRequest>): (t: Store)
    ensures SeatOutcome(s, tableId, data).Err? ==> t == s
    ensures t.tables.Keys == s.tables.Keys && t.reservations.Keys == s.reservations.Keys
  {
    match SeatOutcome(s, tableId, data)
    case Ok(table) =>
      var rid := data.value.reservationId.value;
      Store(s.tables[tableId := table], s.reservations[rid := s.reservations[rid].(status := Seated)])
    case Err(_) => s
  }

  /**
   * What the finishing chain answers: 404 for a missing table, 400 for a free
   * one, otherwise the table with its reservation id cleared.
   */
  function FinishOutcome(s: Store, tableId: int): (r: Result<Table, HttpError>)
    ensures r.Ok? ==> tableId in s.tables && IdTruthy(s.tables[tableId].reservationId)
    ensures r.Ok? ==> r.value == s.tables[tableId].(reservationId := None)
    ensures r.Err? ==> r.error.status == 400 || r.error.status == 404
  {
    if tableId !in s.tables then Err(TableNotFound(tableId))
    else if !IdTruthy(s.tables[tableId].reservationId) then Err(NotOccupied(s.tables[tableId].tableId))
    else Ok(s.tables[tableId].(reservationId := None))
  }

  /**
   * The store after the finishing chain. The bound reservation becomes
   * "finished"; an update of a reservation id with no row changes no row.
   */
  function AfterFinish(s: Store, tableId: int): (t: Store)
    ensures FinishOutcome(s, tableId).Err? ==> t == s
    ensures t.tables.Keys == s.tables.Keys && t.reservations.Keys == s.reservations.Keys
  {
    match FinishOutcome(s, tableId)
    case Ok(table) =>
      var rid := s.tables[tableId].reservationId.value;
      Store(s.tables[tableId := table],
        if rid in s.reservations then s.reservations[rid := s.reservations[rid].(status := RS.Finished)]
        else s.reservations)
    case Err(_) => s
  }

  /** The `read` chain: `tableExists`, then the table itself. */
  function ReadTable(s: Store, tableId: int): (r: Result<Table, HttpError>)
    ensures r.Ok? <==> tableId in s.tables
    ensures r.Ok? ==> r.value == s.tables[tableId]
    ensures r.Err? ==> r == Err(TableNotFound(tableId))
  {
    if tableId in s.tables then Ok(s.tables[tableId]) else Err(TableNotFound(tableId))
  }

  /** The tables and reservations as the controller sees them through the services. */
  class SeatingStore {
    var tables: map<int, Table>
    var reservations: map<int, RS.Reservation>

    function State(): Store
      reads this
    {
      Store(tables, reservations)
    }

    ghost predicate Valid()
      reads this
    {
      Keyed(State())
    }

    constructor (s: Store)
      requires Keyed(s)
      ensures Valid() && State() == s
    {
      tables := s.tables;
      reservations := s.reservations;
    }

    /** `assignReservationId`: the guards in their chain order, then `occupyTable` and `update`. */
    method Seat(tableId: int, data: Option<SeatRequest>) returns (r: Result<Table, HttpError>)
      requires Valid()
      modifies this
      ensures Valid()
      ensures r == SeatOutcome(old(State()), tableId, data)
      ensures State() == AfterSeat(old(State()), tableId, data)
    {
      // hasData
      if data.None? {
        return Err(DataMissing);
      }
      // hasReservationId
      var request := data.value;
      if !IdTruthy(request.reservationId) {
        return Err(IdMissing);
      }
      // reservationExists
      var rid := request.reservationId.value;
      if rid !in reservations {
        return Err(ReservationNotFound(rid));
      }
      var reservation := reservations[rid];
      // reservationIsBooked
      if reservation.status == Seated {
        return Err(AlreadySeated);
      }
      // tableExists
      if tableId !in tables {
        return Err(TableNotFound(tableId));
      }
      var table := tables[tableId];
      // tableIsFree
      if IdTruthy(table.reservationId) {
        return Err(TableOccupied(table.tableId));
      }
      // tableIsBigEnough
      if table.capacity < reservation.people {
        return Err(TooManyGuests(reservation.people));
      }
      // occupyTable: its closing check on the new reservation id always passes
      table := table.(reservationId := request.reservationId);
      var resId, resStatus := rid, Seated;
      assert IdTruthy(table.reservationId);
      // update: the table and the reservation together
      tables := tables[tableId := table];
      reservations := reservations[resId := reservations[resId].(status := resStatus)];
      r := Ok(table);
    }

    /** `deleteReservationId`: `tableExists`, `tableIsOccupied`, then `deOccupyTable` and `update`. */
    method Finish(tableId: int) returns (r: Result<Table, HttpError>)
      requires Valid()
      modifies this
      ensures Valid()
      ensures r == FinishOutcome(old(State()), tableId)
      ensures State() == AfterFinish(old(State()), tableId)
    {
      // tableExists
      if tableId !in tables {
        return Err(TableNotFound(tableId));
      }
      var table := tables[tableId];
      // tableIsOccupied
      if !IdTruthy(table.reservationId) {
        return Err(NotOccupied(table.tableId));
      }
      // deOccupyTable: its closing check on the cleared id always passes
      var resId := table.reservationId;
      table := table.(reservationId := None);
      var resStatus := RS.Finished;
      assert !IdTruthy(table.reservationId);
      // update: the table and the reservation together
      tables := tables[tableId := table];
      if resId.value in reservations {
        reservations := reservations[resId.value := reservations[resId.value].(status := resStatus)];
      }
      r := Ok(table);
    }
  }

  /** Every condition the seating chain checks, stated without their order. */
  predicate CanSeat(s: Store, tableId: int, data: Option<SeatRequest>) {
    && data.Some?
    && IdTruthy(data.value.reservationId)
    && data.value.reservationId.value in s.reservations
    && s.reservations[data.value.reservationId.value].status != Seated
    && tableId in s.tables
    && !IdTruthy(s.tables[tableId].reservationId)
    && s.tables[tableId].capacity >= s.reservations[data.value.reservationId.value].people
  }

  /** Seating succeeds exactly when every guard's condition holds. */
  lemma SeatSucceedsIff(s: Store, tableId: int, data: Option<SeatRequest>)
    ensures SeatOutcome(s, tableId, data).Ok? <==> CanSeat(s, tableId, data)
  {
  }

  /** A successful seat writes the id into that table and "seated" into that reservation, and nothing else. */
  lemma SeatChangesOnlyThePair(s: Store, tableId: int, data: Option<SeatRequest>)
    requires CanSeat(s, tableId, data)
    ensures var t, rid := AfterSeat(s, tableId, data), data.value.reservationId.value;
      && t.tables[tableId] == s.tables[tableId].(reservationId := Some(rid))
      && t.reservations[rid] == s.reservations[rid].(status := Seated)
      && (forall k :: k in s.tables && k != tableId ==> t.tables[k] == s.tables[k])
      && (forall k :: k in s.reservations && k != rid ==> t.reservations[k] == s.reservations[k])
  {
    SeatSucceedsIff(s, tableId, data);
  }

  /** The request of a well-formed seating call for reservation `rid`. */
  function SeatBody(rid: int): Option<SeatRequest> {
    Some(SeatRequest(Some(rid)))
  }

  /** A missing reservation answers 404 before any table is looked up: the tables do not matter. */
  lemma MissingReservationComesFirst(s: Store, tableId: int, rid: int)
    requires rid != 0 && rid !in s.reservations
    ensures SeatOutcome(s, tableId, SeatBody(rid)) == Err(ReservationNotFound(rid))
    ensures SeatOutcome(s, tableId, SeatBody(rid)) == SeatOutcome(s.(tables := map[]), tableId, SeatBody(rid))
  {
  }

  /**
   * `reservationExists` asks `read`: over the keyed view of a reservations
   * table, a row that `read` misses gives the 404, and a row it finds is the
   * row the later guards see.
   */
  lemma ReservationExistsReadsTheTable(s: Store, rows: seq<RS.Reservation>, tableId: int, rid: int)
    requires RS.UniqueIds(rows) && s.reservations == RS.ById(rows) && rid != 0
    ensures RS.Read(rows, rid).None? ==> SeatOutcome(s, tableId, SeatBody(rid)) == Err(ReservationNotFound(rid))
    ensures RS.Read(rows, rid).Some? ==> rid in s.reservations && s.reservations[rid] == RS.Read(rows, rid).value
  {
    RS.ReadAgreesWithById(rows, rid);
  }

  /** A table that is occupied and also too small reports "occupied", not the capacity error. */
  lemma OccupiedComesBeforeCapacity(s: Store, tableId: int, rid: int)
    requires Keyed(s)
    requires rid != 0 && rid in s.reservations && s.reservations[rid].status != Seated
    requires tableId in s.tables && IdTruthy(s.tables[tableId].reservationId)
    requires s.tables[tableId].capacity < s.reservations[rid].people
    ensures SeatOutcome(s, tableId, SeatBody(rid)) == Err(TableOccupied(tableId))
  {
  }

  /** At a free table with every earlier guard passed, a party fits exactly when it is no larger than the capacity. */
  lemma CapacityBoundary(s: Store, tableId: int, rid: int)
    requires rid != 0 && rid in s.reservations && s.reservations[rid].status != Seated
    requires tableId in s.tables && !IdTruthy(s.tables[tableId].reservationId)
    ensures s.tables[tableId].capacity >= s.reservations[rid].people ==>
      SeatOutcome(s, tableId, SeatBody(rid)).Ok?
    ensures s.tables[tableId].capacity < s.reservations[rid].people ==>
      SeatOutcome(s, tableId, SeatBody(rid)) == Err(TooManyGuests(s.reservations[rid].people))
  {
  }

  /** A party exactly the size of the table is seated. */
  lemma FullTableIsAccepted(s: Store, tableId: int, rid: int)
    requires rid != 0 && rid in s.reservations && s.reservations[rid].status != Seated
    requires tableId in s.tables && !IdTruthy(s.tables[tableId].reservationId)
    requires s.tables[tableId].capacity == s.reservations[rid].people
    ensures SeatOutcome(s, tableId, SeatBody(rid)) == Ok(s.tables[tableId].(reservationId := Some(rid)))
  {
    CapacityBoundary(s, tableId, rid);
  }

  /**
   * Of all statuses only "seated" blocks seating: with the reservation found,
   * the status guard fails exactly when the status is "seated", and any other
   * status gives the same answer as "booked".
   */
  lemma OnlySeatedBlocks(s: Store, tableId: int, rid: int, status: string)
    requires rid != 0 && rid in s.reservations
    ensures var s' := s.(reservations := s.reservations[rid := s.reservations[rid].(status := status)]);
      SeatOutcome(s', tableId, SeatBody(rid)) == Err(AlreadySeated) <==> status == Seated
    ensures var s' := s.(reservations := s.reservations[rid := s.reservations[rid].(status := status)]);
      var b := s.(reservations := s.reservations[rid := s.reservations[rid].(status := "booked")]);
      status != Seated ==> SeatOutcome(s', tableId, SeatBody(rid)) == SeatOutcome(b, tableId, SeatBody(rid))
  {
    var s' := s.(reservations := s.reservations[rid := s.reservations[rid].(status := status)]);
    var r := SeatOutcome(s', tableId, SeatBody(rid));
    if status != Seated && r.Err? {
      assert r.error != AlreadySeated by {
        if tableId !in s.tables {
          assert r.error.status == 404;
        } else if IdTruthy(s.tables[tableId].reservationId) {
          assert r.error.message[0] == 'T';
        } else {
          assert r.error.message[1] == 'o';
        }
      }
    }
  }

  /** Finishing a table that does not exist answers 404 and changes nothing. */
  lemma FinishMissingTable(s: Store, tableId: int)
    requires tableId !in s.tables
    ensures FinishOutcome(s, tableId) == Err(TableNotFound(tableId))
    ensures AfterFinish(s, tableId) == s
  {
  }

  /** Finishing a free table answers 400 "is not occupied" and changes nothing. */
  lemma FinishFreeTable(s: Store, tableId: int)
    requires Keyed(s) && tableId in s.tables && !IdTruthy(s.tables[tableId].reservationId)
    ensures FinishOutcome(s, tableId) == Err(NotOccupied(tableId))
    ensures AfterFinish(s, tableId) == s
  {
  }

  /**
   * Finishing an occupied table clears its reservation id and marks the bound
   * reservation "finished"; no other row changes.
   */
  lemma FinishReleasesTheTable(s: Store, tableId: int)
    requires tableId in s.tables && IdTruthy(s.tables[tableId].reservationId)
    ensures var t, rid := AfterFinish(s, tableId), s.tables[tableId].reservationId.value;
      && t.tables[tableId] == s.tables[tableId].(reservationId := None)
      && (rid in s.reservations ==> t.reservations[rid] == s.reservations[rid].(status := RS.Finished))
      && (forall k :: k in s.tables && k != tableId ==> t.tables[k] == s.tables[k])
      && (forall k :: k in s.reservations && k != rid ==> t.reservations[k] == s.reservations[k])
  {
  }

  /**
   * Seating and then finishing the same table frees it again (its reservation
   * id becomes null) and leaves the reservation "finished"; every other row is
   * as it was before the seat.
   */
  lemma SeatThenFinish(s: Store, tableId: int, data: Option<SeatRequest>)
    requires CanSeat(s, tableId, data)
    ensures var rid := data.value.reservationId.value;
      var t := AfterFinish(AfterSeat(s, tableId, data), tableId);
      && FinishOutcome(AfterSeat(s, tableId, data), tableId) == Ok(s.tables[tableId].(reservationId := None))
      && t == Store(s.tables[tableId := s.tables[tableId].(reservationId := None)],
                    s.reservations[rid := s.reservations[rid].(status := RS.Finished)])
  {
    SeatSucceedsIff(s, tableId, data);
  }

  /** A table that was empty (null) before the seat is exactly restored by the finish. */
  lemma SeatThenFinishRestoresTable(s: Store, tableId: int, data: Option<SeatRequest>)
    requires CanSeat(s, tableId, data) && s.tables[tableId].reservationId == None
    ensures AfterFinish(AfterSeat(s, tableId, data), tableId).tables == s.tables
  {
    SeatThenFinish(s, tableId, data);
    assert s.tables[tableId := s.tables[tableId].(reservationId := None)] == s.tables;
  }

  /** A read after a seat: the seated table reads back as the seat answered; every other table reads as before. */
  lemma ReadAfterSeat(s: Store, tableId: int, data: Option<SeatRequest>)
    ensures SeatOutcome(s, tableId, data).Ok? ==>
              ReadTable(AfterSeat(s, tableId, data), tableId) == SeatOutcome(s, tableId, data)
    ensures forall u :: u != tableId ==> ReadTable(AfterSeat(s, tableId, data), u) == ReadTable(s, u)
    ensures SeatOutcome(s, tableId, data).Err? ==>
              forall u :: ReadTable(AfterSeat(s, tableId, data), u) == ReadTable(s, u)
  {
    if SeatOutcome(s, tableId, data).Ok? {
      SeatChangesOnlyThePair(s, tableId, data);
    }
  }

  /** A read after a finish: the finished table reads back as the finish answered; every other table reads as before. */
  lemma ReadAfterFinish(s: Store, tableId: int)
    ensures FinishOutcome(s, tableId).Ok? ==>
              ReadTable(AfterFinish(s, tableId), tableId) == FinishOutcome(s, tableId)
    ensures forall u :: u != tableId ==> ReadTable(AfterFinish(s, tableId), u) == ReadTable(s, u)
    ensures FinishOutcome(s, tableId).Err? ==>
              forall u :: ReadTable(AfterFinish(s, tableId), u) == ReadTable(s, u)
  {
  }

  /** Finishing runs the same `tableExists` as a read: an unknown table gets the read's 404. */
  lemma FinishChecksLikeRead(s: Store, tableId: int)
    ensures ReadTable(s, tableId).Err? ==> FinishOutcome(s, tableId) == ReadTable(s, tableId)
    ensures ReadTable(s, tableId).Ok? ==>
              (FinishOutcome(s, tableId).Ok? <==> IdTruthy(ReadTable(s, tableId).value.reservationId))
  {
  }

  // The `create` chain: hasOnlyValidProperties, hasRequiredProperties, hasValidValues.

  const ValidProperties: seq<string> := ["table_name", "capacity", "reservation_id"]
  const RequiredProperties: seq<string> := ["table_name", "capacity"]

  /** The keys outside ValidProperties, in the order the body lists them. */
  function InvalidFields(keys: seq<string>): (r: seq<string>)
    ensures |r| <= |keys|
    ensures forall f :: f in r <==> f in keys && f !in ValidProperties
  {
    if keys == [] then []
    else (if keys[0] in ValidProperties then [] else [keys[0]]) + InvalidFields(keys[1..])
  }

  /** The filter keeps the body's order: the offenders of two runs of keys are listed run after run. */
  lemma {:induction false} InvalidFieldsAppend(a: seq<string>, b: seq<string>)
    ensures InvalidFields(a + b) == InvalidFields(a) + InvalidFields(b)
  {
    if a == [] {
      assert a + b == b;
    } else {
      assert (a + b)[0] == a[0];
      assert (a + b)[1..] == a[1..] + b;
      InvalidFieldsAppend(a[1..], b);
    }
  }

  /** Why the `create` chain refused a body. */
  datatype CreateRefusal =
    | Refused(error: HttpError)
      /** hasRequiredProperties.js is not part of this model: only the missing property is recorded. */
    | MissingRequired(property: string)
      /** The middleware threw a TypeError; the handler that renders it is not part of this model. */
    | Threw

  /** The request's `data`, with the `{}` default that applies when it is absent. */
  function Body(data: Option<Value>): Value {
    data.GetOr(Object([]))
  }

  /**
   * `hasOnlyValidProperties`: any key of the body outside ValidProperties is
   * refused, the offenders joined by ", "; `Object.keys(null)` throws.
   */
  function OnlyValidProperties(data: Option<Value>): (r: Option<CreateRefusal>)
    ensures r.None? <==> !Body(data).Null? && forall k :: k in ObjectKeys(Body(data)).value ==> k in ValidProperties
    ensures r == Some(Threw) <==> data == Some(Null)
    ensures r.Some? && r.value.Refused? ==> r.value.error.status == 400
    ensures r.Some? ==> r.value.Refused? || r.value.Threw?
  {
    match ObjectKeys(Body(data))
    case None => Some(Threw)
    case Some(keys) =>
      var invalid := InvalidFields(keys);
      assert |invalid| > 0 ==> invalid[0] in invalid;
      if |invalid| > 0 then Some(Refused(HttpError(400, "Invalid field(s): " + Join(invalid, ", ")))) else None
  }

  /** No index key of a string or an array is a valid property. */
  lemma IndexIsNotAProperty(i: nat)
    ensures IntToString(i) !in ValidProperties
  {
    var key := IntToString(i);
    assert IsDigit(key[0]);
    assert "table_name"[0] == 't' && "capacity"[0] == 'c' && "reservation_id"[0] == 'r';
  }

  /** Every index key is an offender, listed in index order. */
  lemma {:induction false} IndicesAreInvalid(n: nat)
    ensures InvalidFields(Indices(n)) == Indices(n)
  {
    if n > 0 {
      IndicesAreInvalid(n - 1);
      IndexIsNotAProperty(n - 1);
      InvalidFieldsAppend(Indices(n - 1), [IntToString(n - 1)]);
      assert InvalidFields([IntToString(n - 1)]) == [IntToString(n - 1)];
    }
  }

  /** `capacityIsValid`: `Number.isInteger`, which converts nothing, and at least 1. */
  function CapacityIsValid(capacity: Value): (ok: bool)
    ensures ok ==> capacity.Number? && capacity.n.Floor >= 1 && capacity.n == capacity.n.Floor as real
    ensures capacity.Number? && capacity.n == capacity.n.Floor as real ==> (ok <==> capacity.n.Floor >= 1)
  {
    IsInteger(capacity) && capacity.n >= 1.0
  }

  /** Numeric text, a fraction, zero and a negative number are all refused; one is the smallest capacity. */
  lemma CapacityExamples()
    ensures !CapacityIsValid(Str("4"))
    ensures !CapacityIsValid(Number(2.5)) && !CapacityIsValid(Number(0.0)) && !CapacityIsValid(Number(-3.0))
    ensures CapacityIsValid(Number(1.0))
  {
    assert (2.5).Floor == 2;
  }

  /**
   * `tableNameIsValid`: `tableName.length > 1`; a value without a numeric
   * `length` fails the comparison. `null.length` throws in the source; null
   * never gets here, because `ValidValues` requires a non-null name, and the
   * model's answer for it is only a placeholder.
   */
  function TableNameIsValid(tableName: Value): (ok: bool)
    ensures tableName.Str? ==> (ok <==> |tableName.s| >= 2)
    ensures tableName.Array? ==> (ok <==> |tableName.elems| >= 2)
    ensures tableName.Null? || tableName.Bool? || tableName.Number? ==> !ok
  {
    Above(Length(tableName), 1.0)
  }

  /** An object name is judged by its own numeric `length` member. */
  lemma ObjectNameRule(members: seq<Member>, n: real)
    requires UniqueKeys(members) && Member("length", Number(n)) in members
    ensures TableNameIsValid(Object(members)) <==> n > 1.0
  {
    GetMember(members, "length", Number(n));
  }

  const CapacityInvalid := HttpError(400, "capacity must be a whole number greater than or equal to 1")
  const TableNameInvalid := HttpError(400, "table_name must be more than one character")

  /**
   * `hasValidValues`: capacity first, then the name. Reading `table_name.length`
   * needs a `table_name` that is neither null nor missing.
   */
  function ValidValues(data: seq<Member>): (r: Option<HttpError>)
    requires Get(data, "table_name").Some? && Get(data, "table_name").value != Null
    ensures r.None? <==> Get(data, "capacity").Some? && CapacityIsValid(Get(data, "capacity").value)
                          && TableNameIsValid(Get(data, "table_name").value)
    ensures r.Some? ==> r == Some(CapacityInvalid) || r == Some(TableNameInvalid)
  {
    var capacity := Get(data, "capacity");
    if !(capacity.Some? && CapacityIsValid(capacity.value)) then Some(CapacityInvalid)
    else if !TableNameIsValid(Get(data, "table_name").value) then Some(TableNameInvalid)
    else None
  }

  /** `data[property]` is present and truthy. */
  predicate Present(data: seq<Member>, property: string) {
    Get(data, property).Some? && Truthy(Get(data, property).value)
  }

  /** The first required property that is missing or falsy. */
  function FirstMissing(data: seq<Member>, required: seq<string>): (r: Option<string>)
    ensures r.None? <==> forall p :: p in required ==> Present(data, p)
    ensures r.Some? ==> r.value in required && !Present(data, r.value)
  {
    if required == [] then None
    else if !Present(data, required[0]) then Some(required[0])
    else FirstMissing(data, required[1..])
  }

  /** The `create` chain's verdict on a request's `data`; an accepted body is passed on unchanged. */
  function CreateCheck(data: Option<Value>): (r: Result<Value, CreateRefusal>)
    ensures r.Ok? ==> data.Some? && data.value.Object?
    ensures r.Err? && r.error.Refused? ==> r.error.error.status == 400
  {
    var only := OnlyValidProperties(data);
    if only.Some? then Err(only.value)
    else
      var body := Members(Body(data));
      var missing := FirstMissing(body, RequiredProperties);
      if missing.Some? then Err(MissingRequired(missing.value))
      else
        assert "table_name" in RequiredProperties;
        var values := ValidValues(body);
        if values.Some? then Err(Refused(values.value)) else Ok(Body(data))
  }

  /**
   * A body is accepted exactly when it is an object with no unknown key, a
   * truthy name whose `length` is above 1, and a whole-number capacity of at least 1.
   */
  lemma CreateAcceptsIff(data: Option<Value>)
    ensures CreateCheck(data).Ok? <==>
      && data.Some? && data.value.Object?
      && (forall k :: k in Keys(data.value.members) ==> k in ValidProperties)
      && Get(data.value.members, "table_name").Some? && Truthy(Get(data.value.members, "table_name").value)
      && TableNameIsValid(Get(data.value.members, "table_name").value)
      && Get(data.value.members, "capacity").Some? && CapacityIsValid(Get(data.value.members, "capacity").value)
    ensures CreateCheck(data).Ok? ==> CreateCheck(data) == Ok(data.value)
  {
    var body := Members(Body(data));
    assert "table_name" in RequiredProperties && "capacity" in RequiredProperties;
    if !(data.Some? && data.value.Object?) {
      assert !Present(body, "table_name");
    }
  }

  /** `data: null` makes `Object.keys` throw before any check answers. */
  lemma NullDataThrows()
    ensures CreateCheck(Some(Null)) == Err(Threw)
  {
  }

  /** A non-empty string or array as `data` is refused for its index keys "0", "1", …. */
  lemma IndexedDataRefused(data: Value)
    requires (data.Str? && data.s != []) || (data.Array? && data.elems != [])
    ensures CreateCheck(Some(data))
      == Err(Refused(HttpError(400, "Invalid field(s): " + Join(ObjectKeys(data).value, ", "))))
  {
    var n := if data.Str? then |data.s| else |data.elems|;
    IndicesAreInvalid(n);
    assert ObjectKeys(data).value == Indices(n);
    assert Indices(n)[0] in Indices(n);
    IndexIsNotAProperty(0);
  }

  /** `data: "ab"` is answered 400 "Invalid field(s): 0, 1". */
  lemma TwoLetterStringRefused()
    ensures CreateCheck(Some(Str("ab"))) == Err(Refused(HttpError(400, "Invalid field(s): 0, 1")))
  {
    IndexedDataRefused(Str("ab"));
    assert IntToString(0) == "0" && IntToString(1) == "1";
    assert ObjectKeys(Str("ab")).value == ["0", "1"];
    assert Join(["0", "1"], ", ") == "0, 1";
    assert "Invalid field(s): " + "0, 1" == "Invalid field(s): 0, 1";
  }

  /** A number, a boolean, an empty string or an empty array has no keys and lacks `table_name`. */
  lemma KeylessDataLacksName(data: Value)
    requires data.Number? || data.Bool? || data == Str([]) || data == Array([])
    ensures CreateCheck(Some(data)) == Err(MissingRequired("table_name"))
  {
  }

  /** A name given as an object with a numeric own `length` above 1 passes `tableNameIsValid`. */
  lemma ObjectNameAccepted(members: seq<Member>, n: real, capacity: int)
    requires UniqueKeys(members) && Member("length", Number(n)) in members && n > 1.0 && capacity >= 1
    ensures CreateCheck(Some(Object([Member("table_name", Object(members)), Member("capacity", Number(capacity as real))]))).Ok?
  {
    var body := [Member("table_name", Object(members)), Member("capacity", Number(capacity as real))];
    ObjectNameRule(members, n);
    assert Get(body, "table_name") == Some(Object(members));
    assert Get(body, "capacity") == Some(Number(capacity as real));
    assert forall k :: k in Keys(body) ==> k in ValidProperties;
    CreateAcceptsIff(Some(Object(body)));
  }

  /** An unknown key is reported before anything else, with every offender listed. */
  lemma UnknownKeysReportedFirst(data: seq<Member>)
    requires exists k :: k in Keys(data) && k !in ValidProperties
    ensures CreateCheck(Some(Object(data)))
      == Err(Refused(HttpError(400, "Invalid field(s): " + Join(InvalidFields(Keys(data)), ", "))))
  {
  }

  /** A capacity that is not a whole number of at least 1 is reported even when the name is also too short. */
  lemma CapacityCheckedBeforeName(data: seq<Member>)
    requires forall k :: k in Keys(data) ==> k in ValidProperties
    requires Present(data, "table_name") && Present(data, "capacity")
    requires !CapacityIsValid(Get(data, "capacity").value)
    ensures CreateCheck(Some(Object(data))) == Err(Refused(CapacityInvalid))
  {
    assert OnlyValidProperties(Some(Object(data))).None?;
    assert forall p :: p in RequiredProperties ==> Present(data, p);
    assert FirstMissing(data, RequiredProperties).None?;
    assert ValidValues(data) == Some(CapacityInvalid);
  }
}
