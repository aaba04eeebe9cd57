/** viewmodel/ParkingListViewModel.kt: the client's reservation store.

    The view-model holds two lists, the parking lots and the user's
    reservation history, and every operation replaces a list wholesale: a
    per-id status update (`map`), a removal (`filterNot`) or the result of a
    fetch. Each remote call becomes a parameter: `success` for "the HTTP
    response was successful" (false covers both an unsuccessful status and a
    thrown exception, which have the same effect on the state), and an
    `Option` holding the parsed body for the fetches (None: the call threw;
    `fetchParkingLots` and `fetchMyReservations` catch that, `loadParkingLots`
    does not). */
module ParkingStore {
  import opened Collections
  import opened KotlinInt
  import opened KotlinText
  import opened TimeSlotModel

  /** data/model/Parkinglot.kt. */
  datatype ParkingLot = ParkingLot(
    id: Int32,
    name: string,
    distance: Int32,
    pricePerHour: Int32,
    availableSlots: Int32,
    isAvailable: bool,
    imageUrl: Option<string>)

  /** The reservation record as the code constructs it (id, lot name,
      physical slot, time range, price, status string, barrier flag). */
  datatype Reservation = Reservation(
    id: Int64,
    parkingLotName: string,
    slotId: Int64,
    slotNumber: Int32,
    startTime: string,
    endTime: string,
    totalPrice: Int32,
    status: string,
    isSlotOpened: bool)

  /** One element of the `GET /reservations/my` response. */
  datatype ReservationDto = ReservationDto(
    reservationId: Int64,
    parkingLotName: string,
    slotId: Int64,
    slotNumber: Int32,
    startTime: string,
    endTime: string,
    totalPrice: Int32,
    status: string,
    isSlotOpened: bool)

  /** The reservation statuses the server uses. */
  const RESERVED: string := "RESERVED"
  const ACTIVE: string := "ACTIVE"
  const CANCELLED: string := "CANCELLED"
  const COMPLETED: string := "COMPLETED"

  /** The string `"\${it.startTime}~\${it.endTime}"` of line 130: the `\$`
      escapes make it a fixed text, not an interpolation. */
  const ESCAPED_TEMPLATE: string := "${it.startTime}~${it.endTime}"

  // ---------------------------------------------------------------------------
  // Parsing a fetched reservation list

  function ToReservation(d: ReservationDto): (r: Reservation)
    ensures r.id == d.reservationId && r.parkingLotName == d.parkingLotName
    ensures r.slotId == d.slotId && r.slotNumber == d.slotNumber
    ensures r.startTime == d.startTime && r.endTime == d.endTime
    ensures r.totalPrice == d.totalPrice && r.status == d.status
    ensures r.isSlotOpened == d.isSlotOpened
  {
    Reservation(d.reservationId, d.parkingLotName, d.slotId, d.slotNumber,
                d.startTime, d.endTime, d.totalPrice, d.status, d.isSlotOpened)
  }

  /** `response.map { Reservation(...) }`: order and length are kept. */
  function ParseReservations(ds: seq<ReservationDto>): (r: seq<Reservation>)
    ensures |r| == |ds|
    ensures forall i | 0 <= i < |ds| :: r[i] == ToReservation(ds[i])
  {
    if ds == [] then [] else [ToReservation(ds[0])] + ParseReservations(ds[1..])
  }

  // ---------------------------------------------------------------------------
  // Per-id updates (`map { if (it.id == id) it.copy(...) else it }`)

  /** Apply `f` to the entries whose id is `id`, keep the others. */
  function UpdateWhere(h: seq<Reservation>, id: Int64, f: Reservation -> Reservation): (r: seq<Reservation>)
    ensures |r| == |h|
    ensures forall i | 0 <= i < |h| :: r[i] == if h[i].id == id then f(h[i]) else h[i]
  {
    if h == [] then []
    else [if h[0].id == id then f(h[0]) else h[0]] + UpdateWhere(h[1..], id, f)
  }

  /** `updateReservationStatusLocally` (and the update inside
      `cancelReservationFromServer`): matching entries get the new status and
      nothing else changes; the other entries, the length and the order are kept. */
  function WithStatus(h: seq<Reservation>, id: Int64, status: string): (r: seq<Reservation>)
    ensures |r| == |h|
    ensures forall i | 0 <= i < |h| && h[i].id != id :: r[i] == h[i]
    ensures forall i | 0 <= i < |h| && h[i].id == id ::
              r[i].status == status && r[i].(status := h[i].status) == h[i]
  {
    UpdateWhere(h, id, (x: Reservation) => x.(status := status))
  }

  /** `markReservationStarted` (true) / `markReservationEnded` (false): matching
      entries get the barrier flag, nothing else changes. */
  function WithSlotOpened(h: seq<Reservation>, id: Int64, flag: bool): (r: seq<Reservation>)
    ensures |r| == |h|
    ensures forall i | 0 <= i < |h| && h[i].id != id :: r[i] == h[i]
    ensures forall i | 0 <= i < |h| && h[i].id == id ::
              r[i].isSlotOpened == flag && r[i].(isSlotOpened := h[i].isSlotOpened) == h[i]
  {
    UpdateWhere(h, id, (x: Reservation) => x.(isSlotOpened := flag))
  }

  /** Setting the same status twice is the same as setting it once. */
  lemma WithStatusIdempotent(h: seq<Reservation>, id: Int64, status: string)
    ensures WithStatus(WithStatus(h, id, status), id, status) == WithStatus(h, id, status)
  {
    var once := WithStatus(h, id, status);
    var twice := WithStatus(once, id, status);
    forall i | 0 <= i < |h| ensures twice[i] == once[i] {
      if h[i].id == id {
        assert once[i].id == id && twice[i].(status := once[i].status) == once[i];
      }
    }
  }

  /** Setting the same barrier flag twice is the same as setting it once. */
  lemma WithSlotOpenedIdempotent(h: seq<Reservation>, id: Int64, flag: bool)
    ensures WithSlotOpened(WithSlotOpened(h, id, flag), id, flag) == WithSlotOpened(h, id, flag)
  {
    var once := WithSlotOpened(h, id, flag);
    var twice := WithSlotOpened(once, id, flag);
    forall i | 0 <= i < |h| ensures twice[i] == once[i] {
      if h[i].id == id {
        assert once[i].id == id && twice[i].(isSlotOpened := once[i].isSlotOpened) == once[i];
      }
    }
  }

  /** What a successful `closeBarrier` does to the history: status
      "COMPLETED" and flag cleared on the matching entries, whatever their
      previous status; everything else untouched. */
  function AfterClose(h: seq<Reservation>, id: Int64): (r: seq<Reservation>)
    ensures |r| == |h|
    ensures forall i | 0 <= i < |h| && h[i].id != id :: r[i] == h[i]
    ensures forall i | 0 <= i < |h| && h[i].id == id ::
              r[i] == h[i].(status := COMPLETED, isSlotOpened := false)
  {
    var completed := WithStatus(h, id, COMPLETED);
    var r := WithSlotOpened(completed, id, false);
    assert forall i | 0 <= i < |h| :: completed[i].id == h[i].id;
    r
  }

  // ---------------------------------------------------------------------------
  // Removal, ids, catalog, reserved labels, availability

  /** `cancelReservation`: drop exactly the entries with this id and keep the
      others, in order and with their multiplicities. */
  function RemoveId(h: seq<Reservation>, id: Int64): (r: seq<Reservation>)
    ensures IsSubsequence(r, h)
    ensures forall x | x in r :: x.id != id
    ensures forall x | x in h && x.id != id :: multiset(r)[x] == multiset(h)[x]
  {
    Filter(h, (x: Reservation) => x.id != id)
  }

  /** The largest id of a non-empty history. */
  function MaxId(h: seq<Reservation>): (m: Int64)
    requires h != []
    ensures exists x | x in h :: x.id == m
    ensures forall x | x in h :: x.id <= m
  {
    MaxOfKey(h, (x: Reservation) => x.id as int)
  }

  /** `getNextReservationId`: `(maxOfOrNull { it.id } ?: 0) + 1` in `Long`
      arithmetic. It is 1 for an empty history and, unless the largest id is
      `Long.MAX_VALUE`, exactly one more than the largest id. */
  function NextReservationId(h: seq<Reservation>): (r: Int64)
    ensures h == [] ==> r == 1
    ensures (forall x | x in h :: x.id < INT64_MAX) ==>
              (forall x | x in h :: x.id < r) && (h != [] ==> exists x | x in h :: r == x.id + 1)
  {
    Wrap64((if h == [] then 0 else MaxId(h)) + 1)
  }

  /** The catalog slot for one hour of the day. */
  function HourSlot(hour: int, price: Int32): (t: TimeSlot)
    requires 0 <= hour < 24
    ensures t.startTime == HourLabel(hour) && t.endTime == HourLabel((hour + 1) % 24)
    ensures t.price == price
  {
    var next := Rem24(hour + 1);
    assert next == (hour + 1) % 24;
    CopyWithPrice(NewTimeSlot(HourLabel(hour), HourLabel(next)), price)
  }

  /** `getTimeSlotsForParking`: the 24 one-hour slots of a day, each at the
      lot's hourly price; slot i runs from "%02d:00" of i to "%02d:00" of
      (i + 1) % 24 (Kotlin's `%`, which agrees with Dafny's for these values). */
  function TimeSlotsForParking(parking: ParkingLot): (c: seq<TimeSlot>)
    ensures |c| == 24
    ensures forall i | 0 <= i < 24 ::
              c[i].startTime == HourLabel(i) && c[i].endTime == HourLabel((i + 1) % 24)
              && c[i].price == parking.pricePerHour
  {
    seq(24, (hour: int) requires 0 <= hour < 24 => HourSlot(hour, parking.pricePerHour))
  }

  /** Each slot ends where the next begins, the last one where the first begins. */
  lemma CatalogChained(parking: ParkingLot)
    ensures var c := TimeSlotsForParking(parking);
            (forall i | 0 <= i < 23 :: c[i].endTime == c[i + 1].startTime)
            && c[23].endTime == c[0].startTime
  {
    var c := TimeSlotsForParking(parking);
    forall i | 0 <= i < 23 ensures c[i].endTime == c[i + 1].startTime {
      assert (i + 1) % 24 == i + 1;
    }
    assert c[23].endTime == HourLabel(0);
  }

  /** Catalog order is label order, so no two labels (and no two slots) coincide. */
  lemma CatalogLabelsOrdered(parking: ParkingLot, i: int, j: int)
    requires 0 <= i < j < 24
    ensures var c := TimeSlotsForParking(parking);
            LexLess(Label(c[i]), Label(c[j])) && Label(c[i]) != Label(c[j])
  {
    var c := TimeSlotsForParking(parking);
    HourLabelOrdered(i, j);
    LabelOrderedByStart(c[i], c[j]);
    LexLessIrreflexive(Label(c[i]));
  }

  /** All labels of the catalog are distinct; hence so are its slots. */
  lemma CatalogLabelsDistinct(parking: ParkingLot)
    ensures var c := TimeSlotsForParking(parking);
            (forall i, j | 0 <= i < 24 && 0 <= j < 24 && i != j :: Label(c[i]) != Label(c[j]))
            && NoDuplicates(c)
  {
    var c := TimeSlotsForParking(parking);
    forall i, j | 0 <= i < 24 && 0 <= j < 24 && i != j ensures Label(c[i]) != Label(c[j]) {
      if i < j { CatalogLabelsOrdered(parking, i, j); } else { CatalogLabelsOrdered(parking, j, i); }
    }
  }

  /** `getReservedTimeSlots` as written: one fixed string per reservation, so
      the set is empty or holds just that string. */
  function ReservedTimeSlots(h: seq<Reservation>): (r: set<string>)
    ensures h == [] ==> r == {}
    ensures h != [] ==> r == {ESCAPED_TEMPLATE}
  {
    var r := set x | x in h :: ESCAPED_TEMPLATE;
    assert h != [] ==> h[0] in h && ESCAPED_TEMPLATE in r;
    r
  }

  /** Consequence of the escaped template: no catalog label is ever reported as
      reserved, whatever the history holds. */
  lemma ReservedTimeSlotsMissCatalog(h: seq<Reservation>, parking: ParkingLot)
    ensures forall t | t in TimeSlotsForParking(parking) :: Label(t) !in ReservedTimeSlots(h)
  {
    forall t | t in TimeSlotsForParking(parking) ensures Label(t) !in ReservedTimeSlots(h) {
      assert |Label(t)| == 11;
    }
  }

  /** The evidently intended `getReservedTimeSlots`: the "start~end" text of
      every reservation in the history. */
  function ReservedLabels(h: seq<Reservation>): (r: set<string>)
    ensures forall x | x in h :: x.startTime + "~" + x.endTime in r
    ensures forall l | l in r :: exists x | x in h :: l == x.startTime + "~" + x.endTime
  {
    set x | x in h :: x.startTime + "~" + x.endTime
  }

  /** A history holding a 09:00-10:00 reservation: the intended set reports
      the catalog label "09:00~10:00" as reserved, the set as written does not. */
  lemma ReservedTimeSlotsCounterexample(r: Reservation, parking: ParkingLot)
    requires r.startTime == "09:00" && r.endTime == "10:00"
    ensures Label(TimeSlotsForParking(parking)[9]) == "09:00~10:00"
    ensures "09:00~10:00" in ReservedLabels([r])
    ensures "09:00~10:00" !in ReservedTimeSlots([r])
  {
    var c := TimeSlotsForParking(parking);
    assert c[9].startTime == "09:00" && c[9].endTime == "10:00" by {
      assert (9 + 1) % 24 == 10;
      HourLabelDigits(9);
      HourLabelDigits(10);
    }
    assert "09:00~10:00" in ReservedLabels([r]) by {
      assert r.startTime + "~" + r.endTime == "09:00~10:00";
    }
    assert |"09:00~10:00"| != |ESCAPED_TEMPLATE|;
  }

  /** A catalog slot covered by a reservation with the same start and end is
      reported by the intended set. */
  lemma ReservedLabelsCoverCatalog(h: seq<Reservation>, parking: ParkingLot, i: int)
    requires 0 <= i < 24
    requires exists x | x in h :: x.startTime == TimeSlotsForParking(parking)[i].startTime
                                  && x.endTime == TimeSlotsForParking(parking)[i].endTime
    ensures Label(TimeSlotsForParking(parking)[i]) in ReservedLabels(h)
  {
    var x :| x in h && x.startTime == TimeSlotsForParking(parking)[i].startTime
                    && x.endTime == TimeSlotsForParking(parking)[i].endTime;
    assert x.startTime + "~" + x.endTime in ReservedLabels(h);
  }

  /** `it.copy(isAvailable = it.availableSlots > 0, distance = it.distance)`. */
  function WithAvailability(lot: ParkingLot): (r: ParkingLot)
    ensures r.isAvailable <==> lot.availableSlots > 0
    ensures r.(isAvailable := lot.isAvailable) == lot
  {
    lot.(isAvailable := lot.availableSlots > 0, distance := lot.distance)
  }

  /** The list `fetchParkingLots` stores: every lot with its derived flag. */
  function DeriveAvailability(lots: seq<ParkingLot>): (r: seq<ParkingLot>)
    ensures |r| == |lots|
    ensures forall i | 0 <= i < |lots| :: r[i] == WithAvailability(lots[i])
  {
    if lots == [] then [] else [WithAvailability(lots[0])] + DeriveAvailability(lots[1..])
  }

  // ---------------------------------------------------------------------------
  // The view-model

  class ParkingListViewModel {
    var parkingList: seq<ParkingLot>
    var reservationHistory: seq<Reservation>

    /** Starts empty and runs `fetchParkingLots` (its `init` block). */
    constructor(fetchedLots: Option<seq<ParkingLot>>)
      ensures reservationHistory == []
      ensures parkingList == if fetchedLots.Some? then DeriveAvailability(fetchedLots.value) else []
    {
      parkingList := [];
      reservationHistory := [];
      new;
      FetchParkingLots(fetchedLots);
    }

    /** `loadParkingLots`: the repository's list replaces the lot list. This
        call has no `catch`: None stands for a repository call that throws,
        which escapes the coroutine; no assignment has run, so both lists
        are as they were. */
    method LoadParkingLots(lots: Option<seq<ParkingLot>>)
      modifies this
      ensures parkingList == if lots.Some? then lots.value else old(parkingList)
      ensures reservationHistory == old(reservationHistory)
    {
      if lots.Some? {
        parkingList := lots.value;
      }
    }

    /** `cancelReservationFromServer`: only on success are the matching
        entries marked "CANCELLED" (kept, not removed); the status is not
        checked here. */
    method CancelReservationFromServer(reservationId: Int64, success: bool) returns (ok: bool)
      modifies this
      ensures ok == success
      ensures reservationHistory ==
                if success then WithStatus(old(reservationHistory), reservationId, CANCELLED)
                else old(reservationHistory)
      ensures parkingList == old(parkingList)
    {
      if success {
        reservationHistory := WithStatus(reservationHistory, reservationId, CANCELLED);
      }
      ok := success;
    }

    /** `fetchMyReservations`: the parsed response replaces the history; an
        exception (None) leaves it unchanged. */
    method FetchMyReservations(response: Option<seq<ReservationDto>>)
      modifies this
      ensures reservationHistory ==
                if response.Some? then ParseReservations(response.value) else old(reservationHistory)
      ensures parkingList == old(parkingList)
    {
      if response.Some? {
        reservationHistory := ParseReservations(response.value);
      }
    }

    /** `fetchParkingLots`: the lots with `isAvailable` derived replace the
        list; an exception (None) leaves it unchanged. */
    method FetchParkingLots(response: Option<seq<ParkingLot>>)
      modifies this
      ensures parkingList ==
                if response.Some? then DeriveAvailability(response.value) else old(parkingList)
      ensures reservationHistory == old(reservationHistory)
    {
      if response.Some? {
        parkingList := DeriveAvailability(response.value);
      }
    }

    method GetNextReservationId() returns (id: Int64)
      ensures id == NextReservationId(reservationHistory)
      ensures reservationHistory == [] ==> id == 1
    {
      id := NextReservationId(reservationHistory);
    }

    /** `cancelReservation`: local removal of the entries with this id. */
    method CancelReservation(reservationId: Int64)
      modifies this
      ensures reservationHistory == RemoveId(old(reservationHistory), reservationId)
      ensures parkingList == old(parkingList)
    {
      reservationHistory := RemoveId(reservationHistory, reservationId);
    }

    method GetReservedTimeSlots() returns (labels: set<string>)
      ensures labels == ReservedTimeSlots(reservationHistory)
      ensures reservationHistory != [] ==> labels == {ESCAPED_TEMPLATE}
    {
      labels := ReservedTimeSlots(reservationHistory);
    }

    method MarkReservationStarted(reservationId: Int64)
      modifies this
      ensures reservationHistory == WithSlotOpened(old(reservationHistory), reservationId, true)
      ensures parkingList == old(parkingList)
    {
      reservationHistory := WithSlotOpened(reservationHistory, reservationId, true);
    }

    /** `openBarrier`: the command goes to the physical slot; only a
        successful response sets the flag, and the status is kept. */
    method OpenBarrier(reservationId: Int64, slotId: Int64, success: bool) returns (ok: bool)
      modifies this
      ensures ok == success
      ensures reservationHistory ==
                if success then WithSlotOpened(old(reservationHistory), reservationId, true)
                else old(reservationHistory)
      ensures parkingList == old(parkingList)
    {
      if success {
        MarkReservationStarted(reservationId);
      }
      ok := success;
    }

    /** `closeBarrier`: only on success, status "COMPLETED" then flag cleared. */
    method CloseBarrier(reservationId: Int64, slotId: Int64, success: bool) returns (ok: bool)
      modifies this
      ensures ok == success
      ensures reservationHistory ==
                if success then AfterClose(old(reservationHistory), reservationId)
                else old(reservationHistory)
      ensures parkingList == old(parkingList)
    {
      if success {
        UpdateReservationStatusLocally(reservationId, COMPLETED);
        MarkReservationEnded(reservationId);
      }
      ok := success;
    }

    method MarkReservationEnded(reservationId: Int64)
      modifies this
      ensures reservationHistory == WithSlotOpened(old(reservationHistory), reservationId, false)
      ensures parkingList == old(parkingList)
    {
      reservationHistory := WithSlotOpened(reservationHistory, reservationId, false);
    }

    method UpdateReservationStatusLocally(reservationId: Int64, newStatus: string)
      modifies this
      ensures reservationHistory == WithStatus(old(reservationHistory), reservationId, newStatus)
      ensures parkingList == old(parkingList)
    {
      reservationHistory := WithStatus(reservationHistory, reservationId, newStatus);
    }
  }
}
