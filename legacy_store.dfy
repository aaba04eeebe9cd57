/** ParkingListViewModel.kt in the root package: the earlier, purely local
    store, with reservations that embed their lot and list their slot labels.
    Its `TimeSlot` is taken to be the record of data/model/TimeSlot.kt. */
module LegacyStore {
  import opened Collections
  import opened KotlinInt
  import opened KotlinText
  import opened TimeSlotModel
  import ParkingStore

  /** Parkinglot.kt. */
  datatype LegacyParkingLot = LegacyParkingLot(id: Int32, name: string, address: string, pricePerHour: Int32, isAvailable: bool)

  /** Reservation.kt; `isOngoing` defaults to false. */
  datatype LegacyReservation = LegacyReservation(
    id: Int32, parking: LegacyParkingLot, timeSlots: seq<string>, totalPrice: Int32, isOngoing: bool)

  /** The six example lots the store starts with. */
  const INITIAL_LOTS: seq<LegacyParkingLot> := [
    LegacyParkingLot(1, "공대 1호관 주차장 1", "49m", 2000, false),
    LegacyParkingLot(2, "공대 1호관 주차장 2", "50m", 2000, true),
    LegacyParkingLot(3, "공대 2호관 주차장 1", "117m", 1800, false),
    LegacyParkingLot(4, "공대 2호관 주차장 2", "129m", 1800, true),
    LegacyParkingLot(5, "어울림관 주차장", "162m", 1500, false),
    LegacyParkingLot(6, "기술대학관 주차장", "251m", 2200, true)
  ]

  /** The largest id of a non-empty history. */
  function MaxLegacyId(h: seq<LegacyReservation>): (m: Int32)
    requires h != []
    ensures exists x | x in h :: x.id == m
    ensures forall x | x in h :: x.id <= m
  {
    MaxOfKey(h, (x: LegacyReservation) => x.id as int)
  }

  /** `getNextReservationId`: `(maxOfOrNull { it.id } ?: 0) + 1` in `Int`
      arithmetic; it is fresh unless the largest id is `Int.MAX_VALUE`. */
  function LegacyNextId(h: seq<LegacyReservation>): (r: Int32)
    ensures h == [] ==> r == 1
    ensures (forall x | x in h :: x.id < INT32_MAX) ==>
              (forall x | x in h :: x.id < r) && (h != [] ==> exists x | x in h :: r == x.id + 1)
  {
    Wrap32((if h == [] then 0 else MaxLegacyId(h)) + 1)
  }

  /** `filterNot { it.id == reservationId || it.isOngoing }`. */
  function LegacyCancel(h: seq<LegacyReservation>, reservationId: Int32): (r: seq<LegacyReservation>)
    ensures IsSubsequence(r, h)
    ensures forall x | x in r :: x.id != reservationId && !x.isOngoing
    ensures forall x | x in h && x.id != reservationId && !x.isOngoing :: multiset(r)[x] == multiset(h)[x]
  {
    Filter(h, (x: LegacyReservation) => !(x.id == reservationId || x.isOngoing))
  }

  /** `map { if (it.id == reservationId) it.copy(isOngoing = flag) else it }`. */
  function SetOngoing(h: seq<LegacyReservation>, reservationId: Int32, flag: bool): (r: seq<LegacyReservation>)
    ensures |r| == |h|
    ensures forall i | 0 <= i < |h| && h[i].id != reservationId :: r[i] == h[i]
    ensures forall i | 0 <= i < |h| && h[i].id == reservationId :: r[i] == h[i].(isOngoing := flag)
  {
    MapSeq((x: LegacyReservation) => if x.id == reservationId then x.(isOngoing := flag) else x, h)
  }

  /** Ending after starting is the same as ending alone; both are idempotent. */
  lemma StartThenEnd(h: seq<LegacyReservation>, reservationId: Int32)
    ensures SetOngoing(SetOngoing(h, reservationId, true), reservationId, false) == SetOngoing(h, reservationId, false)
    ensures SetOngoing(SetOngoing(h, reservationId, true), reservationId, true) == SetOngoing(h, reservationId, true)
  {
  }

  /** The six fixed hours before pricing. */
  const LEGACY_BASE_SLOTS: seq<TimeSlot> := [
    NewTimeSlot("08:00", "09:00"),
    NewTimeSlot("09:00", "10:00"),
    NewTimeSlot("10:00", "11:00"),
    NewTimeSlot("11:00", "12:00"),
    NewTimeSlot("12:00", "13:00"),
    NewTimeSlot("13:00", "14:00")
  ]

  /** `getTimeSlotsForParking`: the six hours, each repriced at the lot's rate. */
  function LegacyTimeSlotsForParking(parking: LegacyParkingLot): (r: seq<TimeSlot>)
    ensures |r| == 6
    ensures forall i | 0 <= i < 6 :: r[i].price == parking.pricePerHour
  {
    MapSeq((t: TimeSlot) => CopyWithPrice(t, parking.pricePerHour), LEGACY_BASE_SLOTS)
  }

  lemma HourLabelValue(n: int, s: string)
    requires 0 <= n <= 23 && |s| == 5
    requires s[0] == DigitChar(n / 10) && s[1] == DigitChar(n % 10) && s[2..] == ":00"
    ensures HourLabel(n) == s
  {
    HourLabelDigits(n);
  }

  /** Slot i runs from hour 8 + i to hour 9 + i, in the 24-slot catalog's
      label format. */
  lemma LegacyTimeSlotsAreHours(parking: LegacyParkingLot)
    ensures var r := LegacyTimeSlotsForParking(parking);
            forall i | 0 <= i < 6 :: r[i].startTime == HourLabel(8 + i) && r[i].endTime == HourLabel(9 + i)
  {
    assert DigitChar(0) == '0' && DigitChar(1) == '1' && DigitChar(2) == '2' && DigitChar(3) == '3';
    assert DigitChar(8) == '8' && DigitChar(9) == '9';
    HourLabelValue(8, "08:00");
    HourLabelValue(9, "09:00");
    HourLabelValue(10, "10:00");
    HourLabelValue(11, "11:00");
    HourLabelValue(12, "12:00");
    HourLabelValue(13, "13:00");
    HourLabelValue(14, "14:00");
  }

  /** The six slots are hours 8 to 13 of the 24-slot catalog, at any price:
      same labels, in the same order. */
  lemma LegacyTimeSlotsWithinDay(lot: LegacyParkingLot, parking: ParkingStore.ParkingLot)
    ensures var r := LegacyTimeSlotsForParking(lot);
            var c := ParkingStore.TimeSlotsForParking(parking);
            forall i | 0 <= i < 6 :: Label(r[i]) == Label(c[8 + i])
  {
    var r := LegacyTimeSlotsForParking(lot);
    var c := ParkingStore.TimeSlotsForParking(parking);
    LegacyTimeSlotsAreHours(lot);
    forall i | 0 <= i < 6 ensures Label(r[i]) == Label(c[8 + i]) {
      assert (8 + i + 1) % 24 == 9 + i;
      assert c[8 + i].startTime == HourLabel(8 + i) && c[8 + i].endTime == HourLabel(9 + i);
    }
  }

  /** `flatMap { it.timeSlots }`. */
  function AllSlots(h: seq<LegacyReservation>): (r: seq<string>)
    ensures forall l | l in r :: exists x | x in h :: l in x.timeSlots
    ensures forall x, l | x in h && l in x.timeSlots :: l in r
  {
    if h == [] then []
    else
      assert forall x | x in h :: x == h[0] || x in h[1..];
      h[0].timeSlots + AllSlots(h[1..])
  }

  /** `getReservedTimeSlots`: the union of every reservation's labels. */
  function LegacyReservedTimeSlots(h: seq<LegacyReservation>): (r: set<string>)
    ensures forall l :: l in r <==> exists x | x in h :: l in x.timeSlots
  {
    set l | l in AllSlots(h)
  }

  /** `newSlots.any { it in allReservedSlots }`. */
  function AnyIn(newSlots: seq<string>, all: seq<string>): bool
  {
    if newSlots == [] then false else newSlots[0] in all || AnyIn(newSlots[1..], all)
  }

  /** `hasTimeConflict`. */
  function HasTimeConflict(h: seq<LegacyReservation>, newSlots: seq<string>): bool
  {
    AnyIn(newSlots, AllSlots(h))
  }

  /** A conflict exists iff some new label is already one of some reservation's
      labels; in particular there is none for an empty request. */
  lemma {:induction false} HasTimeConflictIff(h: seq<LegacyReservation>, newSlots: seq<string>)
    ensures HasTimeConflict(h, newSlots) <==>
              exists l, x | l in newSlots && x in h :: l in x.timeSlots
    ensures newSlots == [] ==> !HasTimeConflict(h, newSlots)
    decreases |newSlots|
  {
    if newSlots != [] {
      HasTimeConflictIff(h, newSlots[1..]);
      var l0 := newSlots[0];
      assert HasTimeConflict(h, newSlots) == (l0 in AllSlots(h) || HasTimeConflict(h, newSlots[1..]));
      if l0 in AllSlots(h) {
        var x :| x in h && l0 in x.timeSlots;
        assert l0 in newSlots;
      }
      if HasTimeConflict(h, newSlots[1..]) {
        var l, x :| l in newSlots[1..] && x in h && l in x.timeSlots;
        assert l in newSlots;
      }
      if exists l, x | l in newSlots && x in h :: l in x.timeSlots {
        var l, x :| l in newSlots && x in h && l in x.timeSlots;
        if l == l0 {
          assert l0 in AllSlots(h);
        } else {
          assert l in newSlots[1..];
          assert exists l', x' | l' in newSlots[1..] && x' in h :: l' in x'.timeSlots;
        }
      }
    }
  }

  /** A conflict is the same as a new label among the reserved labels. */
  lemma HasTimeConflictReserved(h: seq<LegacyReservation>, newSlots: seq<string>)
    ensures HasTimeConflict(h, newSlots) <==> exists l | l in newSlots :: l in LegacyReservedTimeSlots(h)
  {
    HasTimeConflictIff(h, newSlots);
  }

  /** The store. The lot list is fixed after construction. */
  class LegacyParkingListViewModel {
    var parkingList: seq<LegacyParkingLot>
    var reservationHistory: seq<LegacyReservation>

    constructor()
      ensures parkingList == INITIAL_LOTS && reservationHistory == []
    {
      parkingList := INITIAL_LOTS;
      reservationHistory := [];
    }

    /** `addReservation`: appended at the end. */
    method AddReservation(reservation: LegacyReservation)
      modifies this
      ensures reservationHistory == old(reservationHistory) + [reservation]
      ensures parkingList == old(parkingList)
    {
      reservationHistory := reservationHistory + [reservation];
    }

    method GetNextReservationId() returns (id: Int32)
      ensures id == LegacyNextId(reservationHistory)
    {
      id := LegacyNextId(reservationHistory);
    }

    /** `cancelReservation`: removes that reservation and, with it, every
        ongoing one. */
    method CancelReservation(reservationId: Int32)
      modifies this
      ensures reservationHistory == LegacyCancel(old(reservationHistory), reservationId)
      ensures parkingList == old(parkingList)
    {
      reservationHistory := LegacyCancel(reservationHistory, reservationId);
    }

    method GetReservedTimeSlots() returns (labels: set<string>)
      ensures labels == LegacyReservedTimeSlots(reservationHistory)
    {
      labels := LegacyReservedTimeSlots(reservationHistory);
    }

    method CheckTimeConflict(newSlots: seq<string>) returns (conflict: bool)
      ensures conflict == HasTimeConflict(reservationHistory, newSlots)
    {
      conflict := HasTimeConflict(reservationHistory, newSlots);
    }

    method MarkReservationStarted(reservationId: Int32)
      modifies this
      ensures reservationHistory == SetOngoing(old(reservationHistory), reservationId, true)
      ensures parkingList == old(parkingList)
    {
      reservationHistory := SetOngoing(reservationHistory, reservationId, true);
    }

    method MarkReservationEnded(reservationId: Int32)
      modifies this
      ensures reservationHistory == SetOngoing(old(reservationHistory), reservationId, false)
      ensures parkingList == old(parkingList)
    {
      reservationHistory := SetOngoing(reservationHistory, reservationId, false);
    }
  }
}
