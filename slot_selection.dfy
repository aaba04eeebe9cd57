/** screens/reservation/SlotSelectionScreen.kt: picking a physical slot and
    turning the server's answer into the pending reservation.

    The labels arriving here are the "HH:00~HH:00" labels chosen on the
    reservation screen. The reservation's start is the smallest label itself;
    its end is computed from the hour in front of the largest label's first
    ':'. */
module SlotSelection {
  import opened Collections
  import opened KotlinInt
  import opened KotlinText
  import opened ParkingStore
  import ContinuousTime

  /** data/dto/ParkingSlotDTO.kt: one physical slot as the server lists it.
      The DTO's `opened` field is `isOpened` here: `opened` is a keyword. */
  datatype ParkingSlotDto = ParkingSlotDto(id: Int64, slotNumber: Int32, available: bool, isOpened: bool)

  /** The body of `POST /reservations`. */
  datatype ReservationRequest = ReservationRequest(slotId: Int64, timeSlots: seq<string>)

  /** The fields of the creation response's body that the screen reads. */
  datatype ReservationBody = ReservationBody(reservationId: Int64, slotId: Int64, totalPrice: Int32, status: string)

  /** What `createReservation` came back with: an HTTP response (successful
      or not, with a body or without), or an exception. */
  datatype CreateOutcome = Responded(isSuccessful: bool, body: Option<ReservationBody>) | Threw

  /** `timeSlots.sorted().first()`. */
  function StartTime(timeSlots: seq<string>): (r: string)
    requires |timeSlots| > 0
    ensures r in timeSlots && forall x | x in timeSlots :: LexLe(r, x)
  {
    MinOf(timeSlots)
  }

  /** `substringBefore(":").toIntOrNull() ?: 0`. */
  function EndHour(last: string): Int32
  {
    match ToIntOrNull(SubstringBefore(last, ':'))
    case Some(h) => h
    case None => 0
  }

  /** `String.format("%02d:00", (hour + 1) % 24)` of the largest label, with
      `Int` addition and Kotlin's truncating remainder. */
  function EndTime(timeSlots: seq<string>): string
    requires |timeSlots| > 0
  {
    NextHourLabel(EndHour(MaxOf(timeSlots)))
  }

  /** `String.format("%02d:00", (hour + 1) % 24)`. */
  function NextHourLabel(hour: Int32): string
  {
    HourLabel(Rem24(Wrap32(hour + 1)))
  }

  /** `parkingList.firstOrNull { it.id == parkingLotId.toInt() }`. */
  function FindLot(lots: seq<ParkingLot>, parkingLotId: Int64): (r: Option<ParkingLot>)
    ensures r.None? <==> forall p | p in lots :: p.id != Wrap32(parkingLotId)
    ensures r.Some? ==> exists k | 0 <= k < |lots| :: lots[k] == r.value && r.value.id == Wrap32(parkingLotId)
                          && forall j | 0 <= j < k :: lots[j].id != Wrap32(parkingLotId)
  {
    if lots == [] then None
    else if lots[0].id == Wrap32(parkingLotId) then Some(lots[0])
    else
      var r := FindLot(lots[1..], parkingLotId);
      assert forall p | p in lots :: p == lots[0] || p in lots[1..];
      if r.Some? then
        var k :| 0 <= k < |lots[1..]| && lots[1..][k] == r.value && r.value.id == Wrap32(parkingLotId)
                 && forall j | 0 <= j < k :: lots[1..][j].id != Wrap32(parkingLotId);
        assert lots[k + 1] == r.value;
        assert forall j | 0 <= j < k + 1 :: lots[j].id != Wrap32(parkingLotId) by {
          forall j | 0 <= j < k + 1 ensures lots[j].id != Wrap32(parkingLotId) {
            if j > 0 {
              assert lots[j] == lots[1..][j - 1];
            }
          }
        }
        r
      else r
  }

  /** The pending reservation built after `createReservation` (None when
      nothing is built). An empty label list makes `first()` throw, which the
      surrounding `catch` turns into a message. */
  function BuildReservation(outcome: CreateOutcome, timeSlots: seq<string>, lots: seq<ParkingLot>,
                            parkingLotId: Int64, slotNumber: Int32): Option<Reservation>
  {
    match outcome
    case Threw => None
    case Responded(ok, body) =>
      if !ok || timeSlots == [] then None
      else
        var lot := FindLot(lots, parkingLotId);
        if body.None? || lot.None? then None
        else
          var b := body.value;
          Some(Reservation(b.reservationId, lot.value.name, b.slotId, slotNumber,
                           StartTime(timeSlots), EndTime(timeSlots), b.totalPrice, b.status,
                           b.status == ACTIVE))
  }

  /** A reservation is built exactly when the call answered successfully, the
      labels are non-empty, the body is present and the lot is in the list. */
  lemma BuildReservationIff(outcome: CreateOutcome, timeSlots: seq<string>, lots: seq<ParkingLot>,
                            parkingLotId: Int64, slotNumber: Int32)
    ensures BuildReservation(outcome, timeSlots, lots, parkingLotId, slotNumber).Some? <==>
              outcome.Responded? && outcome.isSuccessful && timeSlots != [] && outcome.body.Some?
              && exists p | p in lots :: p.id == Wrap32(parkingLotId)
  {
  }

  /** The fields of the built reservation: identity, slot, price and status from
      the body, the slot number from the user's pick, the lot's name, the times
      from the labels, and the gate flag from the status. */
  lemma BuildReservationFields(outcome: CreateOutcome, timeSlots: seq<string>, lots: seq<ParkingLot>,
                               parkingLotId: Int64, slotNumber: Int32)
    requires BuildReservation(outcome, timeSlots, lots, parkingLotId, slotNumber).Some?
    ensures var r := BuildReservation(outcome, timeSlots, lots, parkingLotId, slotNumber).value;
            var b := outcome.body.value;
            r.id == b.reservationId && r.slotId == b.slotId && r.totalPrice == b.totalPrice
            && r.status == b.status && r.slotNumber == slotNumber
            && (r.isSlotOpened <==> b.status == ACTIVE)
            && (exists p | p in lots :: p.id == Wrap32(parkingLotId) && r.parkingLotName == p.name)
            && r.startTime in timeSlots && (forall x | x in timeSlots :: LexLe(r.startTime, x))
            && r.endTime == EndTime(timeSlots)
  {
  }

  /** A label of the 24-slot catalog: hour i to hour (i + 1) % 24. */
  predicate IsCatalogLabel(l: string)
  {
    exists i | 0 <= i < 24 :: l == HourLabel(i) + "~" + HourLabel((i + 1) % 24)
  }

  /** The hour before the first ':' of catalog label i is i, and the part after
      its '~' is the next hour. */
  lemma CatalogLabelParts(i: int)
    requires 0 <= i < 24
    ensures EndHour(HourLabel(i) + "~" + HourLabel((i + 1) % 24)) == i
    ensures SubstringAfter(HourLabel(i) + "~" + HourLabel((i + 1) % 24), '~') == HourLabel((i + 1) % 24)
  {
    var l := HourLabel(i) + "~" + HourLabel((i + 1) % 24);
    assert l == Pad2(i) + [':'] + ("00~" + HourLabel((i + 1) % 24));
    SplitAtFirst(Pad2(i), ':', "00~" + HourLabel((i + 1) % 24));
    ParsePad2(i);
    assert l == HourLabel(i) + ['~'] + HourLabel((i + 1) % 24);
    SplitAtFirst(HourLabel(i), '~', HourLabel((i + 1) % 24));
  }

  /** For labels of the 24-slot catalog the computed end time is the end part
      of the largest label ("23:00~00:00" gives "00:00"). */
  lemma EndTimeOfCatalogLabels(timeSlots: seq<string>)
    requires |timeSlots| > 0 && forall l | l in timeSlots :: IsCatalogLabel(l)
    ensures EndTime(timeSlots) == SubstringAfter(MaxOf(timeSlots), '~')
  {
    var m := MaxOf(timeSlots);
    var i :| 0 <= i < 24 && m == HourLabel(i) + "~" + HourLabel((i + 1) % 24);
    CatalogLabelParts(i);
    NextHour(i);
  }

  /** When the largest label does not start with an integer, the hour falls
      back to 0 and the end time is "01:00". */
  lemma EndTimeFallback(timeSlots: seq<string>)
    requires |timeSlots| > 0 && ToIntOrNull(SubstringBefore(MaxOf(timeSlots), ':')).None?
    ensures EndTime(timeSlots) == "01:00"
  {
    assert EndHour(MaxOf(timeSlots)) == 0;
    NextHour(0);
    HourLabelOne();
  }

  lemma NextHour(h: int)
    requires 0 <= h < 24
    ensures Rem24(Wrap32(h + 1)) == (h + 1) % 24
  {
  }

  lemma HourLabelOne()
    ensures HourLabel(1) == "01:00"
  {
    HourLabelDigits(1);
    assert DigitChar(0) == '0' && DigitChar(1) == '1';
  }

  /** The labels of the 24-slot catalog really are catalog labels. */
  lemma CatalogLabelsAreCatalogLabels(parking: ParkingLot, i: int)
    requires 0 <= i < 24
    ensures IsCatalogLabel(TimeSlotModel.Label(TimeSlotsForParking(parking)[i]))
  {
  }

  /** The evidently intended start time: the start part of the smallest
      label, as `formatContinuousTime` computes it. */
  function CorrectedStartTime(timeSlots: seq<string>): (r: string)
    requires |timeSlots| > 0
    ensures '~' !in r && r <= MinOf(timeSlots)
    ensures '~' in MinOf(timeSlots) ==> MinOf(timeSlots) == r + "~" + SubstringAfter(MinOf(timeSlots), '~')
  {
    SubstringBefore(MinOf(timeSlots), '~')
  }

  /** One selected hour 09:00-10:00: as written, the pending reservation's
      start is the whole label, so the payment screen, which prints
      `startTime ~ endTime`, reads "09:00~10:00 ~ 10:00"; the corrected start
      gives "09:00 ~ 10:00". */
  lemma StartTimeCounterexample()
    ensures StartTime(["09:00~10:00"]) + " ~ " + EndTime(["09:00~10:00"]) == "09:00~10:00 ~ 10:00"
    ensures CorrectedStartTime(["09:00~10:00"]) + " ~ " + EndTime(["09:00~10:00"]) == "09:00 ~ 10:00"
  {
    var l := "09:00~10:00";
    NineToTenParts();
    assert StartTime([l]) == l;
    NineToTenTexts();
  }

  /** The two time texts, character by character. */
  lemma NineToTenTexts()
    ensures "09:00~10:00" + " ~ " + "10:00" == "09:00~10:00 ~ 10:00"
    ensures "09:00" + " ~ " + "10:00" == "09:00 ~ 10:00"
  {
  }

  /** The start part, the computed end and the minimum of the one label "09:00~10:00". */
  lemma NineToTenParts()
    ensures CorrectedStartTime(["09:00~10:00"]) == "09:00"
    ensures EndTime(["09:00~10:00"]) == "10:00"
  {
    var l := "09:00~10:00";
    assert MinOf([l]) == l && MaxOf([l]) == l;
    assert l == "09:00" + ['~'] + "10:00";
    SplitAtFirst("09:00", '~', "10:00");
    NineToTenEnd();
  }

  lemma NineToTenEnd()
    ensures EndHour("09:00~10:00") == 9 && NextHourLabel(9) == "10:00"
  {
    NineToTenLabel();
    CatalogLabelParts(9);
    NextHourOfNine();
  }

  lemma NextHourOfNine()
    ensures NextHourLabel(9) == HourLabel(10)
  {
    NextHour(9);
  }

  /** "09:00~10:00" is the catalog label of hour 9. */
  lemma NineToTenLabel()
    ensures HourLabel(9) + "~" + HourLabel((9 + 1) % 24) == "09:00~10:00"
    ensures HourLabel(10) == "10:00"
  {
    HourLabelDigits(9);
    HourLabelDigits(10);
    assert DigitChar(0) == '0' && DigitChar(1) == '1' && DigitChar(9) == '9';
  }

  /** For catalog labels, the corrected start is the first selected hour and
      never the start as written. */
  lemma CorrectedStartOfCatalogLabels(timeSlots: seq<string>, i: int)
    requires |timeSlots| > 0 && 0 <= i < 24
    requires MinOf(timeSlots) == HourLabel(i) + "~" + HourLabel((i + 1) % 24)
    ensures CorrectedStartTime(timeSlots) == HourLabel(i)
    ensures StartTime(timeSlots) != CorrectedStartTime(timeSlots)
  {
    assert MinOf(timeSlots) == HourLabel(i) + ['~'] + HourLabel((i + 1) % 24);
    SplitAtFirst(HourLabel(i), '~', HourLabel((i + 1) % 24));
    assert '~' in StartTime(timeSlots) by {
      assert StartTime(timeSlots)[|HourLabel(i)|] == '~';
    }
  }

  /** For catalog labels, the corrected start, a '~' and the computed end are
      exactly what `formatContinuousTime` shows for the same labels. */
  lemma CorrectedTimesMatchFormat(timeSlots: seq<string>)
    requires |timeSlots| > 0 && forall l | l in timeSlots :: IsCatalogLabel(l)
    ensures CorrectedStartTime(timeSlots) + "~" + EndTime(timeSlots) == ContinuousTime.FormatContinuousTime(timeSlots)
  {
    EndTimeOfCatalogLabels(timeSlots);
  }

  /** The screen's state: the listed slots and the user's pick. */
  class SlotSelectionState {
    var slots: seq<ParkingSlotDto>
    var selectedSlotId: Option<Int64>
    var selectedSlotNumber: Option<Int32>

    /** Both halves of the pick are set together. */
    ghost predicate Valid()
      reads this
    {
      selectedSlotId.Some? <==> selectedSlotNumber.Some?
    }

    constructor()
      ensures slots == [] && selectedSlotId == None && selectedSlotNumber == None && Valid()
    {
      slots := [];
      selectedSlotId := None;
      selectedSlotNumber := None;
    }

    /** The launched `getAvailableSlots` call: the list is replaced on success
        and kept when the call throws. */
    method LoadSlots(fetched: Option<seq<ParkingSlotDto>>)
      modifies this
      ensures fetched.Some? ==> slots == fetched.value
      ensures fetched.None? ==> slots == old(slots)
      ensures selectedSlotId == old(selectedSlotId) && selectedSlotNumber == old(selectedSlotNumber)
    {
      if fetched.Some? {
        slots := fetched.value;
      }
    }

    /** A click on a listed slot; the button of an unavailable slot is
        disabled, so it never fires. */
    method Pick(slot: ParkingSlotDto)
      requires Valid() && slot in slots
      modifies this
      ensures Valid() && slots == old(slots)
      ensures slot.available ==> selectedSlotId == Some(slot.id) && selectedSlotNumber == Some(slot.slotNumber)
      ensures !slot.available ==>
                selectedSlotId == old(selectedSlotId) && selectedSlotNumber == old(selectedSlotNumber)
    {
      if slot.available {
        selectedSlotId := Some(slot.id);
        selectedSlotNumber := Some(slot.slotNumber);
      }
    }

    /** `enabled = selectedSlotId != null` of the reserve button. */
    method SubmitEnabled() returns (enabled: bool)
      ensures enabled <==> selectedSlotId.Some?
    {
      enabled := selectedSlotId.Some?;
    }

    /** The reserve button's handler: no request without a full pick;
        otherwise the request for the picked slot and, from the server's
        outcome, the pending reservation. */
    method Submit(timeSlots: seq<string>, lots: seq<ParkingLot>, parkingLotId: Int64, outcome: CreateOutcome)
      returns (request: Option<ReservationRequest>, pending: Option<Reservation>)
      ensures request.Some? <==> selectedSlotId.Some? && selectedSlotNumber.Some?
      ensures request.Some? ==> request.value == ReservationRequest(selectedSlotId.value, timeSlots)
      ensures request.None? ==> pending.None?
      ensures request.Some? ==>
                pending == BuildReservation(outcome, timeSlots, lots, parkingLotId, selectedSlotNumber.value)
    {
      if selectedSlotId.None? || selectedSlotNumber.None? {
        return None, None;
      }
      request := Some(ReservationRequest(selectedSlotId.value, timeSlots));
      pending := BuildReservation(outcome, timeSlots, lots, parkingLotId, selectedSlotNumber.value);
    }
  }
}
