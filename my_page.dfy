/** screens/mypage/MyPageTabScreen.kt: the reservation history tabs and what
    each reservation card offers. */
module MyPage {
  import opened Collections
  import opened KotlinInt
  import opened ParkingStore

  // ---------------------------------------------------------------------------
  // Tabs

  /** The status a tab stands for: 대기, 활성, 완료, 취소됨 are tabs 1 to 4;
      전체 (0), like any other index, stands for no status. */
  function TabStatus(tab: int): Option<string>
  {
    if tab == 1 then Some(RESERVED)
    else if tab == 2 then Some(ACTIVE)
    else if tab == 3 then Some(COMPLETED)
    else if tab == 4 then Some(CANCELLED)
    else None
  }

  /** `filtered`: the history as the selected tab shows it. */
  function Filtered(reservations: seq<Reservation>, tab: int): (r: seq<Reservation>)
    ensures IsSubsequence(r, reservations)
    ensures TabStatus(tab).None? ==> r == reservations
    ensures TabStatus(tab).Some? ==>
              forall x | x in reservations ::
                multiset(r)[x] == if x.status == TabStatus(tab).value then multiset(reservations)[x] else 0
  {
    if tab == 1 then Filter(reservations, (x: Reservation) => x.status == RESERVED)
    else if tab == 2 then Filter(reservations, (x: Reservation) => x.status == ACTIVE)
    else if tab == 3 then Filter(reservations, (x: Reservation) => x.status == COMPLETED)
    else if tab == 4 then Filter(reservations, (x: Reservation) => x.status == CANCELLED)
    else IsSubsequenceReflexive(reservations); reservations
  }

  /** A status tab shows only reservations of its status, and each of them. */
  lemma FilteredMembers(reservations: seq<Reservation>, tab: int, x: Reservation)
    requires TabStatus(tab).Some?
    ensures x in Filtered(reservations, tab) <==> x in reservations && x.status == TabStatus(tab).value
  {
    var r := Filtered(reservations, tab);
    SubsequenceMembers(r, reservations);
    if x in reservations {
      assert x in r <==> multiset(r)[x] > 0;
    }
  }

  /** No reservation shows up under two status tabs. */
  lemma StatusTabsDisjoint(reservations: seq<Reservation>, i: int, j: int, x: Reservation)
    requires TabStatus(i).Some? && TabStatus(j).Some? && i != j
    ensures !(x in Filtered(reservations, i) && x in Filtered(reservations, j))
  {
    TabStatusInjective(i, j);
    FilteredMembers(reservations, i, x);
    FilteredMembers(reservations, j, x);
  }

  lemma TabStatusInjective(i: int, j: int)
    requires TabStatus(i).Some? && TabStatus(j).Some? && i != j
    ensures TabStatus(i).value != TabStatus(j).value
  {
    assert 1 <= i <= 4 && 1 <= j <= 4;
    assert RESERVED[0] == 'R' && ACTIVE[0] == 'A' && COMPLETED[1] == 'O' && CANCELLED[1] == 'A';
  }

  // ---------------------------------------------------------------------------
  // The card

  const UNKNOWN_LABEL: string := "알 수 없음"

  /** `statusLabel`. */
  function StatusLabel(status: string): string
  {
    if status == RESERVED then "대기"
    else if status == ACTIVE then "활성"
    else if status == CANCELLED then "취소"
    else if status == COMPLETED then "완료"
    else UNKNOWN_LABEL
  }

  predicate IsKnownStatus(status: string)
  {
    status == RESERVED || status == ACTIVE || status == CANCELLED || status == COMPLETED
  }

  /** Unknown statuses, and only those, read "알 수 없음"; the four known
      statuses all read differently. */
  lemma StatusLabelDistinguishes(s: string, t: string)
    ensures StatusLabel(s) == UNKNOWN_LABEL <==> !IsKnownStatus(s)
    ensures IsKnownStatus(s) && StatusLabel(s) == StatusLabel(t) ==> s == t
  {
  }

  /** The navigation target of the gate button:
      `"$path/${reservation.id}/${reservation.slotId}"`. */
  datatype GateRoute = GateRoute(path: string, reservationId: Int64, slotId: Int64)

  /** What a card shows and offers. */
  datatype CardActions = CardActions(
    statusLabel: string,
    showCancel: bool,
    cancelEnabled: bool,
    gate: Option<GateRoute>,
    gateText: string,
    showStatusControl: bool)

  /** `ReservationCard`. The gate text is only shown when there is a gate
      button. */
  function ReservationCardActions(r: Reservation): CardActions
  {
    var canCancel := r.status == RESERVED;
    var isActive := r.status == ACTIVE;
    var path := if r.isSlotOpened then "exitNotice" else "notice";
    CardActions(
      StatusLabel(r.status),
      r.status == RESERVED,
      canCancel,
      if isActive then Some(GateRoute(path, r.id, r.slotId)) else None,
      if r.isSlotOpened then "주차 종료" else "주차 시작",
      r.status == RESERVED)
  }

  /** The cancel button appears, and is then enabled, only for a reservation
      still waiting; the manual status control likewise. */
  lemma CancelOnlyWhenReserved(r: Reservation)
    ensures var a := ReservationCardActions(r);
            (a.showCancel <==> r.status == RESERVED) && (a.showCancel ==> a.cancelEnabled)
            && (a.showStatusControl <==> r.status == RESERVED)
  {
  }

  /** The gate button appears only for an active reservation; it leads to the
      exit notice iff the barrier is open, and carries the reservation's ids. */
  lemma GateOnlyWhenActive(r: Reservation)
    ensures var a := ReservationCardActions(r);
            (a.gate.Some? <==> r.status == ACTIVE)
            && (a.gate.Some? ==> (a.gate.value.path == "exitNotice" <==> r.isSlotOpened)
                                 && (a.gate.value.path == "exitNotice" || a.gate.value.path == "notice")
                                 && a.gate.value.reservationId == r.id && a.gate.value.slotId == r.slotId
                                 && (a.gateText == "주차 종료" <==> a.gate.value.path == "exitNotice"))
  {
  }

  /** A card never offers both cancelling and using the gate. */
  lemma CancelAndGateExclusive(r: Reservation)
    ensures var a := ReservationCardActions(r);
            !(a.showCancel && a.gate.Some?)
  {
  }

  /** After a successful server cancel, every card of that reservation reads
      "취소" and offers nothing. */
  lemma CancelledCardOffersNothing(h: seq<Reservation>, id: Int64, i: int)
    requires 0 <= i < |h| && h[i].id == id
    ensures var a := ReservationCardActions(WithStatus(h, id, CANCELLED)[i]);
            a.statusLabel == "취소" && !a.showCancel && a.gate.None? && !a.showStatusControl
  {
  }

  /** After opening the barrier of an active reservation, its card's gate
      button leads to the exit notice ("주차 종료"). */
  lemma OpenedCardLeadsToExit(h: seq<Reservation>, id: Int64, i: int)
    requires 0 <= i < |h| && h[i].id == id && h[i].status == ACTIVE
    ensures var a := ReservationCardActions(WithSlotOpened(h, id, true)[i]);
            a.gate == Some(GateRoute("exitNotice", h[i].id, h[i].slotId)) && a.gateText == "주차 종료"
  {
  }

  /** After closing the barrier, the card reads "완료" and offers nothing,
      whatever the reservation's status was. */
  lemma ClosedCardOffersNothing(h: seq<Reservation>, id: Int64, i: int)
    requires 0 <= i < |h| && h[i].id == id
    ensures var a := ReservationCardActions(AfterClose(h, id)[i]);
            a.statusLabel == "완료" && !a.showCancel && a.gate.None? && !a.showStatusControl
  {
  }
}
