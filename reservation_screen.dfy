/** screens/reservation/ReservationScreen.kt: choosing the hours to reserve.

    The screen keeps a mutable list of selected slots, toggled by clicks on
    the catalog's slots (a slot whose label is reserved is disabled). From it
    the screen derives, on every recomposition, the selection sorted by
    catalog position, whether those positions are consecutive, whether the
    reservation may go on, the total price and the labels handed to the next
    screen. */
module ReservationSelection {
  import opened Collections
  import opened KotlinInt
  import opened TimeSlotModel
  import ParkingStore

  // ---------------------------------------------------------------------------
  // Sorting by catalog position (`sortedBy { availableTimeSlots.indexOf(it) }`)

  /** Non-decreasing catalog positions. */
  predicate IndexSorted(catalog: seq<TimeSlot>, s: seq<TimeSlot>)
  {
    forall i, j | 0 <= i < j < |s| :: IndexOf(catalog, s[i]) <= IndexOf(catalog, s[j])
  }

  /** Insert `x` after every element whose position is not larger than its
      own, so that equal positions keep their original order (a stable sort). */
  function InsertByIndex(catalog: seq<TimeSlot>, s: seq<TimeSlot>, x: TimeSlot): (r: seq<TimeSlot>)
    ensures multiset(r) == multiset(s) + multiset{x}
    ensures IndexSorted(catalog, s) ==> IndexSorted(catalog, r)
    decreases |s|
  {
    if s == [] then [x]
    else
      var init, last := s[..|s| - 1], s[|s| - 1];
      assert s == init + [last];
      if IndexOf(catalog, last) <= IndexOf(catalog, x) then
        s + [x]
      else
        var t := InsertByIndex(catalog, init, x);
        InsertStepSorted(catalog, init, last, x, t);
        t + [last]
  }

  lemma InsertStepSorted(catalog: seq<TimeSlot>, init: seq<TimeSlot>, last: TimeSlot, x: TimeSlot, t: seq<TimeSlot>)
    requires multiset(t) == multiset(init) + multiset{x}
    requires IndexSorted(catalog, init) ==> IndexSorted(catalog, t)
    requires IndexOf(catalog, x) < IndexOf(catalog, last)
    ensures IndexSorted(catalog, init + [last]) ==> IndexSorted(catalog, t + [last])
  {
    if IndexSorted(catalog, init + [last]) {
      assert IndexSorted(catalog, init) by {
        forall i, j | 0 <= i < j < |init| ensures IndexOf(catalog, init[i]) <= IndexOf(catalog, init[j]) {
          assert (init + [last])[i] == init[i] && (init + [last])[j] == init[j];
        }
      }
      forall y | y in t ensures IndexOf(catalog, y) <= IndexOf(catalog, last) {
        assert y in multiset(t);
        if y != x {
          assert y in multiset(init);
          var k :| 0 <= k < |init| && init[k] == y;
          assert (init + [last])[k] == y && (init + [last])[|init|] == last;
        }
      }
      var r := t + [last];
      forall i, j | 0 <= i < j < |r| ensures IndexOf(catalog, r[i]) <= IndexOf(catalog, r[j]) {
        assert r[i] == t[i];
        if j == |t| {
          assert t[i] in t;
        } else {
          assert r[j] == t[j];
        }
      }
    }
  }

  /** `sortedBy { catalog.indexOf(it) }`: a permutation of the selection in
      non-decreasing catalog position. Kotlin's sort is also stable; that
      only matters for two different slots at the same position, that is,
      two slots missing from the catalog (position -1). The screen's
      selection holds only catalog slots of a duplicate-free catalog, where
      the positions of different slots differ, so the two clauses above fix
      the result and stability adds nothing. */
  function SortedSelected(catalog: seq<TimeSlot>, selected: seq<TimeSlot>): (r: seq<TimeSlot>)
    ensures multiset(r) == multiset(selected)
    ensures IndexSorted(catalog, r)
    decreases |selected|
  {
    if selected == [] then []
    else
      var init := selected[..|selected| - 1];
      assert selected == init + [selected[|selected| - 1]];
      InsertByIndex(catalog, SortedSelected(catalog, init), selected[|selected| - 1])
  }

  /** The sorted selection has the selection's length and members. */
  lemma SortedSelectedShape(catalog: seq<TimeSlot>, selected: seq<TimeSlot>)
    ensures |SortedSelected(catalog, selected)| == |selected|
    ensures forall x :: x in SortedSelected(catalog, selected) <==> x in selected
  {
    var s := SortedSelected(catalog, selected);
    assert |multiset(s)| == |multiset(selected)|;
    forall x ensures x in s <==> x in selected {
      assert x in s <==> x in multiset(s);
      assert x in selected <==> x in multiset(selected);
    }
  }

  // ---------------------------------------------------------------------------
  // Continuity, `canReserve`, the error message, the price

  /** `zipWithNext().all { (a, b) -> indexOf(b) == indexOf(a) + 1 }`. */
  predicate AdjacentPairsConsecutive(catalog: seq<TimeSlot>, s: seq<TimeSlot>)
    decreases |s|
  {
    |s| < 2 ||
    (IndexOf(catalog, s[1]) == IndexOf(catalog, s[0]) + 1 && AdjacentPairsConsecutive(catalog, s[1..]))
  }

  /** `isContinuous`. */
  predicate IsContinuous(catalog: seq<TimeSlot>, selected: seq<TimeSlot>)
  {
    AdjacentPairsConsecutive(catalog, SortedSelected(catalog, selected))
  }

  /** `canReserve = sortedSelected.isNotEmpty() && isContinuous`; the
      "continue" button is enabled exactly when it holds. */
  predicate CanReserve(catalog: seq<TimeSlot>, selected: seq<TimeSlot>)
  {
    |SortedSelected(catalog, selected)| > 0 && IsContinuous(catalog, selected)
  }

  /** The condition under which "연속된 시간을 선택해야 합니다." is shown. */
  predicate ShowsContiguityError(catalog: seq<TimeSlot>, selected: seq<TimeSlot>)
  {
    !CanReserve(catalog, selected) && |SortedSelected(catalog, selected)| > 1
  }

  /** The exact sum of the prices. */
  function SumPrices(s: seq<TimeSlot>): int
  {
    if s == [] then 0 else s[0].price + SumPrices(s[1..])
  }

  /** `selectedSlots.sumOf { it.price }`, an `Int` sum (it wraps around). */
  function TotalPrice(selected: seq<TimeSlot>): Int32
  {
    Wrap32(SumPrices(selected))
  }

  /** `isDisabled`: the slot's label is among the reserved labels. */
  predicate IsDisabled(slot: TimeSlot, reservedLabels: set<string>)
  {
    Label(slot) in reservedLabels
  }

  /** `sortedSelected.map { it.label() }`, handed on to slot selection. */
  function HandedOnLabels(catalog: seq<TimeSlot>, selected: seq<TimeSlot>): (r: seq<string>)
    ensures |r| == |SortedSelected(catalog, selected)|
    ensures forall i | 0 <= i < |r| :: r[i] == Label(SortedSelected(catalog, selected)[i])
  {
    Labels(SortedSelected(catalog, selected))
  }

  /** `map { it.label() }`. */
  function Labels(s: seq<TimeSlot>): (r: seq<string>)
    ensures |r| == |s| && forall i | 0 <= i < |s| :: r[i] == Label(s[i])
  {
    MapSeq(Label, s)
  }

  /** The zipWithNext test holds iff every element sits exactly k places
      after the first one in the catalog. */
  lemma {:induction false} AdjacentIffOffsets(catalog: seq<TimeSlot>, s: seq<TimeSlot>)
    requires |s| > 0
    ensures AdjacentPairsConsecutive(catalog, s) <==>
              forall k | 0 <= k < |s| :: IndexOf(catalog, s[k]) == IndexOf(catalog, s[0]) + k
    decreases |s|
  {
    if |s| >= 2 {
      var t := s[1..];
      AdjacentIffOffsets(catalog, t);
      if AdjacentPairsConsecutive(catalog, s) {
        forall k | 0 <= k < |s| ensures IndexOf(catalog, s[k]) == IndexOf(catalog, s[0]) + k {
          if k > 0 {
            assert s[k] == t[k - 1];
          }
        }
      }
      if forall k | 0 <= k < |s| :: IndexOf(catalog, s[k]) == IndexOf(catalog, s[0]) + k {
        forall k | 0 <= k < |t| ensures IndexOf(catalog, t[k]) == IndexOf(catalog, t[0]) + k {
          assert t[k] == s[k + 1] && t[0] == s[1];
        }
      }
    }
  }

  /** An empty or one-slot selection is always continuous. */
  lemma ShortSelectionContinuous(catalog: seq<TimeSlot>, selected: seq<TimeSlot>)
    requires |selected| <= 1
    ensures IsContinuous(catalog, selected)
  {
    SortedSelectedShape(catalog, selected);
  }

  /** `s` is the catalog's run of `|s|` slots starting at position `lo`. */
  predicate IsCatalogRun(catalog: seq<TimeSlot>, s: seq<TimeSlot>, lo: int)
  {
    0 <= lo <= |catalog| - |s| && s == catalog[lo..lo + |s|]
  }

  /** The central property: with a catalog of distinct slots and a selection
      taken from it, the selection is continuous iff, sorted, it is exactly a
      run of consecutive catalog slots. */
  lemma ContinuousIffCatalogRun(catalog: seq<TimeSlot>, selected: seq<TimeSlot>)
    requires NoDuplicates(catalog)
    requires selected != [] && forall x | x in selected :: x in catalog
    ensures IsContinuous(catalog, selected) <==>
              exists lo :: IsCatalogRun(catalog, SortedSelected(catalog, selected), lo)
  {
    var s := SortedSelected(catalog, selected);
    SortedSelectedShape(catalog, selected);
    AdjacentIffOffsets(catalog, s);
    if IsContinuous(catalog, selected) {
      ContinuousIsRun(catalog, s);
    }
    if exists lo :: IsCatalogRun(catalog, s, lo) {
      var lo :| IsCatalogRun(catalog, s, lo);
      RunIsContinuous(catalog, s, lo);
    }
  }

  lemma ContinuousIsRun(catalog: seq<TimeSlot>, s: seq<TimeSlot>)
    requires s != [] && forall x | x in s :: x in catalog
    requires forall k | 0 <= k < |s| :: IndexOf(catalog, s[k]) == IndexOf(catalog, s[0]) + k
    ensures IsCatalogRun(catalog, s, IndexOf(catalog, s[0]))
  {
    var lo, n := IndexOf(catalog, s[0]), |s|;
    assert s[0] in s && s[n - 1] in s;
    forall k | 0 <= k < n ensures catalog[lo + k] == s[k] {
      assert s[k] in s;
    }
  }

  lemma RunIsContinuous(catalog: seq<TimeSlot>, s: seq<TimeSlot>, lo: int)
    requires NoDuplicates(catalog) && s != [] && IsCatalogRun(catalog, s, lo)
    ensures forall k | 0 <= k < |s| :: IndexOf(catalog, s[k]) == IndexOf(catalog, s[0]) + k
  {
    forall k | 0 <= k < |s| ensures IndexOf(catalog, s[k]) == IndexOf(catalog, s[0]) + k {
      assert s[k] == catalog[lo + k] && s[0] == catalog[lo];
      IndexOfDistinct(catalog, lo + k);
      IndexOfDistinct(catalog, lo);
    }
  }

  /** `canReserve` holds iff the selection is non-empty and continuous. */
  lemma CanReserveIff(catalog: seq<TimeSlot>, selected: seq<TimeSlot>)
    ensures CanReserve(catalog, selected) <==> selected != [] && IsContinuous(catalog, selected)
  {
    SortedSelectedShape(catalog, selected);
  }

  /** The error text appears iff more than one slot is selected and they are
      not continuous. */
  lemma ContiguityErrorIff(catalog: seq<TimeSlot>, selected: seq<TimeSlot>)
    ensures ShowsContiguityError(catalog, selected) <==>
              |selected| > 1 && !IsContinuous(catalog, selected)
  {
    SortedSelectedShape(catalog, selected);
  }

  /** With one price per slot the sum is the count times that price. */
  lemma {:induction false} SumPricesUniform(s: seq<TimeSlot>, price: int)
    requires forall x | x in s :: x.price == price
    ensures SumPrices(s) == |s| * price
  {
    if s != [] {
      assert s[0] in s;
      assert forall x | x in s[1..] :: x in s;
      SumPricesUniform(s[1..], price);
      MulStep(|s|, price);
    }
  }

  lemma MulStep(n: int, p: int)
    ensures n * p == (n - 1) * p + p
  {
  }

  /** For a selection from the 24-slot catalog the total is the number of
      hours times the hourly price, in `Int` arithmetic. */
  lemma TotalPriceFromCatalog(parking: ParkingStore.ParkingLot, selected: seq<TimeSlot>)
    requires forall x | x in selected :: x in ParkingStore.TimeSlotsForParking(parking)
    ensures TotalPrice(selected) == Wrap32(|selected| * parking.pricePerHour)
  {
    var c := ParkingStore.TimeSlotsForParking(parking);
    forall x | x in selected ensures x.price == parking.pricePerHour {
      var i :| 0 <= i < |c| && c[i] == x;
    }
    SumPricesUniform(selected, parking.pricePerHour);
  }

  /** Sorting and labelling: under the screen's invariant the labels handed on
      are in strictly increasing catalog order and are a permutation of the
      selection's labels. */
  lemma HandedOnLabelsOrderedPermutation(catalog: seq<TimeSlot>, selected: seq<TimeSlot>)
    requires NoDuplicates(catalog) && NoDuplicates(selected)
    requires forall x | x in selected :: x in catalog
    ensures var s := SortedSelected(catalog, selected);
            forall i, j | 0 <= i < j < |s| :: IndexOf(catalog, s[i]) < IndexOf(catalog, s[j])
    ensures multiset(HandedOnLabels(catalog, selected)) == multiset(Labels(selected))
  {
    var s := SortedSelected(catalog, selected);
    SortedSelectedShape(catalog, selected);
    PermutationNoDuplicates(selected, s);
    StrictlySorted(catalog, s);
    MapSeqPermutation(Label, s, selected);
  }

  lemma StrictlySorted(catalog: seq<TimeSlot>, s: seq<TimeSlot>)
    requires IndexSorted(catalog, s) && NoDuplicates(s)
    requires forall x | x in s :: x in catalog
    ensures forall i, j | 0 <= i < j < |s| :: IndexOf(catalog, s[i]) < IndexOf(catalog, s[j])
  {
    forall i, j | 0 <= i < j < |s| ensures IndexOf(catalog, s[i]) < IndexOf(catalog, s[j]) {
      assert s[i] in s && s[j] in s && s[i] != s[j];
    }
  }

  // ---------------------------------------------------------------------------
  // Toggling by click

  /** One click on a catalog slot: a disabled slot ignores it; otherwise the
      slot is removed if selected (`remove`, its first occurrence) and
      appended if not (`add`). */
  function Toggled(selected: seq<TimeSlot>, slot: TimeSlot, reservedLabels: set<string>): (r: seq<TimeSlot>)
    ensures IsDisabled(slot, reservedLabels) ==> r == selected
    ensures !IsDisabled(slot, reservedLabels) && slot in selected ==>
              multiset(r) == multiset(selected) - multiset{slot}
    ensures !IsDisabled(slot, reservedLabels) && slot !in selected ==> r == selected + [slot]
  {
    if Label(slot) in reservedLabels then selected
    else if slot in selected then RemoveFirst(selected, slot)
    else selected + [slot]
  }

  /** The screen's invariant: no slot twice, and only catalog slots. */
  predicate SelectionValid(catalog: seq<TimeSlot>, selected: seq<TimeSlot>)
  {
    NoDuplicates(selected) && forall x | x in selected :: x in catalog
  }

  /** A click on a catalog slot keeps the invariant, and afterwards the slot is
      selected exactly when it was not (unless it is disabled). */
  lemma ToggledValid(catalog: seq<TimeSlot>, selected: seq<TimeSlot>, slot: TimeSlot, reservedLabels: set<string>)
    requires SelectionValid(catalog, selected) && slot in catalog
    ensures SelectionValid(catalog, Toggled(selected, slot, reservedLabels))
    ensures !IsDisabled(slot, reservedLabels) ==>
              (slot in Toggled(selected, slot, reservedLabels) <==> slot !in selected)
  {
    var r := Toggled(selected, slot, reservedLabels);
    if !IsDisabled(slot, reservedLabels) {
      if slot in selected {
        var removed := RemoveFirst(selected, slot);
        SubsequenceNoDuplicates(removed, selected);
        SubsequenceMembers(removed, selected);
        NoDuplicatesMultiplicity(selected, slot);
        assert slot !in multiset(removed);
      }
    }
  }

  /** Two clicks on the same enabled slot restore the selection as a set of
      slots; if the slot was not selected, they restore it exactly. */
  lemma ToggleTwice(selected: seq<TimeSlot>, slot: TimeSlot, reservedLabels: set<string>)
    requires NoDuplicates(selected)
    ensures multiset(Toggled(Toggled(selected, slot, reservedLabels), slot, reservedLabels)) == multiset(selected)
    ensures slot !in selected ==>
              Toggled(Toggled(selected, slot, reservedLabels), slot, reservedLabels) == selected
  {
    if !IsDisabled(slot, reservedLabels) {
      if slot in selected {
        var once := Toggled(selected, slot, reservedLabels);
        NoDuplicatesMultiplicity(selected, slot);
        assert slot !in multiset(once);
      } else {
        RemoveFirstAppended(selected, slot);
      }
    }
  }

  lemma {:induction false} RemoveFirstAppended(s: seq<TimeSlot>, x: TimeSlot)
    requires x !in s
    ensures RemoveFirst(s + [x], x) == s
  {
    if s != [] {
      assert (s + [x])[1..] == s[1..] + [x];
      RemoveFirstAppended(s[1..], x);
    }
  }

  /** A slot whose label is reserved cannot be toggled. */
  lemma DisabledSlotUntouched(selected: seq<TimeSlot>, slot: TimeSlot, reservedLabels: set<string>)
    requires Label(slot) in reservedLabels
    ensures Toggled(selected, slot, reservedLabels) == selected
  {
  }

  /** With the reserved labels as the view model computes them, no catalog
      slot is ever disabled (see ParkingStore.ReservedTimeSlots). */
  lemma AsWrittenNothingDisabled(h: seq<ParkingStore.Reservation>, parking: ParkingStore.ParkingLot, t: TimeSlot)
    requires t in ParkingStore.TimeSlotsForParking(parking)
    ensures !IsDisabled(t, ParkingStore.ReservedTimeSlots(h))
  {
    ParkingStore.ReservedTimeSlotsMissCatalog(h, parking);
  }

  /** With the corrected labels, the slot of a reserved hour is disabled. */
  lemma CorrectedReservedHourDisabled(h: seq<ParkingStore.Reservation>, parking: ParkingStore.ParkingLot, i: int)
    requires 0 <= i < 24
    requires exists x | x in h :: x.startTime == ParkingStore.TimeSlotsForParking(parking)[i].startTime
                                  && x.endTime == ParkingStore.TimeSlotsForParking(parking)[i].endTime
    ensures IsDisabled(ParkingStore.TimeSlotsForParking(parking)[i], ParkingStore.ReservedLabels(h))
  {
    ParkingStore.ReservedLabelsCoverCatalog(h, parking, i);
  }

  // ---------------------------------------------------------------------------
  // The screen's state

  class ReservationScreenState {
    /** `availableTimeSlots` of the lot being reserved. */
    const catalog: seq<TimeSlot>
    /** `selectedSlots`, the mutable state list. */
    var selectedSlots: seq<TimeSlot>

    ghost predicate Valid()
      reads this
    {
      SelectionValid(catalog, selectedSlots)
    }

    constructor(catalog: seq<TimeSlot>)
      ensures this.catalog == catalog && selectedSlots == [] && Valid()
    {
      this.catalog := catalog;
      selectedSlots := [];
    }

    /** The `clickable(enabled = !isDisabled)` handler of one catalog slot. */
    method Click(slot: TimeSlot, reservedLabels: set<string>)
      requires Valid() && slot in catalog
      modifies this
      ensures Valid()
      ensures selectedSlots == Toggled(old(selectedSlots), slot, reservedLabels)
    {
      ToggledValid(catalog, selectedSlots, slot, reservedLabels);
      var isDisabled := Label(slot) in reservedLabels;
      var isSelected := slot in selectedSlots;
      if !isDisabled {
        if isSelected {
          selectedSlots := RemoveFirst(selectedSlots, slot);
        } else {
          selectedSlots := selectedSlots + [slot];
        }
      }
    }

    /** What the "continue" button hands on, if it is enabled. */
    method Continue() returns (labels: Option<seq<string>>)
      ensures labels.Some? <==> CanReserve(catalog, selectedSlots)
      ensures labels.Some? ==> labels.value == HandedOnLabels(catalog, selectedSlots)
    {
      if CanReserve(catalog, selectedSlots) {
        labels := Some(HandedOnLabels(catalog, selectedSlots));
      } else {
        labels := None;
      }
    }
  }
}
