/** ui/theme/utill.kt: `formatContinuousTime`, which collapses a run of
    "start~end" labels into one "start~end" text. */
module ContinuousTime {
  import opened Collections
  import opened KotlinText
  import opened TimeSlotModel
  import ParkingStore
  import ReservationSelection

  /** The start of the smallest label, a '~', and the end of the largest one;
      "" for no labels. */
  function FormatContinuousTime(slots: seq<string>): string
  {
    if |slots| == 0 then ""
    else SubstringBefore(MinOf(slots), '~') + "~" + SubstringAfter(MaxOf(slots), '~')
  }

  /** No labels give the empty text. */
  lemma FormatEmpty()
    ensures FormatContinuousTime([]) == ""
  {
  }

  /** One label "a~b" (with no '~' in a) comes back unchanged. */
  lemma FormatSingle(a: string, b: string)
    requires '~' !in a
    ensures FormatContinuousTime([a + "~" + b]) == a + "~" + b
  {
    assert a + "~" + b == a + ['~'] + b;
    SplitAtFirst(a, '~', b);
  }

  /** Only which labels occur matters: their order and repetitions do not. */
  lemma FormatOrderIndependent(s: seq<string>, t: seq<string>)
    requires forall x :: x in s <==> x in t
    ensures FormatContinuousTime(s) == FormatContinuousTime(t)
  {
    if |s| > 0 {
      MinMaxOfSameElements(s, t);
    }
  }

  /** For the labels of a run of catalog slots, in any order, the text is the
      run's first start, a '~', and its last end. */
  lemma FormatCatalogRun(parking: ParkingStore.ParkingLot, lo: int, hi: int, slots: seq<string>)
    requires 0 <= lo < hi <= 24
    requires forall x :: x in slots <==>
               exists k | lo <= k < hi :: x == Label(ParkingStore.TimeSlotsForParking(parking)[k])
    ensures var c := ParkingStore.TimeSlotsForParking(parking);
            FormatContinuousTime(slots) == c[lo].startTime + "~" + c[hi - 1].endTime
  {
    var c := ParkingStore.TimeSlotsForParking(parking);
    RunExtremes(parking, lo, hi, slots);
    LabelSplits(c[lo]);
    LabelSplits(c[hi - 1]);
  }

  lemma RunExtremes(parking: ParkingStore.ParkingLot, lo: int, hi: int, slots: seq<string>)
    requires 0 <= lo < hi <= 24
    requires forall x :: x in slots <==>
               exists k | lo <= k < hi :: x == Label(ParkingStore.TimeSlotsForParking(parking)[k])
    ensures |slots| > 0
    ensures var c := ParkingStore.TimeSlotsForParking(parking);
            MinOf(slots) == Label(c[lo]) && MaxOf(slots) == Label(c[hi - 1])
  {
    var c := ParkingStore.TimeSlotsForParking(parking);
    assert Label(c[lo]) in slots;
    assert Label(c[hi - 1]) in slots;
    forall x | x in slots ensures LexLe(Label(c[lo]), x) && LexLe(x, Label(c[hi - 1])) {
      var k :| lo <= k < hi && x == Label(c[k]);
      RunLabelBetween(parking, lo, hi, k);
    }
    MinOfUnique(slots, Label(c[lo]));
    MaxOfUnique(slots, Label(c[hi - 1]));
  }

  lemma RunLabelBetween(parking: ParkingStore.ParkingLot, lo: int, hi: int, k: int)
    requires 0 <= lo <= k < hi <= 24
    ensures var c := ParkingStore.TimeSlotsForParking(parking);
            LexLe(Label(c[lo]), Label(c[k])) && LexLe(Label(c[k]), Label(c[hi - 1]))
  {
    if lo < k {
      ParkingStore.CatalogLabelsOrdered(parking, lo, k);
    }
    if k < hi - 1 {
      ParkingStore.CatalogLabelsOrdered(parking, k, hi - 1);
    }
  }

  /** When the reservation screen lets the user go on, the labels it hands on
      collapse to the start of the earliest selected hour and the end of the
      latest one. */
  lemma HandedOnLabelsText(parking: ParkingStore.ParkingLot, selected: seq<TimeSlot>)
    requires ReservationSelection.SelectionValid(ParkingStore.TimeSlotsForParking(parking), selected)
    requires ReservationSelection.CanReserve(ParkingStore.TimeSlotsForParking(parking), selected)
    ensures var c := ParkingStore.TimeSlotsForParking(parking);
            var sorted := ReservationSelection.SortedSelected(c, selected);
            |sorted| == |selected| > 0
            && FormatContinuousTime(ReservationSelection.HandedOnLabels(c, selected))
                 == sorted[0].startTime + "~" + sorted[|selected| - 1].endTime
  {
    var c := ParkingStore.TimeSlotsForParking(parking);
    var sorted := ReservationSelection.SortedSelected(c, selected);
    CatalogDistinct(parking);
    SelectionIsRun(c, selected);
    var lo :| ReservationSelection.IsCatalogRun(c, sorted, lo);
    RunText(parking, sorted, lo, ReservationSelection.HandedOnLabels(c, selected));
  }

  /** The labels of a non-empty catalog run collapse to its first start and
      its last end. */
  lemma RunText(parking: ParkingStore.ParkingLot, run: seq<TimeSlot>, lo: int, labels: seq<string>)
    requires run != [] && ReservationSelection.IsCatalogRun(ParkingStore.TimeSlotsForParking(parking), run, lo)
    requires |labels| == |run| && forall i | 0 <= i < |run| :: labels[i] == Label(run[i])
    ensures FormatContinuousTime(labels) == run[0].startTime + "~" + run[|run| - 1].endTime
  {
    var c := ParkingStore.TimeSlotsForParking(parking);
    RunLabels(c, run, lo, labels);
    FormatCatalogRun(parking, lo, lo + |run|, labels);
    assert run[0] == c[lo] && run[|run| - 1] == c[lo + |run| - 1];
  }

  lemma SelectionIsRun(c: seq<TimeSlot>, selected: seq<TimeSlot>)
    requires NoDuplicates(c)
    requires ReservationSelection.SelectionValid(c, selected) && ReservationSelection.CanReserve(c, selected)
    ensures |ReservationSelection.SortedSelected(c, selected)| == |selected|
    ensures exists lo :: ReservationSelection.IsCatalogRun(c, ReservationSelection.SortedSelected(c, selected), lo)
  {
    ReservationSelection.CanReserveIff(c, selected);
    ReservationSelection.SortedSelectedShape(c, selected);
    ReservationSelection.ContinuousIffCatalogRun(c, selected);
  }

  lemma CatalogDistinct(parking: ParkingStore.ParkingLot)
    ensures NoDuplicates(ParkingStore.TimeSlotsForParking(parking))
  {
    ParkingStore.CatalogLabelsDistinct(parking);
  }

  /** The labels of a catalog run are the labels of its catalog positions. */
  lemma RunLabels(c: seq<TimeSlot>, run: seq<TimeSlot>, lo: int, labels: seq<string>)
    requires ReservationSelection.IsCatalogRun(c, run, lo)
    requires |labels| == |run| && forall i | 0 <= i < |run| :: labels[i] == Label(run[i])
    ensures forall x :: x in labels <==> exists k | lo <= k < lo + |run| :: x == Label(c[k])
  {
    forall x ensures x in labels <==> exists k | lo <= k < lo + |run| :: x == Label(c[k]) {
      if x in labels {
        var i :| 0 <= i < |labels| && labels[i] == x;
        assert run[i] == c[lo + i];
      }
      if exists k | lo <= k < lo + |run| :: x == Label(c[k]) {
        var k :| lo <= k < lo + |run| && x == Label(c[k]);
        assert run[k - lo] == c[k];
        assert labels[k - lo] == x;
      }
    }
  }
}
