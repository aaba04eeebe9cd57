/** data/model/TimeSlot.kt: an immutable one-hour interval with a price. */
module TimeSlotModel {
  import opened KotlinInt
  import opened KotlinText

  /** `data class TimeSlot(startTime, endTime, price)`; equality is structural,
      as for a Kotlin data class. */
  datatype TimeSlot = TimeSlot(startTime: string, endTime: string, price: Int32)

  /** The constructor's default price. */
  const DEFAULT_PRICE: Int32 := 3000

  /** `TimeSlot(startTime, endTime)` with the price left at its default. */
  function NewTimeSlot(startTime: string, endTime: string): (t: TimeSlot)
    ensures t.startTime == startTime && t.endTime == endTime
    ensures t.price == 3000
  {
    TimeSlot(startTime, endTime, DEFAULT_PRICE)
  }

  /** `label()`: the start, a '~', then the end. This string is the key the
      reservation screens use to recognise a slot. */
  function Label(t: TimeSlot): (r: string)
    ensures |r| == |t.startTime| + 1 + |t.endTime|
    ensures r[..|t.startTime|] == t.startTime && r[|t.startTime|] == '~'
    ensures r[|t.startTime| + 1..] == t.endTime
  {
    t.startTime + "~" + t.endTime
  }

  /** `copyWithPrice(newPrice)`: the same interval at another price. */
  function CopyWithPrice(t: TimeSlot, newPrice: Int32): (r: TimeSlot)
    ensures r.startTime == t.startTime && r.endTime == t.endTime
    ensures r.price == newPrice
  {
    t.(price := newPrice)
  }

  /** The label ignores the price. */
  lemma LabelIgnoresPrice(t: TimeSlot, u: TimeSlot)
    requires t.startTime == u.startTime && t.endTime == u.endTime
    ensures Label(t) == Label(u)
  {
  }

  /** When the start holds no '~', the label splits back into start and end. */
  lemma LabelSplits(t: TimeSlot)
    requires '~' !in t.startTime
    ensures SubstringBefore(Label(t), '~') == t.startTime
    ensures SubstringAfter(Label(t), '~') == t.endTime
  {
    assert Label(t) == t.startTime + ['~'] + t.endTime;
    SplitAtFirst(t.startTime, '~', t.endTime);
  }

  /** Labels of slots whose starts have the same length are ordered as the starts. */
  lemma LabelOrderedByStart(t: TimeSlot, u: TimeSlot)
    requires |t.startTime| == |u.startTime| && LexLess(t.startTime, u.startTime)
    ensures LexLess(Label(t), Label(u))
  {
    assert Label(t) == t.startTime + ("~" + t.endTime);
    assert Label(u) == u.startTime + ("~" + u.endTime);
    LexLessEqualLengthPrefix(t.startTime, u.startTime, "~" + t.endTime, "~" + u.endTime);
  }

  /** A second `copyWithPrice` overrides the first; in particular it is idempotent. */
  lemma CopyWithPriceLastWins(t: TimeSlot, p: Int32, q: Int32)
    ensures CopyWithPrice(CopyWithPrice(t, q), p) == CopyWithPrice(t, p)
    ensures CopyWithPrice(CopyWithPrice(t, p), p) == CopyWithPrice(t, p)
  {
  }
}
