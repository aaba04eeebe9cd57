# Smart parking lot client: reservation core in Dafny

This project models the reservation logic of the Android client of a
smart parking lot (Kotlin, Jetpack Compose), and proves properties about it.
A user picks a lot and some hours of the day. They then pick a physical slot,
pay, and later open and close the barrier at the gate. The model covers:

- **the reservation store** (`viewmodel/ParkingListViewModel.kt`, module
  `ParkingStore`). Its class `ParkingListViewModel` holds the lot list and
  the reservation history as `seq` fields. Every operation replaces one of
  them wholesale, as the Kotlin code does with its `StateFlow`s. Each method
  is tied to a pure function; the properties are proved of those functions:
  - per-id updates
  - the local and the server-side cancel
  - the next id
  - the 24-slot catalog of a day
  - the reserved labels
  - availability derived from the free-slot count
- **the time-slot record** (`data/model/TimeSlot.kt`, `TimeSlotModel`):
  its label and its repricing copy.
- **the reservation screen** (`ReservationScreen.kt`, `ReservationSelection`).
  Its class `ReservationScreenState` holds the mutable selection. The state
  is toggled by clicks, and a reserved slot is disabled. From the selection
  the screen derives:
  - the selection sorted by catalog position
  - the continuity test
  - whether it may go on, and the contiguity error
  - the total price
  - the labels handed to the next screen

  The central result: a selection is continuous exactly when, sorted, it is
  a run of consecutive catalog slots.
- **slot selection** (`SlotSelectionScreen.kt`, `SlotSelection`): picking
  an available physical slot, the reservation request, and how the pending
  reservation is built from the server's answer. The start time of that
  reservation is the whole smallest label, as the code computes it. The end
  time is computed from the hour in front of the largest label's first ':'.
- **my page** (`MyPageTabScreen.kt`, `MyPage`): the status tabs, the status
  label, and which actions each reservation card offers.
- **the earlier local store** (the root-package `ParkingListViewModel.kt`,
  `LegacyStore`). Its reservations carry their lot and their list of labels.
  Cancelling also drops every ongoing reservation, and it has its own
  conflict check.
- **`formatContinuousTime`** (`ui/theme/utill.kt`, `ContinuousTime`).

Three helper modules make Kotlin's semantics explicit:

- `KotlinInt`:
  - `Int` and `Long` as subset types
  - two's-complement wrap-around
  - the truncating `%`
- `KotlinText`:
  - `String.compareTo` order and `sorted().first()/last()`
  - `substringBefore`/`substringAfter`
  - `toIntOrNull`
  - `"%02d:00"`, with Kotlin's handling of negative values
- `Collections`: sequence helpers (filter, subsequence, `indexOf`,
  `remove`, `map`, and permutation lemmas).

Remote calls, whose outcome the code only branches on, are parameters of
the model:

- `success: bool` for "the response was successful". It is false both for
  an unsuccessful status and for an exception, since the state ends up the
  same.
- `Option` for a fetched body (`None` when the call threw). Two fetches catch that exception; `loadParkingLots` does not (see "## Left out").
- `CreateOutcome` for the reservation call.

Where the code and its data classes (`data/model/Reservation.kt`, `data/dto/ReservationResponse.kt`) differ, the model follows the code:

- The history entries have the fields that the view-model and the slot
  selection screen actually construct. The data classes
  `data/model/Reservation.kt` and `data/dto/ReservationResponse.kt` are
  stale, and the code does not match them.
- Ids are `Long`, and the lot id is compared after `toInt()`.

## Model

| member | source | states |
|---|---|---|
| KotlinText.MinOf | Parkingapp/app/src/main/java/com/example/parkingapp/ui/theme/utill.kt:5-6 | `sorted().first()` is an element of the list that is not above any other element in `String.compareTo` order |
| KotlinText.MaxOf | Parkingapp/app/src/main/java/com/example/parkingapp/ui/theme/utill.kt:5-7 | `sorted().last()` is an element of the list that is not below any other element |
| KotlinText.MinMaxOfSameElements | Parkingapp/app/src/main/java/com/example/parkingapp/ui/theme/utill.kt:5-7 | the first and last elements after sorting depend only on which strings occur, not on their order or repetitions |
| KotlinText.SubstringBefore | Parkingapp/app/src/main/java/com/example/parkingapp/ui/theme/utill.kt:6 | `substringBefore` yields a prefix holding no delimiter; that prefix is the whole string when the delimiter is absent, and is otherwise followed by the delimiter |
| KotlinText.SubstringAfter | Parkingapp/app/src/main/java/com/example/parkingapp/ui/theme/utill.kt:7 | `substringAfter` yields the rest after the first delimiter, so before + delimiter + after rebuilds the string; it yields the whole string when the delimiter is absent |
| KotlinText.SplitAtFirst | Parkingapp/app/src/main/java/com/example/parkingapp/ui/theme/utill.kt:6-7 | splitting `a + c + b` at its first `c` (with no `c` in `a`) gives back `a` and `b` |
| KotlinText.ParsePad2 | Parkingapp/app/src/main/java/com/example/parkingapp/screens/reservation/SlotSelectionScreen.kt:129-130 | `toIntOrNull` of a number printed with `%02d` gives the number back, negative values included |
| KotlinText.HourLabelInjective | Parkingapp/app/src/main/java/com/example/parkingapp/viewmodel/ParkingListViewModel.kt:122-123 | different hours print as different `%02d:00` labels |
| KotlinText.HourLabelOrdered | Parkingapp/app/src/main/java/com/example/parkingapp/viewmodel/ParkingListViewModel.kt:122-123 | for the hours of one day, string order of the labels is time order |
| KotlinInt.Rem24 | Parkingapp/app/src/main/java/com/example/parkingapp/screens/reservation/SlotSelectionScreen.kt:130 | Kotlin's `% 24` truncates toward zero: the result has the dividend's sign, lies strictly between -24 and 24, and differs from the dividend by a multiple of 24 |
| KotlinInt.Wrap32 | Parkingapp/app/src/main/java/com/example/parkingapp/screens/reservation/ReservationScreen.kt:55 | `Int` arithmetic wraps modulo 2^32 and is exact whenever the true value fits an `Int` |
| TimeSlotModel.NewTimeSlot | Parkingapp/app/src/main/java/com/example/parkingapp/data/model/TimeSlot.kt:3-7 | a slot built without a price has the given start and end and the default price 3000 |
| TimeSlotModel.Label | Parkingapp/app/src/main/java/com/example/parkingapp/data/model/TimeSlot.kt:8 | the label is the start, one '~', then the end |
| TimeSlotModel.CopyWithPrice | Parkingapp/app/src/main/java/com/example/parkingapp/data/model/TimeSlot.kt:11-13 | the copy keeps start and end and carries the new price |
| TimeSlotModel.LabelIgnoresPrice | Parkingapp/app/src/main/java/com/example/parkingapp/data/model/TimeSlot.kt:8 | two slots with the same start and end have the same label whatever their prices |
| TimeSlotModel.LabelSplits | Parkingapp/app/src/main/java/com/example/parkingapp/data/model/TimeSlot.kt:8 | when the start holds no '~', `substringBefore`/`substringAfter` at '~' recover start and end from the label |
| TimeSlotModel.LabelOrderedByStart | Parkingapp/app/src/main/java/com/example/parkingapp/data/model/TimeSlot.kt:8 | labels of slots whose starts have equal length are ordered as their starts |
| TimeSlotModel.CopyWithPriceLastWins | Parkingapp/app/src/main/java/com/example/parkingapp/data/model/TimeSlot.kt:11-13 | a second `copyWithPrice` overrides the first, so repricing is idempotent |
| ParkingStore.ToReservation | Parkingapp/app/src/main/java/com/example/parkingapp/viewmodel/ParkingListViewModel.kt:69-79 | every field of a fetched reservation is copied to the field of the same meaning |
| ParkingStore.ParseReservations | Parkingapp/app/src/main/java/com/example/parkingapp/viewmodel/ParkingListViewModel.kt:68-80 | the parsed history has the response's length and order, entry i converted from response element i |
| ParkingStore.UpdateWhere | Parkingapp/app/src/main/java/com/example/parkingapp/viewmodel/ParkingListViewModel.kt:50-52 | a per-id `map` keeps length and order; entries with the id are transformed, all others are unchanged |
| ParkingStore.WithStatus | Parkingapp/app/src/main/java/com/example/parkingapp/viewmodel/ParkingListViewModel.kt:193-197 | matching entries get the new status and nothing else changes in them; non-matching entries, length and order are kept |
| ParkingStore.WithSlotOpened | Parkingapp/app/src/main/java/com/example/parkingapp/viewmodel/ParkingListViewModel.kt:134-138 | matching entries get the barrier flag and nothing else changes; other entries, length and order are kept |
| ParkingStore.WithStatusIdempotent | Parkingapp/app/src/main/java/com/example/parkingapp/viewmodel/ParkingListViewModel.kt:193-197 | setting the same status twice is the same as setting it once |
| ParkingStore.WithSlotOpenedIdempotent | Parkingapp/app/src/main/java/com/example/parkingapp/viewmodel/ParkingListViewModel.kt:186-190 | setting the same barrier flag twice is the same as setting it once |
| ParkingStore.AfterClose | Parkingapp/app/src/main/java/com/example/parkingapp/viewmodel/ParkingListViewModel.kt:172-174 | after a successful close, matching entries are COMPLETED with the flag cleared, whatever their previous status; others are untouched |
| ParkingStore.RemoveId | Parkingapp/app/src/main/java/com/example/parkingapp/viewmodel/ParkingListViewModel.kt:113-117 | the local cancel keeps an order-preserving subsequence with no entry of that id, and every other entry with its multiplicity |
| Collections.MaxOfKey | Parkingapp/app/src/main/java/com/example/parkingapp/viewmodel/ParkingListViewModel.kt:109 | the largest key of a non-empty list is the key of one of its members and bounds the key of every member |
| ParkingStore.MaxId | Parkingapp/app/src/main/java/com/example/parkingapp/viewmodel/ParkingListViewModel.kt:109 | the largest id of a non-empty history occurs in it and bounds every id |
| ParkingStore.NextReservationId | Parkingapp/app/src/main/java/com/example/parkingapp/viewmodel/ParkingListViewModel.kt:108-110 | the next id is 1 for an empty history; unless some id is `Long.MAX_VALUE` it exceeds every id and is one more than an existing id |
| ParkingStore.HourSlot | Parkingapp/app/src/main/java/com/example/parkingapp/viewmodel/ParkingListViewModel.kt:121-124 | catalog slot `hour` runs from `%02d:00` of hour to `%02d:00` of (hour + 1) % 24 at the lot's price |
| ParkingStore.TimeSlotsForParking | Parkingapp/app/src/main/java/com/example/parkingapp/viewmodel/ParkingListViewModel.kt:120-126 | the catalog has 24 slots; slot i runs from hour i to hour (i + 1) mod 24 at the lot's hourly price |
| ParkingStore.CatalogChained | Parkingapp/app/src/main/java/com/example/parkingapp/viewmodel/ParkingListViewModel.kt:121-125 | each slot ends where the next begins, and the last slot ends where the first begins (midnight) |
| ParkingStore.CatalogLabelsOrdered | Parkingapp/app/src/main/java/com/example/parkingapp/viewmodel/ParkingListViewModel.kt:121-125 | catalog order is strict label order |
| ParkingStore.CatalogLabelsDistinct | Parkingapp/app/src/main/java/com/example/parkingapp/viewmodel/ParkingListViewModel.kt:121-125 | no two catalog labels, and so no two catalog slots, coincide |
| ParkingStore.ReservedTimeSlots | Parkingapp/app/src/main/java/com/example/parkingapp/viewmodel/ParkingListViewModel.kt:129-131 | as written, the reserved set is empty for an empty history and otherwise holds only the literal escaped template |
| ParkingStore.ReservedTimeSlotsMissCatalog | Parkingapp/app/src/main/java/com/example/parkingapp/viewmodel/ParkingListViewModel.kt:130 | as written, no catalog label is ever among the reserved labels, whatever the history |
| ParkingStore.ReservedLabels | Parkingapp/app/src/main/java/com/example/parkingapp/viewmodel/ParkingListViewModel.kt:129-131 | the corrected set holds exactly the "start~end" text of each reservation in the history |
| ParkingStore.ReservedTimeSlotsCounterexample | Parkingapp/app/src/main/java/com/example/parkingapp/viewmodel/ParkingListViewModel.kt:130 | with a 09:00-10:00 reservation, the corrected set reports catalog label "09:00~10:00" but the set as written does not |
| ParkingStore.ReservedLabelsCoverCatalog | Parkingapp/app/src/main/java/com/example/parkingapp/viewmodel/ParkingListViewModel.kt:129-131 | a catalog slot whose start and end match some reservation's is reported by the corrected set |
| ParkingStore.WithAvailability | Parkingapp/app/src/main/java/com/example/parkingapp/viewmodel/ParkingListViewModel.kt:93-98 | `isAvailable` becomes `availableSlots > 0` and every other field is kept |
| ParkingStore.DeriveAvailability | Parkingapp/app/src/main/java/com/example/parkingapp/viewmodel/ParkingListViewModel.kt:92-99 | the fetched lot list keeps length and order, each lot with its flag derived |
| ParkingStore.ParkingListViewModel.constructor | Parkingapp/app/src/main/java/com/example/parkingapp/viewmodel/ParkingListViewModel.kt:22-31 | the history starts empty and the lot list is the first fetch's result (empty when it throws) |
| ParkingStore.ParkingListViewModel.LoadParkingLots | Parkingapp/app/src/main/java/com/example/parkingapp/viewmodel/ParkingListViewModel.kt:34-38 | a returned repository list replaces the lot list; a throwing call assigns nothing; the history is kept in both cases |
| ParkingStore.ParkingListViewModel.CancelReservationFromServer | Parkingapp/app/src/main/java/com/example/parkingapp/viewmodel/ParkingListViewModel.kt:41-61 | only a successful response marks the matching entries CANCELLED (they are kept, not removed); on failure nothing changes |
| ParkingStore.ParkingListViewModel.FetchMyReservations | Parkingapp/app/src/main/java/com/example/parkingapp/viewmodel/ParkingListViewModel.kt:64-86 | a response replaces the history with its parsed form; an exception keeps the history |
| ParkingStore.ParkingListViewModel.FetchParkingLots | Parkingapp/app/src/main/java/com/example/parkingapp/viewmodel/ParkingListViewModel.kt:89-105 | a response replaces the lot list with its lots, availability derived; an exception keeps the list |
| ParkingStore.ParkingListViewModel.GetNextReservationId | Parkingapp/app/src/main/java/com/example/parkingapp/viewmodel/ParkingListViewModel.kt:108-110 | returns the next id of the current history (1 when empty) |
| ParkingStore.ParkingListViewModel.CancelReservation | Parkingapp/app/src/main/java/com/example/parkingapp/viewmodel/ParkingListViewModel.kt:113-117 | the history loses exactly the entries with that id |
| ParkingStore.ParkingListViewModel.GetReservedTimeSlots | Parkingapp/app/src/main/java/com/example/parkingapp/viewmodel/ParkingListViewModel.kt:129-131 | returns the as-written reserved set: the escaped template alone for any non-empty history |
| ParkingStore.ParkingListViewModel.MarkReservationStarted | Parkingapp/app/src/main/java/com/example/parkingapp/viewmodel/ParkingListViewModel.kt:134-138 | matching entries get the barrier flag set; nothing else changes |
| ParkingStore.ParkingListViewModel.OpenBarrier | Parkingapp/app/src/main/java/com/example/parkingapp/viewmodel/ParkingListViewModel.kt:141-160 | only a successful response sets the barrier flag of the matching entries, keeping their status; on failure nothing changes |
| ParkingStore.ParkingListViewModel.CloseBarrier | Parkingapp/app/src/main/java/com/example/parkingapp/viewmodel/ParkingListViewModel.kt:163-183 | only a successful response completes the matching entries and clears their flag; on failure nothing changes |
| ParkingStore.ParkingListViewModel.MarkReservationEnded | Parkingapp/app/src/main/java/com/example/parkingapp/viewmodel/ParkingListViewModel.kt:186-190 | matching entries get the barrier flag cleared; nothing else changes |
| ParkingStore.ParkingListViewModel.UpdateReservationStatusLocally | Parkingapp/app/src/main/java/com/example/parkingapp/viewmodel/ParkingListViewModel.kt:193-197 | matching entries get the new status; nothing else changes |
| ReservationSelection.InsertByIndex | Parkingapp/app/src/main/java/com/example/parkingapp/screens/reservation/ReservationScreen.kt:45 | one insertion step of the stable sort adds exactly the element and keeps the list sorted by catalog position |
| ReservationSelection.SortedSelected | Parkingapp/app/src/main/java/com/example/parkingapp/screens/reservation/ReservationScreen.kt:45 | `sortedBy { indexOf(it) }` is a permutation (same multiset) of the selection in non-decreasing catalog position |
| ReservationSelection.SortedSelectedShape | Parkingapp/app/src/main/java/com/example/parkingapp/screens/reservation/ReservationScreen.kt:45 | the sorted selection has the selection's length and members |
| ReservationSelection.AdjacentIffOffsets | Parkingapp/app/src/main/java/com/example/parkingapp/screens/reservation/ReservationScreen.kt:48-52 | the `zipWithNext` test holds iff the k-th sorted slot sits exactly k catalog places after the first |
| ReservationSelection.ShortSelectionContinuous | Parkingapp/app/src/main/java/com/example/parkingapp/screens/reservation/ReservationScreen.kt:48-52 | an empty or one-slot selection is always continuous |
| ReservationSelection.ContinuousIffCatalogRun | Parkingapp/app/src/main/java/com/example/parkingapp/screens/reservation/ReservationScreen.kt:45-52 | for a selection of catalog slots, it is continuous iff, sorted, it is exactly a run of consecutive catalog slots |
| ReservationSelection.CanReserveIff | Parkingapp/app/src/main/java/com/example/parkingapp/screens/reservation/ReservationScreen.kt:54 | the continue button is enabled iff the selection is non-empty and continuous |
| ReservationSelection.ContiguityErrorIff | Parkingapp/app/src/main/java/com/example/parkingapp/screens/reservation/ReservationScreen.kt:120-125 | the contiguity error is shown iff more than one slot is selected and they are not continuous |
| ReservationSelection.SumPricesUniform | Parkingapp/app/src/main/java/com/example/parkingapp/screens/reservation/ReservationScreen.kt:55 | when every slot has the same price, the exact sum is the count times that price |
| ReservationSelection.TotalPriceFromCatalog | Parkingapp/app/src/main/java/com/example/parkingapp/screens/reservation/ReservationScreen.kt:55 | for slots of the catalog, the total is the number of hours times the hourly price, in wrapping `Int` arithmetic |
| ReservationSelection.HandedOnLabels | Parkingapp/app/src/main/java/com/example/parkingapp/screens/reservation/ReservationScreen.kt:132 | the labels handed on are the labels of the sorted selection, position by position |
| ReservationSelection.Labels | Parkingapp/app/src/main/java/com/example/parkingapp/screens/reservation/ReservationScreen.kt:132 | `map { it.label() }` keeps length and order |
| ReservationSelection.HandedOnLabelsOrderedPermutation | Parkingapp/app/src/main/java/com/example/parkingapp/screens/reservation/ReservationScreen.kt:132 | under the screen's invariant, the labels handed on are in strictly increasing catalog order and are a permutation of the selection's labels |
| ReservationSelection.Toggled | Parkingapp/app/src/main/java/com/example/parkingapp/screens/reservation/ReservationScreen.kt:87-90 | a disabled slot is ignored; a selected slot loses one occurrence; an unselected slot is appended |
| ReservationSelection.ToggledValid | Parkingapp/app/src/main/java/com/example/parkingapp/screens/reservation/ReservationScreen.kt:72-90 | a click on a catalog slot keeps the selection duplicate-free and within the catalog, and an enabled slot becomes selected iff it was not |
| ReservationSelection.ToggleTwice | Parkingapp/app/src/main/java/com/example/parkingapp/screens/reservation/ReservationScreen.kt:87-90 | two clicks on the same slot restore the selection as a multiset, and restore it exactly if the slot was not selected |
| ReservationSelection.DisabledSlotUntouched | Parkingapp/app/src/main/java/com/example/parkingapp/screens/reservation/ReservationScreen.kt:72-90 | a slot whose label is reserved cannot be toggled |
| ReservationSelection.AsWrittenNothingDisabled | Parkingapp/app/src/main/java/com/example/parkingapp/screens/reservation/ReservationScreen.kt:41-72 | with the view-model's reserved set as written, no catalog slot is ever disabled |
| ReservationSelection.CorrectedReservedHourDisabled | Parkingapp/app/src/main/java/com/example/parkingapp/screens/reservation/ReservationScreen.kt:41-72 | with the corrected reserved set, the slot of a reserved hour is disabled |
| ReservationSelection.ReservationScreenState.constructor | Parkingapp/app/src/main/java/com/example/parkingapp/screens/reservation/ReservationScreen.kt:40-42 | the screen starts with an empty selection over the lot's catalog |
| ReservationSelection.ReservationScreenState.Click | Parkingapp/app/src/main/java/com/example/parkingapp/screens/reservation/ReservationScreen.kt:87-90 | a click applies the toggle to the selection and keeps the screen's invariant |
| ReservationSelection.ReservationScreenState.Continue | Parkingapp/app/src/main/java/com/example/parkingapp/screens/reservation/ReservationScreen.kt:130-136 | labels are handed on iff the selection can be reserved, and they are the sorted selection's labels |
| SlotSelection.StartTime | Parkingapp/app/src/main/java/com/example/parkingapp/screens/reservation/SlotSelectionScreen.kt:126-127 | the start time is a label of the request that is not above any other (the whole smallest label) |
| SlotSelection.FindLot | Parkingapp/app/src/main/java/com/example/parkingapp/screens/reservation/SlotSelectionScreen.kt:133-135 | the lot is absent iff no lot has the id converted to `Int`; otherwise it is the first lot with that id |
| SlotSelection.BuildReservationIff | Parkingapp/app/src/main/java/com/example/parkingapp/screens/reservation/SlotSelectionScreen.kt:124-159 | a pending reservation is built iff the response is successful, the labels are non-empty, the body is present and the lot is known |
| SlotSelection.BuildReservationFields | Parkingapp/app/src/main/java/com/example/parkingapp/screens/reservation/SlotSelectionScreen.kt:137-147 | the built reservation takes ids, price and status from the body, slot number from the pick, name from the lot, start from the smallest label, and is opened iff the status is ACTIVE |
| SlotSelection.CatalogLabelParts | Parkingapp/app/src/main/java/com/example/parkingapp/screens/reservation/SlotSelectionScreen.kt:129 | for catalog label i, the hour before its first ':' parses to i and the part after its '~' is the next hour |
| SlotSelection.EndTimeOfCatalogLabels | Parkingapp/app/src/main/java/com/example/parkingapp/screens/reservation/SlotSelectionScreen.kt:128-131 | for catalog labels the computed end time is the end part of the largest label ("23:00~00:00" gives "00:00") |
| SlotSelection.EndTimeFallback | Parkingapp/app/src/main/java/com/example/parkingapp/screens/reservation/SlotSelectionScreen.kt:129-130 | when the largest label does not start with an integer, the hour falls back to 0 and the end time is "01:00" |
| SlotSelection.CorrectedStartTime | Parkingapp/app/src/main/java/com/example/parkingapp/screens/reservation/SlotSelectionScreen.kt:126-127 | the corrected start has no '~', is not above the smallest label, and with the '~' and the end part it rebuilds that label |
| SlotSelection.StartTimeCounterexample | Parkingapp/app/src/main/java/com/example/parkingapp/screens/reservation/SlotSelectionScreen.kt:127 | for the one label "09:00~10:00", the start as written makes the time text "09:00~10:00 ~ 10:00"; the corrected start makes it "09:00 ~ 10:00" |
| SlotSelection.CorrectedStartOfCatalogLabels | Parkingapp/app/src/main/java/com/example/parkingapp/screens/reservation/SlotSelectionScreen.kt:126-127 | when the smallest label is the catalog label of hour i, the corrected start is the hour label of i and differs from the start as written |
| SlotSelection.CorrectedTimesMatchFormat | Parkingapp/app/src/main/java/com/example/parkingapp/ui/theme/utill.kt:3-8 | for catalog labels, the corrected start, '~' and the computed end are what `formatContinuousTime` shows |
| SlotSelection.CatalogLabelsAreCatalogLabels | Parkingapp/app/src/main/java/com/example/parkingapp/screens/reservation/SlotSelectionScreen.kt:126-131 | the labels of the 24-slot catalog are of the form these end-time lemmas require |
| SlotSelection.SlotSelectionState.constructor | Parkingapp/app/src/main/java/com/example/parkingapp/screens/reservation/SlotSelectionScreen.kt:37-39 | the screen starts with no slots and no pick |
| SlotSelection.SlotSelectionState.LoadSlots | Parkingapp/app/src/main/java/com/example/parkingapp/screens/reservation/SlotSelectionScreen.kt:42-55 | the fetched list replaces the slots; an exception keeps them; the pick is kept |
| SlotSelection.SlotSelectionState.Pick | Parkingapp/app/src/main/java/com/example/parkingapp/screens/reservation/SlotSelectionScreen.kt:82-88 | an available slot becomes the pick (id and number together); the disabled button of an unavailable slot changes nothing |
| SlotSelection.SlotSelectionState.SubmitEnabled | Parkingapp/app/src/main/java/com/example/parkingapp/screens/reservation/SlotSelectionScreen.kt:162 | the reserve button is enabled iff a slot id is picked |
| SlotSelection.SlotSelectionState.Submit | Parkingapp/app/src/main/java/com/example/parkingapp/screens/reservation/SlotSelectionScreen.kt:109-160 | no request without a full pick; otherwise the request carries the picked slot and the labels, and the pending reservation is the one built from the outcome |
| MyPage.Filtered | Parkingapp/app/src/main/java/com/example/parkingapp/screens/mypage/MyPageTabScreen.kt:33-39 | a tab shows an order-preserving subsequence of the history; the all tab (and any other index) shows it unchanged; a status tab keeps exactly the entries of its status, with their multiplicities |
| MyPage.FilteredMembers | Parkingapp/app/src/main/java/com/example/parkingapp/screens/mypage/MyPageTabScreen.kt:34-37 | under a status tab, a reservation is shown iff it is in the history with that status |
| MyPage.StatusTabsDisjoint | Parkingapp/app/src/main/java/com/example/parkingapp/screens/mypage/MyPageTabScreen.kt:34-37 | no reservation shows up under two status tabs |
| MyPage.StatusLabelDistinguishes | Parkingapp/app/src/main/java/com/example/parkingapp/screens/mypage/MyPageTabScreen.kt:143-149 | the label "알 수 없음" is shown iff the status is not one of the four known ones, and the four known statuses read differently |
| MyPage.CancelOnlyWhenReserved | Parkingapp/app/src/main/java/com/example/parkingapp/screens/mypage/MyPageTabScreen.kt:157-200 | the cancel button, always enabled when shown, and the status control appear iff the reservation is RESERVED |
| MyPage.GateOnlyWhenActive | Parkingapp/app/src/main/java/com/example/parkingapp/screens/mypage/MyPageTabScreen.kt:158-183 | the gate button appears iff the reservation is ACTIVE; it leads to the exit notice iff the barrier is open, carries the reservation's ids, and reads "주차 종료" exactly then |
| MyPage.CancelAndGateExclusive | Parkingapp/app/src/main/java/com/example/parkingapp/screens/mypage/MyPageTabScreen.kt:171-183 | a card never offers both cancelling and the gate |
| MyPage.CancelledCardOffersNothing | Parkingapp/app/src/main/java/com/example/parkingapp/screens/mypage/MyPageTabScreen.kt:143-183 | after a successful server cancel the card reads "취소" and offers no action |
| MyPage.OpenedCardLeadsToExit | Parkingapp/app/src/main/java/com/example/parkingapp/screens/mypage/MyPageTabScreen.kt:179-183 | after opening the barrier of an active reservation its gate button leads to the exit notice |
| MyPage.ClosedCardOffersNothing | Parkingapp/app/src/main/java/com/example/parkingapp/screens/mypage/MyPageTabScreen.kt:143-183 | after closing the barrier the card reads "완료" and offers no action, whatever the previous status |
| LegacyStore.MaxLegacyId | Parkingapp/app/src/main/java/com/example/parkingapp/ParkingListViewModel.kt:32 | the largest id of a non-empty history occurs in it and bounds every id |
| LegacyStore.LegacyNextId | Parkingapp/app/src/main/java/com/example/parkingapp/ParkingListViewModel.kt:31-33 | the next id is 1 for an empty history; unless some id is `Int.MAX_VALUE` it exceeds every id and is one more than an existing id |
| LegacyStore.LegacyCancel | Parkingapp/app/src/main/java/com/example/parkingapp/ParkingListViewModel.kt:35-39 | cancelling keeps an order-preserving subsequence with neither that id nor any ongoing reservation, and every other entry with its multiplicity |
| LegacyStore.SetOngoing | Parkingapp/app/src/main/java/com/example/parkingapp/ParkingListViewModel.kt:64-75 | matching entries get the ongoing flag, all others are unchanged, and length and order are kept |
| LegacyStore.StartThenEnd | Parkingapp/app/src/main/java/com/example/parkingapp/ParkingListViewModel.kt:64-75 | ending after starting equals ending alone, and starting twice equals starting once |
| LegacyStore.LegacyTimeSlotsForParking | Parkingapp/app/src/main/java/com/example/parkingapp/ParkingListViewModel.kt:41-50 | six slots, each at the lot's hourly price |
| LegacyStore.LegacyTimeSlotsAreHours | Parkingapp/app/src/main/java/com/example/parkingapp/ParkingListViewModel.kt:43-48 | slot i runs from hour 8 + i to hour 9 + i in `%02d:00` form |
| LegacyStore.LegacyTimeSlotsWithinDay | Parkingapp/app/src/main/java/com/example/parkingapp/ParkingListViewModel.kt:41-50 | the six slots have the labels of hours 8 to 13 of the 24-slot catalog, in the same order |
| LegacyStore.AllSlots | Parkingapp/app/src/main/java/com/example/parkingapp/ParkingListViewModel.kt:53-59 | `flatMap { it.timeSlots }` holds exactly the labels of some reservation |
| LegacyStore.LegacyReservedTimeSlots | Parkingapp/app/src/main/java/com/example/parkingapp/ParkingListViewModel.kt:53-55 | a label is reserved iff some reservation lists it |
| LegacyStore.HasTimeConflictIff | Parkingapp/app/src/main/java/com/example/parkingapp/ParkingListViewModel.kt:58-61 | a conflict exists iff some requested label is listed by some reservation; never for an empty request |
| LegacyStore.HasTimeConflictReserved | Parkingapp/app/src/main/java/com/example/parkingapp/ParkingListViewModel.kt:53-61 | a conflict is the same as a requested label among the reserved labels |
| LegacyStore.LegacyParkingListViewModel.constructor | Parkingapp/app/src/main/java/com/example/parkingapp/ParkingListViewModel.kt:10-24 | the store starts with the six example lots and an empty history |
| LegacyStore.LegacyParkingListViewModel.AddReservation | Parkingapp/app/src/main/java/com/example/parkingapp/ParkingListViewModel.kt:27-29 | the reservation is appended at the end of the history |
| LegacyStore.LegacyParkingListViewModel.GetNextReservationId | Parkingapp/app/src/main/java/com/example/parkingapp/ParkingListViewModel.kt:31-33 | returns the next id of the current history |
| LegacyStore.LegacyParkingListViewModel.CancelReservation | Parkingapp/app/src/main/java/com/example/parkingapp/ParkingListViewModel.kt:35-39 | the history becomes its cancelled form: that id and every ongoing reservation removed |
| LegacyStore.LegacyParkingListViewModel.GetReservedTimeSlots | Parkingapp/app/src/main/java/com/example/parkingapp/ParkingListViewModel.kt:53-55 | returns the labels of all reservations |
| LegacyStore.LegacyParkingListViewModel.CheckTimeConflict | Parkingapp/app/src/main/java/com/example/parkingapp/ParkingListViewModel.kt:58-61 | reports whether a requested label is already reserved |
| LegacyStore.LegacyParkingListViewModel.MarkReservationStarted | Parkingapp/app/src/main/java/com/example/parkingapp/ParkingListViewModel.kt:64-68 | matching entries become ongoing; nothing else changes |
| LegacyStore.LegacyParkingListViewModel.MarkReservationEnded | Parkingapp/app/src/main/java/com/example/parkingapp/ParkingListViewModel.kt:71-75 | matching entries stop being ongoing; nothing else changes |
| ContinuousTime.FormatEmpty | Parkingapp/app/src/main/java/com/example/parkingapp/ui/theme/utill.kt:4 | no labels give the empty text |
| ContinuousTime.FormatSingle | Parkingapp/app/src/main/java/com/example/parkingapp/ui/theme/utill.kt:3-8 | a single label "a~b" (with no '~' in a) comes back unchanged |
| ContinuousTime.FormatOrderIndependent | Parkingapp/app/src/main/java/com/example/parkingapp/ui/theme/utill.kt:5-8 | the text depends only on which labels occur, not on their order or repetitions |
| ContinuousTime.FormatCatalogRun | Parkingapp/app/src/main/java/com/example/parkingapp/ui/theme/utill.kt:3-8 | for the labels of a run of catalog slots, in any order, the text is the run's first start, '~', and its last end |
| ContinuousTime.HandedOnLabelsText | Parkingapp/app/src/main/java/com/example/parkingapp/ui/theme/utill.kt:3-8 | when the reservation screen lets the user go on, the labels it hands on collapse to the earliest selected start and the latest selected end |
## Left out

- ParkingStore.ParkingListViewModel.LoadParkingLots: `loadParkingLots` has no `catch`, so a throwing `repository.getParkingLots()` escapes `viewModelScope.launch` and ends the app with an uncaught exception. The model (`None`) states only that nothing was assigned. The crash itself is not modelled.
- Screen data not modelled:
  - screen layout and colours: the slot grid's, the card's status colour (MyPageTabScreen.kt:150-156) and the time-slot chips'
  - toasts, log lines and failure messages (including the escaped `\${...}` messages of the view-model), since they carry no state
- Abstractions in place of the real thing:
  - navigation, which is modelled only as the route's parts (`GateRoute`): its path, the reservation id and the slot id
  - the slot grid's `isSelected` mark, which is derived from the pick and not stored
- Outside the core:
  - coroutines, `viewModelScope.launch` and the interleaving of concurrent callbacks: each launched block is modelled as one atomic step
  - the HTTP layer, `RetrofitInstance`, authentication and `ParkingLotRepository`: their results are parameters
  - the `ReservationStatusControl` component shown on RESERVED cards: the model records only that it is shown
  - the payment screen and the gate screens
- Kotlin semantics not modelled:
  - `String.compareTo` compares UTF-16 code units; the model compares Dafny characters, which agree for the ASCII labels involved
  - Kotlin's `toIntOrNull` also accepts non-ASCII Unicode digits; the model accepts ASCII digits only
  - `String.format` uses the default locale's digits; the model prints ASCII digits
- The `?: startTime` fallback of the slot selection screen's end time (SlotSelectionScreen.kt:131) is unreachable, because `sorted.first()` has already succeeded on a non-empty list. It is not modelled as a separate case.
- An empty label list makes `first()` throw at SlotSelectionScreen.kt:127, and the surrounding `catch` shows a message. The model builds no pending reservation and leaves out the message.
- ReservationSelection.ReservationScreenState.Click: clicks are modelled only on catalog slots (the only ones the screen renders). `reservedLabels` is a parameter, so the same screen can be shown with the set as written or with the corrected one.
- ReservationSelection.SortedSelected: does not state that the sort is stable. Stability matters only for two different slots that are both missing from the catalog, and the screen never selects such slots.
- The root-package `TimeSlot` class is not part of this model; the legacy store is taken to use the shape of `data/model/TimeSlot.kt`.

## Findings

| source | as written | input that shows it | evidently intended | confidence | as-written member | corrected member |
|---|---|---|---|---|---|---|
| Parkingapp/app/src/main/java/com/example/parkingapp/viewmodel/ParkingListViewModel.kt:130 | `"\${it.startTime}~\${it.endTime}"`: the `\$` escapes make a fixed text, so every reservation maps to the same literal string and no catalog label is ever reported as reserved; already-booked hours stay clickable on the reservation screen | a history holding one reservation from "09:00" to "10:00": the set is `{"${it.startTime}~${it.endTime}"}` and does not contain "09:00~10:00" | the set of `start~end` labels of the reservations, so that reserved hours are disabled | high; not executed | ParkingStore.ReservedTimeSlotsCounterexample | ParkingStore.ReservedLabelsCoverCatalog |
| Parkingapp/app/src/main/java/com/example/parkingapp/screens/reservation/SlotSelectionScreen.kt:127 | `startTime = sorted.first()`: the start is the whole smallest label, not its part before '~'; the pending reservation goes to the payment screen, which prints `startTime ~ endTime` (screens/reservation/PaymentScreen.kt:51) | one selected hour "09:00~10:00": the time text reads "09:00~10:00 ~ 10:00" | the start part "09:00", as `formatContinuousTime` takes it, giving "09:00 ~ 10:00" | medium; not executed | SlotSelection.StartTimeCounterexample | SlotSelection.CorrectedStartOfCatalogLabels |

`SlotSelection.BuildReservation` keeps the start as written, so the model of the screen stays the code's own. `SlotSelection.CorrectedStartTime` is the intended start, and `SlotSelection.CorrectedTimesMatchFormat` proves that it agrees with `formatContinuousTime`.
