# Space booking core, modelled in Dafny

This project models the two stateful mechanisms of the space-booking
backend in `space.hpp`, and proves properties about them:

- **`Space::Time`**, the per-space reservation calendar (module `Calendar`,
  file `calendar.dfy`). It stores a growable vector of words. Bit `i` of word
  `b` means that hour `b * 32 + i` after the calendar's origin is booked.
  - `AddReservation` converts two timestamps to floored hour offsets and
    rejects a reversed range. It then grows the vector with zero words and
    runs a read-only conflict pass over every requested hour. Last comes a
    commit pass: boundary words are set bit by bit and interior words are
    set to all-ones. The result is the price `rate * hours`.
  - `RemoveReservation` clears the range unconditionally.
  - Words are modelled as 32 booleans, and a ghost predicate
    `Time.Reserved(h)` gives the per-hour view that every contract is stated
    in.
- **`Space::SpaceManager`**, the slot-recycling registry (module
  `Registry`, file `registry.dfy`). Spaces live in a dense sequence indexed
  by ID, and a freed slot holds `null`. `emptyID` is the lowest free slot,
  or the length when no slot is free.
  - `AddSpace` fills or appends at `emptyID` and then scans forward for the
    next hole.
  - `DeleteSpace` frees a slot and lowers `emptyID`.
  - `LoadData` rebuilds `emptyID` from the first null of the restored slots.
  - The invariant `Valid()` (every slot below `emptyID` is occupied, and
    `emptyID` is the length or an empty slot) is established by the
    constructor and `LoadData` and preserved by every operation.

Where the implementation departs from its evident intent, the model
follows the intent, and a separate as-written member exhibits the
difference (see "## Findings").

Only the rate-only constructor rounds the origin up to the next hour
(`space.hpp:134-139`). The default constructor keeps the raw clock reading
(`space.hpp:130-133`), and the `(rate, origin)` constructor keeps the
origin it is given (`space.hpp:140-143`). The copy constructor and loading
use that last constructor.

## Model

| member | source | states |
|---|---|---|
| Calendar.RoundUpToHour | space.hpp:134-138 | the derived origin is a whole hour, strictly after the clock reading and at most one hour after it |
| Calendar.HourOffset | space.hpp:159-160 | the hour offset rounds down: the timestamp lies in `[origin + h*3600, origin + (h+1)*3600)` |
| Calendar.HoursWithBit | space.hpp:21-23 | setting or clearing one bit of a stored word changes exactly the one hour that bit stands for |
| Calendar.HoursWithWord | space.hpp:198 | writing all-ones or zero into word k changes exactly hours `k*32 .. k*32+31` |
| Calendar.HoursOfZeroExtension | space.hpp:163-164 | appending zero words leaves every hour's booking unchanged |
| Calendar.FindConflict | space.hpp:165-188 | the conflict pass reports a conflict if and only if some hour in `[s, e]` is booked |
| Calendar.Time.constructor | space.hpp:130-133 | the default calendar has the clock reading as its origin, rate 0 and no words |
| Calendar.Time.WithRate | space.hpp:134-139 | the rate-only calendar has the given rate, no words, and the clock reading rounded up to the hour as its origin |
| Calendar.Time.Restore | space.hpp:140-143 | the `(rate, origin)` calendar keeps both values as given and has no words |
| Calendar.Time.SetRate | space.hpp:145 | the rate becomes the given value and the bookings are untouched |
| Calendar.Time.SetBulkTimes | space.hpp:146 | the stored words become the given ones, so the booked hours are exactly those the words describe |
| Calendar.Time.GetTimes | space.hpp:150 | the returned words describe exactly the booked hours |
| Calendar.Time.GrowTo | space.hpp:163-164 | after growth the vector covers block k, every stored word is kept, every appended word is zero, and no hour changes |
| Calendar.Time.MarkBits | space.hpp:191-200 | the bit loops set or clear exactly the hours `k*32+lo .. k*32+hi`, and every other hour keeps its value |
| Calendar.Time.MarkWords | space.hpp:197-198 | the interior-word loop sets or clears exactly the hours of blocks `lo .. hi-1`, and every other hour keeps its value |
| Calendar.Time.MarkRange | space.hpp:190-201 | the commit pass sets or clears exactly the hours of `[s, e]` across block boundaries, and every other hour keeps its value |
| Calendar.Time.AddReservation | space.hpp:154-204 | a reversed range, or one that starts before the origin, is rejected at price 0 and changes nothing, not even the length; otherwise the vector grows to cover the end block; success holds if and only if every requested hour was free; on success exactly those hours become booked and the price is rate × hour count; on failure no hour changes, old words are kept and appended words are zero |
| Calendar.Time.RemoveReservation | space.hpp:206-228 | a valid range succeeds if and only if it is not reversed; then exactly its hours become free, whatever they held, and the vector covers the end block; a rejected range changes nothing |
| Calendar.BookOverlapping | space.hpp:154-204 | once a range is booked, a second booking that shares an hour with it fails |
| Calendar.BookCancelRebook | space.hpp:154-228 | booking, cancelling and booking the same range again succeeds at the same price whenever the first booking did |
| Calendar.PriceExample | space.hpp:202 | three hours at rate 50 cost 150, and a single already-booked hour cannot be booked again |
| Calendar.BoundaryExample | space.hpp:190-226 | a booking of hours 30-34, which crosses the first block boundary, succeeds and sets exactly bits 30-31 of word 0 and bits 0-2 of word 1 (no other hour is booked); cancelling it succeeds and frees every hour |
| Calendar.RoundTrip | space.hpp:516-518 | storing a calendar's rate, origin and words and loading them back through `Time(rate, origin)` and `SetBulkTimes` (`space.hpp:569-570`) gives the same rate, the same origin and exactly the same booked hours | | Calendar.AsWrittenMissesInteriorBooking | space.hpp:176-183 | as written, the conflict pass of range 0..95 passes although interior hour 32 is booked | | Calendar.AsWrittenRejectsFreeRange | space.hpp:176-183 | as written, the free range 1..40 is reported as a conflict because hour 0 of its start block is booked | | Calendar.AsWrittenRemoveIndexesPastEnd | space.hpp:213-214 | as written, with exactly `e/32` words stored, removal appends nothing, so block `e/32` lies past the end |
| Calendar.ConflictAsWritten | space.hpp:166-188 | as written, a single-block request conflicts exactly when one of its hours is booked; a multi-block request conflicts exactly when some hour of its whole start block, or of its end block up to the end hour, is booked, so interior hours are never consulted |
| Calendar.BitsAreHours | space.hpp:21-23 | a set bit among bits lo..hi of word k is the same as a booked hour among hours `k*32+lo .. k*32+hi` |
| Calendar.AsWrittenMissesInteriorBooking | space.hpp:176-183 | as written, the conflict pass of range 0..95 passes although interior hour 32 is booked |
| Calendar.AsWrittenRejectsFreeRange | space.hpp:176-183 | as written, the free range 1..40 is reported as a conflict because hour 0 of its start block is booked |
| Calendar.RemoveGrowthAsWritten | space.hpp:213-214 | as written, removal either keeps the word count or grows it to `e/32 + 1`, and it leaves block `e/32` uncovered exactly when `e/32` words are stored |
| Calendar.AsWrittenRemoveIndexesPastEnd | space.hpp:213-214 | as written, with exactly `e/32` words stored, removal appends nothing, so block `e/32` lies past the end |
| Registry.Space.constructor | space.hpp:320-360 | a new space stores its ID and name, and its calendar is a fresh rate-only calendar with the clock reading rounded up to the hour |
| Registry.Space.Copy | space.hpp:362-383 | a copy takes the given ID and the original's name, rate and origin, with a fresh calendar and no bookings |
| Registry.FirstNull | space.hpp:695-708 | the result is the index of the first empty slot, or the length when none is empty |
| Registry.LowestFreeIsFirstNull | space.hpp:695-708 | the registry invariant fixes `emptyID` uniquely: it holds for k exactly when k is the first empty slot |
| Registry.SpaceManager.constructor | space.hpp:578 | an empty registry has `emptyID` 0 and satisfies the invariant |
| Registry.SpaceManager.GetEmptyID | space.hpp:588 | the ID the next space will get is the first empty slot |
| Registry.SpaceManager.Place | space.hpp:594-609 | the space goes into the old `emptyID`, appended when that is the length, every other slot is kept, and the forward scan restores the invariant |
| Registry.SpaceManager.AddSpace | space.hpp:592-610 | returns the old `emptyID` and fills exactly that slot (appending one when the registry was full) with a fresh copy stamped with that ID, which has its own fresh calendar, so bookings on the copy never touch the original; every other slot is kept and the invariant holds |
| Registry.SpaceManager.AddSpaceObject | space.hpp:612-630 | stores the given object itself at the old `emptyID`, leaves its ID field untouched and every other slot as it was, and the invariant holds |
| Registry.SpaceManager.DeleteSpace | space.hpp:632-640 | an out-of-range or empty slot changes nothing; an occupied slot is emptied alone and `emptyID` becomes `min(emptyID, ID)`; the result tells whether a space was deleted, and the invariant holds |
| Registry.SpaceManager.GetSpace | space.hpp:642-645 | the lookup is absent exactly for out-of-range or emptied IDs, and otherwise returns the slot's space |
| Registry.SpaceManager.LoadData | space.hpp:682-716 | an unreadable file is reported and changes nothing; otherwise the restored slots are taken as they are and `emptyID` becomes their first empty slot, so the invariant holds |
| Registry.SpaceManager.DeleteSpaceAsWritten | space.hpp:632-640 | as written, deletion makes the same state change as DeleteSpace but reports false on every path |
| Registry.RecyclingExample | space.hpp:592-640 | adding three spaces gives IDs 0, 1, 2; after deleting 1 the next space gets 1 and the one after that gets 3 |
| Registry.AsWrittenDeleteReportsFailure | space.hpp:632-640 | as written, a delete that does free the slot reports failure |

## Left out

- File and JSON persistence: opening and parsing files, `Serialize`/`Deserialize` and the JSON library are I/O and foreign code. `LoadData` receives the parsed slots as a parameter, with `None` for a file that cannot be opened. A parse failure partway through the file is not modelled.
- The numeric encoding of a stored word as a 64-bit integer is not modelled, because only its 32 low bits carry hours. `SetBit`, `GetBit` and `ClearBit` (`space.hpp:21-23`) shift an `int` 1, so bit 31 also spills into bits 32-63. A word is modelled as 32 booleans and the spill is not represented.
- The wall clock (`time(NULL)`) is a parameter `now`. `difftime` with a floating floor becomes integer floor division of seconds.
- Calendar.Time.AddReservation, Calendar.Time.RemoveReservation: the source's hour offsets are `unsigned long`, so its `startHours < 0` test is dead. For a start before the origin, converting the negative floored `double` to `unsigned long` (`space.hpp:159`, `space.hpp:209`) is undefined behaviour (in practice a huge offset). The model rejects such a start, as the test intends.
- Calendar.Time.AddReservation: the rate and the price are integers, not `double`. The price is the exact product rate × hour count, with no floating-point rounding.
- 32-bit IDs, `time_t` widths and unsigned wrap-around are not modelled: IDs and hours are unbounded naturals. This also covers the copy constructor's special ID value `(unsigned int)-1`.
- A Space's dimensions, seating, people count, amenity flags, tags and reviews are not modelled. They are float numerics and plain data that the reservation and registry logic never reads.
- Printing (`PrintSpace`, `PrintSpaces`), the randomised sample data, the interactive menu in `user.hpp`, `space.h`, `space.cpp`, `main.cpp` and `test.cpp` are not part of this model.
- Ownership and `delete` of the stored spaces are not modelled: a slot holds a reference or `null`. The destructor frees memory only.
- Concurrency is not modelled: every operation runs to completion with a single caller.

## Findings

| source | as written | input that shows it | evidently intended | confidence | as-written member | corrected member |
|---|---|---|---|---|---|---|
| space.hpp:176-183 | the interior conflict loop reads `times[startHours / 32]` from bit 0 on every pass, so interior words are never examined, and start-block hours before the start count as conflicts | hour 32 booked, request 0..95: no conflict is seen, and the commit double-books hour 32; hour 0 booked, request 1..40: rejected although every requested hour is free | examine `times[j]` for every interior block, so that a conflict is found if and only if a requested hour is booked (the comment at `space.hpp:165`) | not executed; high | Calendar.AsWrittenMissesInteriorBooking | Calendar.FindConflict |
| space.hpp:213 | the growth guard is `times.size() < endHours / 32` | 32 words stored, end hour 1024: nothing is appended, and the clear pass indexes word 32, one past the end | grow whenever `times.size() <= endHours / 32`, as `AddReservation` does at `space.hpp:163` | not executed; high | Calendar.AsWrittenRemoveIndexesPastEnd | Calendar.Time.RemoveReservation |
| space.hpp:639 | `DeleteSpace` returns `false` on every path | one space at ID 0, delete 0: the slot is freed but the result is `false` | report `true` when an occupied slot was freed | not executed; medium | Registry.AsWrittenDeleteReportsFailure | Registry.SpaceManager.DeleteSpace |

`Calendar.ConflictAsWritten`, `Calendar.RemoveGrowthAsWritten` and
`Registry.SpaceManager.DeleteSpaceAsWritten` define the code as written.
The lemmas and methods in the "as-written member" column exhibit each
discrepancy on the input shown.
