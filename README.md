# crew-scheduler: a Dafny model of the pilot resolver and the booking store

What this models, in the scheduler's own terms:

- **Choosing the next available pilot.** `PilotService.GetNextAvailablePilot` filters the crew
  roster to pilots based at the requested location whose work days include the departure's
  weekday. It then drops every pilot who has a booking overlapping the requested window. It
  ranks the rest by a key built from booking counts, and returns the first one (`null` when
  nobody is left).
- **The booking store.** `FileService` keeps the schedule as a JSON list of bookings. It can
  append a booking, confirm the first booking that carries a reservation key, and read the
  whole list back. Reading a missing schedule file creates it empty.
- **The controller guard.** `PilotController.Post` rejects a request that departs in the past or
  returns before it departs, and otherwise passes the request to the pilot service. `Confirm`
  wraps whatever the service answers.
- **The response object.** `GetNextAvailablePilotResponse` keeps a reservation key only when
  it carries a pilot id.

How each file is modelled:

- `Models.dfy` holds the data shapes. A `DateTime` is its tick count (`Instant = nat`), and
  `DayOfWeek` and `Date` are computed from the ticks.
- `PilotService.dfy` models the LINQ pipeline as pure functions: `Where`, the unavailable set,
  `GroupBy`/`ToDictionary`, a stable `OrderBy` and `FirstOrDefault`. It proves what the pipeline
  returns. `ToDictionary` throws on a duplicate key; that is modelled as `Failure(DuplicateKey)`.
  The `PilotService` class wraps the pipeline around a reference to the store.
- `FileService.dfy` models the store as a class. Its field `stored` is the content of
  Schedule.json, `None` while the file does not exist; its field `crew` is the roster in
  Crew.json. Its methods change `stored` the way the C# methods rewrite the file, taking the
  file the writes name and the file the read opens to be the same one (see "## Left out").
- `PilotController.dfy` and `ApiModels.dfy` model the guard, the pass-through and the
  constructor.
- `ScheduleServiceTests.dfy` restates every fixture of the unit-test class as a lemma about
  the model.
- `Wrappers.dfy` has the `Option`, `Result` and `Outcome` types.

### Where the code and its tests' intent disagree

The model follows the code.

- **The ranking key is not the booking count.**
  - Line 37 of `PilotService.cs` groups the bookings by pilot, keeps only the group sizes, and
    builds a dictionary from each size to itself. Line 39 then looks up the *pilot id* in that
    dictionary.
  - So a pilot ranks by its own id when some pilot has exactly that many bookings, and by 0
    otherwise (`RankKeyIsPilotIdOrZero`).
  - Once someone is available, two distinct pilots who each have at least one booking, and the
    same number of them, make `ToDictionary` throw (`DuplicateCountsIff`,
    `FailsIffEligibleAndDuplicateCounts`). Pilots with no bookings form no group, so they never
    cause the throw.
  - The rule the test names announce, that the pilot with fewer trips wins
    (`TwoPilots_BothAvailable_ReturnsPilotWithFewerTrips`, ScheduleServiceTests.cs line 244),
    is therefore not what the code does. `BusierPilotChosen` is a concrete input where the pilot
    with more bookings is chosen, and `EqualCountsThrow` is one where the call throws.
  - The unit-test fixtures that expect particular winners still hold (see the fixture lemmas).
    Their pilot ids happen to coincide with the counts.
- **Ties are broken by roster order, not by id.** `OrderBy` is stable, so among equal keys the
  earliest roster entry wins (`ResultIsFirstMinimal`).
- **Holds never expire in this code.** It has no notion of a reservation's lifetime: every stored
  booking goes through the overlap test, confirmed or not, however old. The read ignores the requested
  day, and the whole stored list is both the unavailable source and the ranking population.

## Model

| member | source | states |
|---|---|---|
| Models.Weekday | CrewScheduler/Services/PilotService.cs:18 | `DayOfWeek` numbers the days from 0001-01-01, a Monday: the weekday's index is the day number plus one, modulo 7 (`WeekdayOfDay` states how it moves from day to day) |
| Models.DateOf | CrewScheduler/Services/PilotService.cs:26 | `Date` is the midnight at or before the instant, less than a day earlier |
| Models.WeekdayOfDay | CrewScheduler/Services/PilotService.cs:18 | midnight and every instant of its day share a weekday; the weekday advances by one each day, modulo 7 |
| PilotService.IsRostered | CrewScheduler/Services/PilotService.cs:20 | an entry qualifies iff its base is the requested location and some work day equals the departure's weekday (the `Any` over `WorkDays`); `RosteredFor`, `NotRosteredIsNull` and `ResultIsEligible` state what the filter built from it keeps and returns |
| PilotService.RosteredFor | CrewScheduler/Services/PilotService.cs:20 | a roster entry is kept iff its base is the requested location and its work days contain the departure's weekday |
| PilotService.Blocks | CrewScheduler/Services/PilotService.cs:27-31 | a blocking booking departs no later than the requested return; a booking departing inside the requested window blocks, and so does a well-formed one returning inside it (`BlocksIsClosedOverlap` and `EdgeContactBlocks` state the rest) |
| PilotService.BlocksIsClosedOverlap | CrewScheduler/Services/PilotService.cs:27-31 | for a well-formed booking, the unavailable test is closed-interval overlap with the request window, symmetric in the two windows |
| PilotService.EdgeContactBlocks | CrewScheduler/Services/PilotService.cs:27-31 | for a well-formed booking and request (each departing no later than it returns), a booking returning exactly at the requested departure, or departing exactly at the requested return, blocks |
| PilotService.UnavailablePilots | CrewScheduler/Services/PilotService.cs:27-32 | a pilot id is unavailable iff one of that pilot's bookings blocks the request |
| PilotService.AvailablePilots | CrewScheduler/Services/PilotService.cs:34 | an id is available iff it is some rostered entry's id and not unavailable |
| PilotService.CountOf | CrewScheduler/Services/PilotService.cs:37 | a group's size is at most the number of bookings, and positive iff the pilot has a booking |
| PilotService.GroupKeys | CrewScheduler/Services/PilotService.cs:37 | the groups are keyed by each booked pilot id exactly once |
| PilotService.GroupCounts | CrewScheduler/Services/PilotService.cs:37 | the result selector yields one count per group, each at least 1 and at most the number of bookings (`DuplicateCountsIff` and `RankKeyIsPilotIdOrZero` state what the dictionary built from them does) |
| PilotService.ToDictionary | CrewScheduler/Services/PilotService.cs:37 | the build succeeds iff the keys are distinct, and then maps exactly the keys, each to itself |
| PilotService.DuplicateCountsIff | CrewScheduler/Services/PilotService.cs:37 | the dictionary build throws iff two distinct booked pilots have equal booking counts |
| PilotService.RankKeyIsPilotIdOrZero | CrewScheduler/Services/PilotService.cs:37-39 | a pilot's sort key is its own id when that id equals some pilot's booking count, else 0 |
| PilotService.RankKey | CrewScheduler/Services/PilotService.cs:39 | the `TryGetValue` key is a value stored in the dictionary or the default 0, and 0 for an id the dictionary lacks (`RankKeyIsPilotIdOrZero` says which) |
| PilotService.InsertByKey | CrewScheduler/Services/PilotService.cs:39 | one insertion step of the stable sort adds exactly the inserted element (length and multiset); `InsertByKeySorted` proves it keeps the list sorted |
| PilotService.OrderByKey | CrewScheduler/Services/PilotService.cs:39 | the sort returns a permutation of its input |
| PilotService.OrderByKeySorted | CrewScheduler/Services/PilotService.cs:39 | the sort's output is in ascending key order |
| PilotService.OrderByHeadIsFirstMinimal | CrewScheduler/Services/PilotService.cs:39 | the head of the stable sort is the earliest element with a minimal key |
| PilotService.PickFromRostered | CrewScheduler/Services/PilotService.cs:26-39 | after the roster filter, a chosen pilot is a rostered one with no blocking booking, and a throw happens only when two booked pilots share a count |
| PilotService.NextAvailablePilot | CrewScheduler/Services/PilotService.cs:16-40 | the whole of `GetNextAvailablePilot`: a chosen pilot comes from an eligible roster entry, and a throw happens only when two booked pilots share a count; `NullIffAllRosteredBlocked`, `FailsIffEligibleAndDuplicateCounts`, `ResultIsFirstMinimal` and `FirstMinimalEligibleUnique` together fix every outcome |
| PilotService.NotRosteredIsNull | CrewScheduler/Services/PilotService.cs:20-24 | with no entry for the base and weekday the result is null, whatever the bookings |
| PilotService.NullIffAllRosteredBlocked | CrewScheduler/Services/PilotService.cs:20-36 | the result is null iff every rostered entry's pilot has a blocking booking |
| PilotService.FailsIffEligibleAndDuplicateCounts | CrewScheduler/Services/PilotService.cs:34-37 | the call throws iff some entry is eligible and two distinct booked pilots share a count |
| PilotService.ResultIsEligible | CrewScheduler/Services/PilotService.cs:20-39 | a returned pilot has a rostered entry, and none of its bookings blocks the request |
| PilotService.ResultIsFirstMinimal | CrewScheduler/Services/PilotService.cs:34-39 | a returned pilot is the earliest eligible entry whose ranking key is minimal among the eligible entries |
| PilotService.FirstMinimalEligibleUnique | CrewScheduler/Services/PilotService.cs:39 | at most one pilot satisfies the first-minimum rule, so it determines the result |
| PilotService.PilotService.GetNextAvailablePilot | CrewScheduler/Services/PilotService.cs:16-40 | the method returns `NextAvailablePilot` of the roster and the stored bookings, leaves the bookings unchanged, and does not read (or create) the schedule file when nobody is rostered |
| FileService.FirstWithKey | CrewScheduler/Services/FileService.cs:47 | `First` selects an index whose key matches and before which none does; there is no index iff no booking matches |
| FileService.ConfirmFirst | CrewScheduler/Services/FileService.cs:47 | confirming fails iff no booking has the key; otherwise the list keeps its length and a booking with the key is now confirmed (`ConfirmFirstChangesOnlyFirstMatch` pins down which one, and that nothing else changes) |
| FileService.ConfirmFirstChangesOnlyFirstMatch | CrewScheduler/Services/FileService.cs:47 | confirming fails iff no key matches; otherwise only the first match changes, and only its `IsConfirmed`, which becomes true |
| FileService.ConfirmFirstIdempotent | CrewScheduler/Services/FileService.cs:44-50 | confirming the same key a second time changes nothing |
| FileService.FileService.GetPilotSchedulesForDay | CrewScheduler/Services/FileService.cs:52-63 | the read returns every stored booking whatever the day; a missing file reads as, and is created as, the empty list |
| FileService.FileService.GetPilotWorkSchedules | CrewScheduler/Services/FileService.cs:65-71 | the roster read returns the crew list |
| FileService.FileService.AddPilotToSchedule | CrewScheduler/Services/FileService.cs:35-42 | the stored list becomes the old list followed by the new booking |
| FileService.FileService.UpdatePilotSchedule | CrewScheduler/Services/FileService.cs:44-50 | passes iff some stored booking has the key, and then stores the list with the first match confirmed; otherwise it fails and the list is unchanged |
| FileService.AppendThenConfirm | CrewScheduler/Services/FileService.cs:35-50 | a hold appended to a missing file and confirmed by its own key leaves exactly that booking, confirmed |
| PilotController.IsRejected | CrewScheduler/Controllers/PilotController.cs:28 | a request passes the guard iff now is at or before its departure and its departure at or before its return; `Post` and `PostAcceptsBoundaries` state what the action answers on each side of it |
| PilotController.Post | CrewScheduler/Controllers/PilotController.cs:26-33 | answers 400 iff the departure is before now or the return is before the departure; otherwise it answers the service's result for the unchanged request |
| PilotController.PostAcceptsBoundaries | CrewScheduler/Controllers/PilotController.cs:28 | a departure exactly at now with the return equal to the departure is accepted |
| PilotController.Confirm | CrewScheduler/Controllers/PilotController.cs:37-41 | the result is confirmed iff the service says so |
| ApiModels.NewResponse | CrewScheduler/Models/ApiModels/GetNextAvailablePilotResponse.cs:8-15 | the pilot id is kept; the reservation key is kept iff a pilot id is present |
| ApiModels.NewResponseIsWellFormed | CrewScheduler/Models/ApiModels/GetNextAvailablePilotResponse.cs:8-15 | no constructed response has a key without a pilot id, and each such response is the constructor's output on its own fields |
| ScheduleServiceTests.NoPilotsAvailableReturnsNull | CrewScheduler.Tests/ScheduleServiceTests.cs:30-41 | an empty roster gives null, whatever the bookings |
| ScheduleServiceTests.NoPilotsAvailableThroughService | CrewScheduler.Tests/ScheduleServiceTests.cs:30-41 | through the service object, an empty roster gives null and the schedule file is not created |
| ScheduleServiceTests.NoPilotsForThisLocationReturnsNull | CrewScheduler.Tests/ScheduleServiceTests.cs:44-62 | a pilot based elsewhere is never returned |
| ScheduleServiceTests.NoPilotsForThisDayReturnsNull | CrewScheduler.Tests/ScheduleServiceTests.cs:65-83 | a Monday-only pilot is not rostered on a Thursday, and the result is null |
| ScheduleServiceTests.OnePilotNothingScheduledGetsReturned | CrewScheduler.Tests/ScheduleServiceTests.cs:86-106 | the only rostered pilot, with no bookings, is returned |
| ScheduleServiceTests.OnePilotDepartsAfterRequestUnavailable | CrewScheduler.Tests/ScheduleServiceTests.cs:110-136 | a trip departing one second after the requested departure blocks the only pilot |
| ScheduleServiceTests.TwoPilotsOneDepartsAfterRequestReturnOther | CrewScheduler.Tests/ScheduleServiceTests.cs:141-171 | the other pilot is returned when the first is blocked by a later-departing trip |
| ScheduleServiceTests.TwoPilotsOneReturnsAfterRequestReturnOther | CrewScheduler.Tests/ScheduleServiceTests.cs:176-206 | the other pilot is returned when the first is blocked by a trip returning after the requested departure |
| ScheduleServiceTests.TwoPilotsBothAvailableReturnsPilotWithNoSchedule | CrewScheduler.Tests/ScheduleServiceTests.cs:210-240 | with pilot 1 holding one booking outside the window, pilot 2 is returned |
| ScheduleServiceTests.TwoPilotsBothAvailableReturnsPilotWithFewerTrips | CrewScheduler.Tests/ScheduleServiceTests.cs:244-284 | with one booking for pilot 1 and two for pilot 2, pilot 1 is returned |
| ScheduleServiceTests.PilotOnShortTripInsideRequestWindowUnavailable | CrewScheduler.Tests/ScheduleServiceTests.cs:287-313 | a trip inside the requested window blocks its pilot |
| ScheduleServiceTests.PilotOnLongTripEitherSideOfRequestWindowUnavailable | CrewScheduler.Tests/ScheduleServiceTests.cs:316-342 | a trip spanning the requested window blocks its pilot |
| ScheduleServiceTests.EqualCountsThrow | CrewScheduler/Services/PilotService.cs:37 | two free pilots with one booking each make the call throw |
| ScheduleServiceTests.BusierPilotChosen | CrewScheduler/Services/PilotService.cs:37-39 | with pilots 2 and 3 free, holding one and two bookings, pilot 3 (the busier one) is returned |

## Left out

- File I/O and JSON (de)serialisation: the two files are the fields of the `FileService` class,
  and a list that fails to parse is not modelled.
- The missing-Crew.json case: `GetPilotWorkSchedules` throws when the file is absent; the model
  always has a roster.
- `async`/`await` and concurrency: each operation runs to completion. The read-modify-write race
  between two concurrent `AddPilotToSchedule` calls is not modelled.
- The schedule file's location: the read opens Schedule.json under the content root
  (FileService.cs line 55), while `AddPilotToSchedule` and `UpdatePilotSchedule` write the bare
  relative name (lines 41 and 49), which resolves against the process's working directory. The
  single `stored` field takes the two to be the same file, as they are when the working
  directory is the content root. When they differ, a write does not reach the next read; the
  model does not capture that case.
- Three shapes the C# text leaves loose. `FileService.cs` imports only `CrewScheduler.Models`
  (line 8), whose three-field `PilotScheduleInfo` has no `ReservationKey` or `IsConfirmed`, yet
  line 47 uses both; the model uses the booking shape that carries them. `Post` receives
  `ApiModels.PilotScheduleRequest`, whose `Location` is a `string` (PilotController.cs line 26);
  the model's `Post` takes a `ScheduleRequest` whose location is already a `Base`. A roster entry
  whose `WorkDays` is null, or a null `Crew` list, read from JSON makes line 20 of
  `PilotService.cs` throw; the model's lists are never null.
- The time provider: `now` is a parameter of the methods that ask for it.
- `DateTime` range limits (`MaxValue` ticks) and `DateTimeKind`: instants are unbounded
  natural tick counts.
- FileService.FileService.UpdatePilotSchedule: the exception `First` throws is an `Outcome`
  failure. The model does not write the list back on that path, matching the code, which throws
  before the write.
- The `Base` enum's declaration is not part of this model. `Base` has the two members the tests
  use, and the pipeline only compares bases for equality.
- The implementation behind `IPilotService`, including `ConfirmPilotSchedule`, is not part of
  this model. The controller's service is a function parameter.
- HTTP routing and `ActionResult`: `Post` returns either `BadRequest` or the service's value.
  The code returns the service's `int?` where the action declares a response object; the model
  just passes the value through.
- Hold lifetimes, hold placement and confirmation by the pilot service do not occur in this
  code and are not modelled.
- The request and confirmation DTOs appear only as record shapes (`Models.ScheduleRequest`,
  `Models.ConfirmationRequest`, `Models.ConfirmationResult`).
