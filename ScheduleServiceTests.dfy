/** The unit-test fixtures of the pilot service, as lemmas about the model,
    together with two inputs that show how the ranking key actually behaves. */
module ScheduleServiceTests {
  import opened Wrappers
  import opened Models
  import opened PilotService
  import FileService

  const Pilot1: int := 1
  const Pilot2: int := 2

  /** 2020-10-01 14:00, day 737698 of the calendar: a Thursday. */
  const TwoPm: Instant := 737698 * TicksPerDay + 14 * TicksPerHour
  const FourPm: Instant := TwoPm + 2 * TicksPerHour
  const SixPm: Instant := TwoPm + 4 * TicksPerHour
  const EightPm: Instant := TwoPm + 6 * TicksPerHour

  const AllDays: seq<DayOfWeek> := [Monday, Tuesday, Wednesday, Thursday, Friday, Saturday, Sunday]

  /** A roster entry as the tests build it (the name is never read). */
  function Crew(pilotId: int, base: Base, workDays: seq<DayOfWeek>): (w: WorkSchedule)
  {
    WorkSchedule(pilotId, "", base, workDays)
  }

  /** A booking as the tests build it: no key, unconfirmed. */
  function Trip(pilotId: int, departure: Instant, returning: Instant): (b: Booking)
  {
    Booking(pilotId, departure, returning, None, 0, false)
  }

  function Request(departure: Instant, returning: Instant): (r: ScheduleRequest)
  {
    ScheduleRequest(Berlin, departure, returning)
  }

  /** The roster filter keeps a roster whose entries all qualify. */
  lemma {:induction false} AllRostered(ws: seq<WorkSchedule>, request: ScheduleRequest)
    requires forall i :: 0 <= i < |ws| ==> IsRostered(ws[i], request)
    ensures RosteredFor(ws, request) == ws
  {
    if |ws| > 0 {
      AllRostered(ws[1..], request);
    }
  }

  /** Nobody is unavailable when no booking blocks the request. */
  lemma {:induction false} NoneBlocking(bookings: seq<Booking>, request: ScheduleRequest)
    requires forall i :: 0 <= i < |bookings| ==> !Blocks(bookings[i], request)
    ensures UnavailablePilots(bookings, request) == []
  {
    if |bookings| > 0 {
      NoneBlocking(bookings[1..], request);
    }
  }

  /** The entry at index `i` that the first-minimum rule picks, with no
      repeated booking counts, gives the result. */
  lemma WinnerIs(request: ScheduleRequest, ws: seq<WorkSchedule>, bookings: seq<Booking>, i: nat, p: int)
    requires i < |ws| && ws[i].pilotId == p && IsEligible(ws[i], request, bookings)
    requires forall j :: 0 <= j < |ws| && IsEligible(ws[j], request, bookings) ==>
      RankingKey(bookings, p) <= RankingKey(bookings, ws[j].pilotId)
    requires forall j :: 0 <= j < i && IsEligible(ws[j], request, bookings) ==>
      RankingKey(bookings, ws[j].pilotId) > RankingKey(bookings, p)
    requires !HasDuplicateCounts(bookings)
    ensures NextAvailablePilot(request, ws, bookings) == Success(Some(p))
  {
    assert ws[i] in ws;
    assert IsFirstMinimalEligible(request, ws, bookings, p);
    NullIffAllRosteredBlocked(request, ws, bookings);
    FailsIffEligibleAndDuplicateCounts(request, ws, bookings);
    var r := NextAvailablePilot(request, ws, bookings);
    ResultIsFirstMinimal(request, ws, bookings, r.value.value);
    FirstMinimalEligibleUnique(request, ws, bookings, r.value.value, p);
  }

  lemma TwoPmIsThursday()
    ensures Weekday(TwoPm) == Thursday
    ensures Weekday(FourPm) == Thursday
  {
  }

  /** NoPilotsAvailable_ReturnsNull: an empty roster gives null, whatever
      the bookings (the test never supplies any). */
  lemma NoPilotsAvailableReturnsNull(bookings: seq<Booking>)
    ensures NextAvailablePilot(Request(TwoPm, FourPm), [], bookings) == Success(None)
  {
  }

  /** NoPilotsAvailable_ForThisLocation_ReturnsNull. */
  lemma NoPilotsForThisLocationReturnsNull(bookings: seq<Booking>)
    ensures NextAvailablePilot(Request(TwoPm, FourPm), [Crew(Pilot1, Munich, AllDays)], bookings) == Success(None)
  {
    NotRosteredIsNull(Request(TwoPm, FourPm), [Crew(Pilot1, Munich, AllDays)], bookings);
  }

  /** NoPilotsAvailable_ForThisDay_ReturnsNull: a Monday-only pilot is not
      rostered on a Thursday (the fixture's base differs as well). */
  lemma NoPilotsForThisDayReturnsNull(bookings: seq<Booking>)
    ensures NextAvailablePilot(Request(TwoPm, FourPm), [Crew(Pilot1, Munich, [Monday])], bookings) == Success(None)
    ensures !IsRostered(Crew(Pilot1, Berlin, [Monday]), Request(TwoPm, FourPm))
  {
    TwoPmIsThursday();
    NotRosteredIsNull(Request(TwoPm, FourPm), [Crew(Pilot1, Munich, [Monday])], bookings);
  }

  /** OnePilot_NothingScheduled_GetsReturned. */
  lemma OnePilotNothingScheduledGetsReturned()
    ensures NextAvailablePilot(Request(TwoPm, FourPm), [Crew(Pilot1, Berlin, AllDays)], []) == Success(Some(Pilot1))
  {
    TwoPmIsThursday();
    var ws := [Crew(Pilot1, Berlin, AllDays)];
    assert IsRostered(ws[0], Request(TwoPm, FourPm));
    assert RosteredFor(ws, Request(TwoPm, FourPm)) == ws;
  }

  /** OnePilot_DepartsAfterRequest_Unavailable: a trip leaving one second
      after the requested departure blocks the only pilot. */
  lemma OnePilotDepartsAfterRequestUnavailable()
    ensures NextAvailablePilot(Request(TwoPm, FourPm), [Crew(Pilot1, Berlin, AllDays)],
      [Trip(Pilot1, TwoPm + TicksPerSecond, FourPm)]) == Success(None)
  {
    TwoPmIsThursday();
    var request := Request(TwoPm, FourPm);
    var ws := [Crew(Pilot1, Berlin, AllDays)];
    var bookings := [Trip(Pilot1, TwoPm + TicksPerSecond, FourPm)];
    assert RosteredFor(ws, request) == ws;
    assert Blocks(bookings[0], request);
    assert IsBlocked(bookings, request, Pilot1);
    NullIffAllRosteredBlocked(request, ws, bookings);
  }

  /** TwoPilots_OneDepartsAfterRequest_ReturnOther. */
  lemma TwoPilotsOneDepartsAfterRequestReturnOther()
    ensures NextAvailablePilot(Request(TwoPm, FourPm), [Crew(Pilot1, Berlin, AllDays), Crew(Pilot2, Berlin, AllDays)],
      [Trip(Pilot1, TwoPm + TicksPerSecond, FourPm)]) == Success(Some(Pilot2))
  {
    TwoPmIsThursday();
    var request := Request(TwoPm, FourPm);
    var ws := [Crew(Pilot1, Berlin, AllDays), Crew(Pilot2, Berlin, AllDays)];
    var bookings := [Trip(Pilot1, TwoPm + TicksPerSecond, FourPm)];
    assert IsBlocked(bookings, request, Pilot1) by {
      assert bookings[0] in bookings && Blocks(bookings[0], request);
    }
    assert ws[1] in ws && IsEligible(ws[1], request, bookings);
    WinnerIs(request, ws, bookings, 1, Pilot2);
  }

  /** TwoPilots_OneReturnsAfterRequest_ReturnOther: a trip returning one
      second after the requested departure blocks its pilot. */
  lemma TwoPilotsOneReturnsAfterRequestReturnOther()
    ensures NextAvailablePilot(Request(FourPm, SixPm), [Crew(Pilot1, Berlin, AllDays), Crew(Pilot2, Berlin, AllDays)],
      [Trip(Pilot1, TwoPm, FourPm + TicksPerSecond)]) == Success(Some(Pilot2))
  {
    TwoPmIsThursday();
    var request := Request(FourPm, SixPm);
    var ws := [Crew(Pilot1, Berlin, AllDays), Crew(Pilot2, Berlin, AllDays)];
    var bookings := [Trip(Pilot1, TwoPm, FourPm + TicksPerSecond)];
    assert IsBlocked(bookings, request, Pilot1) by {
      assert bookings[0] in bookings && Blocks(bookings[0], request);
    }
    assert ws[1] in ws && IsEligible(ws[1], request, bookings);
    WinnerIs(request, ws, bookings, 1, Pilot2);
  }

  /** TwoPilots_BothAvailable_ReturnsPilotWithNoSchedule: pilot 1's single
      booking makes the only count 1, which is pilot 1's id, so pilot 1 ranks
      by key 1 and pilot 2 by key 0. */
  lemma TwoPilotsBothAvailableReturnsPilotWithNoSchedule()
    ensures NextAvailablePilot(Request(TwoPm, FourPm), [Crew(Pilot1, Berlin, AllDays), Crew(Pilot2, Berlin, AllDays)],
      [Trip(Pilot1, SixPm, EightPm)]) == Success(Some(Pilot2))
  {
    TwoPmIsThursday();
    var request := Request(TwoPm, FourPm);
    var ws := [Crew(Pilot1, Berlin, AllDays), Crew(Pilot2, Berlin, AllDays)];
    var bookings := [Trip(Pilot1, SixPm, EightPm)];
    assert CountOf(bookings, Pilot1) == 1;
    assert RankingKey(bookings, Pilot1) == 1 by {
      assert bookings[0] in bookings;
    }
    assert RankingKey(bookings, Pilot2) == 0;
    assert ws[0] in ws && IsEligible(ws[0], request, bookings);
    assert IsEligible(ws[1], request, bookings);
    WinnerIs(request, ws, bookings, 1, Pilot2);
  }

  /** TwoPilots_BothAvailable_ReturnsPilotWithFewerTrips: the counts are 1
      and 2, which coincide with the two pilot ids. */
  lemma TwoPilotsBothAvailableReturnsPilotWithFewerTrips()
    ensures NextAvailablePilot(Request(TwoPm, FourPm), [Crew(Pilot1, Berlin, AllDays), Crew(Pilot2, Berlin, AllDays)],
      [Trip(Pilot1, SixPm, EightPm), Trip(Pilot2, SixPm, EightPm), Trip(Pilot2, EightPm, EightPm + 2 * TicksPerHour)])
      == Success(Some(Pilot1))
  {
    TwoPmIsThursday();
    var request := Request(TwoPm, FourPm);
    var ws := [Crew(Pilot1, Berlin, AllDays), Crew(Pilot2, Berlin, AllDays)];
    var bookings := [Trip(Pilot1, SixPm, EightPm), Trip(Pilot2, SixPm, EightPm), Trip(Pilot2, EightPm, EightPm + 2 * TicksPerHour)];
    assert CountOf(bookings, Pilot1) == 1 && CountOf(bookings, Pilot2) == 2;
    assert RankingKey(bookings, Pilot1) == 1 by {
      assert bookings[0] in bookings;
    }
    assert RankingKey(bookings, Pilot2) == 2 by {
      assert bookings[1] in bookings;
    }
    assert ws[0] in ws && IsEligible(ws[0], request, bookings);
    assert IsEligible(ws[1], request, bookings);
    WinnerIs(request, ws, bookings, 0, Pilot1);
  }

  /** PilotOnShortTrip_InsideRequestWindow_Unavailable. */
  lemma PilotOnShortTripInsideRequestWindowUnavailable()
    ensures NextAvailablePilot(Request(TwoPm, EightPm), [Crew(Pilot1, Berlin, AllDays)],
      [Trip(Pilot1, FourPm, SixPm)]) == Success(None)
  {
    TwoPmIsThursday();
    var request := Request(TwoPm, EightPm);
    var ws := [Crew(Pilot1, Berlin, AllDays)];
    var bookings := [Trip(Pilot1, FourPm, SixPm)];
    assert RosteredFor(ws, request) == ws;
    assert IsBlocked(bookings, request, Pilot1) by {
      assert bookings[0] in bookings && Blocks(bookings[0], request);
    }
    NullIffAllRosteredBlocked(request, ws, bookings);
  }

  /** PIlotOnLongTrip_EitherSideOfRequestWindow_Unavailable. */
  lemma PilotOnLongTripEitherSideOfRequestWindowUnavailable()
    ensures NextAvailablePilot(Request(FourPm, SixPm), [Crew(Pilot1, Berlin, AllDays)],
      [Trip(Pilot1, TwoPm, EightPm)]) == Success(None)
  {
    TwoPmIsThursday();
    var request := Request(FourPm, SixPm);
    var ws := [Crew(Pilot1, Berlin, AllDays)];
    var bookings := [Trip(Pilot1, TwoPm, EightPm)];
    assert RosteredFor(ws, request) == ws;
    assert IsBlocked(bookings, request, Pilot1) by {
      assert bookings[0] in bookings && Blocks(bookings[0], request);
    }
    NullIffAllRosteredBlocked(request, ws, bookings);
  }

  /** One booking each for pilots 1 and 2, both after the requested window. */
  const OneTripEach: seq<Booking> := [Trip(Pilot1, SixPm, EightPm), Trip(Pilot2, SixPm, EightPm)]

  lemma OneTripEachHasDuplicateCounts()
    ensures HasDuplicateCounts(OneTripEach)
  {
    var bookings := OneTripEach;
    assert CountOf(bookings, Pilot1) == 1 && CountOf(bookings, Pilot2) == 1;
    assert bookings[0] in bookings && bookings[1] in bookings;
  }

  lemma OneTripEachLeavesWindowFree()
    ensures !IsBlocked(OneTripEach, Request(TwoPm, FourPm), Pilot1)
  {
    var bookings := OneTripEach;
    assert !Blocks(bookings[0], Request(TwoPm, FourPm)) && !Blocks(bookings[1], Request(TwoPm, FourPm));
  }

  /** Two free pilots with one booking each outside the window: both counts
      are 1, so `ToDictionary` throws instead of a pilot being chosen. */
  lemma EqualCountsThrow()
    ensures NextAvailablePilot(Request(TwoPm, FourPm), [Crew(Pilot1, Berlin, AllDays), Crew(Pilot2, Berlin, AllDays)],
      OneTripEach) == Failure(DuplicateKey)
  {
    TwoPmIsThursday();
    var request := Request(TwoPm, FourPm);
    var ws := [Crew(Pilot1, Berlin, AllDays), Crew(Pilot2, Berlin, AllDays)];
    var bookings := OneTripEach;
    OneTripEachHasDuplicateCounts();
    OneTripEachLeavesWindowFree();
    assert ws[0] in ws && IsEligible(ws[0], request, bookings);
    FailsIffEligibleAndDuplicateCounts(request, ws, bookings);
    var r := NextAvailablePilot(request, ws, bookings);
    assert r.Failure? && r.error == DuplicateKey;
  }

  /** The key is not the booking count: with pilots 2 and 3 free, where
      pilot 2 has one booking and pilot 3 two, pilot 2's id equals the count
      2 and ranks it behind pilot 3, whose key is 0. */
  lemma BusierPilotChosen()
    ensures NextAvailablePilot(Request(TwoPm, FourPm), [Crew(2, Berlin, AllDays), Crew(3, Berlin, AllDays)],
      [Trip(2, SixPm, EightPm), Trip(3, SixPm, EightPm), Trip(3, EightPm, EightPm + 2 * TicksPerHour)])
      == Success(Some(3))
  {
    TwoPmIsThursday();
    var request := Request(TwoPm, FourPm);
    var ws := [Crew(2, Berlin, AllDays), Crew(3, Berlin, AllDays)];
    var bookings := [Trip(2, SixPm, EightPm), Trip(3, SixPm, EightPm), Trip(3, EightPm, EightPm + 2 * TicksPerHour)];
    assert CountOf(bookings, 2) == 1 && CountOf(bookings, 3) == 2;
    assert RankingKey(bookings, 2) == 2 by {
      assert bookings[1] in bookings;
    }
    assert RankingKey(bookings, 3) == 0;
    assert ws[0] in ws && IsEligible(ws[0], request, bookings);
    assert IsEligible(ws[1], request, bookings);
    WinnerIs(request, ws, bookings, 1, 3);
  }

  /** NoPilotsAvailable_ReturnsNull through the service object: the
      schedule file is never read, so a missing one is not even created. */
  method NoPilotsAvailableThroughService() returns (r: Result<Option<int>, ResolveError>, scheduleFileCreated: bool)
    ensures r == Success(None)
    ensures !scheduleFileCreated
  {
    var store := new FileService.FileService(None, []);
    var service := new PilotService(store);
    r := service.GetNextAvailablePilot(Request(TwoPm, FourPm));
    scheduleFileCreated := store.stored.Some?;
  }
}
