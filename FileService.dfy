/** The JSON-file booking store: an in-memory view of Schedule.json and
    Crew.json with the list logic of its four operations. */
module FileService {
  import opened Wrappers
  import opened Models

  /** Thrown by `First` when no booking carries the requested key. */
  datatype StoreError = NoMatchingReservation

  /** The index LINQ's `First(p => p.ReservationKey == key)` selects, if any. */
  function FirstWithKey(s: seq<Booking>, key: Option<string>): (r: Option<nat>)
    ensures r.Some? ==> r.value < |s| && s[r.value].reservationKey == key
    ensures r.Some? ==> forall j :: 0 <= j < r.value ==> s[j].reservationKey != key
    ensures r.None? <==> forall j :: 0 <= j < |s| ==> s[j].reservationKey != key
  {
    if |s| == 0 then None
    else if s[0].reservationKey == key then Some(0)
    else match FirstWithKey(s[1..], key)
      case None => None
      case Some(i) => Some(i + 1)
  }

  /** The bookings after setting `IsConfirmed` on the first one whose key
      equals `key`; a failure when `First` finds none. */
  function ConfirmFirst(s: seq<Booking>, key: Option<string>): (r: Result<seq<Booking>, StoreError>)
    ensures r.Failure? <==> forall j :: 0 <= j < |s| ==> s[j].reservationKey != key
    ensures r.Success? ==> (|r.value| == |s| &&
      exists i :: 0 <= i < |s| && s[i].reservationKey == key && r.value[i].isConfirmed)
  {
    match FirstWithKey(s, key)
    case None => Failure(NoMatchingReservation)
    case Some(i) => Success(s[i := s[i].(isConfirmed := true)])
  }

  /** Which booking the key selects depends only on the bookings' keys. */
  lemma {:induction false} FirstWithKeyDependsOnKeys(s: seq<Booking>, t: seq<Booking>, key: Option<string>)
    requires |s| == |t|
    requires forall j :: 0 <= j < |s| ==> s[j].reservationKey == t[j].reservationKey
    ensures FirstWithKey(s, key) == FirstWithKey(t, key)
  {
    if |s| > 0 && s[0].reservationKey != key {
      FirstWithKeyDependsOnKeys(s[1..], t[1..], key);
    }
  }

  /** Confirming fails exactly when no booking carries the key; otherwise it
      flips `isConfirmed` on the first booking with that key and on no other,
      and changes no other field. */
  lemma ConfirmFirstChangesOnlyFirstMatch(s: seq<Booking>, key: Option<string>)
    ensures ConfirmFirst(s, key).Failure? <==> forall j :: 0 <= j < |s| ==> s[j].reservationKey != key
    ensures ConfirmFirst(s, key).Success? ==>
      var r := ConfirmFirst(s, key).value;
      |r| == |s| &&
      exists i :: 0 <= i < |s| && s[i].reservationKey == key &&
        (forall j :: 0 <= j < i ==> s[j].reservationKey != key) &&
        r[i] == s[i].(isConfirmed := true) && r[i].isConfirmed &&
        forall j :: 0 <= j < |s| && j != i ==> r[j] == s[j]
  {
  }

  /** Confirming twice with the same key gives the same list as confirming once. */
  lemma ConfirmFirstIdempotent(s: seq<Booking>, key: Option<string>)
    requires ConfirmFirst(s, key).Success?
    ensures ConfirmFirst(ConfirmFirst(s, key).value, key) == ConfirmFirst(s, key)
  {
    var i := FirstWithKey(s, key).value;
    var r := ConfirmFirst(s, key).value;
    FirstWithKeyDependsOnKeys(s, r, key);
    assert r[i := r[i].(isConfirmed := true)] == r;
  }

  /** The two schedule files. `stored` is the content of Schedule.json, `None`
      while that file does not exist; `crew` is the `Crew` list of Crew.json. */
  class FileService {
    var stored: Option<seq<Booking>>
    var crew: seq<WorkSchedule>

    /** The bookings a read returns: a missing file reads as the empty list. */
    function Contents(): (s: seq<Booking>)
      reads this
    {
      if stored.None? then [] else stored.value
    }

    constructor (schedule: Option<seq<Booking>>, crew: seq<WorkSchedule>)
      ensures stored == schedule && this.crew == crew
    {
      stored := schedule;
      this.crew := crew;
    }

    /** `GetPilotSchedulesForDay`: every stored booking, whatever `day` is;
        a missing file is first created holding the empty list. */
    method GetPilotSchedulesForDay(day: Instant) returns (bookings: seq<Booking>)
      modifies this`stored
      ensures bookings == old(Contents())
      ensures old(stored).None? ==> bookings == []
      ensures stored == Some(bookings)
    {
      if stored.None? {
        stored := Some([]);
      }
      bookings := stored.value;
    }

    /** `GetPilotWorkSchedules`: the roster. */
    method GetPilotWorkSchedules() returns (schedules: seq<WorkSchedule>)
      ensures schedules == crew
    {
      schedules := crew;
    }

    /** `AddPilotToSchedule`: the stored list followed by the new booking.
        `now` is what the time provider answers; the read ignores it. */
    method AddPilotToSchedule(pilotSchedule: Booking, now: Instant)
      modifies this`stored
      ensures stored == Some(old(Contents()) + [pilotSchedule])
      ensures |Contents()| == |old(Contents())| + 1
      ensures Contents()[..|old(Contents())|] == old(Contents())
    {
      var existingSchedule := GetPilotSchedulesForDay(now);
      existingSchedule := existingSchedule + [pilotSchedule];
      stored := Some(existingSchedule);
    }

    /** `UpdatePilotSchedule`: confirms the first booking with the argument's
        reservation key; only that key is read from the argument. When none
        matches, `First` throws after the read and before the write, so the
        list is unchanged (though a missing file has been created). */
    method UpdatePilotSchedule(schedule: Booking, now: Instant) returns (outcome: Outcome<StoreError>)
      modifies this`stored
      ensures outcome.Pass? <==> exists j :: 0 <= j < |old(Contents())| && old(Contents())[j].reservationKey == schedule.reservationKey
      ensures outcome.Pass? ==> stored == Some(ConfirmFirst(old(Contents()), schedule.reservationKey).value)
      ensures outcome.Fail? ==> stored == Some(old(Contents())) && outcome.error == NoMatchingReservation
    {
      var existingSchedule := GetPilotSchedulesForDay(now);
      match ConfirmFirst(existingSchedule, schedule.reservationKey)
      case Failure(e) =>
        outcome := Fail(e);
      case Success(updated) =>
        stored := Some(updated);
        outcome := Pass;
    }
  }

  /** A hold appended to a missing schedule file and then confirmed by its
      key: the file holds exactly that booking, confirmed. */
  method AppendThenConfirm(hold: Booking, now: Instant) returns (outcome: Outcome<StoreError>, stored: seq<Booking>)
    ensures outcome == Pass
    ensures stored == [hold.(isConfirmed := true)]
  {
    var store := new FileService(None, []);
    store.AddPilotToSchedule(hold, now);
    assert store.Contents() == [hold];
    assert store.Contents()[0].reservationKey == hold.reservationKey;
    outcome := store.UpdatePilotSchedule(hold, now);
    stored := store.Contents();
  }
}
