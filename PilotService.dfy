/** `PilotService.GetNextAvailablePilot`: the LINQ pipeline that picks a pilot
    for a trip request, as functions over the roster and the day's bookings. */
module PilotService {
  import opened Wrappers
  import opened Models
  import FileService

  /** The `ArgumentException` `ToDictionary` throws on a repeated key. */
  datatype ResolveError = DuplicateKey

  // ---------------------------------------------------------------------
  // Roster filter

  /** A roster entry qualifies when its base is the requested one and its
      work days include the weekday of the requested departure. */
  predicate IsRostered(ws: WorkSchedule, request: ScheduleRequest)
    ensures IsRostered(ws, request) <==> (ws.base == request.location &&
      exists i :: 0 <= i < |ws.workDays| && ws.workDays[i] == Weekday(request.departureDateTime))
  {
    ws.base == request.location && Weekday(request.departureDateTime) in ws.workDays
  }

  /** The `Where` over the roster, keeping roster order. */
  function RosteredFor(schedules: seq<WorkSchedule>, request: ScheduleRequest): (r: seq<WorkSchedule>)
    ensures forall w :: w in r <==> w in schedules && IsRostered(w, request)
  {
    if |schedules| == 0 then []
    else
      assert schedules == [schedules[0]] + schedules[1..];
      (if IsRostered(schedules[0], request) then [schedules[0]] else []) + RosteredFor(schedules[1..], request)
  }

  // ---------------------------------------------------------------------
  // Overlap and the unavailable set

  /** The test of the unavailable filter: a booking blocks the request unless
      it both departs and returns before the requested departure, or departs
      after the requested return. */
  predicate Blocks(b: Booking, request: ScheduleRequest)
    ensures Blocks(b, request) ==> b.departureDateTime <= request.returnDateTime
    ensures request.departureDateTime <= b.departureDateTime <= request.returnDateTime ==> Blocks(b, request)
    ensures b.departureDateTime <= b.returnDateTime && request.departureDateTime <= b.returnDateTime <= request.returnDateTime ==> Blocks(b, request)
  {
    !((b.departureDateTime < request.departureDateTime && b.returnDateTime < request.departureDateTime)
      || b.departureDateTime > request.returnDateTime)
  }

  /** Closed-interval overlap of two windows: neither ends before the other starts. */
  predicate WindowsOverlap(start1: int, end1: int, start2: int, end2: int)
  {
    !(end1 < start2 || end2 < start1)
  }

  /** For a booking that does not return before it departs, blocking is
      closed-interval overlap, which is symmetric. */
  lemma BlocksIsClosedOverlap(b: Booking, request: ScheduleRequest)
    requires b.departureDateTime <= b.returnDateTime
    ensures Blocks(b, request) <==> b.returnDateTime >= request.departureDateTime && b.departureDateTime <= request.returnDateTime
    ensures Blocks(b, request) <==> WindowsOverlap(b.departureDateTime, b.returnDateTime, request.departureDateTime, request.returnDateTime)
    ensures Blocks(b, request) <==> WindowsOverlap(request.departureDateTime, request.returnDateTime, b.departureDateTime, b.returnDateTime)
  {
  }

  /** With both windows well formed, a booking that touches the requested
      window at a single instant blocks it. */
  lemma EdgeContactBlocks(b: Booking, request: ScheduleRequest)
    requires b.departureDateTime <= b.returnDateTime
    requires request.departureDateTime <= request.returnDateTime
    ensures b.returnDateTime == request.departureDateTime ==> Blocks(b, request)
    ensures b.departureDateTime == request.returnDateTime ==> Blocks(b, request)
  {
  }

  /** A pilot is blocked when one of the pilot's bookings blocks the request. */
  predicate IsBlocked(bookings: seq<Booking>, request: ScheduleRequest, pilotId: int)
  {
    exists b :: b in bookings && b.pilotId == pilotId && Blocks(b, request)
  }

  /** The `Where(...).Select(p => p.PilotId)` of blocking bookings. */
  function UnavailablePilots(bookings: seq<Booking>, request: ScheduleRequest): (r: seq<int>)
    ensures forall p :: p in r <==> IsBlocked(bookings, request, p)
  {
    if |bookings| == 0 then []
    else
      assert bookings == [bookings[0]] + bookings[1..];
      (if Blocks(bookings[0], request) then [bookings[0].pilotId] else []) + UnavailablePilots(bookings[1..], request)
  }

  /** The rostered pilot ids not in the unavailable set, in roster order. */
  function AvailablePilots(rostered: seq<WorkSchedule>, unavailable: seq<int>): (r: seq<int>)
    ensures forall p :: p in r <==> p !in unavailable && exists w :: w in rostered && w.pilotId == p
  {
    if |rostered| == 0 then []
    else
      assert rostered == [rostered[0]] + rostered[1..];
      (if rostered[0].pilotId !in unavailable then [rostered[0].pilotId] else []) + AvailablePilots(rostered[1..], unavailable)
  }

  /** A roster entry whose pilot can fly the request. */
  predicate IsEligible(w: WorkSchedule, request: ScheduleRequest, bookings: seq<Booking>)
  {
    IsRostered(w, request) && !IsBlocked(bookings, request, w.pilotId)
  }

  // ---------------------------------------------------------------------
  // The ranking key

  predicate IsBooked(bookings: seq<Booking>, pilotId: int)
  {
    exists b :: b in bookings && b.pilotId == pilotId
  }

  /** The size of a pilot's `GroupBy` group. */
  function CountOf(bookings: seq<Booking>, pilotId: int): (n: nat)
    ensures n <= |bookings|
    ensures n > 0 <==> IsBooked(bookings, pilotId)
  {
    if |bookings| == 0 then 0
    else
      assert bookings == [bookings[0]] + bookings[1..];
      (if bookings[0].pilotId == pilotId then 1 else 0) + CountOf(bookings[1..], pilotId)
  }

  /** The `GroupBy` keys: each booked pilot id once, in order of first appearance. */
  function GroupKeys(bookings: seq<Booking>): (ids: seq<int>)
    ensures forall i, j :: 0 <= i < j < |ids| ==> ids[i] != ids[j]
    ensures forall p :: p in ids <==> IsBooked(bookings, p)
  {
    if |bookings| == 0 then []
    else
      var init := bookings[..|bookings| - 1];
      assert bookings == init + [bookings[|bookings| - 1]];
      var prev := GroupKeys(init);
      var id := bookings[|bookings| - 1].pilotId;
      if id in prev then prev else prev + [id]
  }

  /** The `GroupBy` with result selector `(id, grp) => grp.Count()`: one count
      per group, the pilot ids themselves dropped. */
  function GroupCounts(bookings: seq<Booking>): (counts: seq<int>)
    ensures |counts| == |GroupKeys(bookings)|
    ensures forall i :: 0 <= i < |counts| ==> 0 < counts[i] <= |bookings|
  {
    var ids := GroupKeys(bookings);
    seq(|ids|, i requires 0 <= i < |ids| => CountOf(bookings, ids[i]))
  }

  predicate NoDuplicates(s: seq<int>)
  {
    forall i, j :: 0 <= i < j < |s| ==> s[i] != s[j]
  }

  /** `ToDictionary(i => i, g => g)`: each element maps to itself, and a
      repeated element throws. */
  function ToDictionary(keys: seq<int>): (r: Result<map<int, int>, ResolveError>)
    ensures r.Success? <==> NoDuplicates(keys)
    ensures r.Success? ==> forall k :: k in r.value <==> k in keys
    ensures r.Success? ==> forall k :: k in r.value ==> r.value[k] == k
  {
    if |keys| == 0 then Success(map[])
    else
      var init := keys[..|keys| - 1];
      var k := keys[|keys| - 1];
      assert keys == init + [k];
      match ToDictionary(init)
      case Failure(e) => Failure(e)
      case Success(m) => if k in m then Failure(DuplicateKey) else Success(m[k := k])
  }

  /** The `OrderBy` key selector: `TryGetValue(p, out var count) ? count : 0`. */
  function RankKey(dict: map<int, int>, pilotId: int): (key: int)
    ensures key == 0 || key in dict.Values
    ensures pilotId !in dict ==> key == 0
  {
    if pilotId in dict then dict[pilotId] else 0
  }

  /** Some booked pilot has exactly `n` bookings. */
  predicate IsSomeonesCount(bookings: seq<Booking>, n: int)
  {
    exists b :: b in bookings && CountOf(bookings, b.pilotId) == n
  }

  /** The key the pipeline ranks pilot `p` by, stated without the dictionary:
      `p` itself when `p` happens to equal some pilot's booking count, else 0. */
  function RankingKey(bookings: seq<Booking>, pilotId: int): (key: int)
  {
    if IsSomeonesCount(bookings, pilotId) then pilotId else 0
  }

  /** Two distinct booked pilots have the same number of bookings. */
  predicate HasDuplicateCounts(bookings: seq<Booking>)
  {
    exists b1, b2 :: b1 in bookings && b2 in bookings && b1.pilotId != b2.pilotId &&
      CountOf(bookings, b1.pilotId) == CountOf(bookings, b2.pilotId)
  }

  lemma GroupCountsMembership(bookings: seq<Booking>, n: int)
    ensures n in GroupCounts(bookings) <==> IsSomeonesCount(bookings, n)
  {
    var ids := GroupKeys(bookings);
    var counts := GroupCounts(bookings);
    if n in counts {
      var i :| 0 <= i < |counts| && counts[i] == n;
      assert IsBooked(bookings, ids[i]);
      var b :| b in bookings && b.pilotId == ids[i];
    }
    if IsSomeonesCount(bookings, n) {
      var b :| b in bookings && CountOf(bookings, b.pilotId) == n;
      assert IsBooked(bookings, b.pilotId);
      var i :| 0 <= i < |ids| && ids[i] == b.pilotId;
      assert counts[i] == n;
    }
  }

  /** A repeated count comes from two distinct booked pilots. */
  lemma RepeatedCountHasTwoPilots(bookings: seq<Booking>)
    requires !NoDuplicates(GroupCounts(bookings))
    ensures HasDuplicateCounts(bookings)
  {
    var ids := GroupKeys(bookings);
    var counts := GroupCounts(bookings);
    var i, j :| 0 <= i < j < |counts| && counts[i] == counts[j];
    assert ids[i] != ids[j];
    assert IsBooked(bookings, ids[i]) && IsBooked(bookings, ids[j]);
    var b1 :| b1 in bookings && b1.pilotId == ids[i];
    var b2 :| b2 in bookings && b2.pilotId == ids[j];
  }

  /** Two distinct booked pilots with equal counts repeat a count. */
  lemma TwoPilotsRepeatCount(bookings: seq<Booking>)
    requires HasDuplicateCounts(bookings)
    ensures !NoDuplicates(GroupCounts(bookings))
  {
    var ids := GroupKeys(bookings);
    var counts := GroupCounts(bookings);
    var b1, b2 :| b1 in bookings && b2 in bookings && b1.pilotId != b2.pilotId &&
      CountOf(bookings, b1.pilotId) == CountOf(bookings, b2.pilotId);
    var p1, p2 := b1.pilotId, b2.pilotId;
    assert IsBooked(bookings, p1) && IsBooked(bookings, p2);
    assert p1 in ids && p2 in ids;
    var i :| 0 <= i < |ids| && ids[i] == p1;
    var j :| 0 <= j < |ids| && ids[j] == p2;
    assert counts[i] == CountOf(bookings, p1) && counts[j] == CountOf(bookings, p2);
    var lo, hi := if i < j then i else j, if i < j then j else i;
    assert 0 <= lo < hi < |counts| && counts[lo] == counts[hi];
  }

  /** The dictionary build throws exactly when two distinct booked pilots
      have equal booking counts. */
  lemma DuplicateCountsIff(bookings: seq<Booking>)
    ensures ToDictionary(GroupCounts(bookings)).Failure? <==> HasDuplicateCounts(bookings)
  {
    if !NoDuplicates(GroupCounts(bookings)) {
      RepeatedCountHasTwoPilots(bookings);
    }
    if HasDuplicateCounts(bookings) {
      TwoPilotsRepeatCount(bookings);
    }
  }

  /** When the dictionary builds, looking a pilot id up in it gives the id
      itself if some pilot has that many bookings, and 0 otherwise; the
      pilot's own booking count plays no part. */
  lemma RankKeyIsPilotIdOrZero(bookings: seq<Booking>, dict: map<int, int>, pilotId: int)
    requires ToDictionary(GroupCounts(bookings)) == Success(dict)
    ensures RankKey(dict, pilotId) == RankingKey(bookings, pilotId)
    ensures RankKey(dict, pilotId) == pilotId || RankKey(dict, pilotId) == 0
  {
    GroupCountsMembership(bookings, pilotId);
  }

  // ---------------------------------------------------------------------
  // OrderBy(...).FirstOrDefault()

  predicate SortedByKey(s: seq<int>, dict: map<int, int>)
  {
    forall i, j :: 0 <= i < j < |s| ==> RankKey(dict, s[i]) <= RankKey(dict, s[j])
  }

  /** Inserts `x` before the first element whose key is not smaller, so `x`
      stays ahead of the equal-keyed elements that followed it. */
  function InsertByKey(x: int, sorted: seq<int>, dict: map<int, int>): (r: seq<int>)
    ensures |r| == |sorted| + 1
    ensures multiset(r) == multiset(sorted) + multiset{x}
  {
    if |sorted| == 0 then [x]
    else if RankKey(dict, x) <= RankKey(dict, sorted[0]) then [x] + sorted
    else
      assert sorted == [sorted[0]] + sorted[1..];
      [sorted[0]] + InsertByKey(x, sorted[1..], dict)
  }

  /** The stable sort `OrderBy` performs. */
  function OrderByKey(ps: seq<int>, dict: map<int, int>): (r: seq<int>)
    ensures |r| == |ps|
    ensures multiset(r) == multiset(ps)
  {
    if |ps| == 0 then []
    else
      assert ps == [ps[0]] + ps[1..];
      InsertByKey(ps[0], OrderByKey(ps[1..], dict), dict)
  }

  /** Inserting into a sorted list keeps it sorted. */
  lemma {:induction false} InsertByKeySorted(x: int, sorted: seq<int>, dict: map<int, int>)
    requires SortedByKey(sorted, dict)
    ensures SortedByKey(InsertByKey(x, sorted, dict), dict)
  {
    if |sorted| > 0 && RankKey(dict, x) > RankKey(dict, sorted[0]) {
      var tail := sorted[1..];
      InsertByKeySorted(x, tail, dict);
      var ins := InsertByKey(x, tail, dict);
      forall y | y in ins ensures RankKey(dict, sorted[0]) <= RankKey(dict, y) {
        assert y in multiset(ins);
        if y != x {
          assert y in multiset(tail);
        }
      }
    }
  }

  /** `OrderBy` yields its input, reordered by ascending key. */
  lemma {:induction false} OrderByKeySorted(ps: seq<int>, dict: map<int, int>)
    ensures SortedByKey(OrderByKey(ps, dict), dict)
  {
    if |ps| > 0 {
      OrderByKeySorted(ps[1..], dict);
      InsertByKeySorted(ps[0], OrderByKey(ps[1..], dict), dict);
    }
  }

  /** Position `i` holds a minimal key, and every earlier position a larger one. */
  predicate IsFirstMinimal(ps: seq<int>, dict: map<int, int>, i: int)
  {
    && 0 <= i < |ps|
    && (forall j :: 0 <= j < |ps| ==> RankKey(dict, ps[i]) <= RankKey(dict, ps[j]))
    && (forall j :: 0 <= j < i ==> RankKey(dict, ps[j]) > RankKey(dict, ps[i]))
  }

  /** A head whose key does not exceed the tail's minimum is the first minimum. */
  lemma FirstMinimalAtHead(ps: seq<int>, dict: map<int, int>, i': int)
    requires |ps| > 1 && IsFirstMinimal(ps[1..], dict, i')
    requires RankKey(dict, ps[0]) <= RankKey(dict, ps[1..][i'])
    ensures IsFirstMinimal(ps, dict, 0)
  {
    var t := ps[1..];
    forall j | 0 <= j < |ps| ensures RankKey(dict, ps[0]) <= RankKey(dict, ps[j]) {
      if j > 0 {
        assert ps[j] == t[j - 1];
      }
    }
  }

  /** A head with a larger key than the tail's first minimum leaves that
      minimum first, one position later. */
  lemma FirstMinimalAfterHead(ps: seq<int>, dict: map<int, int>, i': int)
    requires |ps| > 1 && IsFirstMinimal(ps[1..], dict, i')
    requires RankKey(dict, ps[0]) > RankKey(dict, ps[1..][i'])
    ensures IsFirstMinimal(ps, dict, i' + 1) && ps[i' + 1] == ps[1..][i']
  {
    var t := ps[1..];
    var m := RankKey(dict, t[i']);
    forall j | 0 <= j < |ps| ensures m <= RankKey(dict, ps[j]) {
      if j > 0 {
        assert ps[j] == t[j - 1];
      }
    }
    forall j | 0 <= j < i' + 1 ensures RankKey(dict, ps[j]) > m {
      if j > 0 {
        assert ps[j] == t[j - 1];
      }
    }
  }

  /** Because the sort is stable, its head is the earliest element with a
      minimal key. */
  lemma {:induction false} OrderByHeadIsFirstMinimal(ps: seq<int>, dict: map<int, int>)
    requires |ps| > 0
    ensures exists i :: IsFirstMinimal(ps, dict, i) && OrderByKey(ps, dict)[0] == ps[i]
  {
    var t := ps[1..];
    var rest := OrderByKey(t, dict);
    assert OrderByKey(ps, dict) == InsertByKey(ps[0], rest, dict);
    if |rest| == 0 {
      assert |ps| == 1;
      assert IsFirstMinimal(ps, dict, 0);
    } else {
      OrderByHeadIsFirstMinimal(t, dict);
      var i' :| IsFirstMinimal(t, dict, i') && rest[0] == t[i'];
      if RankKey(dict, ps[0]) <= RankKey(dict, t[i']) {
        FirstMinimalAtHead(ps, dict, i');
        assert OrderByKey(ps, dict)[0] == ps[0];
      } else {
        FirstMinimalAfterHead(ps, dict, i');
        assert OrderByKey(ps, dict)[0] == ps[i' + 1];
      }
    }
  }

  // ---------------------------------------------------------------------
  // The whole pipeline

  /** Everything after the roster filter (lines 26-39 of PilotService.cs): a
      chosen pilot is a rostered one with no blocking booking, and a throw
      means two booked pilots share a count. */
  function PickFromRostered(request: ScheduleRequest, rostered: seq<WorkSchedule>, bookings: seq<Booking>): (r: Result<Option<int>, ResolveError>)
    ensures r.Success? && r.value.Some? ==>
      exists w :: w in rostered && w.pilotId == r.value.value && !IsBlocked(bookings, request, w.pilotId)
    ensures r.Failure? ==> HasDuplicateCounts(bookings)
  {
    var available := AvailablePilots(rostered, UnavailablePilots(bookings, request));
    if |available| == 0 then Success(None)
    else
      match ToDictionary(GroupCounts(bookings))
      case Failure(e) =>
        DuplicateCountsIff(bookings);
        Failure(e)
      case Success(dict) =>
        var ordered := OrderByKey(available, dict);
        assert ordered[0] in multiset(ordered);
        assert ordered[0] in available;
        Success(Some(ordered[0]))
  }

  /** `GetNextAvailablePilot` on the roster and the day's bookings. `None` is
      the C# `null`; a `Failure` is the exception thrown by `ToDictionary`. */
  function NextAvailablePilot(request: ScheduleRequest, workSchedules: seq<WorkSchedule>, bookings: seq<Booking>): (r: Result<Option<int>, ResolveError>)
    ensures r.Success? && r.value.Some? ==>
      exists w :: w in workSchedules && IsEligible(w, request, bookings) && w.pilotId == r.value.value
    ensures r.Failure? ==> HasDuplicateCounts(bookings)
  {
    var rostered := RosteredFor(workSchedules, request);
    if |rostered| == 0 then Success(None)
    else PickFromRostered(request, rostered, bookings)
  }

  /** The ids the pipeline chooses among: eligible roster entries, in roster order. */
  function Available(request: ScheduleRequest, workSchedules: seq<WorkSchedule>, bookings: seq<Booking>): (ids: seq<int>)
  {
    AvailablePilots(RosteredFor(workSchedules, request), UnavailablePilots(bookings, request))
  }

  lemma AvailableMembership(request: ScheduleRequest, workSchedules: seq<WorkSchedule>, bookings: seq<Booking>, p: int)
    ensures p in Available(request, workSchedules, bookings) <==>
      exists w :: w in workSchedules && IsEligible(w, request, bookings) && w.pilotId == p
  {
  }

  /** Dropping the head of the roster drops its id from the available list
      exactly when that entry is eligible. */
  lemma AvailableUnfold(request: ScheduleRequest, workSchedules: seq<WorkSchedule>, bookings: seq<Booking>)
    requires |workSchedules| > 0
    ensures Available(request, workSchedules, bookings) ==
      (if IsEligible(workSchedules[0], request, bookings) then [workSchedules[0].pilotId] else [])
      + Available(request, workSchedules[1..], bookings)
  {
    var w0 := workSchedules[0];
    var un := UnavailablePilots(bookings, request);
    var rest := RosteredFor(workSchedules[1..], request);
    assert IsEligible(w0, request, bookings) <==> IsRostered(w0, request) && w0.pilotId !in un;
    if IsRostered(w0, request) {
      var r := [w0] + rest;
      assert RosteredFor(workSchedules, request) == r;
      assert r[0] == w0 && r[1..] == rest;
    } else {
      assert RosteredFor(workSchedules, request) == rest;
    }
  }

  lemma {:induction false} NoneRosteredIsEmpty(schedules: seq<WorkSchedule>, request: ScheduleRequest)
    requires forall w :: w in schedules ==> !IsRostered(w, request)
    ensures RosteredFor(schedules, request) == []
  {
    if |schedules| > 0 {
      assert schedules[0] in schedules;
      NoneRosteredIsEmpty(schedules[1..], request);
    }
  }

  /** If no roster entry has the requested base and weekday, the result is
      `null`, whatever the bookings are. */
  lemma NotRosteredIsNull(request: ScheduleRequest, workSchedules: seq<WorkSchedule>, bookings: seq<Booking>)
    requires forall w :: w in workSchedules ==> !IsRostered(w, request)
    ensures NextAvailablePilot(request, workSchedules, bookings) == Success(None)
  {
    NoneRosteredIsEmpty(workSchedules, request);
  }

  /** The result is `null` exactly when every rostered pilot has a blocking
      booking (which includes the case that nobody is rostered). */
  lemma NullIffAllRosteredBlocked(request: ScheduleRequest, workSchedules: seq<WorkSchedule>, bookings: seq<Booking>)
    ensures NextAvailablePilot(request, workSchedules, bookings) == Success(None) <==>
      forall w :: w in workSchedules && IsRostered(w, request) ==> IsBlocked(bookings, request, w.pilotId)
  {
    var rostered := RosteredFor(workSchedules, request);
    var available := Available(request, workSchedules, bookings);
    if |available| > 0 {
      assert available[0] in available;
      AvailableMembership(request, workSchedules, bookings, available[0]);
      assert |OrderByKey(available, map[])| > 0;
    } else {
      forall w | w in workSchedules && IsEligible(w, request, bookings)
        ensures false
      {
        AvailableMembership(request, workSchedules, bookings, w.pilotId);
      }
    }
  }

  /** The call throws exactly when someone is eligible and two distinct
      booked pilots have the same number of bookings. */
  lemma FailsIffEligibleAndDuplicateCounts(request: ScheduleRequest, workSchedules: seq<WorkSchedule>, bookings: seq<Booking>)
    ensures NextAvailablePilot(request, workSchedules, bookings).Failure? <==>
      (exists w :: w in workSchedules && IsEligible(w, request, bookings)) && HasDuplicateCounts(bookings)
  {
    DuplicateCountsIff(bookings);
    var rostered := RosteredFor(workSchedules, request);
    var available := Available(request, workSchedules, bookings);
    if |available| > 0 {
      assert available[0] in available;
      AvailableMembership(request, workSchedules, bookings, available[0]);
    } else {
      forall w | w in workSchedules && IsEligible(w, request, bookings)
        ensures false
      {
        AvailableMembership(request, workSchedules, bookings, w.pilotId);
      }
    }
  }

  /** A returned pilot has a roster entry with the requested base and
      weekday, and none of that pilot's bookings blocks the request. */
  lemma ResultIsEligible(request: ScheduleRequest, workSchedules: seq<WorkSchedule>, bookings: seq<Booking>, p: int)
    requires NextAvailablePilot(request, workSchedules, bookings) == Success(Some(p))
    ensures exists w :: w in workSchedules && IsRostered(w, request) && w.pilotId == p
    ensures forall b :: b in bookings && b.pilotId == p ==> !Blocks(b, request)
  {
    var available := Available(request, workSchedules, bookings);
    var dict := ToDictionary(GroupCounts(bookings)).value;
    assert p == OrderByKey(available, dict)[0];
    assert p in multiset(OrderByKey(available, dict));
    AvailableMembership(request, workSchedules, bookings, p);
  }

  /** Roster entry `i` is eligible, has a minimal key among eligible
      entries, and every earlier eligible entry has a larger key. */
  predicate IsFirstMinimalEntry(request: ScheduleRequest, s: seq<WorkSchedule>, bookings: seq<Booking>, dict: map<int, int>, i: int)
  {
    && 0 <= i < |s|
    && IsEligible(s[i], request, bookings)
    && (forall j :: 0 <= j < |s| && IsEligible(s[j], request, bookings) ==>
          RankKey(dict, s[i].pilotId) <= RankKey(dict, s[j].pilotId))
    && (forall j :: 0 <= j < i && IsEligible(s[j], request, bookings) ==>
          RankKey(dict, s[j].pilotId) > RankKey(dict, s[i].pilotId))
  }

  /** A key minimal in the available list is minimal over eligible entries. */
  lemma AvailableMinimumBoundsEligible(request: ScheduleRequest, s: seq<WorkSchedule>, bookings: seq<Booking>, dict: map<int, int>, k: int)
    requires IsFirstMinimal(Available(request, s, bookings), dict, k)
    ensures forall j :: 0 <= j < |s| && IsEligible(s[j], request, bookings) ==>
      RankKey(dict, Available(request, s, bookings)[k]) <= RankKey(dict, s[j].pilotId)
  {
    var a := Available(request, s, bookings);
    forall j | 0 <= j < |s| && IsEligible(s[j], request, bookings)
      ensures RankKey(dict, a[k]) <= RankKey(dict, s[j].pilotId)
    {
      assert s[j] in s;
      AvailableMembership(request, s, bookings, s[j].pilotId);
      var m :| 0 <= m < |a| && a[m] == s[j].pilotId;
    }
  }

  /** Removing a head that is not the first minimum keeps that minimum
      first, one position earlier if the head was there. */
  lemma FirstMinimalDropHead(x: int, present: bool, tail: seq<int>, ps: seq<int>, dict: map<int, int>, k: int) returns (k': int)
    requires ps == (if present then [x] else []) + tail
    requires IsFirstMinimal(ps, dict, k) && !(present && k == 0)
    ensures IsFirstMinimal(tail, dict, k') && tail[k'] == ps[k]
    ensures present ==> RankKey(dict, x) > RankKey(dict, ps[k])
  {
    if present {
      k' := k - 1;
      assert forall j :: 0 <= j < |tail| ==> tail[j] == ps[j + 1];
      assert ps[0] == x;
    } else {
      k' := k;
      assert ps == tail;
    }
  }

  /** Unless it is the head's own id, the first minimum of the available
      list is also the first minimum of the tail's available list. */
  lemma FirstMinimalOfTail(request: ScheduleRequest, s: seq<WorkSchedule>, bookings: seq<Booking>, dict: map<int, int>, k: int) returns (k': int)
    requires |s| > 0
    requires IsFirstMinimal(Available(request, s, bookings), dict, k)
    requires !(IsEligible(s[0], request, bookings) && k == 0)
    ensures IsFirstMinimal(Available(request, s[1..], bookings), dict, k')
    ensures Available(request, s[1..], bookings)[k'] == Available(request, s, bookings)[k]
    ensures IsEligible(s[0], request, bookings) ==> RankKey(dict, s[0].pilotId) > RankKey(dict, Available(request, s, bookings)[k])
  {
    AvailableUnfold(request, s, bookings);
    k' := FirstMinimalDropHead(s[0].pilotId, IsEligible(s[0], request, bookings),
      Available(request, s[1..], bookings), Available(request, s, bookings), dict, k);
  }

  /** An entry that is first-minimal in the tail of the roster is
      first-minimal in the whole roster when the head is not an eligible
      entry with a smaller or equal key. */
  lemma FirstMinimalEntryExtend(request: ScheduleRequest, s: seq<WorkSchedule>, bookings: seq<Booking>, dict: map<int, int>, i': int)
    requires |s| > 0
    requires IsFirstMinimalEntry(request, s[1..], bookings, dict, i')
    requires forall j :: 0 <= j < |s| && IsEligible(s[j], request, bookings) ==>
      RankKey(dict, s[1..][i'].pilotId) <= RankKey(dict, s[j].pilotId)
    requires IsEligible(s[0], request, bookings) ==> RankKey(dict, s[0].pilotId) > RankKey(dict, s[1..][i'].pilotId)
    ensures IsFirstMinimalEntry(request, s, bookings, dict, i' + 1) && s[i' + 1] == s[1..][i']
  {
    var p := s[1..][i'].pilotId;
    forall j | 0 <= j < i' + 1 && IsEligible(s[j], request, bookings)
      ensures RankKey(dict, s[j].pilotId) > RankKey(dict, p)
    {
      if j > 0 {
        assert s[j] == s[1..][j - 1];
      }
    }
  }

  /** Carries the first-minimal position in the available list back to a
      position in the roster. */
  lemma {:induction false} FirstMinimalInRoster(request: ScheduleRequest, s: seq<WorkSchedule>, bookings: seq<Booking>, dict: map<int, int>, k: int)
    requires IsFirstMinimal(Available(request, s, bookings), dict, k)
    ensures exists i :: IsFirstMinimalEntry(request, s, bookings, dict, i) && s[i].pilotId == Available(request, s, bookings)[k]
  {
    var a := Available(request, s, bookings);
    var p := a[k];
    AvailableMinimumBoundsEligible(request, s, bookings, dict, k);
    AvailableUnfold(request, s, bookings);
    if IsEligible(s[0], request, bookings) && k == 0 {
      assert a[0] == s[0].pilotId;
      assert IsFirstMinimalEntry(request, s, bookings, dict, 0);
    } else {
      var k' := FirstMinimalOfTail(request, s, bookings, dict, k);
      FirstMinimalInRoster(request, s[1..], bookings, dict, k');
      var i' :| IsFirstMinimalEntry(request, s[1..], bookings, dict, i') && s[1..][i'].pilotId == p;
      FirstMinimalEntryExtend(request, s, bookings, dict, i');
    }
  }

  /** The returned pilot's roster entry is eligible, its pilot has the
      smallest ranking key among eligible entries, and every earlier eligible
      entry has a larger key. */
  ghost predicate IsFirstMinimalEligible(request: ScheduleRequest, workSchedules: seq<WorkSchedule>, bookings: seq<Booking>, p: int)
  {
    exists i ::
      && 0 <= i < |workSchedules|
      && IsEligible(workSchedules[i], request, bookings)
      && workSchedules[i].pilotId == p
      && (forall j :: 0 <= j < |workSchedules| && IsEligible(workSchedules[j], request, bookings) ==>
            RankingKey(bookings, p) <= RankingKey(bookings, workSchedules[j].pilotId))
      && (forall j :: 0 <= j < i && IsEligible(workSchedules[j], request, bookings) ==>
            RankingKey(bookings, workSchedules[j].pilotId) > RankingKey(bookings, p))
  }

  /** A returned pilot is the head of the sorted available list, under a
      dictionary that was built. */
  lemma ResultIsSortedHead(request: ScheduleRequest, workSchedules: seq<WorkSchedule>, bookings: seq<Booking>, p: int)
    requires NextAvailablePilot(request, workSchedules, bookings) == Success(Some(p))
    ensures ToDictionary(GroupCounts(bookings)).Success?
    ensures |Available(request, workSchedules, bookings)| > 0
    ensures p == OrderByKey(Available(request, workSchedules, bookings), ToDictionary(GroupCounts(bookings)).value)[0]
  {
  }

  /** A first-minimal roster entry under the built dictionary is first-minimal
      under the ranking key stated without it. */
  lemma FirstMinimalEntryRanking(request: ScheduleRequest, workSchedules: seq<WorkSchedule>, bookings: seq<Booking>, dict: map<int, int>, i: int)
    requires ToDictionary(GroupCounts(bookings)) == Success(dict)
    requires IsFirstMinimalEntry(request, workSchedules, bookings, dict, i)
    ensures IsFirstMinimalEligible(request, workSchedules, bookings, workSchedules[i].pilotId)
  {
    forall x ensures RankKey(dict, x) == RankingKey(bookings, x) {
      RankKeyIsPilotIdOrZero(bookings, dict, x);
    }
  }

  /** The result is the earliest eligible roster entry with the smallest
      ranking key: `OrderBy` is stable and `FirstOrDefault` takes its head. */
  lemma ResultIsFirstMinimal(request: ScheduleRequest, workSchedules: seq<WorkSchedule>, bookings: seq<Booking>, p: int)
    requires NextAvailablePilot(request, workSchedules, bookings) == Success(Some(p))
    ensures IsFirstMinimalEligible(request, workSchedules, bookings, p)
  {
    ResultIsSortedHead(request, workSchedules, bookings, p);
    var available := Available(request, workSchedules, bookings);
    var dict := ToDictionary(GroupCounts(bookings)).value;
    OrderByHeadIsFirstMinimal(available, dict);
    var k :| IsFirstMinimal(available, dict, k) && OrderByKey(available, dict)[0] == available[k];
    FirstMinimalInRoster(request, workSchedules, bookings, dict, k);
    var i :| IsFirstMinimalEntry(request, workSchedules, bookings, dict, i) && workSchedules[i].pilotId == p;
    FirstMinimalEntryRanking(request, workSchedules, bookings, dict, i);
  }

  /** The first-minimum rule picks at most one pilot: two entries that both
      satisfy it are the same entry. */
  lemma FirstMinimalEligibleUnique(request: ScheduleRequest, workSchedules: seq<WorkSchedule>, bookings: seq<Booking>, p: int, q: int)
    requires IsFirstMinimalEligible(request, workSchedules, bookings, p)
    requires IsFirstMinimalEligible(request, workSchedules, bookings, q)
    ensures p == q
  {
  }

  // ---------------------------------------------------------------------
  // The service object

  /** `PilotService`, reading through its injected store. */
  class PilotService {
    const fileService: FileService.FileService

    constructor (fileService: FileService.FileService)
      ensures this.fileService == fileService
    {
      this.fileService := fileService;
    }

    /** Reads the roster, and the day's bookings only when someone is
        rostered; stores nothing. (A read of a missing schedule file creates
        it empty.) */
    method GetNextAvailablePilot(request: ScheduleRequest) returns (r: Result<Option<int>, ResolveError>)
      modifies fileService`stored
      ensures r == NextAvailablePilot(request, fileService.crew, old(fileService.Contents()))
      ensures fileService.Contents() == old(fileService.Contents())
      ensures RosteredFor(fileService.crew, request) == [] ==> fileService.stored == old(fileService.stored)
    {
      var workSchedules := fileService.GetPilotWorkSchedules();
      var rostered := RosteredFor(workSchedules, request);
      if |rostered| == 0 {
        return Success(None);
      }
      var pilots := fileService.GetPilotSchedulesForDay(DateOf(request.departureDateTime));
      r := PickFromRostered(request, rostered, pilots);
    }
  }
}
