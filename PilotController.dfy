/** `PilotController`: the request guard in front of the pilot service and
    the pass-through of confirmations. The service behind the controller is
    a parameter: its implementation is not part of this model. */
module PilotController {
  import opened Models

  /** What `Post` answers: a 400 response, or the service's result. */
  datatype PostResult<R> = BadRequest | Delegated(result: R)

  /** The guard of `Post`: the departure lies before `now`, or the return
      lies before the departure. Both comparisons are strict. */
  predicate IsRejected(request: ScheduleRequest, now: Instant)
    ensures !IsRejected(request, now) <==> now <= request.departureDateTime <= request.returnDateTime
  {
    request.departureDateTime < now || request.returnDateTime < request.departureDateTime
  }

  /** `Post`: rejects a request that departs in the past or returns before it
      departs, and otherwise hands the request to the service unchanged and
      answers with its result. `now` is the time provider's `UtcNow()`. */
  function Post<R>(request: ScheduleRequest, now: Instant, service: ScheduleRequest -> R): (r: PostResult<R>)
    ensures r.BadRequest? <==> request.departureDateTime < now || request.returnDateTime < request.departureDateTime
    ensures r.Delegated? ==> now <= request.departureDateTime <= request.returnDateTime
    ensures r.Delegated? ==> r.result == service(request)
  {
    if IsRejected(request, now) then BadRequest else Delegated(service(request))
  }

  /** The edges of the guard are accepted: a departure exactly at `now`, and a
      return exactly at the departure. */
  lemma PostAcceptsBoundaries<R>(location: Base, now: Instant, service: ScheduleRequest -> R)
    ensures Post(ScheduleRequest(location, now, now), now, service) == Delegated(service(ScheduleRequest(location, now, now)))
  {
  }

  /** `Confirm`: never rejects; it wraps exactly the service's answer. */
  function Confirm(request: ConfirmationRequest, service: ConfirmationRequest -> bool): (r: ConfirmationResult)
    ensures r.isConfirmed <==> service(request)
  {
    ConfirmationResult(service(request))
  }
}
