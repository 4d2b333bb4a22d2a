/** `GetNextAvailablePilotResponse`: the handle returned to API callers. */
module ApiModels {
  import opened Wrappers

  /** Both properties are getter-only, so a value is fixed once built. */
  datatype GetNextAvailablePilotResponse = GetNextAvailablePilotResponse(
    pilotId: Option<int>,
    reservationKey: Option<string>)

  /** The constructor: the pilot id is always kept, the reservation key only
      when a pilot id is present. */
  function NewResponse(pilotId: Option<int>, reservationKey: Option<string>): (r: GetNextAvailablePilotResponse)
    ensures r.pilotId == pilotId
    ensures pilotId.None? ==> r.reservationKey.None?
    ensures pilotId.Some? ==> r.reservationKey == reservationKey
  {
    GetNextAvailablePilotResponse(pilotId, if pilotId.Some? then reservationKey else None)
  }

  /** No response carries a reservation key without a pilot id. */
  predicate IsWellFormed(r: GetNextAvailablePilotResponse)
  {
    r.reservationKey.Some? ==> r.pilotId.Some?
  }

  /** The constructor builds exactly the well-formed responses: its results
      are well formed, and a response is well formed iff rebuilding it from
      its own fields gives it back. */
  lemma NewResponseIsWellFormed(pilotId: Option<int>, reservationKey: Option<string>, r: GetNextAvailablePilotResponse)
    ensures IsWellFormed(NewResponse(pilotId, reservationKey))
    ensures IsWellFormed(r) <==> NewResponse(r.pilotId, r.reservationKey) == r
  {
  }
}
