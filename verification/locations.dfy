/**
 * The location endpoints. Anyone signed in may list and view locations;
 * admins and managers create and edit them; only admins delete them, and
 * only while no schedule uses them. `getNearby` ignores its coordinates.
 */
module Locations {
  import opened Wrappers
  import opened Text
  import opened Rows
  import opened Sorting
  import opened Roles
  import opened Schedules

  /** A row of the locations table; coordinates are kept as given. */
  datatype Location = Location(id: nat, name: string, address: string, latitude: Option<int>, longitude: Option<int>)

  /** A reply of the location endpoints. */
  datatype Reply =
    | Shown(status: nat, location: Location)
    | Listing(locations: seq<Location>)
    | Nearby(message: string, locations: seq<Location>, latitude: int, longitude: int, radius: real)
    | Deleted(message: string)
    | InUse(message: string, schedulesCount: nat)
    | Refused(status: nat, message: string)
    | Invalid

  const Unauthorized: string := "Unauthorized"
  const InUseMessage: string := "Cannot delete location that is being used in schedules"
  const ServerError: string := "Server Error"

  function LocationKey(l: Location): nat
  {
    l.id
  }

  function ByName(l: Location): seq<int>
  {
    TextKey(l.name)
  }

  /** The row holding `id`, as route-model binding finds it. */
  function LocationById(store: seq<Location>, id: nat): (r: Option<Location>)
    ensures r.Some? ==> r.value in store && r.value.id == id
    ensures r.None? <==> forall x :: x in store ==> x.id != id
  {
    First(store, (x: Location) => x.id == id)
  }

  /** The search of `index`: the text occurs in the name or in the address. */
  predicate Matches(search: Option<string>, l: Location)
  {
    search.Some? ==> ContainsText(l.name, search.value) || ContainsText(l.address, search.value)
  }

  /** `index`: every location, or those matching the search, ordered by name. */
  function Index(store: seq<Location>, search: Option<string>): (rows: seq<Location>)
    ensures forall x :: x in rows <==> x in store && Matches(search, x)
    ensures multiset(rows) == multiset(Filter(store, x => Matches(search, x)))
    ensures SortedBy(rows, ByName)
  {
    SortBy(Filter(store, x => Matches(search, x)), ByName)
  }

  /** Without a search every location is listed. */
  lemma IndexWithoutSearchListsAll(store: seq<Location>)
    ensures multiset(Index(store, None)) == multiset(store)
  {
    var p := (x: Location) => Matches(None, x);
    assert forall x :: multiset(Filter(store, p))[x] == multiset(store)[x];
  }

  /** `show`: 404 for an unknown id, otherwise the location, with no role check. */
  function ShowLocation(store: seq<Location>, id: nat): (reply: Reply)
    ensures reply.Shown? <==> LocationById(store, id).Some?
    ensures reply.Shown? ==> reply.status == 200 && reply.location in store && reply.location.id == id
    ensures !reply.Shown? ==> reply == Refused(404, "Not Found")
  {
    match LocationById(store, id)
    case None => Refused(404, "Not Found")
    case Some(l) => Shown(200, l)
  }

  /** The validated body of a creation request. */
  datatype CreateRequest = CreateRequest(name: string, address: string, latitude: Option<int>, longitude: Option<int>)

  /** The creation validator: a name and an address of 1 to 255 characters. */
  predicate ValidCreate(req: CreateRequest)
  {
    ShortText(req.name) && ShortText(req.address)
  }

  /**
   * `store`: admins and managers only, then the validator (422); adds a
   * location under the next id with the request's fields.
   */
  function StoreLocation(store: seq<Location>, caller: User, req: CreateRequest): (result: (seq<Location>, Reply))
    ensures !IsSupervisor(caller) <==> result == (store, Refused(403, Unauthorized))
    ensures IsSupervisor(caller) && !ValidCreate(req) <==> result == (store, Invalid)
    ensures IsSupervisor(caller) && ValidCreate(req) ==>
            result.1.Shown? && result.1.status == 201 && result.0 == store + [result.1.location]
            && var l := result.1.location;
            (forall x :: x in store ==> x.id < l.id)
            && l.name == req.name && l.address == req.address && l.latitude == req.latitude && l.longitude == req.longitude
  {
    if !IsSupervisor(caller) then (store, Refused(403, Unauthorized))
    else if !ValidCreate(req) then (store, Invalid)
    else
      var l := Location(NextKey(store, LocationKey), req.name, req.address, req.latitude, req.longitude);
      (store + [l], Shown(201, l))
  }

  /** The fields an edit may send; absent fields keep their stored values. */
  datatype EditRequest = EditRequest(name: Option<string>, address: Option<string>, latitude: Field<int>, longitude: Field<int>)

  /** The edit validator: a sent name or address has 1 to 255 characters. */
  predicate ValidEdit(req: EditRequest)
  {
    (req.name.Some? ==> ShortText(req.name.value)) && (req.address.Some? ==> ShortText(req.address.value))
  }

  /** `update`: 404 for an unknown id, 403 unless admin or manager, 422 for a bad field, else the fields are written in place. */
  function UpdateLocation(store: seq<Location>, caller: User, id: nat, req: EditRequest): (result: (seq<Location>, Reply))
    ensures LocationById(store, id).None? ==> result == (store, Refused(404, "Not Found"))
    ensures LocationById(store, id).Some? && !IsSupervisor(caller) ==> result == (store, Refused(403, Unauthorized))
    ensures LocationById(store, id).Some? && IsSupervisor(caller) && !ValidEdit(req) ==> result == (store, Invalid)
    ensures result.1.Shown? <==> LocationById(store, id).Some? && IsSupervisor(caller) && ValidEdit(req)
    ensures result.1.Shown? ==>
            var stored := LocationById(store, id).value;
            var l := result.1.location;
            result.1.status == 200 && result.0 == ReplaceKeyed(store, LocationKey, l)
            && l.id == id && l.name == req.name.GetOr(stored.name) && l.address == req.address.GetOr(stored.address)
            && l.latitude == req.latitude.Assign(stored.latitude) && l.longitude == req.longitude.Assign(stored.longitude)
    ensures result.0 == store || result.1.Shown?
  {
    match LocationById(store, id)
    case None => (store, Refused(404, "Not Found"))
    case Some(stored) =>
      if !IsSupervisor(caller) then (store, Refused(403, Unauthorized))
      else if !ValidEdit(req) then (store, Invalid)
      else
        var l := Location(id, req.name.GetOr(stored.name), req.address.GetOr(stored.address),
                          req.latitude.Assign(stored.latitude), req.longitude.Assign(stored.longitude));
        (ReplaceKeyed(store, LocationKey, l), Shown(200, l))
  }

  /** The schedules placed at location `id`. */
  function SchedulesAt(schedules: seq<Schedule>, id: nat): (r: seq<Schedule>)
    ensures forall s :: s in r <==> s in schedules && s.locationId == Some(id)
  {
    Filter(schedules, (s: Schedule) => s.locationId == Some(id))
  }

  /**
   * `destroy` as written: after the admin check it asks the location for its
   * `schedules()` relation, which the location model does not define, so
   * every admin's request fails with a server error and nothing is deleted.
   */
  function DestroyLocationAsWritten(store: seq<Location>, caller: User, id: nat): (result: (seq<Location>, Reply))
    ensures result.0 == store
    ensures LocationById(store, id).None? ==> result.1 == Refused(404, "Not Found")
    ensures LocationById(store, id).Some? ==> result.1 == if IsAdmin(caller) then Refused(500, ServerError) else Refused(403, Unauthorized)
  {
    match LocationById(store, id)
    case None => (store, Refused(404, "Not Found"))
    case Some(_) =>
      if !IsAdmin(caller) then (store, Refused(403, Unauthorized))
      else (store, Refused(500, ServerError))
  }

  /**
   * `destroy` as intended: 404 for an unknown id; admins only (managers get
   * 403); 422 with the count while any schedule uses the location; else the
   * location is removed.
   */
  function DestroyLocation(store: seq<Location>, schedules: seq<Schedule>, caller: User, id: nat): (result: (seq<Location>, Reply))
    ensures LocationById(store, id).None? ==> result == (store, Refused(404, "Not Found"))
    ensures LocationById(store, id).Some? && !IsAdmin(caller) ==> result == (store, Refused(403, Unauthorized))
    ensures result.1.InUse? <==>
            LocationById(store, id).Some? && IsAdmin(caller) && exists s :: s in schedules && s.locationId == Some(id)
    ensures result.1.Deleted? <==>
            LocationById(store, id).Some? && IsAdmin(caller) && forall s :: s in schedules ==> s.locationId != Some(id)
    ensures result.1.InUse? ==>
            result.0 == store && result.1.message == InUseMessage && result.1.schedulesCount == |SchedulesAt(schedules, id)| > 0
    ensures result.1.Deleted? ==>
            result.1.message == "Location deleted" && forall x :: x in result.0 <==> x in store && x.id != id
    ensures result.0 == store || result.1.Deleted?
  {
    match LocationById(store, id)
    case None => (store, Refused(404, "Not Found"))
    case Some(_) =>
      if !IsAdmin(caller) then (store, Refused(403, Unauthorized))
      else
        var using := SchedulesAt(schedules, id);
        if |using| > 0 then (store, InUse(InUseMessage, |using|))
        else
          assert forall s :: s in schedules ==> s.locationId != Some(id) by {
            assert forall s :: s in schedules && s.locationId == Some(id) ==> s in using;
          }
          (Filter(store, (x: Location) => x.id != id), Deleted("Location deleted"))
  }

  /** Every schedule's location, when it has one, is a row of the table. */
  predicate ReferencesIntact(store: seq<Location>, schedules: seq<Schedule>)
  {
    forall s :: s in schedules && s.locationId.Some? ==> exists l :: l in store && l.id == s.locationId.value
  }

  /** The intended delete never leaves a schedule pointing at a missing location. */
  lemma DestroyKeepsReferences(store: seq<Location>, schedules: seq<Schedule>, caller: User, id: nat)
    requires ReferencesIntact(store, schedules)
    ensures ReferencesIntact(DestroyLocation(store, schedules, caller, id).0, schedules)
  {
    var after := DestroyLocation(store, schedules, caller, id).0;
    forall s | s in schedules && s.locationId.Some?
      ensures exists l :: l in after && l.id == s.locationId.value
    {
      var l :| l in store && l.id == s.locationId.value;
      if after != store {
        assert l.id != id;
        assert l in after;
      }
    }
  }

  /** Managers may create locations but may not delete them; admins may do both. */
  lemma ManagersCreateButCannotDelete(store: seq<Location>, schedules: seq<Schedule>, caller: User, id: nat, req: CreateRequest)
    requires IsManager(caller) && LocationById(store, id).Some? && ValidCreate(req)
    ensures StoreLocation(store, caller, req).1.Shown?
    ensures DestroyLocation(store, schedules, caller, id) == (store, Refused(403, Unauthorized))
    ensures DestroyLocationAsWritten(store, caller, id) == (store, Refused(403, Unauthorized))
  {
  }

  /** As written, no request ever removes a location; as intended, an unused one is removed by an admin. */
  lemma AsWrittenNeverDeletes(store: seq<Location>, schedules: seq<Schedule>, caller: User, id: nat)
    requires IsAdmin(caller) && LocationById(store, id).Some?
    requires forall s :: s in schedules ==> s.locationId != Some(id)
    ensures DestroyLocationAsWritten(store, caller, id).1 == Refused(500, ServerError)
    ensures DestroyLocation(store, schedules, caller, id).1.Deleted?
    ensures LocationById(DestroyLocation(store, schedules, caller, id).0, id).None?
  {
  }

  /** `getNearby`: every location, whatever the coordinates; the radius defaults to 5 km. */
  function GetNearby(store: seq<Location>, latitude: int, longitude: int, radius: Option<real>): (reply: Reply)
    ensures reply.Nearby? && reply.locations == store
    ensures reply.radius == if radius.Some? then radius.value else 5.0
    ensures reply.latitude == latitude && reply.longitude == longitude
  {
    Nearby("Nearby locations found", store, latitude, longitude, radius.GetOr(5.0))
  }
}
