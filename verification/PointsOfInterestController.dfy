/** The handlers under api/cities/{cityId}/pointsofinterest. The two reads
    are functions of the store's city list; create, replace, patch and delete
    change the store object in place. Every write handler answers NotFound or
    BadRequest before touching the store, and then the store is exactly as
    it was. */
module PointsOfInterestController {
  import opened Models
  import opened DataStore

  /** The copy of a stored point of interest that a patch is applied to: it
      holds exactly the fields a patch may change, so writing an unpatched
      copy back gives the stored entry unchanged. */
  function Snapshot(poi: Poi): (copy: PoiFields)
    ensures poi.(name := copy.name, description := copy.description) == poi
  {
    PoiFields(poi.name, poi.description)
  }

  // ---------------------------------------------------------------------------
  // Reads
  // ---------------------------------------------------------------------------

  /** GET .../pointsofinterest: the list of the first city with `cityId`, or
      NotFound when no city has that id. */
  function GetPointsOfInterest(cities: seq<City>, cityId: int32): (r: ActionResult<seq<Poi>>)
    ensures r.Ok? || r.NotFound?
    ensures r.NotFound? <==> forall i :: 0 <= i < |cities| ==> cities[i].id != cityId
    ensures r.Ok? ==> exists i :: FirstCityAt(cities, cityId, i) && r.value == cities[i].pois
  {
    match CityIndex(cities, cityId)
    case None => NotFound
    case Some(i) => Ok(cities[i].pois)
  }

  /** GET .../pointsofinterest/{id}: the first point of interest with `id` in
      the first city with `cityId`; NotFound when either lookup fails. */
  function GetPointOfInterest(cities: seq<City>, cityId: int32, id: int32): (r: ActionResult<Poi>)
    ensures r.Ok? || r.NotFound?
    ensures r.NotFound? <==>
      !exists i, k :: FirstCityAt(cities, cityId, i) && FirstPoiAt(cities[i].pois, id, k)
    ensures r.Ok? ==> r.value.id == id
    ensures r.Ok? ==>
      exists i, k :: FirstCityAt(cities, cityId, i) && FirstPoiAt(cities[i].pois, id, k) &&
        r.value == cities[i].pois[k]
  {
    match Locate(cities, cityId, id)
    case None => NotFound
    case Some((ci, k)) => Ok(cities[ci].pois[k])
  }

  // ---------------------------------------------------------------------------
  // Writes
  // ---------------------------------------------------------------------------

  /** POST .../pointsofinterest. The body is validated before the city is
      looked up; the new point of interest gets one more than the largest id
      in the whole store and goes at the end of its city's list. */
  method CreatePointOfInterest(store: CitiesDataStore, cityId: int32, input: PoiFields,
                               valid: PoiFields -> bool)
    returns (r: ActionResult<Poi>)
    modifies store
    ensures r.BadRequest? || r.NotFound? || r.InvalidOperation? || r.Created?
    ensures r.BadRequest? <==> !PassesValidation(input, valid)
    ensures r.NotFound? <==>
      PassesValidation(input, valid) && CityIndex(old(store.cities), cityId).None?
    ensures r.InvalidOperation? <==>
      PassesValidation(input, valid) && CityIndex(old(store.cities), cityId).Some? &&
      old(AllPoiIds(store.cities)) == []
    ensures !r.Created? ==> store.cities == old(store.cities)
    ensures r.Created? ==>
      r.created == Poi(NextPoiId(old(store.cities)).value, input.name, input.description) &&
      store.cities == AppendPoi(old(store.cities), CityIndex(old(store.cities), cityId).value, r.created)
    ensures r.Created? && Int32Max !in old(AllPoiIds(store.cities)) ==>
      (forall x :: x in old(AllPoiIds(store.cities)) ==> x < r.created.id) &&
      (old(UniquePoiIds(store.cities)) ==> UniquePoiIds(store.cities))
  {
    if !PassesValidation(input, valid) {
      return BadRequest;
    }
    var ci := CityIndex(store.cities, cityId);
    if ci.None? {
      return NotFound;
    }
    var nextId := NextPoiId(store.cities);
    if nextId.None? {
      return InvalidOperation;
    }
    var poi := Poi(nextId.value, input.name, input.description);
    AppendPoiIds(store.cities, ci.value, poi);
    store.cities := AppendPoi(store.cities, ci.value, poi);
    return Created(poi);
  }

  /** PUT .../pointsofinterest/{id}. Validation first, then the city, then
      the point of interest; on success only its name and description change. */
  method UpdatePointOfInterest(store: CitiesDataStore, cityId: int32, id: int32, input: PoiFields,
                               valid: PoiFields -> bool)
    returns (r: ActionResult<Poi>)
    modifies store
    ensures r.BadRequest? || r.NotFound? || r.NoContent?
    ensures r.BadRequest? <==> !PassesValidation(input, valid)
    ensures r.NotFound? <==>
      PassesValidation(input, valid) && Locate(old(store.cities), cityId, id).None?
    ensures !r.NoContent? ==> store.cities == old(store.cities)
    ensures r.NoContent? ==>
      var (ci, k) := Locate(old(store.cities), cityId, id).value;
      store.cities == ReplacePoi(old(store.cities), ci, k, input)
    ensures AllPoiIds(store.cities) == old(AllPoiIds(store.cities))
  {
    if !PassesValidation(input, valid) {
      return BadRequest;
    }
    var found := Locate(store.cities, cityId, id);
    if found.None? {
      return NotFound;
    }
    var (ci, k) := found.value;
    ReplacePoiIds(store.cities, ci, k, input);
    store.cities := ReplacePoi(store.cities, ci, k, input);
    return NoContent;
  }

  /** PATCH .../pointsofinterest/{id}. The lookups come first, so NotFound
      wins over any validation failure. The patch is applied to a snapshot of
      the stored name and description; the snapshot is written back only
      when the patch applied and the result passes validation. */
  method PartiallyUpdatePointOfInterest(store: CitiesDataStore, cityId: int32, id: int32,
                                        patch: PoiFields -> Option<PoiFields>,
                                        valid: PoiFields -> bool)
    returns (r: ActionResult<Poi>)
    modifies store
    ensures r.NotFound? || r.BadRequest? || r.NoContent?
    ensures r.NotFound? <==> Locate(old(store.cities), cityId, id).None?
    ensures Locate(old(store.cities), cityId, id).Some? ==>
      var (ci, k) := Locate(old(store.cities), cityId, id).value;
      var patched := patch(Snapshot(old(store.cities)[ci].pois[k]));
      (r.BadRequest? <==> patched.None? || !PassesValidation(patched.value, valid)) &&
      (r.NoContent? ==> store.cities == ReplacePoi(old(store.cities), ci, k, patched.value))
    ensures !r.NoContent? ==> store.cities == old(store.cities)
    ensures AllPoiIds(store.cities) == old(AllPoiIds(store.cities))
  {
    var found := Locate(store.cities, cityId, id);
    if found.None? {
      return NotFound;
    }
    var (ci, k) := found.value;
    var patched := patch(Snapshot(store.cities[ci].pois[k]));
    if patched.None? || !PassesValidation(patched.value, valid) {
      return BadRequest;
    }
    ReplacePoiIds(store.cities, ci, k, patched.value);
    store.cities := ReplacePoi(store.cities, ci, k, patched.value);
    return NoContent;
  }

  /** DELETE .../pointsofinterest/{id}: removes the first point of interest
      with `id` from the first city with `cityId`. */
  method DeletePointOfInterest(store: CitiesDataStore, cityId: int32, id: int32)
    returns (r: ActionResult<Poi>)
    modifies store
    ensures r.NotFound? || r.NoContent?
    ensures r.NotFound? <==> Locate(old(store.cities), cityId, id).None?
    ensures r.NotFound? ==> store.cities == old(store.cities)
    ensures r.NoContent? ==>
      var (ci, k) := Locate(old(store.cities), cityId, id).value;
      store.cities == RemovePoi(old(store.cities), ci, k)
    ensures old(UniquePoiIds(store.cities)) ==> UniquePoiIds(store.cities)
  {
    var found := Locate(store.cities, cityId, id);
    if found.None? {
      return NotFound;
    }
    var (ci, k) := found.value;
    RemovePoiIds(store.cities, ci, k);
    store.cities := RemovePoi(store.cities, ci, k);
    return NoContent;
  }

  // ---------------------------------------------------------------------------
  // What later requests see
  // ---------------------------------------------------------------------------

  /** None of the three changes touches a city id, so the city lookup of
      every later request lands where it did before. */
  lemma ChangesKeepCityLookup(cities: seq<City>, ci: nat, after: seq<City>, cityId: int32)
    requires ci < |cities| && |after| == |cities| && after[ci].id == cities[ci].id
    requires forall j :: 0 <= j < |cities| && j != ci ==> after[j] == cities[j]
    ensures CityIndex(after, cityId) == CityIndex(cities, cityId)
  {
  }

  /** A created point of interest whose id is fresh is, from then on, the
      last entry of its city's list and what a get by its id returns. */
  lemma CreatedPoiIsVisible(cities: seq<City>, cityId: int32, ci: nat, poi: Poi)
    requires FirstCityAt(cities, cityId, ci)
    requires poi.id !in AllPoiIds(cities)
    ensures GetPointsOfInterest(AppendPoi(cities, ci, poi), cityId) == Ok(cities[ci].pois + [poi])
    ensures GetPointOfInterest(AppendPoi(cities, ci, poi), cityId, poi.id) == Ok(poi)
  {
    var after := AppendPoi(cities, ci, poi);
    ChangesKeepCityLookup(cities, ci, after, cityId);
    FirstCityUnique(cities, cityId, ci, CityIndex(cities, cityId).value);
    AllPoiIdsSplit(cities, ci);
    PoiIdsAt(cities[ci].pois);
    var pois := after[ci].pois;
    assert forall j :: 0 <= j < |cities[ci].pois| ==> cities[ci].pois[j].id in AllPoiIds(cities);
    assert FirstPoiAt(pois, poi.id, |pois| - 1);
    var (i, k) := Locate(after, cityId, poi.id).value;
    FirstCityUnique(after, cityId, i, ci);
  }

  /** What CreatePointOfInterest stores is visible to later requests: with
      no stored id at int.MaxValue, the point of interest it creates, under
      the id NextPoiId gives it, ends its city's list and is found by that id. */
  lemma CreatePointOfInterestIsVisible(cities: seq<City>, cityId: int32, input: PoiFields)
    requires CityIndex(cities, cityId).Some?
    requires AllPoiIds(cities) != [] && Int32Max !in AllPoiIds(cities)
    ensures
      var ci := CityIndex(cities, cityId).value;
      var poi := Poi(NextPoiId(cities).value, input.name, input.description);
      GetPointsOfInterest(AppendPoi(cities, ci, poi), cityId) == Ok(cities[ci].pois + [poi]) &&
      GetPointOfInterest(AppendPoi(cities, ci, poi), cityId, poi.id) == Ok(poi)
  {
    var poi := Poi(NextPoiId(cities).value, input.name, input.description);
    assert poi.id !in AllPoiIds(cities);
    CreatedPoiIsVisible(cities, cityId, CityIndex(cities, cityId).value, poi);
  }

  /** Replacing with the same body twice leaves the store as one replace
      does: the second request finds the same entry and writes the same
      values. A later get returns the entry with its old id and new fields. */
  lemma UpdateIdempotent(cities: seq<City>, cityId: int32, id: int32, fields: PoiFields)
    requires Locate(cities, cityId, id).Some?
    ensures
      var (ci, k) := Locate(cities, cityId, id).value;
      var once := ReplacePoi(cities, ci, k, fields);
      Locate(once, cityId, id) == Some((ci, k)) &&
      ReplacePoi(once, ci, k, fields) == once &&
      GetPointOfInterest(once, cityId, id) == Ok(Poi(id, fields.name, fields.description))
  {
    var (ci, k) := Locate(cities, cityId, id).value;
    var once := ReplacePoi(cities, ci, k, fields);
    ChangesKeepCityLookup(cities, ci, once, cityId);
    FirstCityUnique(cities, cityId, ci, CityIndex(cities, cityId).value);
    assert FirstPoiAt(once[ci].pois, id, k);
    var (i, k') := Locate(once, cityId, id).value;
    FirstCityUnique(once, cityId, i, ci);
    assert k' == k;
    assert once[ci].pois[k] == Poi(id, fields.name, fields.description);
    var entry := once[ci].pois[k];
    assert entry.(name := fields.name, description := fields.description) == entry;
    assert once[ci].pois[k := entry] == once[ci].pois;
    assert once[ci].(pois := once[ci].pois) == once[ci];
    assert once[ci := once[ci]] == once;
  }

  /** After a delete, the city's list is the old one without the removed
      entry, the rest in their old order. A get by the deleted id answers
      NotFound exactly when the removed entry was the only one with that id
      in its city; otherwise the next one with that id is found. */
  lemma DeletedPoiIsGone(cities: seq<City>, cityId: int32, id: int32)
    requires Locate(cities, cityId, id).Some?
    ensures
      var (ci, k) := Locate(cities, cityId, id).value;
      var after := RemovePoi(cities, ci, k);
      (GetPointOfInterest(after, cityId, id) == NotFound <==>
        forall j :: 0 <= j < |cities[ci].pois| && cities[ci].pois[j].id == id ==> j == k) &&
      GetPointsOfInterest(after, cityId) == Ok(cities[ci].pois[..k] + cities[ci].pois[k + 1..])
  {
    var (ci, k) := Locate(cities, cityId, id).value;
    var after := RemovePoi(cities, ci, k);
    ChangesKeepCityLookup(cities, ci, after, cityId);
    FirstCityUnique(cities, cityId, ci, CityIndex(cities, cityId).value);
    var pois, rest := cities[ci].pois, after[ci].pois;
    if forall j :: 0 <= j < |pois| && pois[j].id == id ==> j == k {
      forall j | 0 <= j < |rest| ensures rest[j].id != id {
        var src := if j < k then j else j + 1;
        assert rest[j] == pois[src];
      }
    } else {
      var j :| 0 <= j < |pois| && pois[j].id == id && j != k;
      assert j > k;
      assert rest[j - 1].id == id;
      assert PoiIndex(rest, id).Some?;
    }
  }

  /** With ids unique in the store, a get by a deleted id answers NotFound. */
  lemma DeletedUniquePoiIsGone(cities: seq<City>, cityId: int32, id: int32)
    requires UniquePoiIds(cities)
    requires Locate(cities, cityId, id).Some?
    ensures
      var (ci, k) := Locate(cities, cityId, id).value;
      GetPointOfInterest(RemovePoi(cities, ci, k), cityId, id) == NotFound
  {
    var (ci, k) := Locate(cities, cityId, id).value;
    var pois := cities[ci].pois;
    UniqueWithinCity(cities, ci);
    forall j | 0 <= j < |pois| && pois[j].id == id ensures j == k {
      if j != k {
        DistinctIds(pois, j, k);
      }
    }
    DeletedPoiIsGone(cities, cityId, id);
  }

  /** Ids that occur at most once in a list belong to one position each. */
  lemma DistinctIds(pois: seq<Poi>, a: nat, b: nat)
    requires a < |pois| && b < |pois| && a != b
    requires forall x :: multiset(PoiIds(pois))[x] <= 1
    ensures pois[a].id != pois[b].id
  {
    PoiIdsAt(pois);
    if pois[a].id == pois[b].id {
      var ids := PoiIds(pois);
      if a < b { TwiceCounted(ids, a, b); } else { TwiceCounted(ids, b, a); }
    }
  }

  /** A value at two positions of a list is counted twice in its multiset. */
  lemma TwiceCounted(s: seq<int32>, a: nat, b: nat)
    requires a < b < |s| && s[a] == s[b]
    ensures multiset(s)[s[a]] >= 2
  {
    var x, front := s[a], s[..b];
    assert front[a] == x;
    assert s[..b + 1] == front + [x];
    assert multiset(s[..b + 1])[x] == multiset(front)[x] + 1;
    assert s == s[..b + 1] + s[b + 1..];
  }
}
