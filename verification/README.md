# CityInfo: the city / point-of-interest store and its handlers

CityInfo is a small REST API over a process-local list of cities. Each city
owns an ordered list of points of interest. This Dafny project models the
two controllers that read and change that list:

- `CitiesController`: list all cities, get one city by id.
- `PointsOfIntersertsController`: list a city's points of interest, get one,
  create, replace (PUT), partially update (PATCH) and delete.

Files and what they hold:

- `Models.dfy`: the entities.
  - `Poi` and `City` are the stored values.
  - `PoiFields` is the name/description body a client sends.
  - `ActionResult` is what a handler returns: `Ok`, `Created`, `NoContent`,
    `NotFound`, `BadRequest`, and `InvalidOperation` for the exception that
    escapes `Max`.
  - `int32` is C#'s `int`, and `Increment` is its unchecked `++`.
- `DataStore.dfy`: the store itself, the shared lookups and the changes.
  - The store is the class `CitiesDataStore`, whose one field is
    `cities: seq<City>`.
  - The lookups are `FirstOrDefault` by id, as `CityIndex`, `PoiIndex` and
    the city-then-poi chain `Locate`.
  - `AllPoiIds` is `SelectMany` over all points of interest, and `MaxId` is
    `Max`.
  - `NextPoiId` is the max + 1 id rule.
  - `AppendPoi`, `ReplacePoi` and `RemovePoi` are the three changes the
    handlers make to one city's list. Beside them are lemmas on how each
    change acts on the ids of the store.
- `CitiesController.dfy`: `GetCities` and `GetCity`, as functions of the
  store's city list.
- `PointsOfInterestController.dfy`: the points-of-interest handlers.
  - The two reads are functions.
  - Create, replace, patch and delete are methods with `modifies store`.
  - Lemmas cover what later requests observe.

Behaviour modelled as the code has it:

- All lookups are first-match. With duplicate ids, the earliest city, and
  the earliest point of interest in it, wins.
- Validation comes before the city lookup in create and replace. In patch,
  the lookups come first, so `NotFound` takes precedence there.
- Create on an existing city, when no city in the store has any point of
  interest, makes `Max` throw `InvalidOperationException`. The store may
  still hold cities. This is the `InvalidOperation` result, reached only
  after validation and the city lookup succeed, and the store is left
  unchanged.
- The new id is `++max` on a C# `int` in the default unchecked context. At
  `int.MaxValue` it wraps to `int.MinValue`, and `NextPoiIdWrapsAtInt32Max`
  shows that the wrapped id can already be taken. Freshness and uniqueness
  of created ids are therefore proved under the condition that no stored id
  is `int.MaxValue`.
- Ids are not assumed unique. The seed data is outside the model and no
  handler checks it. Replace, patch and delete are proved to preserve
  `UniquePoiIds`. Create is proved to preserve it only when no stored id is
  `int.MaxValue`; otherwise the wrapped id can collide.
- After a delete, a get by the deleted id answers `NotFound` exactly when
  that id occurred once in the city's list (`DeletedPoiIsGone`). Globally
  unique ids are one case of this (`DeletedUniquePoiIsGone`).
- `List.Remove(item)` removes the first element equal to the item
  `FirstOrDefault` returned. No earlier element can equal it, because any
  earlier element has a different id. So the removal is at the found index.

## Model

| member | source | states |
|---|---|---|
| Models.PassesValidation | CityInfo.API/Controllers/PointsOfIntersertsController.cs:53-62 | the check before any change (also :97-107 and :155-165): a body whose name equals its description is rejected whatever the annotation check says, one failing the annotation check is rejected, and one passing both is accepted |
| Models.Increment | CityInfo.API/Controllers/PointsOfIntersertsController.cs:78 | `++` on an `int` adds one below `int.MaxValue` and wraps to `int.MinValue` at it |
| DataStore.FirstIndex | CityInfo.API/Controllers/CitiesController.cs:23 | `FirstOrDefault` by key: None exactly when no element has the key, otherwise the index of an element with the key and no earlier one |
| DataStore.CityIndex | CityInfo.API/Controllers/PointsOfIntersertsController.cs:18 | city lookup: None exactly when no city has the id, otherwise the first city with it |
| DataStore.PoiIndex | CityInfo.API/Controllers/PointsOfIntersertsController.cs:39 | point-of-interest lookup in one city: None exactly when none has the id, otherwise the first with it |
| DataStore.Locate | CityInfo.API/Controllers/PointsOfIntersertsController.cs:31-44 | the city-then-poi lookup chain: None exactly when there is no first matching city with a first matching poi, otherwise that pair of positions |
| DataStore.CitiesDataStore.constructor | CityInfo.API/Controllers/CitiesController.cs:16 | the store behind `CitiesDataStore.Current.Cities` starts with exactly the given city list |
| DataStore.AllPoiIds | CityInfo.API/Controllers/PointsOfIntersertsController.cs:73-74 | the `SelectMany` id list is empty exactly when no city has a point of interest |
| DataStore.AllPoiIdsMembers | CityInfo.API/Controllers/PointsOfIntersertsController.cs:73-74 | `SelectMany` over the cities' lists holds the id of every point of interest of every city, and nothing else |
| DataStore.MaxId | CityInfo.API/Controllers/PointsOfIntersertsController.cs:74 | `Max` of a non-empty id list is one of its ids and at least every id in it |
| DataStore.NextPoiId | CityInfo.API/Controllers/PointsOfIntersertsController.cs:73-78 | no id exactly when the store has no point of interest; otherwise, unless some id is `int.MaxValue`, one more than an existing id and greater than every id; at `int.MaxValue` it is `int.MinValue` |
| DataStore.NextPoiIdWrapsAtInt32Max | CityInfo.API/Controllers/PointsOfIntersertsController.cs:73-78 | a concrete store where the wrapped next id is already taken |
| DataStore.AppendPoi | CityInfo.API/Controllers/PointsOfIntersertsController.cs:83 | `Add` on one city: the list grows by one, the old entries are its prefix and the new entry is last; the city's own fields and every other city are unchanged |
| DataStore.ReplacePoi | CityInfo.API/Controllers/PointsOfIntersertsController.cs:123-124 | the name and description assignments (also :167-168): the entry keeps its id and position and takes the new name and description; every other entry and city is unchanged |
| DataStore.RemovePoi | CityInfo.API/Controllers/PointsOfIntersertsController.cs:190 | `Remove` on one city: entries before the position stay, later ones move up by one, the list loses exactly that entry as a multiset; every other city is unchanged |
| DataStore.AppendPoiIds | CityInfo.API/Controllers/PointsOfIntersertsController.cs:83 | appending adds exactly the new id to the store's ids, and keeps ids unique when the new id is fresh |
| DataStore.ReplacePoiIds | CityInfo.API/Controllers/PointsOfIntersertsController.cs:123-124 | assigning name and description leaves the store's ids exactly as they were, in order |
| DataStore.RemovePoiIds | CityInfo.API/Controllers/PointsOfIntersertsController.cs:190 | removing drops exactly the removed id from the store's ids, and keeps ids unique |
| CitiesController.GetCities | CityInfo.API/Controllers/CitiesController.cs:14-17 | `Ok` with exactly the store's city list, in order |
| CitiesController.GetCity | CityInfo.API/Controllers/CitiesController.cs:20-32 | `NotFound` exactly when no city has the id; otherwise `Ok` with a city carrying that id, the first such in list order |
| CitiesController.GetCityFirstWins | CityInfo.API/Controllers/CitiesController.cs:23 | when several cities share the id, the earliest one is returned |
| CitiesController.GetCityFindsEachCity | CityInfo.API/Controllers/CitiesController.cs:23-31 | with unique city ids, every city is returned by its own id |
| PointsOfInterestController.Snapshot | CityInfo.API/Controllers/PointsOfIntersertsController.cs:147-151 | the copy a patch works on holds exactly the stored name and description: writing it back unpatched leaves the entry as it was |
| PointsOfInterestController.GetPointsOfInterest | CityInfo.API/Controllers/PointsOfIntersertsController.cs:16-26 | `NotFound` exactly when no city has the id; otherwise `Ok` with the list of the first city with it |
| PointsOfInterestController.GetPointOfInterest | CityInfo.API/Controllers/PointsOfIntersertsController.cs:29-47 | `NotFound` exactly when the city or the poi lookup fails; otherwise `Ok` with the first poi with that id in the first city with that id |
| PointsOfInterestController.CreatePointOfInterest | CityInfo.API/Controllers/PointsOfIntersertsController.cs:50-91 | `BadRequest` exactly when name equals description or validation fails, even for a missing city; then `NotFound`, then `InvalidOperation` when no city holds any point of interest, all leaving the store unchanged; otherwise `Created` with id = next id, appended at the end of the first matching city and nothing else changed; below `int.MaxValue` the id exceeds every old id and unique ids stay unique |
| PointsOfInterestController.UpdatePointOfInterest | CityInfo.API/Controllers/PointsOfIntersertsController.cs:94-127 | validation first, then city, then poi; errors leave the store unchanged; on success only the found poi's name and description are replaced; the store's ids never change |
| PointsOfInterestController.PartiallyUpdatePointOfInterest | CityInfo.API/Controllers/PointsOfIntersertsController.cs:130-171 | `NotFound` exactly when the lookups fail, before any validation; `BadRequest` exactly when the patch fails or the patched copy has name equal to description or fails validation, store unchanged; otherwise the patched name and description are written back and nothing else changes |
| PointsOfInterestController.DeletePointOfInterest | CityInfo.API/Controllers/PointsOfIntersertsController.cs:174-193 | `NotFound` exactly when the lookups fail, store unchanged; otherwise the first matching poi of the first matching city is removed, the rest keep their order, other cities untouched; unique ids stay unique |
| PointsOfInterestController.ChangesKeepCityLookup | CityInfo.API/Controllers/PointsOfIntersertsController.cs:83 | a change confined to one city that keeps its id leaves every later city lookup where it was |
| PointsOfInterestController.CreatedPoiIsVisible | CityInfo.API/Controllers/PointsOfIntersertsController.cs:73-83 | after a create with a fresh id, listing the city ends with the new poi and getting it by id returns it |
| PointsOfInterestController.CreatePointOfInterestIsVisible | CityInfo.API/Controllers/PointsOfIntersertsController.cs:73-83 | with no stored id at `int.MaxValue`, the entry create stores under the id `NextPoiId` gives ends its city's list and is what a get by that id returns |
| PointsOfInterestController.UpdateIdempotent | CityInfo.API/Controllers/PointsOfIntersertsController.cs:116-124 | a second identical replace finds the same entry and leaves the store as the first did; a later get returns the entry with its id and the new fields |
| PointsOfInterestController.DeletedPoiIsGone | CityInfo.API/Controllers/PointsOfIntersertsController.cs:183-190 | after a delete the city's list is the old list without the entry, the rest in order; a get by that id is `NotFound` exactly when the entry was the only one with that id in its city |
| PointsOfInterestController.DeletedUniquePoiIsGone | CityInfo.API/Controllers/PointsOfIntersertsController.cs:183-190 | with ids unique in the store, a get by a deleted id is `NotFound` |

## Left out

- Routing attributes, HTTP status codes and the `CreatedAtRoute` Location
  header are not modelled. Handlers return the plain `ActionResult`
  datatype.
- JSON Patch semantics (`patchDoc.ApplyTo`) are not modelled. This is
  framework code. The patch is a parameter from the stored
  `(name, description)` snapshot to a new pair, or `None` when applying it
  records an error.
- Data-annotation validation (`ModelState.IsValid`, `TryValidateModel`) is
  not modelled. The DTO attributes are not part of this model. The check is
  a parameter `valid` on the name/description pair, conjoined with the
  explicit name ≠ description rule (`PassesValidation`).
- The `CitiesDataStore.Current` singleton and its seed data are not part of
  this model. The store's constructor takes the initial city list.
- The race on max + 1 id generation under concurrent requests is not
  modelled. Every handler runs as one sequential step.
- `null` strings are not modelled. Names and descriptions are always
  strings.
- Reference sharing is not modelled.
  - The C# handlers return the live `City` and list objects and assign
    fields of the stored object.
  - The model stores values and replaces the changed city in the list.
  - Aliasing between a returned object and the store is therefore not
    captured.
- The read handlers take the store's city list as a value rather than the
  store object. That they never change the store holds by construction.
- PointsOfInterestController.CreatePointOfInterest: freshness of the new id,
  and preservation of unique ids, are stated only when no stored id is
  `int.MaxValue`. At that value the unchecked increment wraps (see
  `NextPoiIdWrapsAtInt32Max`).
