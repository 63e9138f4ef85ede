/** The read-only handlers under api/cities. Both only look at the store's
    list of cities, which they receive as a value, so neither can change it. */
module CitiesController {
  import opened Models
  import opened DataStore

  /** GET api/cities: every city of the store, in store order. */
  function GetCities(cities: seq<City>): (r: ActionResult<seq<City>>)
    ensures r.Ok? && r.value == cities
  {
    Ok(cities)
  }

  /** GET api/cities/{id}: the first city whose id is `id`, or NotFound when
      no city has it. */
  function GetCity(cities: seq<City>, id: int32): (r: ActionResult<City>)
    ensures r.Ok? || r.NotFound?
    ensures r.NotFound? <==> forall i :: 0 <= i < |cities| ==> cities[i].id != id
    ensures r.Ok? ==> r.value.id == id
    ensures r.Ok? ==> exists i :: FirstCityAt(cities, id, i) && r.value == cities[i]
  {
    match CityIndex(cities, id)
    case None => NotFound
    case Some(i) => Ok(cities[i])
  }

  /** When several cities share an id, GetCity answers with the earliest. */
  lemma GetCityFirstWins(cities: seq<City>, id: int32, i: nat)
    requires FirstCityAt(cities, id, i)
    ensures GetCity(cities, id) == Ok(cities[i])
  {
  }

  /** With city ids unique, as the seed data has them, every city of the
      store is found by its own id. */
  lemma GetCityFindsEachCity(cities: seq<City>, i: nat)
    requires i < |cities|
    requires forall a, b :: 0 <= a < b < |cities| ==> cities[a].id != cities[b].id
    ensures GetCity(cities, cities[i].id) == Ok(cities[i])
  {
  }
}
