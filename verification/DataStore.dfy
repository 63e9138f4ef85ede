/** The in-memory store every handler reads and changes: an ordered list of
    cities, each owning an ordered list of points of interest. Besides the
    store object itself this module holds the lookups the handlers share
    (LINQ's FirstOrDefault by id, SelectMany over every point of interest,
    Max) and the three ways the handlers change one city's list. */
module DataStore {
  import opened Models

  /** CitiesDataStore: the store's only state is its list of cities. The
      seed data is not part of this model; the initial list is a parameter. */
  class CitiesDataStore {
    var cities: seq<City>

    constructor (seed: seq<City>)
      ensures cities == seed
    {
      cities := seed;
    }
  }

  // ---------------------------------------------------------------------------
  // First-match lookups (FirstOrDefault(x => x.Id == id))
  // ---------------------------------------------------------------------------

  /** `i` is the position FirstOrDefault stops at: the first city with `id`. */
  predicate FirstCityAt(cities: seq<City>, id: int32, i: int) {
    0 <= i < |cities| && cities[i].id == id &&
    forall j :: 0 <= j < i ==> cities[j].id != id
  }

  /** `k` is the first point of interest in `pois` whose id is `id`. */
  predicate FirstPoiAt(pois: seq<Poi>, id: int32, k: int) {
    0 <= k < |pois| && pois[k].id == id &&
    forall j :: 0 <= j < k ==> pois[j].id != id
  }

  /** The index of the first element of `s` whose key is `id`, or None when
      there is none (FirstOrDefault returning null). */
  function FirstIndex<T>(s: seq<T>, key: T -> int32, id: int32): (r: Option<nat>)
    ensures r.None? <==> forall i :: 0 <= i < |s| ==> key(s[i]) != id
    ensures r.Some? ==>
      r.value < |s| && key(s[r.value]) == id &&
      forall j :: 0 <= j < r.value ==> key(s[j]) != id
  {
    if s == [] then None
    else if key(s[0]) == id then Some(0)
    else match FirstIndex(s[1..], key, id)
      case None => None
      case Some(k) => Some(k + 1)
  }

  /** Cities.FirstOrDefault(c => c.Id == id), as a position in the list. */
  function CityIndex(cities: seq<City>, id: int32): (r: Option<nat>)
    ensures r.None? <==> forall i :: 0 <= i < |cities| ==> cities[i].id != id
    ensures r.Some? ==> FirstCityAt(cities, id, r.value)
  {
    FirstIndex(cities, (c: City) => c.id, id)
  }

  /** city.PointsOfInterest.FirstOrDefault(p => p.Id == id), as a position. */
  function PoiIndex(pois: seq<Poi>, id: int32): (r: Option<nat>)
    ensures r.None? <==> forall k :: 0 <= k < |pois| ==> pois[k].id != id
    ensures r.Some? ==> FirstPoiAt(pois, id, r.value)
  {
    FirstIndex(pois, (p: Poi) => p.id, id)
  }

  /** The lookup chain every handler addressing one point of interest runs:
      the first city with `cityId`, then the first point of interest with
      `id` in that city. None when either lookup comes back empty. */
  function Locate(cities: seq<City>, cityId: int32, id: int32): (r: Option<(nat, nat)>)
    ensures r.None? <==>
      !exists i, k :: FirstCityAt(cities, cityId, i) && FirstPoiAt(cities[i].pois, id, k)
    ensures r.Some? ==>
      FirstCityAt(cities, cityId, r.value.0) && FirstPoiAt(cities[r.value.0].pois, id, r.value.1)
  {
    match CityIndex(cities, cityId)
    case None => None
    case Some(ci) =>
      match PoiIndex(cities[ci].pois, id)
      case None => None
      case Some(k) => Some((ci, k))
  }

  /** There is only one first match. */
  lemma FirstCityUnique(cities: seq<City>, id: int32, i: int, j: int)
    requires FirstCityAt(cities, id, i) && FirstCityAt(cities, id, j)
    ensures i == j
  {
  }

  // ---------------------------------------------------------------------------
  // Ids across the whole store (SelectMany(c => c.PointsOfInterest), Max)
  // ---------------------------------------------------------------------------

  /** The ids of `pois`, in order (Select(p => p.Id)). */
  function PoiIds(pois: seq<Poi>): (r: seq<int32>)
    ensures |r| == |pois|
  {
    if pois == [] then [] else [pois[0].id] + PoiIds(pois[1..])
  }

  /** Position `k` of PoiIds(pois) is the id of pois[k]. */
  lemma {:induction false} PoiIdsAt(pois: seq<Poi>)
    ensures forall k :: 0 <= k < |pois| ==> PoiIds(pois)[k] == pois[k].id
  {
    if pois != [] {
      PoiIdsAt(pois[1..]);
    }
  }

  /** The id of every point of interest of every city, in store order
      (SelectMany(c => c.PointsOfInterest) projected on Id). It is empty
      exactly when no city has a point of interest, which is when Max throws. */
  function AllPoiIds(cities: seq<City>): (r: seq<int32>)
    ensures r == [] <==> forall i :: 0 <= i < |cities| ==> cities[i].pois == []
  {
    if cities == [] then []
    else
      assert forall i :: 1 <= i < |cities| ==> cities[i] == cities[1..][i - 1];
      PoiIds(cities[0].pois) + AllPoiIds(cities[1..])
  }

  /** AllPoiIds holds the id of every point of interest of every city, and
      nothing else. */
  lemma {:induction false} AllPoiIdsMembers(cities: seq<City>)
    ensures forall i, k :: 0 <= i < |cities| && 0 <= k < |cities[i].pois| ==>
      cities[i].pois[k].id in AllPoiIds(cities)
    ensures forall x :: x in AllPoiIds(cities) ==>
      exists i, k :: 0 <= i < |cities| && 0 <= k < |cities[i].pois| && cities[i].pois[k].id == x
  {
    if cities != [] {
      var ids0, rest := PoiIds(cities[0].pois), AllPoiIds(cities[1..]);
      PoiIdsAt(cities[0].pois);
      AllPoiIdsMembers(cities[1..]);
      forall i, k | 0 <= i < |cities| && 0 <= k < |cities[i].pois|
        ensures cities[i].pois[k].id in AllPoiIds(cities)
      {
        if i == 0 {
          assert ids0[k] == cities[0].pois[k].id;
        } else {
          assert cities[1..][i - 1] == cities[i];
          assert cities[i].pois[k].id in rest;
        }
      }
      forall x | x in AllPoiIds(cities)
        ensures exists i, k :: 0 <= i < |cities| && 0 <= k < |cities[i].pois| && cities[i].pois[k].id == x
      {
        if x in ids0 {
          var k :| 0 <= k < |ids0| && ids0[k] == x;
          assert cities[0].pois[k].id == x;
        } else {
          assert x in rest;
          var i, k :| 0 <= i < |cities[1..]| && 0 <= k < |cities[1..][i].pois| && cities[1..][i].pois[k].id == x;
          assert cities[i + 1].pois[k].id == x;
        }
      }
    }
  }

  /** Enumerable.Max over a non-empty list of ids. */
  function MaxId(ids: seq<int32>): (m: int32)
    requires ids != []
    ensures m in ids
    ensures forall x :: x in ids ==> x <= m
  {
    if |ids| == 1 then ids[0]
    else
      assert ids == [ids[0]] + ids[1..];
      var rest := MaxId(ids[1..]);
      if ids[0] < rest then rest else ids[0]
  }

  /** The id CreatePointOfInterest gives a new point of interest: one more
      than the largest id in the store, with C#'s unchecked `++`. None stands
      for the InvalidOperationException Max throws when the store holds no
      point of interest at all. */
  function NextPoiId(cities: seq<City>): (r: Option<int32>)
    ensures r.None? <==> AllPoiIds(cities) == []
    ensures r.Some? && Int32Max !in AllPoiIds(cities) ==>
      (exists x :: x in AllPoiIds(cities) && x as int + 1 == r.value as int) &&
      forall x :: x in AllPoiIds(cities) ==> x < r.value
    ensures r.Some? && Int32Max in AllPoiIds(cities) ==> r.value == Int32Min
  {
    var ids := AllPoiIds(cities);
    if ids == [] then None else Some(Increment(MaxId(ids)))
  }

  /** At int.MaxValue the unchecked increment wraps: with points of interest
      numbered int.MinValue and int.MaxValue the next id is int.MinValue,
      which is already taken. */
  lemma NextPoiIdWrapsAtInt32Max()
    ensures var cities := [City(1, "c", "", [Poi(Int32Min, "a", ""), Poi(Int32Max, "b", "")])];
      NextPoiId(cities) == Some(Int32Min) && Int32Min in AllPoiIds(cities)
  {
    var cities := [City(1, "c", "", [Poi(Int32Min, "a", ""), Poi(Int32Max, "b", "")])];
    AllPoiIdsMembers(cities);
    assert cities[0].pois[0].id == Int32Min && cities[0].pois[1].id == Int32Max;
  }

  /** No two points of interest in the store share an id. */
  predicate UniquePoiIds(cities: seq<City>) {
    forall x :: multiset(AllPoiIds(cities))[x] <= 1
  }

  // ---------------------------------------------------------------------------
  // The three changes the handlers make to one city's list
  // ---------------------------------------------------------------------------

  /** city.PointsOfInterest.Add(poi) on the city at position `ci`: the new
      entry goes after all old ones of that city, and no other city, and no
      other field of that city, changes. */
  function AppendPoi(cities: seq<City>, ci: nat, poi: Poi): (r: seq<City>)
    requires ci < |cities|
    ensures |r| == |cities|
    ensures forall j :: 0 <= j < |cities| && j != ci ==> r[j] == cities[j]
    ensures r[ci].id == cities[ci].id && r[ci].name == cities[ci].name &&
      r[ci].description == cities[ci].description
    ensures |r[ci].pois| == |cities[ci].pois| + 1
    ensures r[ci].pois[..|cities[ci].pois|] == cities[ci].pois && r[ci].pois[|cities[ci].pois|] == poi
  {
    cities[ci := cities[ci].(pois := cities[ci].pois + [poi])]
  }

  /** Assigning Name and Description of the stored point of interest at
      position `k` of the city at position `ci`. */
  /** The entry keeps its id and its position; no other entry and no other
      city changes. */
  function ReplacePoi(cities: seq<City>, ci: nat, k: nat, fields: PoiFields): (r: seq<City>)
    requires ci < |cities| && k < |cities[ci].pois|
    ensures |r| == |cities|
    ensures forall j :: 0 <= j < |cities| && j != ci ==> r[j] == cities[j]
    ensures r[ci].id == cities[ci].id && r[ci].name == cities[ci].name &&
      r[ci].description == cities[ci].description
    ensures |r[ci].pois| == |cities[ci].pois|
    ensures forall m :: 0 <= m < |cities[ci].pois| && m != k ==> r[ci].pois[m] == cities[ci].pois[m]
    ensures r[ci].pois[k] == Poi(cities[ci].pois[k].id, fields.name, fields.description)
  {
    var pois := cities[ci].pois;
    cities[ci := cities[ci].(pois := pois[k := pois[k].(name := fields.name, description := fields.description)])]
  }

  /** city.PointsOfInterest.Remove(poi) for the point of interest at position
      `k`: List.Remove drops the first element equal to its argument, and no
      element before `k` can equal the first one carrying its id. */
  /** The entries before `k` stay where they are, those after it move up by
      one, and no other city changes. */
  function RemovePoi(cities: seq<City>, ci: nat, k: nat): (r: seq<City>)
    requires ci < |cities| && k < |cities[ci].pois|
    ensures |r| == |cities|
    ensures forall j :: 0 <= j < |cities| && j != ci ==> r[j] == cities[j]
    ensures r[ci].id == cities[ci].id && r[ci].name == cities[ci].name &&
      r[ci].description == cities[ci].description
    ensures |r[ci].pois| == |cities[ci].pois| - 1
    ensures forall m :: 0 <= m < k ==> r[ci].pois[m] == cities[ci].pois[m]
    ensures forall m :: k < m < |cities[ci].pois| ==> r[ci].pois[m - 1] == cities[ci].pois[m]
    ensures multiset(r[ci].pois) + multiset{cities[ci].pois[k]} == multiset(cities[ci].pois)
  {
    var pois := cities[ci].pois;
    assert pois == pois[..k] + [pois[k]] + pois[k + 1..];
    cities[ci := cities[ci].(pois := pois[..k] + pois[k + 1..])]
  }

  // ---------------------------------------------------------------------------
  // How the changes act on the ids of the store
  // ---------------------------------------------------------------------------

  lemma {:induction false} PoiIdsConcat(a: seq<Poi>, b: seq<Poi>)
    ensures PoiIds(a + b) == PoiIds(a) + PoiIds(b)
  {
    PoiIdsAt(a);
    PoiIdsAt(b);
    PoiIdsAt(a + b);
    assert |PoiIds(a + b)| == |PoiIds(a) + PoiIds(b)|;
    forall k | 0 <= k < |a + b|
      ensures PoiIds(a + b)[k] == (PoiIds(a) + PoiIds(b))[k]
    {
      if k < |a| {
        assert (a + b)[k] == a[k];
      } else {
        assert (a + b)[k] == b[k - |a|];
      }
    }
  }

  /** The ids of a concatenation are the ids of its parts. */
  lemma {:induction false} AllPoiIdsConcat(a: seq<City>, b: seq<City>)
    ensures AllPoiIds(a + b) == AllPoiIds(a) + AllPoiIds(b)
  {
    if a == [] {
      assert a + b == b;
    } else {
      assert (a + b)[1..] == a[1..] + b;
      AllPoiIdsConcat(a[1..], b);
    }
  }

  /** The ids of the store are those of the cities before `ci`, then those of
      city `ci`, then those of the cities after it. */
  lemma {:induction false} AllPoiIdsSplit(cities: seq<City>, ci: nat)
    requires ci < |cities|
    ensures AllPoiIds(cities) ==
      AllPoiIds(cities[..ci]) + PoiIds(cities[ci].pois) + AllPoiIds(cities[ci + 1..])
  {
    var front, single, back := cities[..ci], [cities[ci]], cities[ci + 1..];
    assert cities == front + single + back;
    AllPoiIdsConcat(front + single, back);
    AllPoiIdsConcat(front, single);
    assert AllPoiIds(single) == PoiIds(cities[ci].pois) by {
      assert single[1..] == [];
    }
  }

  /** Putting `city` in place of the city at `ci` trades that city's ids for
      the new city's and leaves every other id of the store as it was. */
  lemma AllPoiIdsAfterUpdate(cities: seq<City>, ci: nat, city: City)
    requires ci < |cities|
    ensures AllPoiIds(cities[ci := city]) ==
      AllPoiIds(cities[..ci]) + PoiIds(city.pois) + AllPoiIds(cities[ci + 1..])
    ensures AllPoiIds(cities) ==
      AllPoiIds(cities[..ci]) + PoiIds(cities[ci].pois) + AllPoiIds(cities[ci + 1..])
  {
    var updated := cities[ci := city];
    AllPoiIdsSplit(cities, ci);
    AllPoiIdsSplit(updated, ci);
    assert updated[..ci] == cities[..ci];
    assert updated[ci + 1..] == cities[ci + 1..];
  }

  /** Appending adds exactly the new id to the store's ids; when that id is
      fresh, ids stay unique. */
  lemma AppendPoiIds(cities: seq<City>, ci: nat, poi: Poi)
    requires ci < |cities|
    ensures multiset(AllPoiIds(AppendPoi(cities, ci, poi))) ==
      multiset(AllPoiIds(cities)) + multiset{poi.id}
    ensures UniquePoiIds(cities) && poi.id !in AllPoiIds(cities) ==>
      UniquePoiIds(AppendPoi(cities, ci, poi))
  {
    var pois := cities[ci].pois;
    AllPoiIdsAfterUpdate(cities, ci, cities[ci].(pois := pois + [poi]));
    PoiIdsConcat(pois, [poi]);
    assert PoiIds([poi]) == [poi.id];
    var before, after := multiset(AllPoiIds(cities)), multiset(AllPoiIds(AppendPoi(cities, ci, poi)));
    if UniquePoiIds(cities) && poi.id !in AllPoiIds(cities) {
      assert before[poi.id] == 0;
      forall x ensures after[x] <= 1 {
        assert after[x] == before[x] + multiset{poi.id}[x];
      }
    }
  }

  /** Replacing name and description leaves the ids of the store exactly as
      they were, in the same order. */
  lemma ReplacePoiIds(cities: seq<City>, ci: nat, k: nat, fields: PoiFields)
    requires ci < |cities| && k < |cities[ci].pois|
    ensures AllPoiIds(ReplacePoi(cities, ci, k, fields)) == AllPoiIds(cities)
  {
    var pois := cities[ci].pois;
    var newPois := pois[k := pois[k].(name := fields.name, description := fields.description)];
    AllPoiIdsAfterUpdate(cities, ci, cities[ci].(pois := newPois));
    PoiIdsAt(pois);
    PoiIdsAt(newPois);
    assert PoiIds(newPois) == PoiIds(pois);
  }

  /** Removing drops exactly the removed id from the store's ids, so unique
      ids stay unique. */
  lemma RemovePoiIds(cities: seq<City>, ci: nat, k: nat)
    requires ci < |cities| && k < |cities[ci].pois|
    ensures multiset(AllPoiIds(RemovePoi(cities, ci, k))) + multiset{cities[ci].pois[k].id} ==
      multiset(AllPoiIds(cities))
    ensures UniquePoiIds(cities) ==> UniquePoiIds(RemovePoi(cities, ci, k))
  {
    var pois := cities[ci].pois;
    assert pois == pois[..k] + [pois[k]] + pois[k + 1..];
    AllPoiIdsAfterUpdate(cities, ci, cities[ci].(pois := pois[..k] + pois[k + 1..]));
    PoiIdsConcat(pois[..k], pois[k + 1..]);
    PoiIdsConcat(pois[..k] + [pois[k]], pois[k + 1..]);
    PoiIdsConcat(pois[..k], [pois[k]]);
    assert PoiIds([pois[k]]) == [pois[k].id];
    var before, after := multiset(AllPoiIds(cities)), multiset(AllPoiIds(RemovePoi(cities, ci, k)));
    if UniquePoiIds(cities) {
      forall x ensures after[x] <= 1 {
        assert after[x] <= before[x];
      }
    }
  }

  /** When ids are unique in the store they are unique inside each city. */
  lemma UniqueWithinCity(cities: seq<City>, ci: nat)
    requires ci < |cities| && UniquePoiIds(cities)
    ensures forall x :: multiset(PoiIds(cities[ci].pois))[x] <= 1
  {
    AllPoiIdsSplit(cities, ci);
    forall x ensures multiset(PoiIds(cities[ci].pois))[x] <= 1 {
      assert multiset(PoiIds(cities[ci].pois))[x] <= multiset(AllPoiIds(cities))[x];
    }
  }
}
