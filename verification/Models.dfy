/** The entities the CityInfo API serves: cities, their points of interest,
    the request bodies the handlers receive and the results they return. */
module Models {

  /** C#'s `int`, the type of every city and point-of-interest id. */
  newtype int32 = x: int | -0x8000_0000 <= x < 0x8000_0000

  const Int32Min: int32 := -0x8000_0000
  const Int32Max: int32 := 0x7fff_ffff

  /** `++x` on a C# `int` in the default unchecked context: two's complement
      wrap-around, so int.MaxValue + 1 is int.MinValue. */
  function Increment(x: int32): (r: int32)
    ensures x < Int32Max ==> r as int == x as int + 1 && x < r
    ensures x == Int32Max ==> r == Int32Min && r < x
  {
    ((x as int + 1 + 0x8000_0000) % 0x1_0000_0000 - 0x8000_0000) as int32
  }

  /** A point of interest as the store keeps it (PointOfInterestDto). */
  datatype Poi = Poi(id: int32, name: string, description: string)

  /** A city as the store keeps it (CityDto); it owns its points of interest. */
  datatype City = City(id: int32, name: string, description: string, pois: seq<Poi>)

  /** The name/description pair a client sends to create, replace or patch a
      point of interest (PointOfInterestForCreationDto, PointOfInterestForUpdateDto). */
  datatype PoiFields = PoiFields(name: string, description: string)

  datatype Option<T> = None | Some(value: T)

  /** What a handler returns. `InvalidOperation` is the exception that escapes
      a handler (it becomes a server error); the rest are the action results
      the handlers build. */
  datatype ActionResult<T> =
    | Ok(value: T)
    | Created(created: T)
    | NoContent
    | NotFound
    | BadRequest
    | InvalidOperation

  /** The check a create, replace or patch body must pass before anything is
      stored: the explicit rule that the description differs from the name,
      and the data-annotation validation behind ModelState, which is given as
      `valid`. */
  predicate PassesValidation(fields: PoiFields, valid: PoiFields -> bool): (ok: bool)
    ensures fields.name == fields.description ==> !ok
    ensures !valid(fields) ==> !ok
    ensures fields.name != fields.description && valid(fields) ==> ok
  {
    fields.name != fields.description && valid(fields)
  }
}
