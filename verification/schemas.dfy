/**
 * The record types of `schemas.py`: a locality edge, its weight validator,
 * the response envelope, and the parse of one raw JSON item into a locality.
 */
module Schemas {
  import opened Wrappers
  import opened Weights

  /** The fields of a `Locality` as pydantic stores them. `km` is `None` when absent. */
  datatype Locality = Locality(city1: string, city2: string, min: W, km: Option<W>)

  /**
   * What `check_positive` guarantees of every field it validates. Pydantic runs
   * the validators on every construction, so every `Locality` object in the
   * program satisfies this.
   */
  predicate Valid(l: Locality) {
    NonNeg(l.min) && (l.km.Some? ==> NonNeg(l.km.value))
  }

  const NegativeMessage: string := "Distance cannot be negative"

  /** The field validator `check_positive`, applied to `min` and to a present `km`. */
  function CheckPositive(v: W): (r: Result<W, string>)
    ensures r.Ok? <==> NonNeg(v)
    ensures r.Ok? ==> r.value == v
    ensures r.Err? ==> r.error == NegativeMessage
  {
    if v.Fin? && v.r < 0.0 then Err(NegativeMessage) else Ok(v)
  }

  /**
   * One field of a raw JSON item: missing, present with a value pydantic cannot
   * read as the field's type, or present with a usable value.
   */
  datatype Field<+T> = Missing | BadType | Given(v: T)

  datatype RawItem = RawItem(city1: Field<string>, city2: Field<string>, min: Field<W>, km: Field<W>)

  /** Why pydantic rejects an item, naming the offending field. */
  datatype ValidationError =
    | FieldRequired(field: string)
    | WrongType(field: string)
    | Negative(field: string)

  /** A required field: missing or unreadable is an error. */
  function Required<T>(f: Field<T>, name: string): (r: Result<T, ValidationError>)
    ensures r.Ok? <==> f.Given?
    ensures r.Ok? ==> r.value == f.v
  {
    match f
    case Missing => Err(FieldRequired(name))
    case BadType => Err(WrongType(name))
    case Given(v) => Ok(v)
  }

  /** A required weight: readable and accepted by `check_positive`. */
  function RequiredWeight(f: Field<W>, name: string): (r: Result<W, ValidationError>)
    ensures r.Ok? <==> f.Given? && NonNeg(f.v)
    ensures r.Ok? ==> r.value == f.v
  {
    match Required(f, name)
    case Err(e) => Err(e)
    case Ok(v) => if CheckPositive(v).Ok? then Ok(v) else Err(Negative(name))
  }

  /** The optional `km`: absent defaults to `None`; a present value is validated. */
  function OptionalWeight(f: Field<W>, name: string): (r: Result<Option<W>, ValidationError>)
    ensures r.Ok? <==> f.Missing? || (f.Given? && NonNeg(f.v))
    ensures r.Ok? && f.Missing? ==> r.value == None
    ensures r.Ok? && f.Given? ==> r.value == Some(f.v)
  {
    match f
    case Missing => Ok(None)
    case BadType => Err(WrongType(name))
    case Given(v) => if CheckPositive(v).Ok? then Ok(Some(v)) else Err(Negative(name))
  }

  /** Whether `Locality(**item)` succeeds. */
  predicate Acceptable(item: RawItem) {
    && item.city1.Given?
    && item.city2.Given?
    && item.min.Given? && NonNeg(item.min.v)
    && (item.km.Given? ==> NonNeg(item.km.v))
    && !item.km.BadType?
  }

  /**
   * `Locality(**item)`: the item becomes a locality exactly when its three
   * required fields are present and readable and no weight is negative; the
   * locality keeps the item's values and an absent `km` becomes `None`.
   */
  function Validate(item: RawItem): (r: Result<Locality, ValidationError>)
    ensures r.Ok? <==> Acceptable(item)
    ensures r.Ok? ==> Valid(r.value)
    ensures r.Ok? ==> && r.value.city1 == item.city1.v
                      && r.value.city2 == item.city2.v
                      && r.value.min == item.min.v
                      && (item.km.Missing? ==> r.value.km == None)
                      && (item.km.Given? ==> r.value.km == Some(item.km.v))
  {
    match Required(item.city1, "city1")
    case Err(e) => Err(e)
    case Ok(c1) =>
      match Required(item.city2, "city2")
      case Err(e) => Err(e)
      case Ok(c2) =>
        match RequiredWeight(item.min, "min")
        case Err(e) => Err(e)
        case Ok(m) =>
          match OptionalWeight(item.km, "km")
          case Err(e) => Err(e)
          case Ok(k) => Ok(Locality(c1, c2, m, k))
  }

  /**
   * Building a locality in code, as `main_response` does with computed values:
   * it succeeds exactly when both weights pass `check_positive`.
   */
  function MakeLocality(city1: string, city2: string, min: W, km: Option<W>): (r: Result<Locality, ValidationError>)
    ensures r.Ok? <==> NonNeg(min) && (km.Some? ==> NonNeg(km.value))
    ensures r.Ok? ==> r.value == Locality(city1, city2, min, km) && Valid(r.value)
  {
    if !NonNeg(min) then Err(Negative("min"))
    else if km.Some? && !NonNeg(km.value) then Err(Negative("km"))
    else Ok(Locality(city1, city2, min, km))
  }

  /** `LocalityResponse`: the fetched localities, or an error message. */
  datatype LocalityResponse = LocalityResponse(data: seq<Locality>, error: Option<string>)

  /** `LocalityResponse()` with every field at its default. */
  function DefaultResponse(): (r: LocalityResponse)
    ensures r.data == [] && r.error == None
  {
    LocalityResponse([], None)
  }

  /** `LocalityResponse(data=localities)`: `error` keeps its default. */
  function DataResponse(localities: seq<Locality>): (r: LocalityResponse)
    ensures r.data == localities && r.error == None
  {
    DefaultResponse().(data := localities)
  }

  /** `LocalityResponse(error=message)`: `data` keeps its default. */
  function ErrorResponse(message: string): (r: LocalityResponse)
    ensures r.data == [] && r.error == Some(message)
  {
    DefaultResponse().(error := Some(message))
  }

  /** The truth test `if response.error:`: `None` and the empty string are false, any other message is true. */
  predicate IsError(resp: LocalityResponse): (e: bool)
    ensures resp.error.None? ==> !e
    ensures resp.error.Some? && resp.error.value == "" ==> !e
    ensures resp.error.Some? && |resp.error.value| > 0 ==> e
  {
    resp.error.Some? && resp.error.value != ""
  }

  /**
   * An error response is told apart from an empty result by its error field
   * alone: a response with no localities is not an error, and one carrying a
   * non-empty message is, whatever its data.
   */
  lemma ErrorDistinctFromEmpty(message: string)
    ensures !IsError(DefaultResponse())
    ensures !IsError(DataResponse([]))
    ensures message != "" ==> IsError(ErrorResponse(message))
    ensures ErrorResponse(message).data == DataResponse([]).data
  {
  }
}
