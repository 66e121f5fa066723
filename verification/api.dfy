/**
  The decision logic applied to one calendar-API response for a
  (country, year) request. The HTTP exchange itself is not modelled: the
  response arrives as a value.
*/
module Api {
  import opened Results
  import opened Holidays

  /** The value held under the body's "response" key. */
  datatype ResponseField<P> =
    | EmptyArray                               // `[]`, the provider's no-data sentinel
    | OtherValue                               // a non-empty array, a string, a number, a bool or null
    | Record(holidays: Option<seq<Holiday<P>>>) // an object, with or without a "holidays" key

  /** A response body, as `json()` reads it. */
  datatype Body<P> =
    | Unparsable                               // not JSON at all
    | NotAnObject                              // JSON, but an array, a string, a number, a bool or null
    | JsonObject(response: Option<ResponseField<P>>) // an object, with or without a "response" key

  /** A response as seen by the collector: its status code and its body. */
  datatype ApiResponse<P> = ApiResponse(status: int, body: Body<P>)

  /** A body of the documented shapes: an object whose "response" is `[]` or an object. */
  predicate WellFormed<P>(body: Body<P>)
  {
    body.JsonObject? && body.response.Some? && !body.response.value.OtherValue?
  }

  /**
    The holidays a request contributes. A non-200 status or an empty
    "response" array degrades to no holidays, without looking further; an
    object under "response" yields its "holidays" list, or none when that key
    is absent. Any other 200 body raises, with the exception Python's
    `json()`, `[...]` or `.get` would raise on it.
  */
  function Decode<P>(resp: ApiResponse<P>): (r: Result<seq<Holiday<P>>, Fault>)
    ensures resp.status != 200 ==> r == Ok([])
    ensures r.Err? <==> resp.status == 200 && !WellFormed(resp.body)
    ensures r.Ok? && r.value != [] ==>
      resp.status == 200 && resp.body == JsonObject(Some(Record(Some(r.value))))
    ensures resp.status == 200 ==>
      && (resp.body == Unparsable ==> r == Err(JsonDecodeError))
      && (resp.body == NotAnObject ==> r == Err(TypeError))
      && (resp.body == JsonObject(None) ==> r == Err(KeyError))
      && (resp.body == JsonObject(Some(OtherValue)) ==> r == Err(AttributeError))
      && (resp.body == JsonObject(Some(EmptyArray)) ==> r == Ok([]))
      && (resp.body == JsonObject(Some(Record(None))) ==> r == Ok([]))
  {
    if resp.status != 200 then Ok([])
    else
      match resp.body
      case Unparsable => Err(JsonDecodeError)
      case NotAnObject => Err(TypeError)
      case JsonObject(None) => Err(KeyError)
      case JsonObject(Some(EmptyArray)) => Ok([])
      case JsonObject(Some(OtherValue)) => Err(AttributeError)
      case JsonObject(Some(Record(None))) => Ok([])
      case JsonObject(Some(Record(Some(hs)))) => Ok(hs)
  }

  /**
    The degrade-to-empty policy: decoding yields no holidays exactly when the
    status is not 200, the "response" is the empty array, or the object
    carries no (or an empty) "holidays" list.
  */
  lemma DecodeEmptyExactly<P>(resp: ApiResponse<P>)
    ensures Decode(resp) == Ok([]) <==>
      || resp.status != 200
      || resp.body == JsonObject(Some(EmptyArray))
      || resp.body == JsonObject(Some(Record(None)))
      || resp.body == JsonObject(Some(Record(Some([]))))
  {
  }

  /** Whatever the status, a well-formed body never raises, and a 200 object yields its listed holidays. */
  lemma DecodeWellFormedNeverRaises<P>(resp: ApiResponse<P>)
    requires WellFormed(resp.body)
    ensures Decode(resp).Ok?
    ensures resp.status == 200 && resp.body.response.value.Record? && resp.body.response.value.holidays.Some? ==>
      Decode(resp).value == resp.body.response.value.holidays.value
  {
  }
}
