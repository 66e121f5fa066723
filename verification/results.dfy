/** Datatypes shared by the other modules: optional JSON values, outcomes that may raise, and the exceptions. */
module Results {

  /** A JSON key that is either missing or present with its value. */
  datatype Option<+T> = None | Some(value: T)

  /** The outcome of an operation that may raise: `Ok` carries the value, `Err` the exception. */
  datatype Result<+T, +E> = Ok(value: T) | Err(error: E)

  /** The exceptions the collector can raise and does not catch. */
  datatype Fault =
    | ValueError       // start bound later than end bound
    | JsonDecodeError  // a 200 response whose body is not JSON
    | TypeError        // a 200 response whose JSON body is not an object, so it cannot be indexed by "response"
    | KeyError         // a 200 response whose body object has no "response" key
    | AttributeError   // a 200 response whose "response" is neither `[]` nor an object, so it has no `get`
}
