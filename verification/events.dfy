/** What the hosting platform hands a handler and what it gets back: the
    decoded JSON event, the Python exceptions that indexing it can raise, the
    text `str(e)` gives those exceptions, and the `{statusCode, body}` record
    both handlers return. */
module Events {
  import opened Wrappers

  /** A decoded JSON value. Numbers, booleans and null are `Scalar`s that
      keep only their Python type name, because the handlers never read them. */
  datatype Json =
    | Str(s: string)
    | Object(fields: map<string, Json>)
    | List(items: seq<Json>)
    | Scalar(typeName: string)

  /** The Python type of a decoded value, as error messages name it. */
  function TypeName(v: Json): string
  {
    match v
    case Str(_) => "str"
    case Object(_) => "dict"
    case List(_) => "list"
    case Scalar(t) => t
  }

  /** An exception raised inside a handler. `KeyError` keeps the repr of the
      missing key; the others keep their message; `Raised` stands for an
      exception of a collaborator (S3, Lambda, the file system) whose text the
      model takes as given. */
  datatype PyError =
    | KeyError(keyRepr: string)
    | IndexError(message: string)
    | TypeError(message: string)
    | Raised(message: string)

  /** `str(e)`: a KeyError prints the repr of its key, the others their message. */
  function Describe(e: PyError): string
  {
    match e
    case KeyError(k) => k
    case IndexError(m) => m
    case TypeError(m) => m
    case Raised(m) => m
  }

  /** The repr of a str key without quotes or backslashes in it. */
  function QuoteKey(k: string): string
  {
    "'" + k + "'"
  }

  /** `v[k]` for a string key. A dict yields the entry or a KeyError; other
      values raise the TypeError Python raises for them. */
  function Field(v: Json, k: string): (r: Result<Json, PyError>)
    ensures r.Success? <==> v.Object? && k in v.fields
    ensures r.Success? ==> r.value == v.fields[k]
    ensures v.Object? && k !in v.fields ==> r == Failure(KeyError(QuoteKey(k)))
  {
    match v
    case Object(m) => if k in m then Success(m[k]) else Failure(KeyError(QuoteKey(k)))
    case List(_) => Failure(TypeError("list indices must be integers or slices, not str"))
    case Str(_) => Failure(TypeError("string indices must be integers, not 'str'"))
    case Scalar(t) => Failure(TypeError(QuoteKey(t) + " object is not subscriptable"))
  }

  /** `v[0]`. A non-empty list yields its first item, a non-empty string its
      first character; an empty one raises IndexError. A dict decoded from
      JSON only has str keys, so the int key 0 is missing. */
  function First(v: Json): (r: Result<Json, PyError>)
    ensures v.List? && |v.items| > 0 ==> r == Success(v.items[0])
    ensures v.List? && |v.items| == 0 ==> r == Failure(IndexError("list index out of range"))
    ensures v.Object? || v.Scalar? ==> r.Failure?
  {
    match v
    case List(items) =>
      if |items| > 0 then Success(items[0]) else Failure(IndexError("list index out of range"))
    case Str(s) =>
      if |s| > 0 then Success(Str(s[..1])) else Failure(IndexError("string index out of range"))
    case Object(_) => Failure(KeyError("0"))
    case Scalar(t) => Failure(TypeError(QuoteKey(t) + " object is not subscriptable"))
  }

  /** The record a handler returns to the platform. */
  datatype Response = Response(statusCode: int, body: string)

  /** How a call to a collaborator ended: it returned, or it raised. */
  datatype Attempt = Done | Fails(message: string)
}
