/** JSON scalars as the controllers see them in a parsed request body, and the
    JavaScript operators the controllers apply to them: truthiness, `||`, `??`. */
module Json {

  datatype Option<+T> = None | Some(value: T)

  /** A scalar JSON value, as it arrives in a body or is stored in a column.
      Numbers are integers in this model. */
  datatype Val = Null | Bool(b: bool) | Num(n: int) | Str(s: string)

  /** A parsed JSON object body. A key that is not in the map reads as `undefined`. */
  type Body = map<string, Val>

  /** JavaScript truthiness of a present value: null, false, 0 and "" are falsy. */
  predicate Truthy(v: Val) {
    match v
    case Null => false
    case Bool(b) => b
    case Num(n) => n != 0
    case Str(s) => s != ""
  }

  /** `body[key]`, with None standing for `undefined`. */
  function Get(body: Body, key: string): (r: Option<Val>)
    ensures r.Some? <==> key in body
    ensures r.Some? ==> r.value == body[key]
  {
    if key in body then Some(body[key]) else None
  }

  /** Truthiness of `body[key]`; `undefined` is falsy. */
  predicate TruthyAt(body: Body, key: string) {
    key in body && Truthy(body[key])
  }

  /** `body[key] ?? null`: undefined and null both become null. */
  function OrNull(body: Body, key: string): Val {
    if key in body then body[key] else Null
  }

  /** `a || b`: the left operand when it is truthy, otherwise the right one. */
  function Or(a: Val, b: Val): (r: Val)
    ensures Truthy(a) ==> r == a
    ensures !Truthy(a) ==> r == b
  {
    if Truthy(a) then a else b
  }

  /** The decimal digits of a natural number. */
  function Digits(n: nat): (s: string)
    ensures |s| >= 1
    decreases n
  {
    var d := ['0', '1', '2', '3', '4', '5', '6', '7', '8', '9'][n % 10];
    if n < 10 then [d] else Digits(n / 10) + [d]
  }

  /** The text a value is sent as when it is bound to a query parameter:
      strings as they are, numbers in decimal, booleans as `true` or `false`. */
  function Text(v: Val): (t: string)
    ensures v.Str? ==> t == v.s
  {
    match v
    case Null => "null"
    case Bool(b) => if b then "true" else "false"
    case Num(n) => if n < 0 then "-" + Digits(-n) else Digits(n)
    case Str(s) => s
  }

  /** The integer id a value denotes when it is compared with an integer id
      column in a lookup or a join. */
  function AsId(v: Val): Option<int> {
    if v.Num? then Some(v.n) else None
  }
}

/** The error responses the handlers send, with their HTTP status. */
module Http {

  datatype Failure =
    | BadRequest(message: string)    // 400
    | Unauthorized(message: string)  // 401
    | Forbidden(message: string)     // 403
    | NotFound(message: string)      // 404
    | ServerError(message: string)   // 500

  datatype Result<+T> = Ok(value: T) | Err(failure: Failure)

  function Status(f: Failure): int {
    match f
    case BadRequest(_) => 400
    case Unauthorized(_) => 401
    case Forbidden(_) => 403
    case NotFound(_) => 404
    case ServerError(_) => 500
  }

  const NoUpdates := BadRequest("No updates provided")
  const RowNotFound := NotFound("Not found")
}
