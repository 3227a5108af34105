/// A decoded JSON value, as `json.load` hands it to the app, and the two
/// Python behaviours the app leans on when it reads one: truthiness (the
/// `x or default` idiom) and `str(x)`.
module Json {
  import Text

  datatype Json =
    | Null
    | Bool(b: bool)
    | Num(n: int)
    | Str(s: string)
    | Arr(items: seq<Json>)
    | Obj(fields: map<string, Json>)

  /** Python truthiness: `None`, `False`, `0`, `""`, `[]` and `{}` are false, all else true. */
  predicate Truthy(j: Json)
  {
    match j
    case Null => false
    case Bool(b) => b
    case Num(n) => n != 0
    case Str(s) => s != []
    case Arr(a) => a != []
    case Obj(m) => m != map[]
  }

  /** `d.get(k)`: the value under `k`, or `None` when `k` is absent. */
  function Get(d: map<string, Json>, k: string): (v: Json)
    ensures k !in d ==> v == Null
  {
    if k in d then d[k] else Null
  }

  /**
   * `str(j)`. A string is itself, a number its decimal text, booleans and
   * `None` their Python names; a list or an object prints as a fixed
   * placeholder instead of Python's repr.
   */
  function PyStr(j: Json): (r: string)
    ensures j.Str? ==> r == j.s
    ensures j.Num? && j.n >= 0 ==> Text.AllDigits(r) && Text.DigitsValue(r) == j.n
  {
    match j
    case Null => "None"
    case Bool(b) => if b then "True" else "False"
    case Num(n) =>
      if n < 0 then "-" + Text.Decimal(-n)
      else Text.DecimalRoundTrip(n); Text.Decimal(n)
    case Str(s) => s
    case Arr(_) => "[...]"
    case Obj(_) => "{...}"
  }
}
