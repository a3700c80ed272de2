/** Values as the two Flask backends see them: dictionary fields that may be
    missing or bound to None, JSON scalars, and Python's truthiness test
    (`if x:`, `not x`, `x or y`). */
module Common {

  datatype Option<+T> = None | Some(value: T)

  datatype Result<+T, +E> = Ok(value: T) | Err(error: E)

  /** A key of a Python dict as read by `d.get(key)`: the key is missing,
      it is bound to None, or it is bound to a value. */
  datatype Field<+T> = Absent | Null | Present(value: T)

  /** `d.get(key, default)`: a missing key gives the default, a key bound to
      None gives None. */
  function GetOr<T>(f: Field<T>, default: T): Option<T>
  {
    match f
    case Absent => Some(default)
    case Null => None
    case Present(v) => Some(v)
  }

  /** Truthiness of a numeric field read with `d.get(key, 0)`: missing, None
      and 0 are all false. */
  predicate TruthyNat(f: Field<nat>)
  {
    f.Present? && f.value != 0
  }

  /** A JSON scalar, or a value found in a yt-dlp progress dictionary. */
  datatype Value = NoneValue | Bool(b: bool) | Num(x: real) | Str(s: string)

  /** Python truthiness of a scalar. */
  predicate Truthy(v: Value)
  {
    match v
    case NoneValue => false
    case Bool(b) => b
    case Num(x) => x != 0.0
    case Str(s) => s != ""
  }

  /** The number a value stands for in arithmetic (a bool is an int in
      Python); None and strings raise TypeError. */
  function AsNumber(v: Value): Option<real>
  {
    match v
    case Bool(b) => Some(if b then 1.0 else 0.0)
    case Num(x) => Some(x)
    case _ => None
  }

  /** `d.get(key)` on a dictionary of values. */
  function Lookup(d: map<string, Value>, key: string): Value
  {
    if key in d then d[key] else NoneValue
  }

  /** `d.get(key, default)` on a dictionary of values. */
  function LookupOr(d: map<string, Value>, key: string, default: Value): Value
  {
    if key in d then d[key] else default
  }
}
