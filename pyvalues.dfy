/** The dynamically typed values the catalogue code passes around: spreadsheet
    cells and the scalar fields of the structured intents, with Python's
    truthiness, str() and int() on them. */
module PyValues {
  import opened Outcomes
  import opened Text

  /** A scalar: None, an int, a str or a bool. */
  datatype Value = Null | Int(i: int) | Str(s: string) | Bool(b: bool)

  /** A payload position that may or may not hold a dict: a dict of scalars,
      or a scalar. */
  datatype Json = Atom(v: Value) | Obj(fields: map<string, Value>)

  /** Python's bool(v). */
  predicate Truthy(v: Value) {
    match v
    case Null => false
    case Int(i) => i != 0
    case Str(s) => s != ""
    case Bool(b) => b
  }

  /** Python's `v or default`. */
  function Or(v: Value, default: Value): (r: Value)
    ensures Truthy(v) ==> r == v
    ensures !Truthy(v) ==> r == default
  {
    if Truthy(v) then v else default
  }

  /** Python's str(v). */
  function PyStr(v: Value): string {
    match v
    case Null => "None"
    case Int(i) => IntToString(i)
    case Str(s) => s
    case Bool(b) => if b then "True" else "False"
  }

  /** Python's int(v): None raises TypeError, text that is not an integer
      raises ValueError. */
  function PyInt(v: Value): (r: Result<int>)
    ensures v.Int? ==> r == Ok(v.i)
    ensures v.Null? ==> r == Err(TypeError)
  {
    match v
    case Null => Err(TypeError)
    case Int(i) => Ok(i)
    case Bool(b) => Ok(if b then 1 else 0)
    case Str(s) => match ParseInt(s) { case Some(n) => Ok(n) case None => Err(ValueError) }
  }

  /** Python's d.get(k): None for a missing key. */
  function Get(d: map<string, Value>, k: string): (r: Value)
    ensures k !in d ==> r == Null
  {
    if k in d then d[k] else Null
  }

  /** int(str(n)) == n also when the int travels as a cell value. */
  lemma PyIntOfPyStr(n: int)
    ensures PyInt(Str(PyStr(Int(n)))) == Ok(n)
  {
    IntRoundTrip(n);
  }
}
