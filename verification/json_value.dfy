/**
  JSON values as `json.loads` returns them, with the Python operations the
  device layer applies to them: `key in value`, `value[key]`, truth testing
  and comparison with an integer. Numbers are integers; floating-point
  values are not modelled.
 */
module JsonValue {
  import opened Outcomes
  import Text

  datatype Json =
    | Null
    | Bool(b: bool)
    | Number(n: int)
    | Str(s: string)
    | Array(items: seq<Json>)
    | Object(fields: map<string, Json>)

  /** Python's `key in value` for a string key: key membership for a dict,
      element membership for a list, substring for a string, and a
      `TypeError` for a number, a boolean or `None`. */
  function In(key: string, value: Json): (r: Result<bool>)
    ensures value.Object? ==> r == Ok(key in value.fields)
    ensures value.Array? ==> r == Ok(Str(key) in value.items)
    ensures value.Str? ==> r == Ok(Text.Contains(value.s, key))
    ensures r.Fail? <==> value.Null? || value.Bool? || value.Number?
  {
    match value
    case Object(fields) => Ok(key in fields)
    case Array(items) => Ok(Str(key) in items)
    case Str(s) => Ok(Text.Contains(s, key))
    case _ => Fail(TypeError)
  }

  /** Python's `value[key]` for a string key: only a dict can be indexed by a
      string, and a missing key raises `KeyError`. */
  function Index(value: Json, key: string): (r: Result<Json>)
    ensures r.Ok? <==> value.Object? && key in value.fields
    ensures r.Ok? ==> r.value == value.fields[key]
    ensures value.Object? && key !in value.fields ==> r == Fail(KeyError)
    ensures !value.Object? ==> r == Fail(TypeError)
  {
    if value.Object? then
      if key in value.fields then Ok(value.fields[key]) else Fail(KeyError)
    else Fail(TypeError)
  }

  /** Python's `bool(value)`. */
  predicate Truthy(value: Json) {
    match value
    case Null => false
    case Bool(b) => b
    case Number(n) => n != 0
    case Str(s) => |s| > 0
    case Array(items) => |items| > 0
    case Object(fields) => |fields| > 0
  }

  /** Python's `value == n` for an integer `n`: `True == 1` and `False == 0`
      hold, no other non-number equals a number. */
  predicate EqualsInt(value: Json, n: int) {
    match value
    case Number(m) => m == n
    case Bool(b) => (if b then 1 else 0) == n
    case _ => false
  }

  /** The value `isinstance(value, int)` accepts, as an integer (`bool` is a
      subclass of `int` in Python). */
  function AsInt(value: Json): (r: Result<int>)
    ensures r.Ok? <==> value.Number? || value.Bool?
    ensures r.Ok? ==> EqualsInt(value, r.value)
    ensures r.Fail? ==> r.error == TypeError
  {
    match value
    case Number(n) => Ok(n)
    case Bool(b) => Ok(if b then 1 else 0)
    case _ => Fail(TypeError)
  }

  /** Python's `str(value)` of a scalar: a string is itself, a number its
      decimal text (read back by `Text.DigitsValue`), and `True`, `False`
      and `None` their names. Python renders a list or a dict through
      `repr`, which this model does not reproduce: those give `TypeError`. */
  function ToText(value: Json): (r: Result<string>)
    ensures r.Fail? <==> value.Array? || value.Object?
    ensures r.Fail? ==> r.error == TypeError
    ensures value.Str? ==> r == Ok(value.s)
    ensures value.Null? ==> r == Ok("None")
    ensures value.Bool? ==> r == Ok(if value.b then "True" else "False")
    ensures value.Number? && value.n >= 0 ==>
      && |r.value| >= 1
      && (forall i :: 0 <= i < |r.value| ==> Text.IsDigit(r.value[i]))
      && Text.DigitsValue(r.value) == value.n
      && (r.value[0] == '0' ==> r.value == "0")
    ensures value.Number? && value.n < 0 ==>
      && |r.value| >= 2 && r.value[0] == '-'
      && (forall i :: 1 <= i < |r.value| ==> Text.IsDigit(r.value[i]))
      && Text.DigitsValue(r.value[1..]) == -value.n
      && r.value[1] != '0'
  {
    match value
    case Null => Ok("None")
    case Bool(b) => Ok(if b then "True" else "False")
    case Number(n) =>
      if n >= 0 then
        Text.DigitsValueOfNatToString(n);
        Ok(Text.NatToString(n))
      else
        Text.DigitsValueOfNatToString(-n);
        var digits := Text.NatToString(-n);
        assert ("-" + digits)[1..] == digits;
        Ok("-" + digits)
    case Str(s) => Ok(s)
    case _ => Fail(TypeError)
  }
}
