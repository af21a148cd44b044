/** The decoded JSON/YAML-like values the parser receives, and the few pieces of
    Python behaviour the parsing layer relies on: truthiness, `type(x).__name__`,
    iteration, the `str` of a list of strings, and a list object mutated in place. */
module PythonValues {
  import opened Exceptions

  /** A value produced by a JSON/YAML-like decoder. Dictionary keys are strings,
      kept in insertion order. */
  datatype Value =
    | NoneValue
    | Bool(b: bool)
    | Int(i: int)
    | Float(f: real)
    | Str(s: string)
    | List(items: seq<Value>)
    | Dict(entries: seq<(string, Value)>)

  /** Python's `not v`: None, False, 0, 0.0, "", [] and {} are falsy. */
  predicate Falsy(v: Value) {
    match v
    case NoneValue => true
    case Bool(b) => !b
    case Int(i) => i == 0
    case Float(f) => f == 0.0
    case Str(s) => s == ""
    case List(items) => items == []
    case Dict(entries) => entries == []
  }

  /** Python's `type(v).__name__`. */
  function TypeName(v: Value): string {
    match v
    case NoneValue => "NoneType"
    case Bool(_) => "bool"
    case Int(_) => "int"
    case Float(_) => "float"
    case Str(_) => "str"
    case List(_) => "list"
    case Dict(_) => "dict"
  }

  /** `list(s)` for a string: its one-character strings. */
  function Characters(s: string): seq<string> {
    seq(|s|, i requires 0 <= i < |s| => [s[i]])
  }

  /** What a `for` loop over `v` visits: the characters of a string, the items of a
      list, the keys of a dictionary; any other value raises
      `TypeError("'<type>' object is not iterable")`. */
  function Iterate(v: Value): (r: Raised<seq<Value>>)
    ensures r.Returned? <==> v.Str? || v.List? || v.Dict?
    ensures v.List? ==> r == Returned(v.items)
    ensures r.Returned? ==> (r.value == [] <==> Falsy(v))
    ensures r.Raise? ==> r.error.TypeOrValueError?
  {
    match v
    case Str(s) => Returned(seq(|s|, i requires 0 <= i < |s| => Str([s[i]])))
    case List(items) => Returned(items)
    case Dict(entries) => Returned(seq(|entries|, i requires 0 <= i < |entries| => Str(entries[i].0)))
    case _ => Raise(TypeOrValueError(Characters("'" + TypeName(v) + "' object is not iterable")))
  }

  /** Python's `repr` of one string, without escaping. */
  function Quoted(s: string): string {
    "'" + s + "'"
  }

  function JoinQuoted(ms: seq<string>): string {
    if ms == [] then ""
    else if |ms| == 1 then Quoted(ms[0])
    else Quoted(ms[0]) + ", " + JoinQuoted(ms[1..])
  }

  /** `str(messages)` for a list of strings, as an f-string renders it: `['a', 'b']`. */
  function ListRepr(ms: seq<string>): string {
    "[" + JoinQuoted(ms) + "]"
  }

  /** A Python list object: appending changes it in place, for every holder of the reference. */
  class MutableList<T> {
    var items: seq<T>

    constructor ()
      ensures items == []
    {
      items := [];
    }

    method Append(x: T)
      modifies this
      ensures items == old(items) + [x]
    {
      items := items + [x];
    }
  }
}
