/** The dictionary values the metadata record holds, with the truthiness an
    `if value:` test gives them. */
module Values {

  datatype Value =
    | Null
    | Bool(b: bool)
    | Int(i: int)
    | Str(s: string)
    | List(items: seq<Value>)

  /** Python's truth test: `None`, `False`, `0`, `""` and `[]` are false,
      everything else is true. */
  predicate Truthy(v: Value)
  {
    match v
    case Null => false
    case Bool(b) => b
    case Int(i) => i != 0
    case Str(s) => |s| > 0
    case List(items) => |items| > 0
  }

  /** A metadata record: a dictionary keyed by field name. */
  type Dict = map<string, Value>
}
