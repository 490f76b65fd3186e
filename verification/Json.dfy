/** Values as the handlers and the error reporter see them: what JSON decodes to, plus tuples. */
module Json {
  datatype Value =
    | Null
    | Bool(b: bool)
    | Num(n: real)
    | Str(s: string)
    | List(items: seq<Value>)
    | Dict(entries: map<string, Value>)
    | Tuple(parts: seq<Value>)
}
