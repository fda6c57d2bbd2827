/** JavaScript values as the configuration code sees them: the values of
    JSON plus `undefined`, JavaScript's truthiness, and property access. */
module JsValues {
  import opened Wrappers

  datatype Js =
    | Undefined
    | Null
    | Bool(b: bool)
    | Num(r: real)
    | Str(s: string)
    | Arr(items: seq<Js>)
    | Obj(props: map<string, Js>)

  /** What JavaScript throws. */
  datatype JsError = TypeError | SyntaxError

  /** `!!v`: `undefined`, `null`, `false`, `0` and `''` are false (numbers
      here are never `NaN`). */
  predicate Truthy(v: Js) {
    match v
    case Undefined => false
    case Null => false
    case Bool(b) => b
    case Num(r) => r != 0.0
    case Str(s) => s != ""
    case Arr(_) => true
    case Obj(_) => true
  }

  /** `v[k]`: a missing property is `undefined`, and reading a property of
      `null` or `undefined` throws. Arrays, strings and the other primitives
      are read as having none of the named properties this code asks for. */
  function Get(v: Js, k: string): (r: Result<Js, JsError>)
    ensures r.Err? <==> v == Undefined || v == Null
    ensures v.Obj? ==> r == Ok(if k in v.props then v.props[k] else Undefined)
  {
    match v
    case Undefined => Err(TypeError)
    case Null => Err(TypeError)
    case Obj(m) => Ok(if k in m then m[k] else Undefined)
    case _ => Ok(Undefined)
  }

  /** `v[k] = x`: assigning to a property of `null` or `undefined` throws;
      on another primitive the assignment is silently lost (sloppy mode),
      and named properties of arrays are not modelled. */
  function Put(v: Js, k: string, x: Js): (r: Result<Js, JsError>)
    ensures r.Err? <==> v == Undefined || v == Null
    ensures v.Obj? ==> r == Ok(Obj(v.props[k := x]))
    ensures !v.Obj? && r.Ok? ==> r.value == v
  {
    match v
    case Undefined => Err(TypeError)
    case Null => Err(TypeError)
    case Obj(m) => Ok(Obj(m[k := x]))
    case _ => Ok(v)
  }

  /** `delete v[k]` on a value whose properties can be read. */
  function Delete(v: Js, k: string): (r: Js)
    ensures v.Obj? ==> r == Obj(v.props - {k})
    ensures !v.Obj? ==> r == v
  {
    match v
    case Obj(m) => Obj(m - {k})
    case _ => v
  }

  /** `{ ...a, ...b }` for two values: the properties of `b` win; values
      that are not objects contribute none. */
  function SpreadMerge(a: Js, b: Js): (r: map<string, Js>)
    ensures forall k :: k in r <==> (a.Obj? && k in a.props) || (b.Obj? && k in b.props)
    ensures forall k :: b.Obj? && k in b.props ==> r[k] == b.props[k]
    ensures forall k :: a.Obj? && k in a.props && !(b.Obj? && k in b.props) ==> r[k] == a.props[k]
  {
    var pa := if a.Obj? then a.props else map[];
    var pb := if b.Obj? then b.props else map[];
    pa + pb
  }

  /** `Object.keys` of an object given by its key and value pairs in
      insertion order: the keys in that order. */
  function KeysOf(pairs: seq<(string, string)>): (ks: seq<string>)
    ensures |ks| == |pairs| && forall i :: 0 <= i < |pairs| ==> ks[i] == pairs[i].0
  {
    seq(|pairs|, i requires 0 <= i < |pairs| => pairs[i].0)
  }
}
