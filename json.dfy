/** The value `json.loads` returns for a request, and the Python operations
    the bot applies to it. Every operation returns a `Result`: `Raise` names
    the exception Python would raise at that point. */
module Json {
  import opened Text

  /** A decoded JSON document. An object keeps its members in source order;
      `json.loads` keeps the last value of a repeated key. Numbers are
      exact rationals; Python's floats and their rounding are not modelled. */
  datatype Value =
    | Null
    | Bool(b: bool)
    | Number(x: real)
    | Str(s: string)
    | Array(items: seq<Value>)
    | Object(members: seq<(string, Value)>)

  datatype Error = AttributeError | KeyError | IndexError | TypeError | ValueError

  datatype Result<+T> = Ok(value: T) | Raise(error: Error) {
    predicate IsFailure() { Raise? }

    function PropagateFailure<U>(): Result<U>
      requires Raise?
    {
      Raise(error)
    }

    function Extract(): T
      requires Ok?
    {
      value
    }
  }

  /** Python truthiness: `None`, `False`, zero, and empty strings, lists and
      dicts are false. */
  predicate Truthy(v: Value) {
    match v
    case Null => false
    case Bool(b) => b
    case Number(x) => x != 0.0
    case Str(s) => s != []
    case Array(items) => items != []
    case Object(members) => members != []
  }

  /** The value bound to `key`: the last binding, as `json.loads` keeps it. */
  function Lookup(members: seq<(string, Value)>, key: string): Option<Value>
    decreases |members|
  {
    if members == [] then None
    else if members[|members| - 1].0 == key then Some(members[|members| - 1].1)
    else Lookup(members[..|members| - 1], key)
  }

  /** The distinct keys of an object in order of first appearance, which is
      the order in which Python iterates a dict. */
  function Keys(members: seq<(string, Value)>): (ks: seq<string>)
    ensures |ks| <= |members|
    ensures ks == [] <==> members == []
    decreases |members|
  {
    if members == [] then []
    else
      var ks := Keys(members[..|members| - 1]);
      var k := members[|members| - 1].0;
      if k in ks then ks else ks + [k]
  }

  /** `v.get(key, default)`: only a dict has a `get` method. */
  function Get(v: Value, key: string, default: Value): Result<Value>
  {
    match v
    case Object(members) =>
      (match Lookup(members, key)
       case Some(x) => Ok(x)
       case None => Ok(default))
    case _ => Raise(AttributeError)
  }

  /** `v[key]` with a string key. */
  function Subscript(v: Value, key: string): Result<Value>
  {
    match v
    case Object(members) =>
      (match Lookup(members, key)
       case Some(x) => Ok(x)
       case None => Raise(KeyError))
    case _ => Raise(TypeError)
  }

  /** `v[0]`: a list or string gives its first element, a dict looks up the
      integer key 0, which no decoded dict holds. */
  function Index0(v: Value): Result<Value>
  {
    match v
    case Array(items) => if items == [] then Raise(IndexError) else Ok(items[0])
    case Str(s) => if s == [] then Raise(IndexError) else Ok(Str([s[0]]))
    case Object(_) => Raise(KeyError)
    case _ => Raise(TypeError)
  }

  /** What `for x in v` visits: list elements, one-character strings, or
      dict keys. */
  function Iterate(v: Value): (r: Result<seq<Value>>)
    ensures v.Array? ==> r == Ok(v.items)
    ensures r.Ok? && r.value != [] && !v.Array? ==> forall k :: 0 <= k < |r.value| ==> r.value[k].Str?
  {
    match v
    case Array(items) => Ok(items)
    case Str(s) => Ok(seq(|s|, k requires 0 <= k < |s| => Str([s[k]])))
    case Object(members) =>
      var ks := Keys(members);
      Ok(seq(|ks|, k requires 0 <= k < |ks| => Str(ks[k])))
    case _ => Raise(TypeError)
  }

  /** `v.split(sep)`: only a string has a `split` method. */
  function StrSplit(v: Value, sep: string): (r: Result<seq<string>>)
    requires sep != []
    ensures r.Ok? ==> |r.value| >= 1
  {
    match v
    case Str(s) => Ok(Split(s, sep))
    case _ => Raise(AttributeError)
  }
}
