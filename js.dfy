/** The JavaScript values the tool reads and patches (a `package.json`
    object, a loaded Tailwind config), with the property reads and writes of
    a sloppy-mode script: reading or writing a property of `null` or
    `undefined` throws a TypeError, reading a property a value does not own
    gives `undefined`, and writing a property of any other primitive is
    silently ignored. Objects are values here: a write returns the updated
    object, and the caller stores it back where it came from. */
module Js {
  import opened Results

  /** A JSON-like value. An array keeps its elements and, apart from them,
      the named properties a script has put on it. Numbers are integers. */
  datatype Value =
    | Undef
    | Null
    | Bool(b: bool)
    | Num(n: int)
    | Str(s: string)
    | Arr(elems: seq<Value>, props: map<string, Value>)
    | Obj(props: map<string, Value>)

  /** ToBoolean: `undefined`, `null`, `false`, `0` and `""` are falsy. */
  predicate Truthy(v: Value) {
    match v
    case Undef => false
    case Null => false
    case Bool(b) => b
    case Num(n) => n != 0
    case Str(s) => s != ""
    case _ => true
  }

  /** An object or an array: a value a property write changes. */
  predicate IsContainer(v: Value) {
    v.Obj? || v.Arr?
  }

  function Nullish(v: Value): string
    requires v.Undef? || v.Null?
  {
    if v.Undef? then "undefined" else "null"
  }

  /** The TypeError message of reading `key` from `null` or `undefined`. */
  function ReadError(v: Value, key: string): string
    requires v.Undef? || v.Null?
  {
    "Cannot read properties of " + Nullish(v) + " (reading '" + key + "')"
  }

  /** The TypeError message of writing `key` on `null` or `undefined`. */
  function WriteError(v: Value, key: string): string
    requires v.Undef? || v.Null?
  {
    "Cannot set properties of " + Nullish(v) + " (setting '" + key + "')"
  }

  /** The own property `key` of a container, `undefined` when absent. */
  function Own(v: Value, key: string): Value
    requires IsContainer(v)
  {
    if key in v.props then v.props[key] else Undef
  }

  /** `v[key]`. The keys the tool reads name no built-in property, so a
      primitive yields `undefined`. */
  function Get(v: Value, key: string): (r: Result<Value>)
    ensures r.Err? <==> v.Undef? || v.Null?
    ensures r.Err? ==> r.msg == ReadError(v, key)
    ensures r.Ok? && IsContainer(v) ==> r.value == Own(v, key)
    ensures r.Ok? && !IsContainer(v) ==> r.value == Undef
  {
    match v
    case Undef => Err(ReadError(v, key))
    case Null => Err(ReadError(v, key))
    case Obj(m) => Ok(if key in m then m[key] else Undef)
    case Arr(_, m) => Ok(if key in m then m[key] else Undef)
    case _ => Ok(Undef)
  }

  /** `v?.[key]`: optional chaining gives `undefined` instead of throwing. */
  function OptGet(v: Value, key: string): (r: Value)
    ensures (v.Undef? || v.Null?) ==> r == Undef
    ensures !(v.Undef? || v.Null?) ==> Get(v, key) == Ok(r)
  {
    if v.Undef? || v.Null? then Undef else Get(v, key).value
  }

  /** `v[key] = x`: the updated value of `v`. */
  function Put(v: Value, key: string, x: Value): (r: Result<Value>)
    ensures r.Err? <==> v.Undef? || v.Null?
    ensures r.Err? ==> r.msg == WriteError(v, key)
    ensures r.Ok? && IsContainer(v) ==>
      IsContainer(r.value) && Own(r.value, key) == x && r.value.props == v.props[key := x]
    ensures r.Ok? && v.Arr? ==> r.value.Arr? && r.value.elems == v.elems
    ensures r.Ok? && v.Obj? ==> r.value.Obj?
    ensures r.Ok? && !IsContainer(v) ==> r.value == v
  {
    match v
    case Undef => Err(WriteError(v, key))
    case Null => Err(WriteError(v, key))
    case Obj(m) => Ok(Obj(m[key := x]))
    case Arr(es, m) => Ok(Arr(es, m[key := x]))
    case _ => Ok(v)
  }

  /** Reading back what was just written gives it. */
  lemma GetAfterPut(v: Value, key: string, x: Value)
    requires IsContainer(v)
    ensures Get(Put(v, key, x).value, key) == Ok(x)
  {
  }

  /** Writing back what is already there changes nothing. */
  lemma PutOwn(v: Value, key: string)
    requires IsContainer(v) && key in v.props
    ensures Put(v, key, Own(v, key)) == Ok(v)
  {
    assert v.props[key := v.props[key]] == v.props;
  }

  /** A second write to the same key replaces the first. */
  lemma PutTwice(v: Value, key: string, x: Value, y: Value)
    requires !(v.Undef? || v.Null?)
    ensures Put(Put(v, key, x).value, key, y) == Put(v, key, y)
  {
    if IsContainer(v) {
      assert v.props[key := x][key := y] == v.props[key := y];
    }
  }
}
