/** Python values as the job-market code receives them: JSON documents from the
    two job sources, DataFrame cells and user-supplied dictionaries. Helpers in
    the code test these with `isinstance`, and the model keeps the cases apart
    so that the non-string and non-list paths can be stated. */
module Values {

  datatype Option<T> = None | Some(value: T)

  /** The Python exceptions the modelled code can raise. */
  datatype Error =
    | KeyError(key: string)   // a missing dictionary key or DataFrame column
    | AttributeError          // a method called on a value that lacks it (`None.lower()`)
    | TypeError               // an unhashable value used as a dictionary key
    | ValueError(msg: string) // an argument outside the accepted set

  datatype Result<T> = Ok(value: T) | Err(error: Error)

  /** A dynamically typed value. A missing cell (None or NaN) is `VNone`. */
  datatype Value =
    | VNone
    | VBool(b: bool)
    | VNum(n: real)
    | VStr(s: string)
    | VList(items: seq<Value>)
    | VDict(fields: map<string, Value>)

  /** `d.get(key)`: the field, or None when the key is absent. */
  function Get(fields: map<string, Value>, key: string): (r: Value)
    ensures key !in fields ==> r == VNone
    ensures key in fields ==> r == fields[key]
  {
    if key in fields then fields[key] else VNone
  }

  /** `d.get(key, default)`: the field, or `default` when the key is absent. */
  function GetOr(fields: map<string, Value>, key: string, default: Value): (r: Value)
    ensures key !in fields ==> r == default
    ensures key in fields ==> r == fields[key]
  {
    if key in fields then fields[key] else default
  }

  /** Values Python can use as dictionary keys (lists and dicts cannot). */
  predicate Hashable(v: Value)
  {
    !v.VList? && !v.VDict?
  }

  /** A list of Python strings. */
  function Strs(xs: seq<string>): (r: seq<Value>)
    ensures |r| == |xs|
    ensures forall i :: 0 <= i < |xs| ==> r[i] == VStr(xs[i])
  {
    seq(|xs|, i requires 0 <= i < |xs| => VStr(xs[i]))
  }
}
