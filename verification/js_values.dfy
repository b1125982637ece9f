/** JavaScript values as the rest of the model needs them: what `JSON.parse`
    can return, plus `undefined`. Numbers are exact reals; NaN, infinities
    and negative zero do not occur in JSON and are not modelled. */
module JsValues {

  datatype JsValue =
    | Undefined
    | Null
    | Bool(b: bool)
    | Number(n: real)
    | Str(s: string)
    | Array(items: seq<JsValue>)
    | Object(fields: map<string, JsValue>)

  /** JavaScript truthiness (`!!v`). */
  predicate Truthy(v: JsValue) {
    match v
    case Undefined => false
    case Null => false
    case Bool(b) => b
    case Number(n) => n != 0.0
    case Str(s) => s != []
    case Array(_) => true
    case Object(_) => true
  }

  /** `v == null`: the two values that `??` and `?.` skip. */
  predicate Nullish(v: JsValue) {
    v.Undefined? || v.Null?
  }

  /** `a ?? b`. */
  function Coalesce(a: JsValue, b: JsValue): JsValue {
    if Nullish(a) then b else a
  }

  /** `v?.[key]` for the field names the model reads: an own field of an
      object, and `undefined` for anything else (`null`, `undefined`,
      primitives and arrays have none of these fields). */
  function Get(v: JsValue, key: string): JsValue {
    if v.Object? && key in v.fields then v.fields[key] else Undefined
  }

  /** `v?.[k0]?.[k1]?...`: a path of field reads. */
  function GetPath(v: JsValue, path: seq<string>): JsValue
    decreases |path|
  {
    if path == [] then v else GetPath(Get(v, path[0]), path[1..])
  }

  /** `chain[0] ?? chain[1] ?? ... ?? chain[n - 1]`; the empty chain is
      `undefined`. */
  function CoalesceAll(chain: seq<JsValue>): JsValue
    decreases |chain|
  {
    if chain == [] then Undefined
    else if |chain| == 1 then chain[0]
    else Coalesce(chain[0], CoalesceAll(chain[1..]))
  }

  /** The first non-nullish element of `chain`, by index. */
  ghost predicate IsFirstPresent(chain: seq<JsValue>, k: nat) {
    k < |chain| && !Nullish(chain[k]) && forall i :: 0 <= i < k ==> Nullish(chain[i])
  }

  /** A `??` chain is its first non-nullish operand, and it is nullish
      exactly when every operand is. */
  lemma {:induction false} CoalesceAllFirstPresent(chain: seq<JsValue>)
    ensures forall k: nat :: IsFirstPresent(chain, k) ==> CoalesceAll(chain) == chain[k]
    ensures (forall i :: 0 <= i < |chain| ==> Nullish(chain[i])) ==> Nullish(CoalesceAll(chain))
    ensures Nullish(CoalesceAll(chain)) ==> forall i :: 0 <= i < |chain| ==> Nullish(chain[i])
    decreases |chain|
  {
    if chain != [] {
      CoalesceAllFirstPresent(chain[1..]);
      forall k: nat | IsFirstPresent(chain, k)
        ensures CoalesceAll(chain) == chain[k]
      {
        if k > 0 {
          assert IsFirstPresent(chain[1..], k - 1);
        }
      }
      if Nullish(CoalesceAll(chain)) {
        assert Nullish(chain[0]);
        forall i | 1 <= i < |chain|
          ensures Nullish(chain[i])
        {
          assert chain[i] == chain[1..][i - 1];
        }
      }
    }
  }
}
