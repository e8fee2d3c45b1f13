/** The scalar JSON values the programs read and store, with the Python
    operations they apply to them: truthiness, `==` and `dict.get`. */
module Json {
  import opened Wrappers

  /** A scalar JSON value as Python holds it after decoding. */
  datatype Value = Str(s: string) | Int(i: int) | Bool(b: bool) | Real(r: real) | Null

  /** Python truthiness of a value. */
  predicate Truthy(v: Value)
  {
    match v
    case Str(s) => s != ""
    case Int(i) => i != 0
    case Bool(b) => b
    case Real(r) => r != 0.0
    case Null => false
  }

  /** A Python dictionary with string keys. `a + b` is `{**a, **b}`. */
  type Dict = map<string, Value>

  /** `d.get(k)`: the value under `k`, None when absent. */
  function Get(d: Dict, k: string): (v: Value)
    ensures k !in d ==> v == Null
  {
    if k in d then d[k] else Null
  }

  /** The number a numeric value stands for: `True == 1 == 1.0` in Python. */
  function Number(v: Value): Option<real>
  {
    match v
    case Int(i) => Some(i as real)
    case Bool(b) => Some(if b then 1.0 else 0.0)
    case Real(r) => Some(r)
    case _ => None
  }

  /** Python `==` on scalar values (and set membership, whose hashing
      agrees with it): numbers compare by value across int, bool and float. */
  predicate PyEq(a: Value, b: Value)
  {
    match (a, b)
    case (Str(s), Str(t)) => s == t
    case (Null, Null) => true
    case _ => Number(a).Some? && Number(a) == Number(b)
  }

  /** Python `==` is reflexive, symmetric and respects truthiness on these values. */
  lemma PyEqFacts(a: Value, b: Value)
    ensures PyEq(a, a)
    ensures PyEq(a, b) <==> PyEq(b, a)
    ensures PyEq(a, b) ==> (Truthy(a) <==> Truthy(b))
  {
  }
}
