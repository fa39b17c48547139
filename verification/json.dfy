/** JSON values as the analyzer receives them from `json.load`, together with
    the two pieces of Python semantics the analyzer leans on: truthiness and
    the `==` operator. */
module JsonValue {

  /** A decoded JSON value. Objects are maps, so two objects that list the same
      members in a different order are the same value, as with Python dicts.
      Floats are modelled as reals (no NaN or infinities). */
  datatype Json =
    | JNull
    | JBool(b: bool)
    | JInt(i: int)
    | JFloat(f: real)
    | JStr(s: string)
    | JList(items: seq<Json>)
    | JObj(fields: map<string, Json>)

  /** Python's `bool(v)`: None, False, 0, 0.0, "", [] and {} are false. */
  predicate Truthy(v: Json) {
    match v
    case JNull => false
    case JBool(b) => b
    case JInt(i) => i != 0
    case JFloat(f) => f != 0.0
    case JStr(s) => s != ""
    case JList(xs) => |xs| > 0
    case JObj(m) => |m| > 0
  }

  /** Python's `float.is_integer()`. */
  predicate IsIntegral(f: real) {
    f.Floor as real == f
  }

  /** Python's `d.get(k)`: the member or None. */
  function Get(m: map<string, Json>, k: string): Json {
    if k in m then m[k] else JNull
  }

  function IsNumber(v: Json): bool {
    v.JBool? || v.JInt? || v.JFloat?
  }

  /** The numeric value Python compares a bool, int or float by. */
  function NumValue(v: Json): real
    requires IsNumber(v)
  {
    match v
    case JBool(b) => if b then 1.0 else 0.0
    case JInt(i) => i as real
    case JFloat(f) => f
  }

  /** A canonical representative of `v`'s class under Python's `==`: booleans
      become 0/1 and integral floats become ints, at every depth. */
  function Canon(v: Json): (r: Json)
    ensures !r.JBool?
    ensures r.JFloat? ==> !IsIntegral(r.f)
    ensures IsNumber(v) <==> IsNumber(r)
    ensures IsNumber(v) ==> NumValue(r) == NumValue(v)
    ensures v.JNull? <==> r.JNull?
    ensures v.JStr? <==> r.JStr?
    ensures v.JStr? ==> r == v
    ensures v.JList? <==> r.JList?
    ensures v.JList? ==> |r.items| == |v.items|
    ensures v.JObj? <==> r.JObj?
    ensures v.JObj? ==> r.fields.Keys == v.fields.Keys
  {
    match v
    case JBool(b) => JInt(if b then 1 else 0)
    case JFloat(f) => if IsIntegral(f) then JInt(f.Floor) else v
    case JList(xs) => JList(seq(|xs|, i requires 0 <= i < |xs| => Canon(xs[i])))
    case JObj(m) => JObj(map k | k in m :: Canon(m[k]))
    case _ => v
  }

  /** Python's `a == b` on decoded JSON values. */
  predicate PyEq(a: Json, b: Json) {
    Canon(a) == Canon(b)
  }

  /** Python's `a == b` as the interpreter dispatches it: numbers (including
      bools) compare by value, lists element-wise, dicts by key set and
      member-wise, everything else only with its own kind. */
  predicate PyEqDirect(a: Json, b: Json)
    decreases a
  {
    if IsNumber(a) || IsNumber(b) then
      IsNumber(a) && IsNumber(b) && NumValue(a) == NumValue(b)
    else
      match a
      case JNull => b.JNull?
      case JStr(s) => b.JStr? && b.s == s
      case JList(xs) =>
        b.JList? && |xs| == |b.items| &&
        forall i :: 0 <= i < |xs| ==> PyEqDirect(xs[i], b.items[i])
      case JObj(m) =>
        b.JObj? && m.Keys == b.fields.Keys &&
        forall k :: k in m ==> PyEqDirect(m[k], b.fields[k])
  }

  lemma CanonNumbers(a: Json, b: Json)
    requires IsNumber(a) && IsNumber(b)
    ensures Canon(a) == Canon(b) <==> NumValue(a) == NumValue(b)
  {
  }

  /** The canonical form is exactly Python's equality: the model's `PyEq`
      agrees with the interpreter's dispatch on every pair of values. */
  lemma {:induction false} CanonMatchesPythonEquality(a: Json, b: Json)
    ensures PyEq(a, b) <==> PyEqDirect(a, b)
    decreases a
  {
    if IsNumber(a) || IsNumber(b) {
      if IsNumber(a) && IsNumber(b) {
        CanonNumbers(a, b);
      }
    } else {
      match a
      case JNull =>
      case JStr(s) =>
      case JList(xs) =>
        if b.JList? && |xs| == |b.items| {
          forall i | 0 <= i < |xs|
            ensures PyEq(xs[i], b.items[i]) <==> PyEqDirect(xs[i], b.items[i])
          {
            CanonMatchesPythonEquality(xs[i], b.items[i]);
          }
          if PyEq(a, b) {
            forall i | 0 <= i < |xs|
              ensures PyEq(xs[i], b.items[i])
            {
              assert Canon(a).items[i] == Canon(b).items[i];
            }
          }
          if PyEqDirect(a, b) {
            assert Canon(a).items == Canon(b).items;
          }
        }
      case JObj(m) =>
        if b.JObj? && m.Keys == b.fields.Keys {
          forall k | k in m
            ensures PyEq(m[k], b.fields[k]) <==> PyEqDirect(m[k], b.fields[k])
          {
            CanonMatchesPythonEquality(m[k], b.fields[k]);
          }
          if PyEq(a, b) {
            forall k | k in m
              ensures PyEq(m[k], b.fields[k])
            {
              assert Canon(a).fields[k] == Canon(b).fields[k];
            }
          }
          if PyEqDirect(a, b) {
            assert Canon(a).fields == Canon(b).fields;
          }
        }
    }
  }

  /** Canonicalising twice changes nothing. */
  lemma {:induction false} CanonIdempotent(v: Json)
    ensures Canon(Canon(v)) == Canon(v)
    decreases v
  {
    match v
    case JList(xs) =>
      forall i | 0 <= i < |xs|
        ensures Canon(Canon(xs[i])) == Canon(xs[i])
      {
        CanonIdempotent(xs[i]);
      }
      assert Canon(Canon(v)).items == Canon(v).items;
    case JObj(m) =>
      forall k | k in m
        ensures Canon(Canon(m[k])) == Canon(m[k])
      {
        CanonIdempotent(m[k]);
      }
      assert Canon(Canon(v)).fields == Canon(v).fields;
    case _ =>
  }
}
