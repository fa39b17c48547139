/** The value normalizer: how the analyzer decides that two scalar attribute
    values are "the same" despite representation noise
    (analyze_plan.py, `normalize_value`, `normalize_for_comparison`,
    `values_equivalent`). */
module Normalize {
  import opened JsonValue
  import opened Text

  /** The values the analyzer treats as absent: None, "" and []. */
  predicate Blank(v: Json) {
    v == JNull || v == JStr("") || v == JList([])
  }

  /** `normalize_value`: blanks collapse to None, an integral float becomes
      its int. Every other value keeps its Python equality class. */
  function NormalizeValue(v: Json): (r: Json)
    ensures Blank(v) ==> r == JNull
    ensures !Blank(v) ==> PyEq(r, v) && !Blank(r)
    ensures v.JFloat? && IsIntegral(v.f) ==> r == JInt(v.f.Floor)
    ensures !Blank(v) && !(v.JFloat? && IsIntegral(v.f)) ==> r == v
  {
    if v == JStr("") || v == JNull then JNull
    else if v.JList? && |v.items| == 0 then JNull
    else if v.JFloat? && IsIntegral(v.f) then JInt(v.f.Floor)
    else v
  }

  /** `normalize_for_comparison`: normalisation followed, when the run
      ignores case, by lower-casing a string result. */
  function NormalizeForComparison(ignoreCase: bool, v: Json): (r: Json)
    ensures Blank(v) ==> r == JNull
    ensures !Blank(v) ==> !Blank(r)
    ensures !ignoreCase ==> r == NormalizeValue(v)
    ensures !v.JStr? ==> r == NormalizeValue(v)
    ensures ignoreCase && v.JStr? && v.s != "" ==> r == JStr(ToLower(v.s))
  {
    var n := NormalizeValue(v);
    if ignoreCase && n.JStr? then JStr(ToLower(n.s)) else n
  }

  /** `values_equivalent`: equality after normalisation. */
  predicate ValuesEquivalent(ignoreCase: bool, a: Json, b: Json) {
    PyEq(NormalizeForComparison(ignoreCase, a), NormalizeForComparison(ignoreCase, b))
  }

  /** Normalising a normalised value changes nothing. */
  lemma NormalizeIdempotent(ignoreCase: bool, v: Json)
    ensures NormalizeValue(NormalizeValue(v)) == NormalizeValue(v)
    ensures NormalizeForComparison(ignoreCase, NormalizeForComparison(ignoreCase, v))
         == NormalizeForComparison(ignoreCase, v)
  {
    var n := NormalizeForComparison(ignoreCase, v);
    if ignoreCase && NormalizeValue(v).JStr? {
      ToLowerIdempotent(NormalizeValue(v).s);
    }
  }

  /** Equivalence is an equivalence relation, so matching elements by it is
      well defined. */
  lemma EquivalenceIsEquivalenceRelation(ignoreCase: bool, a: Json, b: Json, c: Json)
    ensures ValuesEquivalent(ignoreCase, a, a)
    ensures ValuesEquivalent(ignoreCase, a, b) ==> ValuesEquivalent(ignoreCase, b, a)
    ensures ValuesEquivalent(ignoreCase, a, b) && ValuesEquivalent(ignoreCase, b, c)
            ==> ValuesEquivalent(ignoreCase, a, c)
  {
  }

  /** A non-blank value is never Python-equal to None. */
  lemma NotBlankNotNull(v: Json)
    requires !Blank(v)
    ensures !PyEq(v, JNull)
  {
  }

  /** With case folding off, two values are equivalent exactly when both are
      blank or both are non-blank and Python-equal. In particular the
      integral-float rule of `normalize_value` adds nothing to Python's own
      `1.0 == 1`. */
  lemma EquivalentIffBlankOrEqual(a: Json, b: Json)
    ensures ValuesEquivalent(false, a, b)
        <==> (Blank(a) && Blank(b)) || (!Blank(a) && !Blank(b) && PyEq(a, b))
  {
    var na, nb := NormalizeValue(a), NormalizeValue(b);
    if Blank(a) && !Blank(b) {
      NotBlankNotNull(nb);
    }
    if !Blank(a) && Blank(b) {
      NotBlankNotNull(na);
    }
  }

  /** With case folding on, two strings are equivalent exactly when their
      lower-cased forms are equal (the empty string included). */
  lemma CaseInsensitiveStrings(s: string, t: string)
    ensures ValuesEquivalent(true, JStr(s), JStr(t)) <==> ToLower(s) == ToLower(t)
  {
    if s == "" && t != "" {
      assert |ToLower(t)| > 0;
    }
    if s != "" && t == "" {
      assert |ToLower(s)| > 0;
    }
  }

  /** Python-equal values are always equivalent: normalisation only merges
      equality classes, it never splits one. */
  lemma PyEqImpliesEquivalent(ignoreCase: bool, a: Json, b: Json)
    requires PyEq(a, b)
    ensures ValuesEquivalent(ignoreCase, a, b)
  {
    if Blank(a) != Blank(b) {
      assert false;
    }
  }
}
