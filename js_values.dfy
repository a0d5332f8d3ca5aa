/**
 * The JavaScript values that travel through the replica and the todo list:
 * records are plain objects whose fields hold primitive values, and the
 * object stores are keyed by the record's `id` field.
 */
module JsValues {

  /** A primitive JavaScript value. Numbers are modelled as integers. */
  datatype Value = Undefined | Null | Bool(b: bool) | Num(n: int) | Str(s: string)

  /** A plain object: field name to value. A field that is absent reads as `undefined`. */
  type Record = map<string, Value>

  /** `r[field]` in JavaScript: `undefined` when the field is absent. */
  function Get(r: Record, field: string): Value
  {
    if field in r then r[field] else Undefined
  }

  /** `r.id`; the object stores are created with `keyPath: "id"`, so it is also the record's key. */
  function Id(r: Record): Value
  {
    Get(r, "id")
  }

  /** JavaScript truthiness of a primitive value. */
  predicate Truthy(v: Value)
  {
    match v
    case Undefined => false
    case Null => false
    case Bool(b) => b
    case Num(n) => n != 0
    case Str(s) => s != ""
  }

  /** Of the values modelled here, only numbers and strings are valid IndexedDB keys. */
  predicate ValidKey(v: Value)
  {
    v.Num? || v.Str?
  }

  /**
   * Lexicographic order on strings, character by character (Unicode scalar
   * values); a proper prefix comes first.
   */
  predicate StrBelow(a: string, b: string)
    decreases |a|
  {
    if a == [] then b != []
    else b != [] && (a[0] < b[0] || (a[0] == b[0] && StrBelow(a[1..], b[1..])))
  }

  /** IndexedDB key order: every number sorts before every string. */
  predicate KeyBelow(a: Value, b: Value)
  {
    match (a, b)
    case (Num(x), Num(y)) => x < y
    case (Num(_), Str(_)) => true
    case (Str(x), Str(y)) => StrBelow(x, y)
    case _ => false
  }

  lemma {:induction false} StrBelowIrreflexive(a: string)
    ensures !StrBelow(a, a)
    decreases |a|
  {
    if a != [] {
      StrBelowIrreflexive(a[1..]);
    }
  }

  lemma {:induction false} StrBelowTransitive(a: string, b: string, c: string)
    requires StrBelow(a, b) && StrBelow(b, c)
    ensures StrBelow(a, c)
    decreases |a|
  {
    if a != [] && a[0] == b[0] && b[0] == c[0] {
      StrBelowTransitive(a[1..], b[1..], c[1..]);
    }
  }

  lemma {:induction false} StrBelowTotal(a: string, b: string)
    requires a != b
    ensures StrBelow(a, b) || StrBelow(b, a)
    decreases |a|
  {
    if a != [] && b != [] && a[0] == b[0] {
      assert a == [a[0]] + a[1..] && b == [b[0]] + b[1..];
      StrBelowTotal(a[1..], b[1..]);
    }
  }

  /** KeyBelow is a strict total order on valid keys. */
  lemma KeyBelowStrictOrder(a: Value, b: Value, c: Value)
    requires ValidKey(a) && ValidKey(b) && ValidKey(c)
    ensures !KeyBelow(a, a)
    ensures KeyBelow(a, b) && KeyBelow(b, c) ==> KeyBelow(a, c)
    ensures a != b ==> KeyBelow(a, b) || KeyBelow(b, a)
  {
    if a.Str? {
      StrBelowIrreflexive(a.s);
    }
    if a.Str? && b.Str? && c.Str? && KeyBelow(a, b) && KeyBelow(b, c) {
      StrBelowTransitive(a.s, b.s, c.s);
    }
    if a.Str? && b.Str? && a != b {
      StrBelowTotal(a.s, b.s);
    }
  }

  /** Every non-empty finite set of valid keys has a least element. */
  lemma {:induction false} LeastKeyExists(keys: set<Value>)
    requires keys != {}
    requires forall k :: k in keys ==> ValidKey(k)
    ensures exists m :: m in keys && forall k :: k in keys && k != m ==> KeyBelow(m, k)
    decreases |keys|
  {
    var x :| x in keys;
    if keys != {x} {
      var rest := keys - {x};
      LeastKeyExists(rest);
      var m :| m in rest && forall k :: k in rest && k != m ==> KeyBelow(m, k);
      KeyBelowStrictOrder(x, m, x);
      if KeyBelow(x, m) {
        forall k | k in keys && k != x
          ensures KeyBelow(x, k)
        {
          if k != m {
            KeyBelowStrictOrder(x, m, k);
          }
        }
      } else {
        assert KeyBelow(m, x);
      }
    }
  }
}
