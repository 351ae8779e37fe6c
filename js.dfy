/**
 * The slice of JavaScript value semantics the import handlers rely on:
 * truthiness, the short-circuit `||` operator, and the "first truthy
 * value" reading of a chain of `||`.
 */
module Js {

  datatype Option<+T> = None | Some(value: T)

  /** A JSON/JavaScript scalar as it can appear in a field of a payload.
      Identifiers are integers or strings; `Undefined` is a missing field. */
  datatype JsVal = Undefined | Null | Bool(b: bool) | Num(n: int) | Str(s: string)

  /** JavaScript truthiness: absent, null, false, 0 and "" are falsy. */
  predicate Truthy(v: JsVal) {
    match v
    case Undefined => false
    case Null => false
    case Bool(b) => b
    case Num(n) => n != 0
    case Str(s) => s != ""
  }

  /** `a || b`: the left operand when it is truthy, otherwise the right one. */
  function Or(a: JsVal, b: JsVal): (r: JsVal)
    ensures Truthy(r) <==> Truthy(a) || Truthy(b)
    ensures r == a || r == b
  {
    if Truthy(a) then a else b
  }

  /** The value of `vs[0] || vs[1] || ... || vs[n-1]`, read as a
      data-driven precedence list: the first truthy element, or the last
      element when none is truthy (`undefined` for an empty list). */
  function FirstTruthy(vs: seq<JsVal>): (r: JsVal)
    decreases |vs|
    ensures (exists i :: 0 <= i < |vs| && Truthy(vs[i])) ==>
              exists i :: 0 <= i < |vs| && vs[i] == r && Truthy(r) &&
                (forall j :: 0 <= j < i ==> !Truthy(vs[j]))
    ensures (forall i :: 0 <= i < |vs| ==> !Truthy(vs[i])) ==>
              r == (if vs == [] then Undefined else vs[|vs| - 1])
  {
    if vs == [] then Undefined
    else if |vs| == 1 || Truthy(vs[0]) then vs[0]
    else FirstTruthy(vs[1..])
  }

  /** Appending one more operand to a chain of `||` is one more `Or`:
      a left-nested `||` chain is the first-truthy reading of its operands. */
  lemma {:induction false} FirstTruthySnoc(vs: seq<JsVal>, v: JsVal)
    ensures FirstTruthy(vs + [v]) == Or(FirstTruthy(vs), v)
    decreases |vs|
  {
    if vs == [] {
      assert vs + [v] == [v];
    } else if |vs| == 1 {
      assert (vs + [v])[1..] == [v];
    } else if !Truthy(vs[0]) {
      assert (vs + [v])[1..] == vs[1..] + [v];
      FirstTruthySnoc(vs[1..], v);
    }
  }
}
