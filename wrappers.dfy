/** Option and Result, the model's stand-ins for JavaScript's null and for thrown errors. */
module Wrappers {

  datatype Option<+T> = None | Some(value: T)

  /** `Err(message)` stands for a thrown `Error` whose `message` is `message`. */
  datatype Result<+T> = Ok(value: T) | Err(message: string)
}

/** The JavaScript values that the core passes around where its type is not fixed. */
module Js {

  /** Objects and arrays are not modelled; a missing property reads as `Undefined`. */
  datatype Value = Undefined | Null | Bool(b: bool) | Num(n: real) | Str(s: string)

  /** JavaScript truthiness (NaN is not representable here, so every `Num` but 0 is truthy). */
  predicate Truthy(v: Value)
  {
    match v
    case Undefined => false
    case Null => false
    case Bool(b) => b
    case Num(n) => n != 0.0
    case Str(s) => s != []
  }
}

/** The "first candidate that yields something" search that the scraper's selector cascades share. */
module Search {
  import opened Wrappers

  /** The value of the first key (in order) for which `f` yields a value, or None when none does. */
  function FirstSome<K, T>(f: K -> Option<T>, keys: seq<K>): (r: Option<T>)
    ensures r.None? <==> forall k :: 0 <= k < |keys| ==> f(keys[k]).None?
    ensures r.Some? ==> exists k :: 0 <= k < |keys| && r == f(keys[k]) && forall j :: 0 <= j < k ==> f(keys[j]).None?
  {
    if keys == [] then None
    else if f(keys[0]).Some? then f(keys[0])
    else
      var r := FirstSome(f, keys[1..]);
      assert forall k :: 1 <= k < |keys| ==> keys[k] == keys[1..][k - 1];
      r
  }

  /** The first key that yields a value decides the search. */
  lemma {:induction false} FirstSomeAt<K, T>(f: K -> Option<T>, keys: seq<K>, k: nat)
    requires k < |keys| && f(keys[k]).Some?
    requires forall j :: 0 <= j < k ==> f(keys[j]).None?
    ensures FirstSome(f, keys) == f(keys[k])
  {
    if k > 0 {
      assert f(keys[0]).None?;
      assert keys[1..][k - 1] == keys[k];
      assert forall j :: 0 <= j < k - 1 ==> keys[1..][j] == keys[j + 1];
      FirstSomeAt(f, keys[1..], k - 1);
    }
  }
}
