/** Small failure-carrying wrappers shared by the other modules. */
module Basics {

  /** A value that may be absent: a missing dictionary key or a Python `None`. */
  datatype Option<+T> = None | Some(value: T) {
    function GetOr(default: T): T {
      match this
      case Some(v) => v
      case None => default
    }
  }

  /** The outcome of an operation that can fail with an error value. */
  datatype Result<+T, +E> = Ok(value: T) | Err(error: E)

  /** A scalar of a parsed JSON document, as Python holds it after `json.loads`. */
  datatype Value = Null | Bool(b: bool) | Num(n: int) | Str(s: string) {
    /** Python truthiness: `None`, `False`, `0` and `""` are false. */
    predicate Truthy() {
      match this
      case Null => false
      case Bool(b) => b
      case Num(n) => n != 0
      case Str(s) => s != ""
    }
  }

  /** The concatenation of a sequence of sequences, in order. */
  function Flatten<T>(xss: seq<seq<T>>): seq<T> {
    if xss == [] then [] else Flatten(xss[..|xss| - 1]) + xss[|xss| - 1]
  }

  lemma FlattenAppend<T>(xss: seq<seq<T>>, xs: seq<T>)
    ensures Flatten(xss + [xs]) == Flatten(xss) + xs
  {
    assert (xss + [xs])[..|xss|] == xss;
  }

  lemma {:induction false} FlattenPrepend<T>(xs: seq<T>, xss: seq<seq<T>>)
    ensures Flatten([xs] + xss) == xs + Flatten(xss)
  {
    if xss == [] {
      assert [xs] + xss == [xs];
      assert [xs][..0] == [];
    } else {
      var init := xss[..|xss| - 1];
      FlattenPrepend(xs, init);
      assert ([xs] + xss)[..|xss|] == [xs] + init;
    }
  }

  /** An element is in the concatenation exactly when it is in one of the parts. */
  lemma {:induction false} FlattenHas<T>(xss: seq<seq<T>>, x: T)
    ensures x in Flatten(xss) <==> exists i | 0 <= i < |xss| :: x in xss[i]
  {
    if xss != [] {
      var init := xss[..|xss| - 1];
      FlattenHas(init, x);
      assert forall i | 0 <= i < |init| :: init[i] == xss[i];
    }
  }

  /** The elements that satisfy `p`, in order. */
  function Filter<T>(xs: seq<T>, p: T -> bool): seq<T> {
    if xs == [] then [] else Filter(xs[..|xs| - 1], p) + (if p(xs[|xs| - 1]) then [xs[|xs| - 1]] else [])
  }

  /** An element is kept exactly when it is present and satisfies `p`. */
  lemma {:induction false} FilterHas<T>(xs: seq<T>, p: T -> bool, x: T)
    ensures x in Filter(xs, p) <==> x in xs && p(x)
  {
    if xs != [] {
      var init := xs[..|xs| - 1];
      FilterHas(init, p, x);
      assert xs == init + [xs[|xs| - 1]];
    }
  }

  /** When every element satisfies `p`, nothing is dropped. */
  lemma {:induction false} FilterAll<T>(xs: seq<T>, p: T -> bool)
    requires forall k | 0 <= k < |xs| :: p(xs[k])
    ensures Filter(xs, p) == xs
  {
    if xs != [] {
      var init := xs[..|xs| - 1];
      FilterAll(init, p);
      assert init + [xs[|xs| - 1]] == xs;
    }
  }

  /** The map from each key to its value under `f`; a key met again keeps its value. */
  function MapOver<V>(keys: seq<string>, f: string -> V): map<string, V> {
    if keys == [] then map[]
    else MapOver(keys[..|keys| - 1], f)[keys[|keys| - 1] := f(keys[|keys| - 1])]
  }

  /** One more key of a prefix. */
  lemma MapOverStep<V>(keys: seq<string>, k: nat, f: string -> V)
    requires k < |keys|
    ensures MapOver(keys[..k + 1], f) == MapOver(keys[..k], f)[keys[k] := f(keys[k])]
  {
    assert keys[..k + 1][..k] == keys[..k];
  }

  /** The map holds exactly the keys, each with its value under `f`. */
  lemma {:induction false} MapOverIs<V>(keys: seq<string>, f: string -> V)
    ensures forall d :: d in MapOver(keys, f) <==> d in keys
    ensures forall d | d in MapOver(keys, f) :: MapOver(keys, f)[d] == f(d)
  {
    if keys != [] {
      var init := keys[..|keys| - 1];
      MapOverIs(init, f);
      assert keys == init + [keys[|keys| - 1]];
    }
  }
}
