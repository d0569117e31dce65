/**
 * The array helpers of util.ts. A JavaScript array is a mutable, resizable object
 * shared by reference; it is modelled as a `JsArray` whose one field holds the
 * current elements, and `splice` reassigns that field. The random index each helper
 * draws with `Math.floor(array.length * Math.random())` is the parameter `k`.
 */
module Util {
  import opened Wrappers

  /** A JavaScript array: a reference to a sequence that its owner may splice. */
  class JsArray<T> {
    var elems: seq<T>

    constructor (init: seq<T>)
      ensures elems == init
    {
      elems := init;
    }
  }

  /**
   * `Array.prototype.indexOf`: the index of the first element equal to `v`, or -1.
   * (The equality is JavaScript's `===`; for class types it is reference equality,
   * as in Dafny.)
   */
  function IndexOf<T(==)>(s: seq<T>, v: T): (r: int)
    ensures -1 <= r < |s|
    ensures r == -1 <==> v !in s
    ensures r >= 0 ==> s[r] == v && v !in s[..r]
  {
    if |s| == 0 then -1
    else if s[0] == v then 0
    else
      var k := IndexOf(s[1..], v);
      if k == -1 then -1 else k + 1
  }

  /** The index read `s[k]`: JavaScript yields `undefined` past the end. */
  function At<T>(s: seq<T>, k: nat): (r: Option<T>)
    ensures r.Some? <==> k < |s|
    ensures r.Some? ==> r.value == s[k] && r.value in s
  {
    if k < |s| then Some(s[k]) else None
  }

  /**
   * `splice(k, 1)` with a non-negative start: removes the element at `k`, and is a
   * no-op when `k` is at or past the end.
   */
  function SpliceOne<T>(s: seq<T>, k: nat): (r: seq<T>)
    ensures k < |s| ==> |r| == |s| - 1
    ensures k < |s| ==> multiset(r) + multiset{s[k]} == multiset(s)
    ensures k < |s| ==> forall m :: 0 <= m < k ==> r[m] == s[m]
    ensures k < |s| ==> forall m :: k <= m < |r| ==> r[m] == s[m + 1]
    ensures k >= |s| ==> r == s
  {
    if k < |s| then
      assert s == s[..k] + [s[k]] + s[k + 1..];
      s[..k] + s[k + 1..]
    else
      s
  }

  /**
   * util.ts `removeReference`: removes the first occurrence of `value`, if any, and
   * reports whether there was one.
   */
  method RemoveReference<T(==)>(a: JsArray<T>, value: T) returns (removed: bool)
    modifies a
    ensures removed <==> value in old(a.elems)
    ensures removed ==> |a.elems| == |old(a.elems)| - 1
    ensures removed ==> multiset(a.elems) == multiset(old(a.elems)) - multiset{value}
    ensures removed ==> exists k :: 0 <= k < |old(a.elems)| && old(a.elems)[k] == value
                                    && value !in old(a.elems)[..k]
                                    && a.elems == old(a.elems)[..k] + old(a.elems)[k + 1..]
    ensures !removed ==> a.elems == old(a.elems)
  {
    var index := IndexOf(a.elems, value);
    if index >= 0 {
      a.elems := SpliceOne(a.elems, index);
      return true;
    }
    return false;
  }

  /**
   * util.ts `removeRandom` with its random index `k` drawn from [0, max(length, 1)):
   * removes and returns the element at `k`; on an empty array it returns `undefined`
   * and leaves the array as it was.
   */
  method RemoveRandom<T>(a: JsArray<T>, k: nat) returns (item: Option<T>)
    requires k == 0 || k < |a.elems|
    modifies a
    ensures item.Some? <==> |old(a.elems)| > 0
    ensures item.Some? ==> item.value == old(a.elems)[k]
                           && a.elems == old(a.elems)[..k] + old(a.elems)[k + 1..]
                           && |a.elems| == |old(a.elems)| - 1
                           && multiset(a.elems) + multiset{item.value} == multiset(old(a.elems))
    ensures item.None? ==> a.elems == old(a.elems) == []
  {
    item := At(a.elems, k);
    a.elems := SpliceOne(a.elems, k);
  }

  /**
   * util.ts `pickRandom` with its random index `k` drawn from [0, max(length, 1)):
   * an element of the array (nothing is changed), or `undefined` when it is empty.
   */
  function PickRandom<T>(a: JsArray<T>, k: nat): (r: Option<T>)
    reads a
    requires k == 0 || k < |a.elems|
    ensures r.Some? <==> |a.elems| > 0
    ensures r.Some? ==> r.value == a.elems[k] && r.value in a.elems
  {
    At(a.elems, k)
  }
}
