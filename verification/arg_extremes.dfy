/**
 * `argmax` and `argmin` from utils.py: map every element through the key
 * function, take the largest (smallest) key with `max` (`min`), and return
 * the first index holding it (`list.index`) together with that key.
 */
module ArgExtremes {
  import opened Results

  /** `max([])` and `min([])` raise ValueError. */
  datatype ArgError = EmptySequence

  /** `[key(a) for a in arr]`. */
  function Keys<T>(arr: seq<T>, key: T -> int): (ks: seq<int>)
    ensures |ks| == |arr|
    ensures forall i :: 0 <= i < |arr| ==> ks[i] == key(arr[i])
  {
    seq(|arr|, i requires 0 <= i < |arr| => key(arr[i]))
  }

  /** `max(ks)` on a non-empty list. */
  function MaxOf(ks: seq<int>): (m: int)
    requires |ks| > 0
    ensures m in ks
    ensures forall i :: 0 <= i < |ks| ==> ks[i] <= m
  {
    if |ks| == 1 then ks[0]
    else
      var rest := MaxOf(ks[1..]);
      assert forall i :: 1 <= i < |ks| ==> ks[i] == ks[1..][i - 1];
      if ks[0] >= rest then ks[0] else rest
  }

  /** `min(ks)` on a non-empty list. */
  function MinOf(ks: seq<int>): (m: int)
    requires |ks| > 0
    ensures m in ks
    ensures forall i :: 0 <= i < |ks| ==> m <= ks[i]
  {
    if |ks| == 1 then ks[0]
    else
      var rest := MinOf(ks[1..]);
      assert forall i :: 1 <= i < |ks| ==> ks[i] == ks[1..][i - 1];
      if ks[0] <= rest then ks[0] else rest
  }

  /** `ks.index(v)`: the first position that holds `v`. */
  function IndexOf(ks: seq<int>, v: int): (i: nat)
    requires v in ks
    ensures i < |ks| && ks[i] == v
    ensures forall j :: 0 <= j < i ==> ks[j] != v
  {
    if ks[0] == v then 0 else 1 + IndexOf(ks[1..], v)
  }

  /** `idx` is the first index whose key is `v`, and no key exceeds `v`. */
  ghost predicate IsFirstMax<T>(arr: seq<T>, key: T -> int, idx: nat, v: int) {
    && idx < |arr|
    && key(arr[idx]) == v
    && (forall j :: 0 <= j < |arr| ==> key(arr[j]) <= v)
    && (forall j :: 0 <= j < idx ==> key(arr[j]) != v)
  }

  /** `idx` is the first index whose key is `v`, and no key is below `v`. */
  ghost predicate IsFirstMin<T>(arr: seq<T>, key: T -> int, idx: nat, v: int) {
    && idx < |arr|
    && key(arr[idx]) == v
    && (forall j :: 0 <= j < |arr| ==> v <= key(arr[j]))
    && (forall j :: 0 <= j < idx ==> key(arr[j]) != v)
  }

  /** `argmax(arr, key)`. */
  function ArgMax<T>(arr: seq<T>, key: T -> int): (r: Result<(nat, int), ArgError>)
    ensures r.Failure? <==> |arr| == 0
    ensures r.Success? ==> IsFirstMax(arr, key, r.value.0, r.value.1)
  {
    if |arr| == 0 then Failure(EmptySequence)
    else
      var ks := Keys(arr, key);
      var m := MaxOf(ks);
      Success((IndexOf(ks, m), m))
  }

  /** `argmin(arr, key)`. */
  function ArgMin<T>(arr: seq<T>, key: T -> int): (r: Result<(nat, int), ArgError>)
    ensures r.Failure? <==> |arr| == 0
    ensures r.Success? ==> IsFirstMin(arr, key, r.value.0, r.value.1)
  {
    if |arr| == 0 then Failure(EmptySequence)
    else
      var ks := Keys(arr, key);
      var m := MinOf(ks);
      Success((IndexOf(ks, m), m))
  }

  /** At most one (index, key) pair is the first maximum. */
  lemma FirstMaxUnique<T>(arr: seq<T>, key: T -> int, i1: nat, v1: int, i2: nat, v2: int)
    requires IsFirstMax(arr, key, i1, v1) && IsFirstMax(arr, key, i2, v2)
    ensures i1 == i2 && v1 == v2
  {
    assert key(arr[i1]) <= v2 && key(arr[i2]) <= v1;
  }

  /** `argmax` returns exactly the first index attaining the largest key. */
  lemma ArgMaxCharacterized<T>(arr: seq<T>, key: T -> int, idx: nat, v: int)
    ensures ArgMax(arr, key) == Success((idx, v)) <==> IsFirstMax(arr, key, idx, v)
  {
    if IsFirstMax(arr, key, idx, v) {
      var r := ArgMax(arr, key);
      FirstMaxUnique(arr, key, idx, v, r.value.0, r.value.1);
    }
  }

  /** `argmin` is `argmax` under the negated key, with the key negated back. */
  lemma ArgMinIsNegatedArgMax<T>(arr: seq<T>, key: T -> int)
    ensures var neg := (a: T) => -key(a);
      match ArgMin(arr, key)
      case Failure(_) => ArgMax(arr, neg).Failure?
      case Success((idx, v)) => ArgMax(arr, neg) == Success((idx, -v))
  {
    var neg := (a: T) => -key(a);
    if |arr| > 0 {
      var (idx, v) := ArgMin(arr, key).value;
      assert IsFirstMax(arr, neg, idx, -v);
      ArgMaxCharacterized(arr, neg, idx, -v);
    }
  }
}
