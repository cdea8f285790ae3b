/**
 * The `Heap` class of utils.py: a priority queue over (key, seqNo, value)
 * entries backed by `heapq`, with an optional bound `max_len` that is
 * enforced by popping after a push. `heapq` is a min-heap, so the overflow
 * pop removes the (key, seqNo)-least entry: a bounded heap keeps the
 * `max_len` largest entries it has seen.
 *
 * The heap is an immutable value and every operation returns the new state.
 * The order of `entries` stands for heapq's internal array, which callers
 * cannot observe; only the multiset of entries and the minimum matter.
 */
module BoundedHeap {
  import opened Results
  import opened HeapEntries

  /** `top` and `pop` on an empty heap raise IndexError (`h[0]`, `heappop([])`). */
  datatype HeapError = EmptyHeap

  /**
   * `entries` is the list `h`, `counter` the attribute `i`, `key` the key
   * function and `maxLen` the bound, None standing for the default `inf`.
   */
  datatype Heap<!T> = Heap(entries: seq<Entry<T>>, counter: nat, key: T -> int, maxLen: Option<nat>)

  /** `n > max_len`, where no length exceeds `inf`. */
  predicate Exceeds(n: nat, maxLen: Option<nat>) {
    maxLen.Some? && n > maxLen.value
  }

  /** Sequence numbers are distinct and all below the counter. */
  ghost predicate Valid<T>(h: Heap<T>) {
    && DistinctSeqNos(h.entries)
    && forall e :: e in h.entries ==> e.seqNo < h.counter
  }

  /** The bound `len <= max_len` that a push keeps once it holds. */
  ghost predicate WithinCapacity<T>(h: Heap<T>) {
    !Exceeds(|h.entries|, h.maxLen)
  }

  /**
   * `Heap(arr, key, max_len)`. A missing and an empty `arr` both give an
   * empty heap. A non-empty `arr` is loaded in one step and is not trimmed
   * to `max_len`. The entries of `arr` are numbered 0 .. |arr|-1 and the
   * counter continues from |arr| (see Findings in README.md for the
   * constructor as written, which numbers nothing and restarts at 0).
   */
  function Create<T>(arr: seq<T>, key: T -> int, maxLen: Option<nat>): (h: Heap<T>)
    ensures Valid(h)
    ensures h.key == key && h.maxLen == maxLen
    ensures |h.entries| == |arr| && h.counter == |arr|
    ensures Values(h.entries) == arr
    ensures forall e :: e in h.entries ==> e.key == key(e.value)
  {
    Heap(Numbered(arr, key, 0), |arr|, key, maxLen)
  }

  /** `len(heap)`. */
  function Len<T>(h: Heap<T>): (n: nat)
    ensures n == 0 <==> h.entries == []
  {
    |h.entries|
  }

  /** `bool(heap)`. */
  function NonEmpty<T>(h: Heap<T>): (b: bool)
    ensures b <==> Len(h) > 0
  {
    |h.entries| != 0
  }

  /** `heap.top()`: the value of the least entry, leaving the heap as it is. */
  function Top<T>(h: Heap<T>): (r: Result<T, HeapError>)
    ensures r.Failure? <==> h.entries == []
    ensures r.Success? ==>
      exists i :: 0 <= i < |h.entries| && IsMinimal(h.entries, h.entries[i]) && h.entries[i].value == r.value
    ensures r.Success? && DistinctSeqNos(h.entries) ==>
      exists i :: 0 <= i < |h.entries| && h.entries[i].value == r.value &&
        forall j :: 0 <= j < |h.entries| && j != i ==> Before(h.entries[i], h.entries[j])
  {
    if |h.entries| == 0 then Failure(EmptyHeap)
    else Success(h.entries[MinIndex(h.entries)].value)
  }

  /**
   * `heapq.heappop(h)`: removes the least entry and returns it with the
   * remaining heap. Nothing but that one entry changes.
   */
  function PopEntry<T>(h: Heap<T>): (r: Result<(Entry<T>, Heap<T>), HeapError>)
    ensures r.Failure? <==> h.entries == []
    ensures r.Success? ==>
      var (e, rest) := r.value;
      && rest.counter == h.counter && rest.key == h.key && rest.maxLen == h.maxLen
      && IsMinimal(h.entries, e)
      && (exists i :: 0 <= i < |h.entries| && h.entries[i] == e && rest.entries == RemoveAt(h.entries, i))
      && multiset(rest.entries) + multiset{e} == multiset(h.entries)
    ensures r.Success? && Valid(h) ==>
      var (e, rest) := r.value;
      && Valid(rest)
      && e !in rest.entries
      && forall f :: f in rest.entries ==> Before(e, f)
  {
    if |h.entries| == 0 then Failure(EmptyHeap)
    else
      var i := MinIndex(h.entries);
      Success((h.entries[i], h.(entries := RemoveAt(h.entries, i))))
  }

  /** `heap.pop()`: the value of the entry `heappop` removes. */
  function Pop<T>(h: Heap<T>): (r: Result<(T, Heap<T>), HeapError>)
    ensures r.Failure? <==> h.entries == []
    ensures r.Success? ==>
      var (v, rest) := r.value;
      && rest.counter == h.counter && rest.key == h.key && rest.maxLen == h.maxLen
      && |rest.entries| == |h.entries| - 1
      && exists i :: 0 <= i < |h.entries| && IsMinimal(h.entries, h.entries[i])
           && h.entries[i].value == v && rest.entries == RemoveAt(h.entries, i)
  {
    match PopEntry(h)
    case Failure(err) => Failure(err)
    case Success((e, rest)) => Success((e.value, rest))
  }

  /** An entry numbered at the counter is new, so appending it and advancing the counter keeps validity. */
  lemma AppendKeepsValid<T>(h: Heap<T>, added: Entry<T>)
    requires added.seqNo == h.counter
    ensures Valid(h) ==> Valid(h.(entries := h.entries + [added], counter := h.counter + 1))
  {
    if Valid(h) {
      var grown := h.entries + [added];
      forall i, j | 0 <= i < j < |grown| ensures grown[i].seqNo != grown[j].seqNo {
        if j == |grown| - 1 {
          assert grown[i] in h.entries;
        }
      }
    }
  }

  /**
   * `heap.push(x)`: stores (key(x), i, x), increments `i`, and pops once
   * when the length then exceeds `max_len`; the popped value is dropped.
   */
  function Push<T>(h: Heap<T>, x: T): (h': Heap<T>)
    ensures h'.counter == h.counter + 1 && h'.key == h.key && h'.maxLen == h.maxLen
    ensures |h'.entries| == if Exceeds(|h.entries| + 1, h.maxLen) then |h.entries| else |h.entries| + 1
    ensures WithinCapacity(h) ==> WithinCapacity(h')
    ensures Valid(h) ==> Valid(h')
    ensures var grown := h.entries + [Entry(h.key(x), h.counter, x)];
      if Exceeds(|grown|, h.maxLen) then
        exists i :: 0 <= i < |grown| && IsMinimal(grown, grown[i]) && h'.entries == RemoveAt(grown, i)
      else
        h'.entries == grown
  {
    var grown := h.(entries := h.entries + [Entry(h.key(x), h.counter, x)], counter := h.counter + 1);
    AppendKeepsValid(h, Entry(h.key(x), h.counter, x));
    if Exceeds(|grown.entries|, h.maxLen) then
      var popped := PopEntry(grown);
      assert popped.Success?;
      popped.value.1
    else
      grown
  }

  /** A push that stays within the bound appends the new entry. */
  lemma PushAppends<T>(h: Heap<T>, x: T)
    requires !Exceeds(|h.entries| + 1, h.maxLen)
    ensures Push(h, x) == h.(entries := h.entries + [Entry(h.key(x), h.counter, x)], counter := h.counter + 1)
  {
  }

  /** A push that overflows removes the entry `MinIndex` picks from the grown heap. */
  lemma PushEvicts<T>(h: Heap<T>, x: T)
    requires Exceeds(|h.entries| + 1, h.maxLen)
    ensures var grown := h.entries + [Entry(h.key(x), h.counter, x)];
      Push(h, x) == h.(entries := RemoveAt(grown, MinIndex(grown)), counter := h.counter + 1)
  {
  }

  /**
   * Iterating over the heap (`for v in heap`): pops while the heap is
   * non-empty. Returns the popped entries in order and the emptied heap.
   */
  function DrainEntries<T>(h: Heap<T>): (r: (seq<Entry<T>>, Heap<T>))
    ensures r.1.entries == [] && r.1.counter == h.counter && r.1.key == h.key && r.1.maxLen == h.maxLen
    ensures multiset(r.0) == multiset(h.entries)
    ensures KeysAscending(r.0)
    ensures Valid(h) ==> StrictlyAscending(r.0)
    decreases |h.entries|
  {
    if !NonEmpty(h) then ([], h)
    else
      var popped := PopEntry(h);
      var drained := DrainEntries(popped.value.1);
      DrainStep(h, drained.0);
      ([popped.value.0] + drained.0, drained.1)
  }

  /** One iteration step: the popped least entry goes in front of the drained rest. */
  lemma DrainStep<T>(h: Heap<T>, tail: seq<Entry<T>>)
    requires h.entries != []
    requires multiset(tail) == multiset(PopEntry(h).value.1.entries)
    requires KeysAscending(tail)
    requires Valid(PopEntry(h).value.1) ==> StrictlyAscending(tail)
    ensures multiset([PopEntry(h).value.0] + tail) == multiset(h.entries)
    ensures KeysAscending([PopEntry(h).value.0] + tail)
    ensures Valid(h) ==> StrictlyAscending([PopEntry(h).value.0] + tail)
  {
    var popped := PopEntry(h);
    PrependLeast(h.entries, popped.value.0, popped.value.1.entries, tail);
  }

  /** The sequence-level step: a minimal entry prepended to an ordered permutation of the rest. */
  lemma PrependLeast<T>(es: seq<Entry<T>>, e: Entry<T>, rest: seq<Entry<T>>, tail: seq<Entry<T>>)
    requires IsMinimal(es, e)
    requires multiset(rest) + multiset{e} == multiset(es)
    requires multiset(tail) == multiset(rest)
    requires KeysAscending(tail)
    ensures multiset([e] + tail) == multiset(es)
    ensures KeysAscending([e] + tail)
    ensures (forall f :: f in rest ==> Before(e, f)) && StrictlyAscending(tail) ==> StrictlyAscending([e] + tail)
  {
    var out := [e] + tail;
    forall k | 0 <= k < |tail|
      ensures tail[k] in rest && e.key <= tail[k].key
    {
      assert tail[k] in multiset(tail);
      assert tail[k] in multiset(es);
      var j :| 0 <= j < |es| && es[j] == tail[k];
      assert !Before(es[j], e);
    }
    assert multiset(out) == multiset{e} + multiset(tail);
    forall i, j | 0 <= i < j < |out| ensures out[i].key <= out[j].key {
      assert out[j] == tail[j - 1];
    }
    if (forall f :: f in rest ==> Before(e, f)) && StrictlyAscending(tail) {
      forall i, j | 0 <= i < j < |out| ensures Before(out[i], out[j]) {
        assert out[j] == tail[j - 1];
      }
    }
  }

  /** Every stored key is the key function applied to the stored value. */
  ghost predicate KeysMatchValues<T>(h: Heap<T>) {
    forall e :: e in h.entries ==> e.key == h.key(e.value)
  }

  /**
   * The values the iteration yields, and the emptied heap: exactly the
   * stored values, and in ascending key order when the stored keys are those
   * of the values.
   */
  function Drain<T>(h: Heap<T>): (r: (seq<T>, Heap<T>))
    ensures |r.0| == Len(h) && Len(r.1) == 0
    ensures multiset(r.0) == multiset(Values(h.entries))
    ensures KeysMatchValues(h) ==> forall i, j :: 0 <= i < j < |r.0| ==> h.key(r.0[i]) <= h.key(r.0[j])
  {
    var drained := DrainEntries(h);
    assert |drained.0| == |h.entries| by {
      assert |multiset(drained.0)| == |multiset(h.entries)|;
    }
    ValuesMultiset(drained.0, h.entries);
    DrainedKeysOfValues(h, drained.0);
    (Values(drained.0), drained.1)
  }

  /** Entries drawn from a heap whose keys match its values, in key order, give values in key order. */
  lemma DrainedKeysOfValues<T>(h: Heap<T>, out: seq<Entry<T>>)
    requires multiset(out) == multiset(h.entries) && KeysAscending(out)
    ensures KeysMatchValues(h) ==>
      forall i, j :: 0 <= i < j < |out| ==> h.key(Values(out)[i]) <= h.key(Values(out)[j])
  {
    if KeysMatchValues(h) {
      forall i, j | 0 <= i < j < |out| ensures h.key(Values(out)[i]) <= h.key(Values(out)[j]) {
        assert out[i] in multiset(h.entries) && out[j] in multiset(h.entries);
      }
    }
  }
}
