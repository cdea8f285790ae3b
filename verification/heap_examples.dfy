/**
 * Two concrete runs of pushes into a bounded heap: bound 3 with pushes
 * 5, 1, 4, 2, 8, and bound 2 with three equal-key pushes x, y, z. They show
 * the direction of eviction: the overflow pop removes the least entry, so
 * the heap keeps the largest keys, and among equal keys the earliest push
 * goes first.
 *
 * Each push is taken as its own step over a heap described by its fields,
 * and the facts about concrete entry lists are proved one at a time.
 */
module HeapExamples {
  import opened Results
  import opened HeapEntries
  import opened BoundedHeap
  import opened HeapProperties

  lemma PushAllSnoc<T>(h: Heap<T>, xs: seq<T>, x: T)
    ensures PushAll(h, xs + [x]) == Push(PushAll(h, xs), x)
  {
    assert (xs + [x])[..|xs|] == xs;
  }

  lemma PushAllThree<T>(h: Heap<T>, a: T, b: T, c: T)
    ensures PushAll(h, [a, b, c]) == Push(Push(Push(h, a), b), c)
  {
    assert PushAll(h, []) == h;
    assert [] + [a] == [a] && [a] + [b] == [a, b] && [a, b] + [c] == [a, b, c];
    PushAllSnoc(h, [], a);
    PushAllSnoc(h, [a], b);
    PushAllSnoc(h, [a, b], c);
  }

  lemma PushAllFive<T>(h: Heap<T>, a: T, b: T, c: T, d: T, e: T)
    ensures PushAll(h, [a, b, c, d, e]) == Push(Push(PushAll(h, [a, b, c]), d), e)
  {
    assert [a, b, c] + [d] == [a, b, c, d] && [a, b, c, d] + [e] == [a, b, c, d, e];
    PushAllSnoc(h, [a, b, c], d);
    PushAllSnoc(h, [a, b, c, d], e);
  }

  /** With distinct sequence numbers, the entry before all others is the one heapq pops. */
  lemma LeastIsUnique<T>(es: seq<Entry<T>>, i: nat)
    requires i < |es| && DistinctSeqNos(es)
    requires forall j :: 0 <= j < |es| && j != i ==> Before(es[i], es[j])
    ensures MinIndex(es) == i
  {
  }

  /** A push within the bound, with the appended entry named. */
  lemma AppendStep<T>(h: Heap<T>, x: T, grown: seq<Entry<T>>)
    requires !Exceeds(|h.entries| + 1, h.maxLen)
    requires grown == h.entries + [Entry(h.key(x), h.counter, x)]
    ensures Push(h, x) == h.(entries := grown, counter := h.counter + 1)
  {
    PushAppends(h, x);
  }

  /** Sequence numbers rise along `es`, as they do in a list of entries kept in push order. */
  predicate SeqNosRise<T>(es: seq<Entry<T>>) {
    forall j :: 0 < j < |es| ==> es[j - 1].seqNo < es[j].seqNo
  }

  lemma {:induction false} RisingSeqNosAreDistinct<T>(es: seq<Entry<T>>)
    requires SeqNosRise(es)
    ensures forall i, j :: 0 <= i < j < |es| ==> es[i].seqNo < es[j].seqNo
    ensures DistinctSeqNos(es)
    decreases |es|
  {
    if |es| > 1 {
      var init := es[..|es| - 1];
      assert SeqNosRise(init);
      RisingSeqNosAreDistinct(init);
      forall i, j | 0 <= i < j < |es| ensures es[i].seqNo < es[j].seqNo {
        if j < |es| - 1 {
          assert es[i] == init[i] && es[j] == init[j];
        } else if i < j - 1 {
          assert es[i] == init[i] && es[j - 1] == init[j - 1];
        }
      }
    }
  }

  /**
   * An overflowing push into a heap kept in push order: the entry before all
   * others in the grown list is evicted and the rest keep their order.
   */
  lemma EvictStep<T>(h: Heap<T>, x: T, grown: seq<Entry<T>>, i: nat, kept: seq<Entry<T>>)
    requires Exceeds(|h.entries| + 1, h.maxLen)
    requires grown == h.entries + [Entry(h.key(x), h.counter, x)]
    requires i < |grown| && SeqNosRise(grown)
    requires forall j :: 0 <= j < |grown| && j != i ==> Before(grown[i], grown[j])
    requires kept == grown[..i] + grown[i + 1..]
    ensures Push(h, x) == h.(entries := kept, counter := h.counter + 1)
  {
    RisingSeqNosAreDistinct(grown);
    PushEvicts(h, x);
    LeastIsUnique(grown, i);
  }

  // Pushes 5, 1, 4, 2, 8 under the identity key and a bound of 3.

  lemma FirstThree(h0: Heap<int>)
    requires h0.entries == [] && h0.counter == 0 && h0.maxLen == Some(3)
    requires forall k :: h0.key(k) == k
    ensures Push(Push(Push(h0, 5), 1), 4)
      == h0.(entries := [Entry(5, 0, 5), Entry(1, 1, 1), Entry(4, 2, 4)], counter := 3)
  {
    AppendStep(h0, 5, [Entry(5, 0, 5)]);
    var h1 := h0.(entries := [Entry(5, 0, 5)], counter := 1);
    AppendStep(h1, 1, [Entry(5, 0, 5), Entry(1, 1, 1)]);
    var h2 := h0.(entries := [Entry(5, 0, 5), Entry(1, 1, 1)], counter := 2);
    AppendStep(h2, 4, [Entry(5, 0, 5), Entry(1, 1, 1), Entry(4, 2, 4)]);
  }

  lemma FourthEvictsOne(h3: Heap<int>)
    requires h3.entries == [Entry(5, 0, 5), Entry(1, 1, 1), Entry(4, 2, 4)]
    requires h3.counter == 3 && h3.maxLen == Some(3) && forall k :: h3.key(k) == k
    ensures Push(h3, 2) == h3.(entries := [Entry(5, 0, 5), Entry(4, 2, 4), Entry(2, 3, 2)], counter := 4)
  {
    var g := [Entry(5, 0, 5), Entry(1, 1, 1), Entry(4, 2, 4), Entry(2, 3, 2)];
    assert g == h3.entries + [Entry(h3.key(2), h3.counter, 2)];
    assert g[..1] + g[2..] == [Entry(5, 0, 5), Entry(4, 2, 4), Entry(2, 3, 2)];
    EvictStep(h3, 2, g, 1, [Entry(5, 0, 5), Entry(4, 2, 4), Entry(2, 3, 2)]);
  }

  lemma FifthEvictsTwo(h4: Heap<int>)
    requires h4.entries == [Entry(5, 0, 5), Entry(4, 2, 4), Entry(2, 3, 2)]
    requires h4.counter == 4 && h4.maxLen == Some(3) && forall k :: h4.key(k) == k
    ensures Push(h4, 8) == h4.(entries := [Entry(5, 0, 5), Entry(4, 2, 4), Entry(8, 4, 8)], counter := 5)
  {
    var g := [Entry(5, 0, 5), Entry(4, 2, 4), Entry(2, 3, 2), Entry(8, 4, 8)];
    assert g == h4.entries + [Entry(h4.key(8), h4.counter, 8)];
    assert g[..2] + g[3..] == [Entry(5, 0, 5), Entry(4, 2, 4), Entry(8, 4, 8)];
    EvictStep(h4, 8, g, 2, [Entry(5, 0, 5), Entry(4, 2, 4), Entry(8, 4, 8)]);
  }

  lemma KeptValues()
    ensures multiset(Values([Entry(5, 0, 5), Entry(4, 2, 4), Entry(8, 4, 8)])) == multiset{4, 5, 8}
  {
    assert Values([Entry(5, 0, 5), Entry(4, 2, 4), Entry(8, 4, 8)]) == [5, 4, 8];
  }

  lemma KeepsLargestSteps(h0: Heap<int>)
    requires h0.entries == [] && h0.counter == 0 && h0.maxLen == Some(3)
    requires forall k :: h0.key(k) == k
    ensures Push(Push(Push(Push(Push(h0, 5), 1), 4), 2), 8)
      == h0.(entries := [Entry(5, 0, 5), Entry(4, 2, 4), Entry(8, 4, 8)], counter := 5)
  {
    FirstThree(h0);
    var h3 := h0.(entries := [Entry(5, 0, 5), Entry(1, 1, 1), Entry(4, 2, 4)], counter := 3);
    FourthEvictsOne(h3);
    var h4 := h0.(entries := [Entry(5, 0, 5), Entry(4, 2, 4), Entry(2, 3, 2)], counter := 4);
    FifthEvictsTwo(h4);
  }

  /** Bound 3, identity key, pushes 5, 1, 4, 2, 8: the heap keeps 5, 4 and 8, not 1, 2 and 4. */
  lemma KeepsLargestExample(key: int -> int)
    requires forall k :: key(k) == k
    ensures var h := PushAll(Create([], key, Some(3)), [5, 1, 4, 2, 8]);
      h.entries == [Entry(5, 0, 5), Entry(4, 2, 4), Entry(8, 4, 8)]
      && multiset(Values(h.entries)) == multiset{4, 5, 8}
  {
    var h0 := Create([], key, Some(3));
    PushAllFive(h0, 5, 1, 4, 2, 8);
    PushAllThree(h0, 5, 1, 4);
    KeepsLargestSteps(h0);
    KeptValues();
  }

  /** The same scenario with the key written as `lambda k: k`. */
  lemma KeepsLargestUnderIdentity()
    ensures PushAll(Create([], (k: int) => k, Some(3)), [5, 1, 4, 2, 8]).entries
      == [Entry(5, 0, 5), Entry(4, 2, 4), Entry(8, 4, 8)]
  {
    KeepsLargestExample((k: int) => k);
  }

  // Pushes 'x', 'y', 'z' under a key that is 0 for every value and a bound of 2.

  lemma ThirdEvictsEarliest(h2: Heap<char>)
    requires h2.entries == [Entry(0, 0, 'x'), Entry(0, 1, 'y')]
    requires h2.counter == 2 && h2.maxLen == Some(2) && forall c :: h2.key(c) == 0
    ensures Push(h2, 'z') == h2.(entries := [Entry(0, 1, 'y'), Entry(0, 2, 'z')], counter := 3)
  {
    var g := [Entry(0, 0, 'x'), Entry(0, 1, 'y'), Entry(0, 2, 'z')];
    assert g == h2.entries + [Entry(h2.key('z'), h2.counter, 'z')];
    assert g[..0] + g[1..] == [Entry(0, 1, 'y'), Entry(0, 2, 'z')];
    EvictStep(h2, 'z', g, 0, [Entry(0, 1, 'y'), Entry(0, 2, 'z')]);
  }

  lemma EqualKeysKeptValues()
    ensures Values([Entry(0, 1, 'y'), Entry(0, 2, 'z')]) == ['y', 'z']
  {
  }

  lemma FirstTwoEqual(h0: Heap<char>)
    requires h0.entries == [] && h0.counter == 0 && h0.maxLen == Some(2)
    requires forall c :: h0.key(c) == 0
    ensures Push(Push(h0, 'x'), 'y') == h0.(entries := [Entry(0, 0, 'x'), Entry(0, 1, 'y')], counter := 2)
  {
    AppendStep(h0, 'x', [Entry(0, 0, 'x')]);
    var h1 := h0.(entries := [Entry(0, 0, 'x')], counter := 1);
    AppendStep(h1, 'y', [Entry(0, 0, 'x'), Entry(0, 1, 'y')]);
  }

  lemma EqualKeySteps(h0: Heap<char>)
    requires h0.entries == [] && h0.counter == 0 && h0.maxLen == Some(2)
    requires forall c :: h0.key(c) == 0
    ensures Push(Push(Push(h0, 'x'), 'y'), 'z')
      == h0.(entries := [Entry(0, 1, 'y'), Entry(0, 2, 'z')], counter := 3)
  {
    FirstTwoEqual(h0);
    ThirdEvictsEarliest(h0.(entries := [Entry(0, 0, 'x'), Entry(0, 1, 'y')], counter := 2));
  }

  /** Bound 2, a key that is 0 for every value, pushes x, y, z: x, the earliest, is evicted. */
  lemma EqualKeysEvictEarliestExample(key: char -> int)
    requires forall c :: key(c) == 0
    ensures var h := PushAll(Create([], key, Some(2)), ['x', 'y', 'z']);
      h.entries == [Entry(0, 1, 'y'), Entry(0, 2, 'z')] && Values(h.entries) == ['y', 'z']
  {
    var h0 := Create([], key, Some(2));
    PushAllThree(h0, 'x', 'y', 'z');
    EqualKeySteps(h0);
    EqualKeysKeptValues();
  }

  /** The same scenario with the key written as `lambda c: 0`. */
  lemma EqualKeysUnderConstantKey()
    ensures Values(PushAll(Create([], (c: char) => 0, Some(2)), ['x', 'y', 'z']).entries) == ['y', 'z']
  {
    EqualKeysEvictEarliestExample((c: char) => 0);
  }
}
