/**
 * The entries stored by `Heap` in utils.py: a key computed once by the
 * key function, the value of the push counter at insertion time, and the
 * value itself. Entries are ordered lexicographically by (key, seqNo); the
 * value never takes part in the comparison.
 */
module HeapEntries {

  datatype Entry<T> = Entry(key: int, seqNo: nat, value: T)

  /** Strict lexicographic order on (key, seqNo). */
  predicate Before<T>(a: Entry<T>, b: Entry<T>) {
    a.key < b.key || (a.key == b.key && a.seqNo < b.seqNo)
  }

  /** No two entries share a sequence number. */
  ghost predicate DistinctSeqNos<T>(es: seq<Entry<T>>) {
    forall i, j :: 0 <= i < j < |es| ==> es[i].seqNo != es[j].seqNo
  }

  /** Entries `e` that no entry of `es` comes strictly before. */
  ghost predicate IsMinimal<T>(es: seq<Entry<T>>, e: Entry<T>) {
    forall j :: 0 <= j < |es| ==> !Before(es[j], e)
  }

  /** Keys never decrease along `es`. */
  predicate KeysAscending<T>(es: seq<Entry<T>>) {
    forall i, j :: 0 <= i < j < |es| ==> es[i].key <= es[j].key
  }

  /** Every entry of `es` comes strictly before every later one. */
  predicate StrictlyAscending<T>(es: seq<Entry<T>>) {
    forall i, j :: 0 <= i < j < |es| ==> Before(es[i], es[j])
  }

  /** The entries that `n` successive pushes of `xs` create, numbered from `start`. */
  function Numbered<T>(xs: seq<T>, key: T -> int, start: nat): (es: seq<Entry<T>>)
    ensures |es| == |xs|
    ensures forall i :: 0 <= i < |xs| ==> es[i].seqNo == start + i && es[i].value == xs[i]
    ensures forall i :: 0 <= i < |xs| ==> es[i].key == key(xs[i])
  {
    seq(|xs|, i requires 0 <= i < |xs| => Entry(key(xs[i]), start + i, xs[i]))
  }

  /** The stored values, in the order of the entries. */
  function Values<T>(es: seq<Entry<T>>): (vs: seq<T>)
    ensures |vs| == |es|
    ensures forall i :: 0 <= i < |es| ==> vs[i] == es[i].value
  {
    seq(|es|, i requires 0 <= i < |es| => es[i].value)
  }

  /** `Values` maps concatenation to concatenation. */
  lemma ValuesAppend<T>(a: seq<Entry<T>>, b: seq<Entry<T>>)
    ensures Values(a + b) == Values(a) + Values(b)
  {
  }

  /** Removing the entry at `k` removes one occurrence of its value. */
  lemma ValuesRemoveOne<T>(b: seq<Entry<T>>, k: nat)
    requires k < |b|
    ensures multiset(Values(b)) == multiset(Values(b[..k] + b[k + 1..])) + multiset{b[k].value}
  {
    assert b == b[..k] + [b[k]] + b[k + 1..];
    ValuesAppend(b[..k] + [b[k]], b[k + 1..]);
    ValuesAppend(b[..k], [b[k]]);
    ValuesAppend(b[..k], b[k + 1..]);
  }

  /** Entry lists that are permutations of each other hold the same values, counted with multiplicity. */
  lemma {:induction false} ValuesMultiset<T>(a: seq<Entry<T>>, b: seq<Entry<T>>)
    requires multiset(a) == multiset(b)
    ensures multiset(Values(a)) == multiset(Values(b))
    decreases |a|
  {
    if |a| > 0 {
      assert a[0] in multiset(b);
      var k :| 0 <= k < |b| && b[k] == a[0];
      var rest := b[..k] + b[k + 1..];
      assert a == [a[0]] + a[1..];
      assert multiset(a[1..]) == multiset(a) - multiset{a[0]};
      assert multiset(rest) == multiset(b) - multiset{b[k]} by {
        assert b == b[..k] + [b[k]] + b[k + 1..];
        assert multiset(b) == multiset(rest) + multiset{b[k]};
      }
      ValuesMultiset(a[1..], rest);
      ValuesRemoveOne(a, 0);
      assert a[..0] + a[1..] == a[1..];
      ValuesRemoveOne(b, k);
    }
  }

  /** The index of a (key, seqNo)-least entry; the first one when several tie. */
  function MinIndex<T>(es: seq<Entry<T>>): (i: nat)
    requires |es| > 0
    ensures i < |es|
    ensures IsMinimal(es, es[i])
    ensures forall j :: 0 <= j < |es| ==> es[i].key <= es[j].key
    ensures DistinctSeqNos(es) ==> forall j :: 0 <= j < |es| && j != i ==> Before(es[i], es[j])
  {
    if |es| == 1 then 0
    else
      var i := MinIndex(es[..|es| - 1]);
      if Before(es[|es| - 1], es[i]) then |es| - 1 else i
  }

  /** `es` without the entry at index `i`; the others keep their order. */
  function RemoveAt<T>(es: seq<Entry<T>>, i: nat): (r: seq<Entry<T>>)
    requires i < |es|
    ensures |r| == |es| - 1
    ensures forall j :: 0 <= j < i ==> r[j] == es[j]
    ensures forall j :: i <= j < |r| ==> r[j] == es[j + 1]
    ensures multiset(r) + multiset{es[i]} == multiset(es)
    ensures DistinctSeqNos(es) ==> DistinctSeqNos(r)
  {
    assert es == es[..i] + [es[i]] + es[i + 1..];
    es[..i] + es[i + 1..]
  }

  /**
   * The entries left by `RemoveAt` are the others: every one of them was in
   * `es`, every other position survives, and with distinct sequence numbers
   * the removed entry is gone.
   */
  lemma RemoveAtMembers<T>(es: seq<Entry<T>>, i: nat)
    requires i < |es|
    ensures forall e :: e in RemoveAt(es, i) ==> e in es
    ensures forall j :: 0 <= j < |es| && j != i ==> es[j] in RemoveAt(es, i)
    ensures DistinctSeqNos(es) ==> es[i] !in RemoveAt(es, i)
  {
    var r := RemoveAt(es, i);
    forall j | 0 <= j < |es| && j != i ensures es[j] in r {
      if j < i {
        assert r[j] == es[j];
      } else {
        assert r[j - 1] == es[j];
      }
    }
  }
}
