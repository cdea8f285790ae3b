/**
 * The constructor's bulk path as written in utils.py stores `(key(i), i)`
 * pairs, while `push` stores `(key(x), i, x)` triples, and it leaves the
 * counter at 0. Python orders tuples element by element, so a key tie that
 * involves a bulk-loaded pair reaches a stored value: between two loaded
 * pairs the two values are compared, and between a loaded pair and a pushed
 * triple the loaded value is compared with the pushed sequence number. Both
 * are comparisons the sequence number exists to avoid. The corrected
 * constructor `BoundedHeap.Create` numbers the loaded entries like pushes.
 */
module BulkLoad {
  import opened Results
  import opened HeapEntries
  import opened BoundedHeap
  import opened HeapProperties

  /** The tuples kept in the heapq list. */
  datatype StoredTuple<T> = Pair(key: int, value: T) | Triple(key: int, seqNo: nat, value: T)

  /**
   * What Python's tuple `<` comes down to: decided by keys or sequence
   * numbers (`Less`, `Greater`), by comparing two stored values
   * (`ConsultsValues`), or by comparing a pair's stored value with a
   * triple's sequence number (`ValueAgainstSeqNo`).
   */
  datatype Comparison = Less | Greater | ConsultsValues | ValueAgainstSeqNo

  /**
   * Lexicographic tuple comparison: keys first; on equal keys the second
   * components, which are the value for a pair and the sequence number for
   * a triple; for two triples with equal sequence numbers, the values.
   */
  function CompareTuples<T>(a: StoredTuple<T>, b: StoredTuple<T>): Comparison {
    if a.key < b.key then Less
    else if a.key > b.key then Greater
    else if a.Pair? != b.Pair? then ValueAgainstSeqNo
    else if a.Pair? then ConsultsValues
    else if a.seqNo < b.seqNo then Less
    else if a.seqNo > b.seqNo then Greater
    else ConsultsValues
  }

  /** The bulk path as written: `[(key(i), i) for i in arr]`, counter 0. */
  function LoadAsWritten<T>(arr: seq<T>, key: T -> int): (r: (seq<StoredTuple<T>>, nat))
    ensures |r.0| == |arr| && r.1 == 0
    ensures forall i :: 0 <= i < |arr| ==> r.0[i].Pair? && r.0[i].key == key(arr[i]) && r.0[i].value == arr[i]
  {
    (seq(|arr|, i requires 0 <= i < |arr| => Pair(key(arr[i]), arr[i])), 0)
  }

  /** The triple `push` stores. */
  function AsTuple<T>(e: Entry<T>): StoredTuple<T> {
    Triple(e.key, e.seqNo, e.value)
  }

  /**
   * As written, a push whose key ties with a bulk-loaded element is ordered
   * by comparing the loaded value with the push's sequence number, and two
   * bulk-loaded elements with equal keys are ordered by their values.
   */
  lemma BulkTieConsultsValues<T>(arr: seq<T>, key: T -> int, x: T)
    requires |arr| > 0 && key(x) == key(arr[0])
    ensures var (stored, counter) := LoadAsWritten(arr, key);
      CompareTuples(Triple(key(x), counter, x), stored[0]) == ValueAgainstSeqNo
    ensures var stored := LoadAsWritten(arr, key).0;
      forall i, j :: 0 <= i < |arr| && 0 <= j < |arr| && key(arr[i]) == key(arr[j]) ==>
        CompareTuples(stored[i], stored[j]) == ConsultsValues
  {
  }

  /** On stored triples, tuple order is exactly `Before`, and a value is never set against a sequence number. */
  lemma TupleOrderIsBefore<T>(a: Entry<T>, b: Entry<T>)
    ensures CompareTuples(AsTuple(a), AsTuple(b)) == Less <==> Before(a, b)
    ensures CompareTuples(AsTuple(a), AsTuple(b)) == Greater <==> Before(b, a)
    ensures CompareTuples(AsTuple(a), AsTuple(b)) == ConsultsValues <==> a.key == b.key && a.seqNo == b.seqNo
    ensures CompareTuples(AsTuple(a), AsTuple(b)) != ValueAgainstSeqNo
  {
  }

  /**
   * With bulk entries numbered 0 .. |arr|-1 and the counter starting at
   * |arr|, any two entries of any heap reachable from the constructor are
   * ordered by key and sequence number alone, never by a stored value.
   */
  lemma CorrectedNeverConsultsValues<T>(arr: seq<T>, key: T -> int, maxLen: Option<nat>, ops: seq<Op<T>>)
    ensures var h := Run(Create(arr, key, maxLen), ops);
      forall i, j :: 0 <= i < |h.entries| && 0 <= j < |h.entries| && i != j ==>
        CompareTuples(AsTuple(h.entries[i]), AsTuple(h.entries[j])) in {Less, Greater}
  {
    ReachableInvariants(arr, key, maxLen, ops);
    var h := Run(Create(arr, key, maxLen), ops);
    forall i, j | 0 <= i < |h.entries| && 0 <= j < |h.entries| && i != j
      ensures CompareTuples(AsTuple(h.entries[i]), AsTuple(h.entries[j])) in {Less, Greater}
    {
      if i < j {
        assert h.entries[i].seqNo != h.entries[j].seqNo;
      } else {
        assert h.entries[j].seqNo != h.entries[i].seqNo;
      }
    }
  }
}
