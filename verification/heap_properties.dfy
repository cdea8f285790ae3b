/**
 * Properties of `Heap` over whole sequences of operations: what a bounded
 * heap retains after a stream of pushes, the invariants every reachable
 * heap keeps, and the fact that the stored values never influence the order.
 */
module HeapProperties {
  import opened Results
  import opened HeapEntries
  import opened BoundedHeap

  /** `for x in xs: heap.push(x)`. */
  function PushAll<T>(h: Heap<T>, xs: seq<T>): (h': Heap<T>)
    ensures h'.counter == h.counter + |xs| && h'.key == h.key && h'.maxLen == h.maxLen
    ensures Valid(h) ==> Valid(h')
    ensures WithinCapacity(h) ==> WithinCapacity(h')
    decreases |xs|
  {
    if |xs| == 0 then h else Push(PushAll(h, xs[..|xs| - 1]), xs[|xs| - 1])
  }

  /** How many of `n` pushed entries a heap with bound `maxLen` keeps. */
  function Bound(n: nat, maxLen: Option<nat>): nat {
    if maxLen.Some? && maxLen.value < n then maxLen.value else n
  }

  /** Every pushed entry that was evicted comes before every one that was kept. */
  ghost predicate EvictedBeforeKept<T>(es: seq<Entry<T>>, pushed: seq<Entry<T>>) {
    forall i, j :: 0 <= i < |pushed| && 0 <= j < |pushed| && pushed[i] in es && pushed[j] !in es ==>
      Before(pushed[j], pushed[i])
  }

  /** The state of a bounded heap `es` after the entries `pushed` went in. */
  ghost predicate Retains<T>(es: seq<Entry<T>>, pushed: seq<Entry<T>>, maxLen: Option<nat>) {
    && (forall e :: e in es ==> e in pushed)
    && |es| == Bound(|pushed|, maxLen)
    && (forall j :: 0 <= j < |pushed| && pushed[j] !in es ==> maxLen.Some? && |es| == maxLen.value)
    && EvictedBeforeKept(es, pushed)
  }

  /** A push that does not overflow appends the new entry and evicts nothing. */
  lemma RetainsAfterAppend<T>(es: seq<Entry<T>>, pushed: seq<Entry<T>>, added: Entry<T>, maxLen: Option<nat>)
    requires Retains(es, pushed, maxLen)
    requires !Exceeds(|es| + 1, maxLen)
    ensures Retains(es + [added], pushed + [added], maxLen)
  {
    var es', pushed' := es + [added], pushed + [added];
    forall j | 0 <= j < |pushed'| ensures pushed'[j] in es' {
      if j < |pushed| {
        assert pushed'[j] == pushed[j];
        assert pushed[j] in es;
      }
    }
  }

  /** The order half of an overflowing push: the evicted minimum joins the evicted ones. */
  lemma EvictedStillBeforeKept<T>(es: seq<Entry<T>>, pushed: seq<Entry<T>>, added: Entry<T>, i0: nat)
    requires forall i :: 0 <= i < |pushed + [added]| ==> (pushed + [added])[i].seqNo == i
    requires forall e :: e in es ==> e in pushed
    requires EvictedBeforeKept(es, pushed)
    requires i0 < |es + [added]| && IsMinimal(es + [added], (es + [added])[i0])
    requires DistinctSeqNos(es + [added])
    ensures EvictedBeforeKept(RemoveAt(es + [added], i0), pushed + [added])
  {
    var grown, pushed' := es + [added], pushed + [added];
    var es' := RemoveAt(grown, i0);
    var d := grown[i0];
    assert pushed'[|pushed|] == added && added.seqNo == |pushed|;
    forall i, j | 0 <= i < |pushed'| && 0 <= j < |pushed'| && pushed'[i] in es' && pushed'[j] !in es'
      ensures Before(pushed'[j], pushed'[i])
    {
      var a, b := pushed'[i], pushed'[j];
      assert a in grown && a != d;
      var q :| 0 <= q < |grown| && grown[q] == a;
      assert !Before(a, d);
      if b == d {
        assert a.seqNo != d.seqNo;
      } else {
        assert b !in grown;
        assert j < |pushed| && pushed[j] == b && b !in es;
        if i < |pushed| {
          assert pushed[i] == a && a.seqNo == i;
          assert a in es;
        } else {
          assert d in es;
          var jd :| 0 <= jd < |pushed| && pushed[jd] == d;
          assert Before(b, d);
          assert a.seqNo != d.seqNo;
        }
      }
    }
  }

  /** A push that overflows evicts the least entry and keeps the length at the bound. */
  lemma RetainsAfterEvict<T>(es: seq<Entry<T>>, pushed: seq<Entry<T>>, added: Entry<T>, maxLen: Option<nat>, i0: nat)
    requires forall i :: 0 <= i < |pushed + [added]| ==> (pushed + [added])[i].seqNo == i
    requires Retains(es, pushed, maxLen)
    requires Exceeds(|es| + 1, maxLen)
    requires i0 < |es + [added]| && IsMinimal(es + [added], (es + [added])[i0])
    requires DistinctSeqNos(es + [added])
    ensures Retains(RemoveAt(es + [added], i0), pushed + [added], maxLen)
  {
    var grown, pushed' := es + [added], pushed + [added];
    var es' := RemoveAt(grown, i0);
    EvictedStillBeforeKept(es, pushed, added, i0);
    forall e | e in es' ensures e in pushed' {
      assert e in grown;
    }
  }

  /** One push keeps `Retains`, with the new entry appended to the pushed ones. */
  lemma PushKeepsRetains<T>(h: Heap<T>, x: T, pushed: seq<Entry<T>>)
    requires Valid(h) && h.counter == |pushed|
    requires forall i :: 0 <= i < |pushed| ==> pushed[i].seqNo == i
    requires Retains(h.entries, pushed, h.maxLen)
    ensures Retains(Push(h, x).entries, pushed + [Entry(h.key(x), h.counter, x)], h.maxLen)
  {
    var added := Entry(h.key(x), h.counter, x);
    var grown := h.entries + [added];
    AppendKeepsValid(h, added);
    assert forall i :: 0 <= i < |pushed + [added]| ==> (pushed + [added])[i].seqNo == i;
    if Exceeds(|grown|, h.maxLen) {
      PushEvicts(h, x);
      RetainsAfterEvict(h.entries, pushed, added, h.maxLen, MinIndex(grown));
    } else {
      PushAppends(h, x);
      RetainsAfterAppend(h.entries, pushed, added, h.maxLen);
    }
  }

  /** Pushing one more element appends one more numbered entry. */
  lemma NumberedSnoc<T>(xs: seq<T>, key: T -> int)
    requires |xs| > 0
    ensures Numbered(xs, key, 0) == Numbered(xs[..|xs| - 1], key, 0) + [Entry(key(xs[|xs| - 1]), |xs| - 1, xs[|xs| - 1])]
  {
  }

  /** The last of the pushes `xs` into an empty heap, taken apart. */
  lemma PushAllSnocFacts<T>(xs: seq<T>, key: T -> int, maxLen: Option<nat>)
    requires |xs| > 0
    ensures var h := PushAll(Create([], key, maxLen), xs[..|xs| - 1]);
      var pushed := Numbered(xs[..|xs| - 1], key, 0);
      && PushAll(Create([], key, maxLen), xs).entries == Push(h, xs[|xs| - 1]).entries
      && Valid(h) && h.counter == |pushed| && h.maxLen == maxLen
      && (forall i :: 0 <= i < |pushed| ==> pushed[i].seqNo == i)
      && Numbered(xs, key, 0) == pushed + [Entry(h.key(xs[|xs| - 1]), h.counter, xs[|xs| - 1])]
  {
    NumberedSnoc(xs, key);
  }

  /** `PushKeepsRetains` with the resulting entries and pushes named, so a caller only matches terms. */
  lemma PushKeepsRetainsAt<T>(h: Heap<T>, x: T, pushed: seq<Entry<T>>, maxLen: Option<nat>,
                              es': seq<Entry<T>>, pushed': seq<Entry<T>>)
    requires Valid(h) && h.counter == |pushed| && h.maxLen == maxLen
    requires forall i :: 0 <= i < |pushed| ==> pushed[i].seqNo == i
    requires Retains(h.entries, pushed, maxLen)
    requires es' == Push(h, x).entries && pushed' == pushed + [Entry(h.key(x), h.counter, x)]
    ensures Retains(es', pushed', maxLen)
  {
    PushKeepsRetains(h, x, pushed);
  }

  /** One more push into a heap built from an empty one keeps `Retains` over the numbered pushes. */
  lemma PushAllRetainsStep<T>(xs: seq<T>, key: T -> int, maxLen: Option<nat>)
    requires |xs| > 0
    requires Retains(PushAll(Create([], key, maxLen), xs[..|xs| - 1]).entries, Numbered(xs[..|xs| - 1], key, 0), maxLen)
    ensures Retains(PushAll(Create([], key, maxLen), xs).entries, Numbered(xs, key, 0), maxLen)
  {
    var ys := xs[..|xs| - 1];
    PushAllSnocFacts(xs, key, maxLen);
    PushKeepsRetainsAt(PushAll(Create([], key, maxLen), ys), xs[|xs| - 1], Numbered(ys, key, 0), maxLen,
                       PushAll(Create([], key, maxLen), xs).entries, Numbered(xs, key, 0));
  }

  /** `Retains` holds after every prefix of the pushes into an empty heap. */
  lemma {:induction false} PushAllRetains<T>(xs: seq<T>, key: T -> int, maxLen: Option<nat>)
    ensures Retains(PushAll(Create([], key, maxLen), xs).entries, Numbered(xs, key, 0), maxLen)
    decreases |xs|
  {
    if |xs| > 0 {
      PushAllRetains(xs[..|xs| - 1], key, maxLen);
      PushAllRetainsStep(xs, key, maxLen);
    }
  }

  /**
   * After pushing `xs` into an empty heap bounded by `maxLen`, the heap holds
   * min(|xs|, maxLen) of the pushed entries, and every entry it evicted comes
   * before every entry it kept: a smaller key, or an equal key pushed
   * earlier. These are the `maxLen` largest entries by (key, push order).
   */
  lemma RetainsLargest<T>(xs: seq<T>, key: T -> int, maxLen: Option<nat>)
    ensures var h := PushAll(Create([], key, maxLen), xs);
      var pushed := Numbered(xs, key, 0);
      && h.counter == |xs|
      && Valid(h)
      && |h.entries| == Bound(|xs|, maxLen)
      && (forall e :: e in h.entries ==> e in pushed)
      && (forall i, j :: 0 <= i < |xs| && 0 <= j < |xs| && pushed[i] in h.entries && pushed[j] !in h.entries ==>
            pushed[j].key < pushed[i].key || (pushed[j].key == pushed[i].key && j < i))
  {
    PushAllRetains(xs, key, maxLen);
  }

  /** Without a bound nothing is evicted: the heap holds every pushed entry, in push order. */
  lemma {:induction false} UnboundedKeepsAll<T>(xs: seq<T>, key: T -> int)
    ensures PushAll(Create([], key, None), xs).entries == Numbered(xs, key, 0)
    decreases |xs|
  {
    if |xs| > 0 {
      var ys := xs[..|xs| - 1];
      UnboundedKeepsAll(ys, key);
      assert Numbered(xs, key, 0) == Numbered(ys, key, 0) + [Entry(key(xs[|xs| - 1]), |ys|, xs[|xs| - 1])];
    }
  }

  /**
   * Loading `arr` in the constructor gives the entries and counter that
   * pushing `arr` one by one into an unbounded heap gives.
   */
  lemma CreateMatchesPushes<T>(arr: seq<T>, key: T -> int, maxLen: Option<nat>)
    ensures var loaded := Create(arr, key, maxLen);
      var pushed := PushAll(Create([], key, None), arr);
      loaded.entries == pushed.entries && loaded.counter == pushed.counter
  {
    UnboundedKeepsAll(arr, key);
  }

  /**
   * The constructor does not trim `arr` to `max_len`, and pushes never
   * shrink the heap, so a heap created over its bound stays over it.
   */
  lemma {:induction false} OverfullStaysOverfull<T>(arr: seq<T>, key: T -> int, m: nat, xs: seq<T>)
    requires |arr| > m
    ensures |PushAll(Create(arr, key, Some(m)), xs).entries| == |arr|
    decreases |xs|
  {
    if |xs| > 0 {
      OverfullStaysOverfull(arr, key, m, xs[..|xs| - 1]);
    }
  }

  /** The calls a client can make on a heap. */
  datatype Op<T> = PushOp(x: T) | PopOp | TopOp

  /** Applies `ops` in turn; a failing `pop` or `top` raises and leaves the heap as it was. */
  function Run<T>(h: Heap<T>, ops: seq<Op<T>>): Heap<T>
    decreases |ops|
  {
    if |ops| == 0 then h
    else
      var h1 := Run(h, ops[..|ops| - 1]);
      match ops[|ops| - 1]
      case PushOp(x) => Push(h1, x)
      case PopOp => (match Pop(h1) case Success((_, rest)) => rest case Failure(_) => h1)
      case TopOp => h1
  }

  /** The number of pushes in `ops`. */
  function Pushes<T>(ops: seq<Op<T>>): nat
    decreases |ops|
  {
    if |ops| == 0 then 0 else Pushes(ops[..|ops| - 1]) + (if ops[|ops| - 1].PushOp? then 1 else 0)
  }

  /**
   * Every heap reachable from the constructor has distinct sequence numbers
   * below the counter, the counter equals the number of entries ever
   * inserted (it is never reset), and a heap created within its bound stays
   * within it.
   */
  lemma {:induction false} ReachableInvariants<T>(arr: seq<T>, key: T -> int, maxLen: Option<nat>, ops: seq<Op<T>>)
    ensures var h := Run(Create(arr, key, maxLen), ops);
      && Valid(h)
      && h.counter == |arr| + Pushes(ops)
      && h.key == key && h.maxLen == maxLen
      && (!Exceeds(|arr|, maxLen) ==> WithinCapacity(h))
    decreases |ops|
  {
    if |ops| > 0 {
      ReachableInvariants(arr, key, maxLen, ops[..|ops| - 1]);
      var h1 := Run(Create(arr, key, maxLen), ops[..|ops| - 1]);
      if ops[|ops| - 1].PopOp? && Pop(h1).Success? {
        var p := PopEntry(h1);
        assert Pop(h1).value.1 == p.value.1;
      }
    }
  }

  /** Entry sequences that agree on every key and sequence number. */
  ghost predicate SameRanks<T>(es1: seq<Entry<T>>, es2: seq<Entry<T>>) {
    && |es1| == |es2|
    && forall i :: 0 <= i < |es1| ==> es1[i].key == es2[i].key && es1[i].seqNo == es2[i].seqNo
  }

  /** Which entry is least depends on keys and sequence numbers only. */
  lemma {:induction false} MinIndexIgnoresValues<T>(es1: seq<Entry<T>>, es2: seq<Entry<T>>)
    requires |es1| > 0 && SameRanks(es1, es2)
    ensures MinIndex(es1) == MinIndex(es2)
    decreases |es1|
  {
    if |es1| > 1 {
      MinIndexIgnoresValues(es1[..|es1| - 1], es2[..|es2| - 1]);
    }
  }

  /** Removing the same position from two entry sequences that agree on ranks keeps them agreeing. */
  lemma RemoveAtKeepsSameRanks<T>(es1: seq<Entry<T>>, es2: seq<Entry<T>>, i: nat)
    requires SameRanks(es1, es2) && i < |es1|
    ensures SameRanks(RemoveAt(es1, i), RemoveAt(es2, i))
  {
  }

  /**
   * Pushing two values with the same key yields heaps that agree on every
   * key and sequence number: the stored value never decides what is
   * evicted or where anything goes.
   */
  lemma PushIgnoresValue<T>(h: Heap<T>, x: T, y: T)
    requires h.key(x) == h.key(y)
    ensures SameRanks(Push(h, x).entries, Push(h, y).entries)
  {
    var gx := h.entries + [Entry(h.key(x), h.counter, x)];
    var gy := h.entries + [Entry(h.key(y), h.counter, y)];
    assert SameRanks(gx, gy);
    if Exceeds(|gx|, h.maxLen) {
      var i := MinIndex(gx);
      MinIndexIgnoresValues(gx, gy);
      assert Push(h, x).entries == RemoveAt(gx, i);
      assert Push(h, y).entries == RemoveAt(gy, i);
      RemoveAtKeepsSameRanks(gx, gy, i);
    }
  }

  /**
   * `bool(heap)` is exactly the condition under which `top` and `pop`
   * succeed, and `top` returns the value that `pop` would remove.
   */
  lemma TopAgreesWithPop<T>(h: Heap<T>)
    ensures NonEmpty(h) <==> Top(h).Success?
    ensures NonEmpty(h) <==> Pop(h).Success?
    ensures Top(h).Success? ==> Pop(h).Success? && Top(h).value == Pop(h).value.0
  {
  }

  /** Iteration yields `top()` first. */
  lemma TopIsFirstDrained<T>(h: Heap<T>)
    requires NonEmpty(h)
    ensures |Drain(h).0| > 0 && Drain(h).0[0] == Top(h).value
  {
  }
}
