/** Client closures wait here until their index is committed, in or out of order. */
module ClosureQueues {
  import opened Core

  type Closure = nat

  /** The flags after every slot up to `toIndex` and every slot listed in `oo` is set. */
  ghost function MarkAll(flags: seq<bool>, first: int, toIndex: int, oo: seq<int>): (r: seq<bool>)
    ensures |r| == |flags|
    ensures forall k :: 0 <= k < |flags| ==> (r[k] <==> flags[k] || first + k <= toIndex || first + k in oo)
  {
    if flags == [] then [] else
      var n := |flags| - 1;
      MarkAll(flags[..n], first, toIndex, oo) + [flags[n] || first + n <= toIndex || first + n in oo]
  }

  /** The number of leading true flags. */
  ghost predicate IsLeading(flags: seq<bool>, n: int) {
    && 0 <= n <= |flags|
    && (forall k :: 0 <= k < n ==> flags[k])
    && (n < |flags| ==> !flags[n])
  }

  /** `indexes` lists, each once, the slots marked in `now` but not in `before`, and `out` their closures. */
  ghost predicate HandsOut(out: seq<Closure>, indexes: seq<int>, q: seq<Closure>, before: seq<bool>, now: seq<bool>,
                           first: int)
    requires |q| == |before| == |now|
  {
    && |out| == |indexes|
    && (forall j, k :: 0 <= j < k < |indexes| ==> indexes[j] != indexes[k])
    && (forall i :: i in indexes <==> first <= i < first + |now| && now[i - first] && !before[i - first])
    && (forall k :: 0 <= k < |indexes| ==> indexes[k] in indexes && out[k] == q[indexes[k] - first])
  }

  lemma HandOutOne(out: seq<Closure>, indexes: seq<int>, q: seq<Closure>, before: seq<bool>, now: seq<bool>,
                   first: int, at: nat)
    requires |q| == |before| == |now| && at < |now|
    requires HandsOut(out, indexes, q, before, now, first)
    requires !now[at] && (before[at] ==> now[at])
    ensures HandsOut(out + [q[at]], indexes + [first + at], q, before, now[at := true], first)
  {
    var more := indexes + [first + at];
    assert first + at !in indexes;
    forall i ensures i in more <==> first <= i < first + |now| && now[at := true][i - first] && !before[i - first] {
      assert i in more <==> i in indexes || i == first + at;
    }
  }

  /** The queue as a value: closures and flags of the indexes from `first` on. */
  datatype QueueState = QueueState(first: int, closures: seq<Closure>, done: seq<bool>)

  /** The effect of a pop: the notified slots are marked, those newly marked handed out, the done front dropped. */
  ghost predicate Popped(s: QueueState, toIndex: int, oo: seq<int>, s': QueueState, out: seq<Closure>,
                         indexes: seq<int>)
    requires |s.closures| == |s.done|
  {
    var marked := MarkAll(s.done, s.first, toIndex, oo);
    var n := s'.first - s.first;
    && HandsOut(out, indexes, s.closures, s.done, marked, s.first)
    && IsLeading(marked, n)
    && s'.closures == s.closures[n..] && s'.done == marked[n..]
  }

  /** Nothing waits, or the whole list lies before what does. */
  ghost predicate IsBehind(s: QueueState, oo: seq<int>) {
    s.closures == [] || (oo != [] && oo[|oo| - 1] < s.first)
  }

  /** The list ends after the last slot. */
  ghost predicate IsBeyond(s: QueueState, oo: seq<int>) {
    oo != [] && oo[|oo| - 1] >= s.first + |s.closures|
  }

  /** Every slot that is told about is there. */
  ghost predicate IsWithin(s: QueueState, toIndex: int, oo: seq<int>) {
    toIndex < s.first + |s.closures| && (oo == [] || s.first <= oo[0])
  }

  /**
   * What a pop does. `inRange` tells that the deques were indexed within their bounds; otherwise nothing is known of
   * what the program does. A list behind the queue is told as it is, without closures; one beyond it is refused.
   */
  ghost predicate Pops(s: QueueState, toIndex: int, oo: seq<int>, s': QueueState, out: seq<Closure>,
                       indexes: seq<int>, inRange: bool)
    requires |s.closures| == |s.done|
  {
    && (inRange <==> IsBehind(s, oo) || IsBeyond(s, oo) || IsWithin(s, toIndex, oo))
    && (IsBehind(s, oo) ==> s' == s && out == [] && indexes == oo)
    && (!IsBehind(s, oo) && IsBeyond(s, oo) ==> s' == s && out == [] && indexes == [])
    && (inRange && !IsBehind(s, oo) && !IsBeyond(s, oo) ==> Popped(s, toIndex, oo, s', out, indexes))
  }

  class ClosureQueue {
    var firstIndex: int
    var queue: seq<Closure>
    var hasCommittedQueue: seq<bool>

    ghost predicate Valid()
      reads this
    {
      |queue| == |hasCommittedQueue|
    }

    ghost function View(): (s: QueueState)
      reads this
    {
      QueueState(firstIndex, queue, hasCommittedQueue)
    }

    constructor ()
      ensures Valid() && firstIndex == 0 && queue == [] && hasCommittedQueue == []
    {
      firstIndex, queue, hasCommittedQueue := 0, [], [];
    }

    method ResetFirstIndex(first: int)
      requires Valid() && queue == []
      modifies this
      ensures Valid() && firstIndex == first
      ensures queue == [] && hasCommittedQueue == []
    {
      firstIndex := first;
    }

    method AppendPendingClosure(c: Closure)
      requires Valid()
      modifies this
      ensures Valid() && firstIndex == old(firstIndex)
      ensures queue == old(queue) + [c] && hasCommittedQueue == old(hasCommittedQueue) + [false]
    {
      queue := queue + [c];
      hasCommittedQueue := hasCommittedQueue + [false];
    }

    /**
     * Hands out the closures up to `toIndex` and those of `ooCommitted`, each only if it was not handed out before,
     * and drops the slots at the front that are done.
     */
    method PopClosureUntil(toIndex: int, ooCommitted: seq<int>)
      returns (code: int, out: seq<Closure>, outIndexes: seq<int>, inRange: bool)
      requires Valid() && Ascending(ooCommitted)
      modifies this
      ensures Pops(old(View()), toIndex, ooCommitted, View(), out, outIndexes, inRange)
      ensures inRange ==> Valid()
      ensures code == if !IsBehind(old(View()), ooCommitted) && IsBeyond(old(View()), ooCommitted) then -1 else 0
    {
      out, outIndexes := [], [];
      if queue == [] || (ooCommitted != [] && ooCommitted[|ooCommitted| - 1] < firstIndex) {
        return 0, [], ooCommitted, true;
      }
      if ooCommitted != [] && ooCommitted[|ooCommitted| - 1] > firstIndex + |queue| - 1 {
        return -1, [], [], true;
      }
      var flags, n;
      flags, out, outIndexes, inRange := MarkLoop(queue, hasCommittedQueue, firstIndex, toIndex, ooCommitted);
      code := 0;
      if inRange {
        queue, hasCommittedQueue, n := DropDone(queue, flags);
        firstIndex := firstIndex + n;
      }
    }
  }

  /** Drops the done slots at the front. */
  method DropDone(q: seq<Closure>, flags: seq<bool>) returns (q': seq<Closure>, flags': seq<bool>, n: nat)
    requires |q| == |flags|
    ensures IsLeading(flags, n) && q' == q[n..] && flags' == flags[n..]
  {
    q', flags', n := q, flags, 0;
    while flags' != [] && flags'[0]
      invariant n <= |flags| && q' == q[n..] && flags' == flags[n..]
      invariant forall k :: 0 <= k < n ==> flags[k]
      decreases |flags'|
    {
      q', flags', n := q'[1..], flags'[1..], n + 1;
    }
  }

  /** The flags as MarkAll says, with `oo` as far as it has been looked at. */
  ghost predicate IsMarked(now: seq<bool>, before: seq<bool>, first: int, toIndex: int, oo: seq<int>) {
    && |now| == |before|
    && forall k :: 0 <= k < |before| ==> (now[k] <==> before[k] || first + k <= toIndex || first + k in oo)
  }

  lemma MarkedFromRange(now: seq<bool>, before: seq<bool>, first: int, next: int)
    requires IsMarked(now, before, first, next - 1, []) && first <= next < first + |before|
    ensures IsMarked(now[next - first := true], before, first, next, [])
  {
  }

  lemma MarkedFromList(now: seq<bool>, before: seq<bool>, first: int, toIndex: int, oo: seq<int>, taken: nat)
    requires taken < |oo| && first <= oo[taken] < first + |before|
    requires IsMarked(now, before, first, toIndex, oo[..taken])
    ensures IsMarked(now[oo[taken] - first := true], before, first, toIndex, oo[..taken + 1])
  {
    assert oo[..taken + 1] == oo[..taken] + [oo[taken]];
  }

  /** Marks one slot, and hands its closure out unless that was done before. */
  method MarkSlot(q: seq<Closure>, flags0: seq<bool>, first: int, flags: seq<bool>, out: seq<Closure>,
                  outIndexes: seq<int>, at: nat)
    returns (flags': seq<bool>, out': seq<Closure>, outIndexes': seq<int>)
    requires |q| == |flags0| == |flags| && at < |flags| && (flags0[at] ==> flags[at])
    requires HandsOut(out, outIndexes, q, flags0, flags, first)
    ensures flags' == flags[at := true] && HandsOut(out', outIndexes', q, flags0, flags', first)
  {
    flags', out', outIndexes' := flags, out, outIndexes;
    if !flags[at] {
      HandOutOne(out, outIndexes, q, flags0, flags, first, at);
      out', outIndexes' := out + [q[at]], outIndexes + [first + at];
      flags' := flags[at := true];
    }
  }

  /**
   * The two-source loop of pop_closure_until: first the contiguous range, then the out-of-order list. It ends early
   * where the program would index its deques out of range.
   */
  method MarkLoop(q: seq<Closure>, flags0: seq<bool>, first: int, toIndex: int, ooCommitted: seq<int>)
    returns (flags: seq<bool>, out: seq<Closure>, outIndexes: seq<int>, inRange: bool)
    requires |q| == |flags0| && Ascending(ooCommitted)
    requires ooCommitted != [] ==> first <= ooCommitted[|ooCommitted| - 1] < first + |q|
    ensures |flags| == |flags0|
    ensures inRange <==> toIndex < first + |q| && (ooCommitted == [] || first <= ooCommitted[0])
    ensures inRange ==> flags == MarkAll(flags0, first, toIndex, ooCommitted)
    ensures inRange ==> HandsOut(out, outIndexes, q, flags0, flags, first)
  {
    flags, out, outIndexes := flags0, [], [];
    var ite, oo, taken := first, ooCommitted, 0;
    while oo != [] || ite <= toIndex
      invariant first <= ite <= first + |q| && (ite <= toIndex + 1 || ite == first)
      invariant 0 <= taken <= |ooCommitted| && oo == ooCommitted[taken..]
      invariant taken > 0 ==> ite > toIndex && first <= ooCommitted[0]
      invariant IsMarked(flags, flags0, first, ite - 1, ooCommitted[..taken])
      invariant HandsOut(out, outIndexes, q, flags0, flags, first)
      decreases |oo| + if ite <= toIndex then toIndex + 1 - ite else 0
    {
      if ite <= toIndex {
        if ite - first >= |flags| {
          return flags, out, outIndexes, false;
        }
        MarkedFromRange(flags, flags0, first, ite);
        flags, out, outIndexes := MarkSlot(q, flags0, first, flags, out, outIndexes, ite - first);
        ite := ite + 1;
      } else {
        assert oo[0] == ooCommitted[taken] && ooCommitted[taken] <= ooCommitted[|ooCommitted| - 1];
        if oo[0] < first {
          return flags, out, outIndexes, false;
        }
        MarkedFromList(flags, flags0, first, ite - 1, ooCommitted, taken);
        flags, out, outIndexes := MarkSlot(q, flags0, first, flags, out, outIndexes, oo[0] - first);
        oo := oo[1..];
        taken := taken + 1;
      }
    }
    assert ooCommitted[..taken] == ooCommitted;
    AllMarked(flags, flags0, first, toIndex, ite - 1, ooCommitted);
    inRange := true;
  }

  lemma AllMarked(now: seq<bool>, before: seq<bool>, first: int, toIndex: int, last: int, oo: seq<int>)
    requires IsMarked(now, before, first, last, oo) && (last == toIndex || (last == first - 1 && toIndex < first))
    ensures now == MarkAll(before, first, toIndex, oo)
  {
  }
}
