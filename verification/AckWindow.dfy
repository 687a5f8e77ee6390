/** Windows of acknowledged indexes and of requests in flight, as plain values. */
module AckWindows {
  import opened Core

  datatype FlyingRpc = FlyingRpc(logIndex: int, entriesSize: nat, callId: nat)

  /** What came back for a request: a transport failure, a refusal, an answer of another term, or success. */
  datatype Reply =
    | Failed
    | Rejected(higherTerm: bool, lastLogIndex: int)
    | WrongTerm
    | Accepted(lastLogIndex: int)

  /** Every index before `start` has been given to commit_at, and after it exactly the flagged ones. */
  ghost predicate WindowInv(start: int, flags: seq<bool>, given: set<int>) {
    && 1 <= start
    && (forall i :: i in given ==> 1 <= i < start + |flags|)
    && (forall i :: 1 <= i < start ==> i in given)
    && (forall k :: 0 <= k < |flags| ==> (flags[k] <==> start + k in given))
  }

  ghost function SumSizes(rpcs: seq<FlyingRpc>): (r: nat) {
    if rpcs == [] then 0 else rpcs[0].entriesSize + SumSizes(rpcs[1..])
  }

  lemma {:induction false} SumSplit(a: seq<FlyingRpc>, b: seq<FlyingRpc>)
    ensures SumSizes(a + b) == SumSizes(a) + SumSizes(b)
  {
    if a == [] {
      assert a + b == b;
    } else {
      assert (a + b)[1..] == a[1..] + b;
      SumSplit(a[1..], b);
    }
  }

  /** The requests in flight: one after another in index order, all inside the window that ends at `end`. */
  ghost predicate FlightInv(rpcs: seq<FlyingRpc>, status: seq<bool>, flying: int, next: int, end: int) {
    && 1 <= next
    && |rpcs| == |status| && flying == SumSizes(rpcs)
    && (forall k :: 0 <= k < |rpcs| ==> 1 <= rpcs[k].logIndex && rpcs[k].logIndex + rpcs[k].entriesSize <= next)
    && (forall k :: 0 <= k < |rpcs| && rpcs[k].entriesSize > 0 ==> rpcs[k].logIndex + rpcs[k].entriesSize <= end)
    && InFlightOrder(rpcs)
  }

  ghost predicate InFlightOrder(rpcs: seq<FlyingRpc>) {
    forall j, k :: 0 <= j < k < |rpcs| ==>
      rpcs[j].logIndex + rpcs[j].entriesSize <= rpcs[k].logIndex && rpcs[j].callId != rpcs[k].callId
  }

  /** Every request in flight is still waited for; only inside a reply's handler one is not. */
  ghost predicate AllWaited(status: seq<bool>) {
    forall k :: 0 <= k < |status| ==> status[k]
  }

  ghost predicate ReplicatorInv(next: int, start: int, flags: seq<bool>, flying: int, rpcs: seq<FlyingRpc>,
                                status: seq<bool>, given: set<int>)
  {
    && WindowInv(start, flags, given) && FlightInv(rpcs, status, flying, next, start + |flags|)
    && AllWaited(status)
  }

  /**
   * Passes over the indexes before `last`: what was not given yet is given now. It ends early where the program would
   * look at the front of an empty deque, which is exactly where `last` lies beyond the window.
   */
  method DrainBelow(start: int, flags: seq<bool>, last: int, ghost given: set<int>)
    returns (start': int, flags': seq<bool>, list: seq<int>, inRange: bool)
    requires WindowInv(start, flags, given)
    ensures inRange <==> last <= start + |flags|
    ensures inRange ==>
              && start' == (if start < last then last else start) && start' + |flags'| == start + |flags|
              && WindowInv(start', flags', given + Elements(list))
              && StrictlyAscending(list)
              && forall i :: i in list <==> i !in given && 1 <= i < last
  {
    start', flags', list := start, flags, [];
    while start' < last
      invariant start <= start' && start' + |flags'| == start + |flags| && (start' <= last || start' == start)
      invariant flags' == flags[start' - start..]
      invariant StrictlyAscending(list)
      invariant forall i :: i in list <==> i !in given && start <= i < start'
    {
      if flags' == [] {
        return start', flags', list, false;
      }
      assert flags[start' - start] <==> start + (start' - start) in given;
      if !flags'[0] {
        assert forall k :: 0 <= k < |list| ==> list[k] in list;
        list := list + [start'];
      }
      start', flags' := start' + 1, flags'[1..];
    }
    DrainedWindow(start, flags, given, list, start', flags');
    inRange := true;
  }

  lemma DrainedWindow(start: int, flags: seq<bool>, given: set<int>, list: seq<int>, start': int, flags': seq<bool>)
    requires WindowInv(start, flags, given) && start <= start' <= start + |flags| && flags' == flags[start' - start..]
    requires forall i :: i in list <==> i !in given && start <= i < start'
    ensures WindowInv(start', flags', given + Elements(list))
  {
    var given' := given + Elements(list);
    forall k | 0 <= k < |flags'| ensures flags'[k] <==> start' + k in given' {
      assert flags[start' - start + k] <==> start + (start' - start + k) in given;
    }
  }

  /** Marks the acknowledged request's own indexes from `from` to `to`. */
  method MarkRange(start: int, flags: seq<bool>, from: int, to: int, ghost given: set<int>)
    returns (flags': seq<bool>, list: seq<int>)
    requires WindowInv(start, flags, given) && start <= from && to < start + |flags|
    ensures |flags'| == |flags|
    ensures WindowInv(start, flags', given + Elements(list))
    ensures StrictlyAscending(list)
    ensures forall i :: i in list <==> i !in given && from <= i <= to
  {
    flags', list := flags, [];
    var i := from;
    assert given + Elements(list) == given;
    while i <= to
      invariant from <= i && (i <= to + 1 || i == from)
      invariant |flags'| == |flags|
      invariant WindowInv(start, flags', given + Elements(list))
      invariant StrictlyAscending(list)
      invariant forall j :: j in list <==> j !in given && from <= j < i
    {
      assert flags'[i - start] <==> start + (i - start) in given + Elements(list);
      if !flags'[i - start] {
        MarkedWindow(start, flags', given + Elements(list), i);
        assert forall k :: 0 <= k < |list| ==> list[k] in list;
        assert Elements(list + [i]) == Elements(list) + {i};
        assert given + Elements(list + [i]) == given + Elements(list) + {i};
        flags' := flags'[i - start := true];
        list := list + [i];
      }
      i := i + 1;
    }
  }

  lemma MarkedWindow(start: int, flags: seq<bool>, given: set<int>, i: int)
    requires WindowInv(start, flags, given) && start <= i < start + |flags|
    ensures WindowInv(start, flags[i - start := true], given + {i})
  {
    var flags', given' := flags[i - start := true], given + {i};
    forall k | 0 <= k < |flags'| ensures flags'[k] <==> start + k in given' {
      assert flags[k] <==> start + k in given;
    }
  }

  /** Slides the window past the leading marked indexes. */
  method PopMarked(start: int, flags: seq<bool>, ghost given: set<int>) returns (start': int, flags': seq<bool>)
    requires WindowInv(start, flags, given)
    ensures start <= start' && start' + |flags'| == start + |flags|
    ensures WindowInv(start', flags', given)
    ensures flags' != [] ==> !flags'[0]
  {
    start', flags' := start, flags;
    while flags' != [] && flags'[0]
      invariant start <= start' && start' + |flags'| == start + |flags|
      invariant WindowInv(start', flags', given)
      decreases |flags'|
    {
      assert start' + 0 in given;
      SlidWindow(start', flags', given);
      start', flags' := start' + 1, flags'[1..];
    }
  }

  lemma SlidWindow(start: int, flags: seq<bool>, given: set<int>)
    requires WindowInv(start, flags, given) && flags != [] && start in given
    ensures WindowInv(start + 1, flags[1..], given)
  {
    var flags' := flags[1..];
    forall k | 0 <= k < |flags'| ensures flags'[k] <==> start + 1 + k in given {
      assert flags[k + 1] <==> start + (k + 1) in given;
    }
  }

  /**
   * The indexes a successful reply lets the leader give to commit_at: those of the acknowledged request and
   * those below the follower's contiguous index, each for the first time, in ascending order. `inRange` tells that
   * the deque was looked at within its bounds.
   */
  method AckWindow(start: int, flags: seq<bool>, prev: int, n: nat, last: int, ghost given: set<int>)
    returns (start': int, flags': seq<bool>, list: seq<int>, inRange: bool)
    requires WindowInv(start, flags, given)
    requires 0 <= prev && prev + n < start + |flags|
    ensures inRange <==> last <= start + |flags|
    ensures inRange ==>
              && start' + |flags'| == start + |flags|
              && WindowInv(start', flags', given + Elements(list))
              && StrictlyAscending(list)
              && (forall i :: i in list <==> i !in given && (1 <= i < last || prev < i <= prev + n))
              && (flags' != [] ==> !flags'[0])
  {
    var s, f, below;
    s, f, below, inRange := DrainBelow(start, flags, last, given);
    if !inRange {
      return start, flags, [], false;
    }
    ghost var given1 := given + Elements(below);
    var own := [];
    if prev + n >= s {
      var from := if s > prev + 1 then s else prev + 1;
      f, own := MarkRange(s, f, from, prev + n, given1);
    }
    list := below + own;
    assert given1 + Elements(own) == given + Elements(list);
    Joined(below, own, s);
    start', flags' := PopMarked(s, f, given + Elements(list));
  }

  lemma Joined(a: seq<int>, b: seq<int>, mid: int)
    requires StrictlyAscending(a) && StrictlyAscending(b)
    requires (forall i :: i in a ==> i < mid) && (forall i :: i in b ==> mid <= i)
    ensures StrictlyAscending(a + b)
  {
    assert forall k :: 0 <= k < |a| ==> a[k] in a;
    assert forall k :: 0 <= k < |b| ==> b[k] in b;
  }

  /** Finds the call that a reply belongs to; the search stops once requests start after it. */
  method FindRpc(rpcs: seq<FlyingRpc>, status: seq<bool>, callId: nat, rpcFirstIndex: int) returns (pos: nat)
    requires |rpcs| == |status| && AllWaited(status) && InFlightOrder(rpcs)
    requires forall k :: 0 <= k < |rpcs| && rpcs[k].callId == callId ==> rpcs[k].logIndex == rpcFirstIndex
    ensures pos <= |rpcs|
    ensures pos < |rpcs| ==> rpcs[pos].callId == callId
    ensures pos == |rpcs| ==> forall k :: 0 <= k < |rpcs| ==> rpcs[k].callId != callId
  {
    pos := 0;
    while pos < |rpcs|
      invariant pos <= |rpcs|
      invariant forall k :: 0 <= k < pos ==> rpcs[k].callId != callId
    {
      if rpcs[pos].logIndex > rpcFirstIndex {
        assert forall k :: pos <= k < |rpcs| ==> rpcs[pos].logIndex <= rpcs[k].logIndex;
        return |rpcs|;
      }
      if rpcs[pos].callId == callId && status[pos] {
        return;
      }
      pos := pos + 1;
    }
  }

  /** A request sent: it starts where the previous ones ended. */
  lemma FlightAfterSend(rpcs: seq<FlyingRpc>, status: seq<bool>, flying: int, next: int, end: int, rpc: FlyingRpc,
                        end': int)
    requires FlightInv(rpcs, status, flying, next, end) && end <= end'
    requires rpc.logIndex == next && (rpc.entriesSize > 0 ==> next + rpc.entriesSize <= end')
    requires forall k :: 0 <= k < |rpcs| ==> rpcs[k].callId != rpc.callId
    ensures FlightInv(rpcs + [rpc], status + [true], flying + rpc.entriesSize, next + rpc.entriesSize, end')
  {
    SumSplit(rpcs, [rpc]);
  }

  lemma FlightAfterErase(rpcs: seq<FlyingRpc>, status: seq<bool>, flying: int, next: int, end: int, pos: nat)
    requires FlightInv(rpcs, status, flying, next, end) && pos < |rpcs|
    ensures FlightInv(rpcs[..pos] + rpcs[pos + 1..], status[..pos] + status[pos + 1..],
                      flying - rpcs[pos].entriesSize, next, end)
  {
    var rpcs', status' := rpcs[..pos] + rpcs[pos + 1..], status[..pos] + status[pos + 1..];
    assert forall k :: 0 <= k < |rpcs'| ==> rpcs'[k] == rpcs[if k < pos then k else k + 1];
    SumErase(rpcs, pos);
  }

  lemma SumErase(rpcs: seq<FlyingRpc>, pos: nat)
    requires pos < |rpcs|
    ensures SumSizes(rpcs[..pos] + rpcs[pos + 1..]) == SumSizes(rpcs) - rpcs[pos].entriesSize
  {
    SumSplit(rpcs[..pos], rpcs[pos..]);
    assert rpcs == rpcs[..pos] + rpcs[pos..];
    assert rpcs[pos..][1..] == rpcs[pos + 1..];
    SumSplit(rpcs[..pos], rpcs[pos + 1..]);
  }

  /** `n` requests at the front are no longer waited for, and not one more. */
  ghost predicate IsFirstWaited(status: seq<bool>, n: nat) {
    n <= |status| && (forall k :: 0 <= k < n ==> !status[k]) && (n < |status| ==> status[n])
  }

  /** Where sending resumes when everything in flight is forgotten: at the first request still waited for. */
  ghost predicate IsResetTo(rpcs: seq<FlyingRpc>, status: seq<bool>, next: int, next': int)
    requires |rpcs| == |status|
  {
    exists n: nat :: IsFirstWaited(status, n) && next' == if n < |rpcs| then rpcs[n].logIndex else next
  }

  /** Pops what is no longer waited for, and tells where sending resumes. */
  method ResumeAt(rpcs: seq<FlyingRpc>, status: seq<bool>, next: int) returns (next': int)
    requires |rpcs| == |status|
    ensures IsResetTo(rpcs, status, next, next')
  {
    var left, waited, n := rpcs, status, 0;
    while left != [] && !waited[0]
      invariant n <= |rpcs| && left == rpcs[n..] && waited == status[n..]
      invariant forall k :: 0 <= k < n ==> !status[k]
      decreases |left|
    {
      left, waited, n := left[1..], waited[1..], n + 1;
    }
    assert IsFirstWaited(status, n);
    return if left != [] then left[0].logIndex else next;
  }

  /** Where sending resumes once the request at `pos` has come back without success. */
  ghost function ResetBase(rpcs: seq<FlyingRpc>, pos: nat, next: int): (r: int)
    requires pos < |rpcs|
  {
    if pos > 0 then rpcs[0].logIndex else if |rpcs| > 1 then rpcs[1].logIndex else next
  }

  /** With just the flag at `pos` cleared, only a leading request can be passed over. */
  lemma ResetAfterClearing(rpcs: seq<FlyingRpc>, status: seq<bool>, next: int, next': int, pos: nat)
    requires |rpcs| == |status| && AllWaited(status) && pos < |rpcs|
    requires IsResetTo(rpcs, status[pos := false], next, next')
    ensures next' == ResetBase(rpcs, pos, next)
  {
    var cleared := status[pos := false];
    var n: nat :| IsFirstWaited(cleared, n) && next' == if n < |rpcs| then rpcs[n].logIndex else next;
    assert !cleared[pos] && (pos > 0 ==> cleared[0]) && (|rpcs| > 1 && pos == 0 ==> cleared[1]);
  }

  /** A follower that refuses in the same term is probed again. */
  ghost predicate Probes(reply: Reply) {
    reply.Rejected? && !reply.higherTerm
  }

  /** Sending resumes after the follower's log if that is further back, otherwise one index further back. */
  ghost function AfterRefusal(reply: Reply, next: int): (r: int) {
    if !Probes(reply) then next
    else if reply.lastLogIndex + 1 < next then reply.lastLogIndex + 1
    else if next > 1 then next - 1 else next
  }

  /** `index` is one of the entries that were in flight. */
  ghost predicate WasFlying(rpcs: seq<FlyingRpc>, index: int) {
    exists k :: 0 <= k < |rpcs| && Holds(rpcs[k], index)
  }

  ghost predicate Holds(rpc: FlyingRpc, index: int) {
    rpc.logIndex <= index < rpc.logIndex + rpc.entriesSize
  }

  /** Everything that was in flight is sent again when sending resumes at `next`. */
  ghost predicate NothingSkipped(rpcs: seq<FlyingRpc>, next: int) {
    forall i :: WasFlying(rpcs, i) ==> next <= i
  }

  /**
   * After an unsuccessful reply nothing that was in flight is skipped, exactly if the answered request was not the
   * oldest, held no entries, or the follower refuses it and either says that its log ends before it or finds sending
   * to resume right after its first entry, which one step back then reaches.
   */
  lemma NothingSkippedIff(rpcs: seq<FlyingRpc>, status: seq<bool>, flying: int, next: int, end: int, pos: nat,
                          reply: Reply)
    requires FlightInv(rpcs, status, flying, next, end) && pos < |rpcs| && !reply.Accepted?
    ensures NothingSkipped(rpcs, AfterRefusal(reply, ResetBase(rpcs, pos, next))) <==>
            || pos > 0 || rpcs[0].entriesSize == 0
            || (Probes(reply) && (reply.lastLogIndex < rpcs[0].logIndex ||
                                  ResetBase(rpcs, pos, next) == rpcs[0].logIndex + 1))
  {
    var base := ResetBase(rpcs, pos, next);
    var next' := AfterRefusal(reply, base);
    if pos == 0 && rpcs[0].entriesSize > 0 {
      assert Holds(rpcs[0], rpcs[0].logIndex);
      assert WasFlying(rpcs, rpcs[0].logIndex);
    }
    forall i | WasFlying(rpcs, i) ensures base <= i || (pos == 0 && Holds(rpcs[0], i)) {
      var k :| 0 <= k < |rpcs| && Holds(rpcs[k], i);
      assert k > 0 ==> rpcs[0].logIndex + rpcs[0].entriesSize <= rpcs[k].logIndex;
      assert k > 1 ==> rpcs[1].logIndex + rpcs[1].entriesSize <= rpcs[k].logIndex;
    }
  }

  /** A refused request of one entry, with the next one right behind it, is never skipped. */
  lemma RefusalGoesBack(rpcs: seq<FlyingRpc>, status: seq<bool>, flying: int, next: int, end: int, pos: nat,
                        reply: Reply)
    requires FlightInv(rpcs, status, flying, next, end) && pos < |rpcs| && Probes(reply)
    requires rpcs[0].entriesSize == 1
    requires if |rpcs| > 1 then rpcs[1].logIndex == rpcs[0].logIndex + 1 else next == rpcs[0].logIndex + 1
    ensures NothingSkipped(rpcs, AfterRefusal(reply, ResetBase(rpcs, pos, next)))
  {
    NothingSkippedIff(rpcs, status, flying, next, end, pos, reply);
  }

  /** The only request in flight fails: its entry is passed over and nothing else is left to bring it back. */
  lemma LostRequestIsSkipped()
    ensures var rpcs := [FlyingRpc(5, 1, 7)];
            && FlightInv(rpcs, [true], 1, 6, 6) && WasFlying(rpcs, 5)
            && AfterRefusal(Failed, ResetBase(rpcs, 0, 6)) == 6 && !NothingSkipped(rpcs, 6)
            && AfterRefusal(Rejected(false, 4), ResetBase(rpcs, 0, 6)) == 5
  {
    var rpcs := [FlyingRpc(5, 1, 7)];
    assert rpcs[1..] == [] && SumSizes(rpcs) == 1;
    assert Holds(rpcs[0], 5);
  }

  lemma FlightAfterPop(rpcs: seq<FlyingRpc>, status: seq<bool>, flying: int, next: int, end: int)
    requires FlightInv(rpcs, status, flying, next, end) && rpcs != []
    ensures FlightInv(rpcs[1..], status[1..], flying - rpcs[0].entriesSize, next, end)
  {
    var rpcs', status' := rpcs[1..], status[1..];
    assert forall k :: 0 <= k < |rpcs'| ==> rpcs'[k] == rpcs[k + 1];
  }

  /** The requests besides the one at `pos`. */
  ghost function Others(rpcs: seq<FlyingRpc>, pos: int): (r: seq<FlyingRpc>)
    requires 0 <= pos < |rpcs|
  {
    rpcs[..pos] + rpcs[pos + 1..]
  }

  /** The window has passed the whole request. */
  predicate Passed(rpc: FlyingRpc, start: int) {
    rpc.logIndex + rpc.entriesSize <= start
  }

  /** Of the other requests exactly the leading ones that the window has passed are gone. */
  ghost predicate LeftInFlight(others: seq<FlyingRpc>, left: seq<FlyingRpc>, start: int) {
    exists n :: 0 <= n <= |others| && left == others[n..] && (forall k :: 0 <= k < n ==> Passed(others[k], start)) &&
      (n < |others| ==> !Passed(others[n], start))
  }

  /** Everything a passed request held was given; one at the front that was not passed still waits for something. */
  lemma PassedIff(rpc: FlyingRpc, start: int, flags: seq<bool>, given: set<int>)
    requires WindowInv(start, flags, given) && (flags != [] ==> !flags[0]) && 1 <= rpc.logIndex <= start
    requires rpc.entriesSize > 0
    ensures Passed(rpc, start) <==> forall i :: Holds(rpc, i) ==> i in given
  {
    if rpc.logIndex + rpc.entriesSize > start {
      assert Holds(rpc, start);
      assert flags != [] ==> (flags[0] <==> start + 0 in given);
    }
  }

  /** Takes the answered request out of the air, and those at the front that the window has passed. */
  method Land(rpcs: seq<FlyingRpc>, status: seq<bool>, flying: int, start: int, pos: nat, ghost next: int,
              ghost end: int)
    returns (rpcs': seq<FlyingRpc>, status': seq<bool>, flying': int)
    requires FlightInv(rpcs, status, flying, next, end) && pos < |rpcs|
    requires forall k :: 0 <= k < |status| && k != pos ==> status[k]
    ensures FlightInv(rpcs', status', flying', next, end) && AllWaited(status')
    ensures LeftInFlight(Others(rpcs, pos), rpcs', start)
  {
    FlightAfterErase(rpcs, status, flying, next, end, pos);
    flying' := flying - rpcs[pos].entriesSize;
    rpcs', status' := rpcs[..pos] + rpcs[pos + 1..], status[..pos] + status[pos + 1..];
    ghost var others, n := rpcs', 0;
    while rpcs' != [] && (!status'[0] || Passed(rpcs'[0], start))
      invariant FlightInv(rpcs', status', flying', next, end) && AllWaited(status')
      invariant n <= |others| && rpcs' == others[n..] && forall k :: 0 <= k < n ==> Passed(others[k], start)
      decreases |rpcs'|
    {
      n := n + 1;
      FlightAfterPop(rpcs', status', flying', next, end);
      flying' := flying' - rpcs'[0].entriesSize;
      rpcs', status' := rpcs'[1..], status'[1..];
    }
  }

  /** The window's part of a successful answer; an answer without entries gives nothing. */
  method AckEntries(start: int, flags: seq<bool>, prev: int, n: nat, lastLogIndex: int, ghost given: set<int>)
    returns (start': int, flags': seq<bool>, acked: Option<seq<int>>, ghost given': set<int>, inRange: bool)
    requires WindowInv(start, flags, given) && 0 <= prev && (n > 0 ==> prev + n < start + |flags|)
    ensures inRange <==> n == 0 || lastLogIndex <= start + |flags|
    ensures inRange ==>
              && WindowInv(start', flags', given') && start' + |flags'| == start + |flags|
              && given' == (given + if acked.Some? then Elements(acked.value) else {})
    ensures acked.Some? <==> inRange && n > 0
    ensures acked.Some? ==>
              && StrictlyAscending(acked.value)
              && (forall i :: i in acked.value <==> i !in given && (1 <= i < lastLogIndex || prev < i <= prev + n))
              && (flags' != [] ==> !flags'[0])
  {
    start', flags', acked, given', inRange := start, flags, None, given, true;
    if n > 0 {
      var list;
      start', flags', list, inRange := AckWindow(start, flags, prev, n, lastLogIndex, given);
      if inRange {
        acked, given' := Some(list), given + Elements(list);
      }
    }
  }

  /** A successful answer, on plain values; nothing is promised where the deque is looked at out of its bounds. */
  method TakeAnswer(start: int, flags: seq<bool>, rpcs: seq<FlyingRpc>, status: seq<bool>, flying: int, ghost next: int,
                    pos: nat, prev: int, n: nat, lastLogIndex: int, ghost given: set<int>)
    returns (start': int, flags': seq<bool>, rpcs': seq<FlyingRpc>, status': seq<bool>, flying': int,
             acked: Option<seq<int>>, ghost given': set<int>, inRange: bool)
    requires ReplicatorInv(next, start, flags, flying, rpcs, status, given) && pos < |rpcs|
    requires rpcs[pos].logIndex == prev + 1 && rpcs[pos].entriesSize == n
    ensures inRange <==> n == 0 || lastLogIndex <= start + |flags|
    ensures inRange ==>
              && ReplicatorInv(next, start', flags', flying', rpcs', status', given')
              && start' + |flags'| == start + |flags|
              && given' == (given + if acked.Some? then Elements(acked.value) else {})
              && LeftInFlight(Others(rpcs, pos), rpcs', start')
    ensures acked.Some? <==> inRange && n > 0
    ensures acked.Some? ==>
              && StrictlyAscending(acked.value)
              && (forall i :: i in acked.value <==> i !in given && (1 <= i < lastLogIndex || prev < i <= prev + n))
              && (flags' != [] ==> !flags'[0])
  {
    start', flags', acked, given', inRange := AckEntries(start, flags, prev, n, lastLogIndex, given);
    assert FlightInv(rpcs, status[pos := false], flying, next, start + |flags|);
    rpcs', status', flying' := Land(rpcs, status[pos := false], flying, start', pos, next, start + |flags|);
  }

  /** Extends the window with unacknowledged slots up to `next`. */
  method Widen(start: int, flags: seq<bool>, next: int, ghost given: set<int>) returns (flags': seq<bool>)
    requires WindowInv(start, flags, given)
    ensures WindowInv(start, flags', given) && |flags'| >= |flags| && next <= start + |flags'|
    ensures flags' == flags || start + |flags'| == next
  {
    flags' := flags;
    while start + |flags'| < next
      invariant WindowInv(start, flags', given) && |flags'| >= |flags|
      invariant flags' == flags || start + |flags'| <= next
      decreases next - start - |flags'|
    {
      flags' := flags' + [false];
    }
  }
}
