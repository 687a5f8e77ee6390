/** The leader's queue of ballots, committed in any order and released in index order. */
module BallotBoxes {
  import opened Core
  import opened Ballots
  import opened CommitSpec

  const EINVAL := 22
  const ERANGE := 34

  /** What commit_at tells the state machine caller. */
  datatype Notice = Notice(lastCommitted: int, ooCommitted: seq<int>)

  /** One ballot for each task from index `pending` on, granted by the peers that acknowledged it. */
  ghost predicate QueueMatches(q: seq<Ballot>, s: Leadership, pending: int)
    requires s.reset <= pending && pending + |q| <= s.reset + |s.tasks|
  {
    forall k :: 0 <= k < |q| ==> StandsFor(q[k], s, pending + k)
  }

  ghost predicate StandsFor(b: Ballot, s: Leadership, index: int)
    requires s.reset <= index < s.reset + |s.tasks|
  {
    var task := s.tasks[index - s.reset];
    IsTask(task) && b == BallotOf(task.conf, task.oldConf, Ackers(s, index))
  }

  ghost predicate FlagsMatch(flags: seq<bool>, c: set<int>, pending: int) {
    forall k :: 0 <= k < |flags| ==> (flags[k] <==> pending + k in c)
  }

  /** The box is the one its tasks and acknowledgements determine, up to the last committed index. */
  ghost predicate BoxInv(last: int, pending: int, q: seq<Ballot>, flags: seq<bool>, s: Leadership) {
    && 0 <= s.reset
    && (s.reset == 0 ==> s.tasks == [])
    && AcksInRange(s)
    && IsFront(Committed(s), s.reset, pending)
    && |q| == |flags| && pending + |q| == s.reset + |s.tasks|
    && QueueMatches(q, s, pending)
    && FlagsMatch(flags, Committed(s), pending)
    && 0 <= last
    && (s.reset > 0 ==> last < pending)
    && (pending > s.reset ==> last == pending - 1)
  }

  lemma BoxAfterPropose(last: int, pending: int, q: seq<Ballot>, flags: seq<bool>, s: Leadership, task: Task,
                        bl: Ballot)
    requires BoxInv(last, pending, q, flags, s) && s.reset > 0
    requires IsTask(task) && bl == BallotOf(task.conf, task.oldConf, {})
    ensures BoxInv(last, pending, q + [bl], flags + [false], Propose(s, task))
  {
    CommittedAfterPropose(s, task);
    var t := Propose(s, task);
    var q' := q + [bl];
    forall k | 0 <= k < |q'| ensures StandsFor(q'[k], t, pending + k) {
      if k < |q| {
        assert StandsFor(q[k], s, pending + k);
        assert t.tasks[pending + k - s.reset] == s.tasks[pending + k - s.reset];
      }
    }
  }

  /** The grant loop of commit_at over a batch that starts at or after `pending`. */
  method GrantBatch(q: seq<Ballot>, flags: seq<bool>, pending: int, batch: seq<int>, peer: PeerId,
                    ghost s: Leadership)
    returns (q': seq<Ballot>, flags': seq<bool>, oo: seq<int>)
    requires Ascending(batch) && InRange(s, batch) && s.reset <= pending <= batch[0]
    requires |q| == |flags| && pending + |q| == s.reset + |s.tasks|
    requires QueueMatches(q, s, pending) && FlagsMatch(flags, Committed(s), pending)
    ensures |q'| == |flags'| == |q|
    ensures QueueMatches(q', Ack(s, batch, peer), pending)
    ensures FlagsMatch(flags', Committed(Ack(s, batch, peer)), pending)
    ensures StrictlyAscending(oo) && Elements(oo) == Committed(Ack(s, batch, peer)) - Committed(s)
  {
    q', flags', oo := q, flags, [];
    var hint := PosHint(-1, -1);
    ghost var t := s;
    var n := 0;
    while n < |batch|
      invariant 0 <= n <= |batch|
      invariant |q'| == |flags'| == |q|
      invariant t == AckAll(s, batch[..n], peer)
      invariant QueueMatches(q', t, pending) && FlagsMatch(flags', Committed(t), pending)
      invariant StrictlyAscending(oo) && Elements(oo) == Committed(t) - Committed(s)
      invariant Committed(s) <= Committed(t)
      invariant if n == 0 then oo == [] else forall i :: i in oo ==> i <= batch[n - 1]
    {
      assert batch[..n + 1][..n] == batch[..n];
      assert pending <= batch[n] < pending + |q|;
      q', flags', oo, hint := GrantNext(q', flags', oo, pending, batch[n], peer, hint, t, Committed(s));
      t := AckOne(t, batch[n], peer);
      n := n + 1;
    }
    assert batch[..|batch|] == batch;
  }

  /** One turn of the grant loop. */
  method GrantNext(q: seq<Ballot>, flags: seq<bool>, oo: seq<int>, pending: int, index: int, peer: PeerId,
                   hint: PosHint, ghost s: Leadership, ghost start: set<int>)
    returns (q': seq<Ballot>, flags': seq<bool>, oo': seq<int>, hint': PosHint)
    requires s.reset <= pending <= index < pending + |q| && pending + |q| <= s.reset + |s.tasks|
    requires |q| == |flags|
    requires QueueMatches(q, s, pending) && FlagsMatch(flags, Committed(s), pending)
    requires StrictlyAscending(oo) && Elements(oo) == Committed(s) - start && start <= Committed(s)
    requires forall i :: i in oo ==> i <= index
    ensures |q'| == |flags'| == |q|
    ensures var t := AckOne(s, index, peer);
            && QueueMatches(q', t, pending) && FlagsMatch(flags', Committed(t), pending)
            && StrictlyAscending(oo') && Elements(oo') == Committed(t) - start && start <= Committed(t)
    ensures forall i :: i in oo' ==> i <= index
  {
    var bl;
    bl, hint' := GrantSlot(q[index - pending], index, peer, hint, s);
    QueueAfterAck(q, bl, s, index, peer, pending);
    CommittedAfterOne(s, index, peer);
    q', flags', oo' := q[index - pending := bl], flags, oo;
    assert flags[index - pending] <==> pending + (index - pending) in Committed(s);
    if bl.Granted() && !flags[index - pending] {
      assert index !in Elements(oo);
      AppendNew(oo, index);
      flags' := flags[index - pending := true];
      oo' := oo + [index];
    } else {
      assert Committed(AckOne(s, index, peer)) == Committed(s);
    }
  }

  lemma AppendNew(oo: seq<int>, index: int)
    requires StrictlyAscending(oo) && index !in oo && forall i :: i in oo ==> i <= index
    ensures StrictlyAscending(oo + [index]) && Elements(oo + [index]) == Elements(oo) + {index}
    ensures forall i :: i in oo + [index] ==> i <= index
  {
    forall k | 0 <= k < |oo| ensures oo[k] < index {
      assert oo[k] in oo;
    }
  }

  lemma NothingNew(oo: seq<int>, before: set<int>, after: set<int>)
    requires before <= after && Elements(oo) == after - before
    ensures oo == [] <==> after == before
  {
    if oo != [] {
      assert oo[0] in Elements(oo);
    } else {
      forall x | x in after ensures x in before {
        assert x !in Elements(oo);
      }
    }
  }

  method GrantSlot(b: Ballot, index: int, peer: PeerId, hint: PosHint, ghost s: Leadership)
    returns (b': Ballot, next: PosHint)
    requires s.reset <= index < s.reset + |s.tasks| && StandsFor(b, s, index)
    ensures StandsFor(b', AckOne(s, index, peer), index)
    ensures b'.Granted() <==> Quorate(AckOne(s, index, peer), index)
  {
    ghost var task := s.tasks[index - s.reset];
    b', next := b.Grant(peer, hint, task.conf, task.oldConf, Ackers(s, index));
    GrantedIffQuorum(task.conf, task.oldConf, Ackers(s, index) + {peer});
  }

  lemma QueueAfterAck(q: seq<Ballot>, bl: Ballot, s: Leadership, index: int, peer: PeerId, pending: int)
    requires s.reset <= pending <= index < pending + |q| && pending + |q| <= s.reset + |s.tasks|
    requires QueueMatches(q, s, pending) && StandsFor(bl, AckOne(s, index, peer), index)
    ensures QueueMatches(q[index - pending := bl], AckOne(s, index, peer), pending)
  {
    var q' := q[index - pending := bl];
    forall k | 0 <= k < |q'| ensures StandsFor(q'[k], AckOne(s, index, peer), pending + k) {
      assert k != index - pending ==> StandsFor(q[k], s, pending + k);
      assert k == index - pending ==> pending + k == index;
    }
  }

  /** Drops the leading indexes below `pending`; the last index is not one of them. */
  method DropBelow(batch: seq<int>, pending: int) returns (rest: seq<int>, ghost m: nat)
    requires batch != [] && batch[|batch| - 1] >= pending
    ensures m < |batch| && rest == batch[m..] && rest[0] >= pending
    ensures forall k :: 0 <= k < m ==> batch[k] < pending
  {
    rest, m := batch, 0;
    while rest[0] < pending
      invariant m < |batch| && rest == batch[m..]
      invariant forall k :: 0 <= k < m ==> batch[k] < pending
      decreases |rest|
    {
      rest, m := rest[1..], m + 1;
    }
  }

  /** The pop loop of commit_at: drops the leading entries whose flag is set. */
  method PopCommitted(q: seq<Ballot>, flags: seq<bool>) returns (q': seq<Ballot>, flags': seq<bool>, n: nat)
    requires |q| == |flags|
    ensures n <= |flags| && q' == q[n..] && flags' == flags[n..]
    ensures forall k :: 0 <= k < n ==> flags[k]
    ensures n < |flags| ==> !flags[n]
  {
    q', flags', n := q, flags, 0;
    while flags' != [] && flags'[0]
      invariant n <= |flags| && q' == q[n..] && flags' == flags[n..]
      invariant forall k :: 0 <= k < n ==> flags[k]
    {
      q', flags', n := q'[1..], flags'[1..], n + 1;
    }
  }

  /** Dropping the first `m` indexes of a batch, all below `pending`, loses nothing that still counts. */
  lemma TrimmedAckers(s: Leadership, batch: seq<int>, peer: PeerId, m: nat, pending: int, index: int)
    requires InRange(s, batch) && m <= |batch|
    requires forall k :: 0 <= k < m ==> batch[k] < pending
    requires s.reset <= pending <= index
    ensures Ackers(Ack(s, batch[m..], peer), index) == Ackers(Ack(s, batch, peer), index)
  {
    AckersAfter(s, batch, peer, index);
    assert index in batch <==> index in batch[m..];
    if m < |batch| {
      assert batch[m..][|batch| - m - 1] == batch[|batch| - 1];
      AckersAfter(s, batch[m..], peer, index);
    }
  }

  lemma TrimmedCommits(s: Leadership, batch: seq<int>, peer: PeerId, m: nat, pending: int)
    requires InRange(s, batch) && m <= |batch|
    requires forall k :: 0 <= k < m ==> batch[k] < pending
    requires IsFront(Committed(s), s.reset, pending)
    ensures Committed(Ack(s, batch[m..], peer)) == Committed(Ack(s, batch, peer))
  {
    CommittedAfter(s, batch, peer);
    CommittedAfter(s, batch[m..], peer);
    var t, t' := Ack(s, batch, peer), Ack(s, batch[m..], peer);
    forall i ensures i in Committed(t) <==> i in Committed(t') {
      if i >= pending {
        TrimmedAckers(s, batch, peer, m, pending, i);
      } else if i >= s.reset {
        assert i in Committed(s);
      }
    }
  }

  lemma TrimmedQueue(q: seq<Ballot>, s: Leadership, batch: seq<int>, peer: PeerId, m: nat, pending: int)
    requires InRange(s, batch) && m <= |batch|
    requires forall k :: 0 <= k < m ==> batch[k] < pending
    requires s.reset <= pending && pending + |q| <= s.reset + |s.tasks|
    requires QueueMatches(q, Ack(s, batch[m..], peer), pending)
    ensures QueueMatches(q, Ack(s, batch, peer), pending)
  {
    forall k | 0 <= k < |q| ensures StandsFor(q[k], Ack(s, batch, peer), pending + k) {
      TrimmedAckers(s, batch, peer, m, pending, pending + k);
      SameStanding(q[k], Ack(s, batch[m..], peer), Ack(s, batch, peer), pending + k);
    }
  }

  lemma SameStanding(b: Ballot, s: Leadership, t: Leadership, index: int)
    requires s.reset == t.reset && s.tasks == t.tasks && Ackers(s, index) == Ackers(t, index)
    requires s.reset <= index < s.reset + |s.tasks| && StandsFor(b, s, index)
    ensures StandsFor(b, t, index)
  {
  }

  /** A batch entirely below `pending` changes nothing the box holds. */
  lemma StaleBatch(last: int, pending: int, q: seq<Ballot>, flags: seq<bool>, s: Leadership, batch: seq<int>,
                   peer: PeerId)
    requires BoxInv(last, pending, q, flags, s)
    requires Ascending(batch) && batch != [] && batch[|batch| - 1] < pending
    ensures BoxInv(last, pending, q, flags, Ack(s, batch, peer))
    ensures Committed(Ack(s, batch, peer)) == Committed(s)
  {
    if InRange(s, batch) {
      assert batch[|batch|..] == [];
      TrimmedCommits(s, batch, peer, |batch|, pending);
      TrimmedQueue(q, s, batch, peer, |batch|, pending);
    }
    AckKeepsRange(s, batch, peer);
  }

  /** Drops the indexes below `pending` and grants the others; `front` is the first index left. */
  method GrantRest(q: seq<Ballot>, flags: seq<bool>, pending: int, batch: seq<int>, peer: PeerId, ghost s: Leadership)
    returns (q': seq<Ballot>, flags': seq<bool>, oo: seq<int>, front: int)
    requires Ascending(batch) && InRange(s, batch) && s.reset <= pending <= batch[|batch| - 1]
    requires |q| == |flags| && pending + |q| == s.reset + |s.tasks|
    requires IsFront(Committed(s), s.reset, pending)
    requires QueueMatches(q, s, pending) && FlagsMatch(flags, Committed(s), pending)
    ensures |q'| == |flags'| == |q|
    ensures QueueMatches(q', Ack(s, batch, peer), pending)
    ensures FlagsMatch(flags', Committed(Ack(s, batch, peer)), pending)
    ensures StrictlyAscending(oo) && Elements(oo) == Committed(Ack(s, batch, peer)) - Committed(s)
    ensures front == pending <==> pending in batch
  {
    var rest, m := DropBelow(batch, pending);
    q', flags', oo := GrantBatch(q, flags, pending, rest, peer, s);
    TrimmedQueue(q', s, batch, peer, m, pending);
    TrimmedCommits(s, batch, peer, m, pending);
    FrontOfRest(batch, m, pending);
    front := rest[0];
  }

  lemma FrontOfRest(batch: seq<int>, m: nat, pending: int)
    requires Ascending(batch) && m < |batch| && batch[m] >= pending
    requires forall k :: 0 <= k < m ==> batch[k] < pending
    ensures pending in batch <==> batch[m] == pending
  {
    assert forall k :: m <= k < |batch| ==> batch[m] <= batch[k];
  }

  /** An index that was not committed stays so unless the batch names it and something new is committed. */
  lemma StaysOpen(oo: seq<int>, batch: seq<int>, before: set<int>, after: set<int>, index: int)
    requires Elements(oo) == after - before && after <= before + Elements(batch)
    requires index !in before && (oo == [] || index !in batch)
    ensures index !in after
  {
    assert index in after ==> index in Elements(oo) && index in Elements(batch);
  }

  /** The critical section of commit_at on a batch that reaches at least `pending`. */
  method TakeBatch(last: int, pending: int, q: seq<Ballot>, flags: seq<bool>, batch: seq<int>, peer: PeerId,
                   ghost s: Leadership)
    returns (last': int, pending': int, q': seq<Ballot>, flags': seq<bool>, oo: seq<int>)
    requires BoxInv(last, pending, q, flags, s)
    requires Ascending(batch) && InRange(s, batch) && pending <= batch[|batch| - 1]
    ensures BoxInv(last', pending', q', flags', Ack(s, batch, peer))
    ensures StrictlyAscending(oo) && Elements(oo) == Committed(Ack(s, batch, peer)) - Committed(s)
    ensures last' == if oo != [] && pending in batch then pending' - 1 else last
  {
    var granted, marked, front;
    granted, marked, oo, front := GrantRest(q, flags, pending, batch, peer, s);
    if oo != [] && front == pending {
      var n;
      q', flags', n := PopCommitted(granted, marked);
      BoxAfterBatch(last, pending, granted, marked, s, batch, peer, n);
      return pending + n - 1, pending + n, q', flags', oo;
    }
    CommittedAfter(s, batch, peer);
    StaysOpen(oo, batch, Committed(s), Committed(Ack(s, batch, peer)), pending);
    BoxAfterBatch(last, pending, granted, marked, s, batch, peer, 0);
    return last, pending, granted, marked, oo;
  }

  /** Popping the committed slots settles the box in its new state. */
  lemma BoxAfterBatch(last: int, pending: int, q: seq<Ballot>, flags: seq<bool>, s: Leadership, batch: seq<int>,
                      peer: PeerId, n: nat)
    requires 0 <= s.reset <= pending && InRange(s, batch) && Ascending(batch) && AcksInRange(s)
    requires IsFront(Committed(s), s.reset, pending)
    requires |q| == |flags| && pending + |q| == s.reset + |s.tasks|
    requires QueueMatches(q, Ack(s, batch, peer), pending) && FlagsMatch(flags, Committed(Ack(s, batch, peer)), pending)
    requires n <= |flags| && (forall k :: 0 <= k < n ==> flags[k])
    requires if n < |flags| then !flags[n] else pending + n == s.reset + |s.tasks|
    requires 0 <= last < pending && (pending > s.reset ==> last == pending - 1)
    ensures BoxInv(pending + n - 1, pending + n, q[n..], flags[n..], Ack(s, batch, peer))
    ensures n == 0 ==> BoxInv(last, pending, q, flags, Ack(s, batch, peer))
  {
    var t := Ack(s, batch, peer);
    CommittedAfter(s, batch, peer);
    AckKeepsRange(s, batch, peer);
    QueueAfterPop(q, t, pending, n);
    FrontAfterPop(flags, Committed(s), Committed(t), s.reset, pending, n);
    assert q[0..] == q && flags[0..] == flags;
  }

  lemma QueueAfterPop(q: seq<Ballot>, s: Leadership, pending: int, n: nat)
    requires s.reset <= pending && pending + |q| <= s.reset + |s.tasks| && n <= |q|
    requires QueueMatches(q, s, pending)
    ensures QueueMatches(q[n..], s, pending + n)
  {
    var q' := q[n..];
    forall k | 0 <= k < |q'| ensures StandsFor(q'[k], s, pending + n + k) {
      assert StandsFor(q[n + k], s, pending + (n + k));
    }
  }

  lemma FrontAfterPop(flags: seq<bool>, c: set<int>, c': set<int>, lo: int, pending: int, n: nat)
    requires IsFront(c, lo, pending) && c <= c'
    requires FlagsMatch(flags, c', pending) && n <= |flags| && (forall k :: 0 <= k < n ==> flags[k])
    requires if n < |flags| then !flags[n] else pending + n !in c'
    ensures IsFront(c', lo, pending + n) && FlagsMatch(flags[n..], c', pending + n)
  {
    forall i | lo <= i < pending + n ensures i in c' {
      if pending <= i {
        assert flags[i - pending] <==> pending + (i - pending) in c';
      }
    }
    var rest := flags[n..];
    forall k | 0 <= k < |rest| ensures rest[k] <==> pending + n + k in c' {
      assert flags[n + k] <==> pending + (n + k) in c';
    }
    assert n < |flags| ==> (flags[n] <==> pending + n in c');
  }

  class BallotBox {
    var lastCommittedIndex: int
    var pendingIndex: int
    var pendingMetaQueue: seq<Ballot>
    var committedIndexQueue: seq<bool>
    ghost var spec: Leadership

    ghost predicate Valid()
      reads this
    {
      BoxInv(lastCommittedIndex, pendingIndex, pendingMetaQueue, committedIndexQueue, spec)
    }

    constructor ()
      ensures Valid()
      ensures spec == Leadership(0, [], map[]) && lastCommittedIndex == 0 && pendingIndex == 0
      ensures committedIndexQueue == []
    {
      lastCommittedIndex, pendingIndex := 0, 0;
      pendingMetaQueue, committedIndexQueue := [], [];
      spec := Leadership(0, [], map[]);
    }

    method ResetPendingIndex(newPendingIndex: int)
      requires Valid()
      requires pendingIndex == 0
      requires newPendingIndex > lastCommittedIndex
      modifies this
      ensures Valid()
      ensures spec == Leadership(newPendingIndex, [], map[]) && pendingIndex == newPendingIndex
      ensures lastCommittedIndex == old(lastCommittedIndex) && committedIndexQueue == []
    {
      pendingIndex := newPendingIndex;
      spec := Leadership(newPendingIndex, [], map[]);
    }

    method AppendPendingTask(conf: Configuration, oldConf: Option<Configuration>)
      requires Valid()
      requires pendingIndex > 0 && IsTask(Task(conf, oldConf))
      modifies this
      ensures Valid()
      ensures spec == Propose(old(spec), Task(conf, oldConf))
      ensures pendingIndex == old(pendingIndex) && lastCommittedIndex == old(lastCommittedIndex)
      ensures committedIndexQueue == old(committedIndexQueue) + [false]
    {
      var bl := InitBallot(conf, oldConf);
      BoxAfterPropose(lastCommittedIndex, pendingIndex, pendingMetaQueue, committedIndexQueue, spec,
                      Task(conf, oldConf), bl);
      pendingMetaQueue := pendingMetaQueue + [bl];
      committedIndexQueue := committedIndexQueue + [false];
      spec := Propose(spec, Task(conf, oldConf));
    }

    /**
     * Records that `peer` holds the given indexes, up to where the mutex is let go. On an ascending batch the box
     * afterwards is the one its tasks and acknowledgements determine, and `oo` lists exactly the indexes that became
     * committed.
     */
    method CommitAt(commitIndexes: seq<int>, peer: PeerId) returns (code: int, oo: seq<int>)
      requires Valid() && Ascending(commitIndexes)
      modifies this
      ensures Valid()
      ensures spec == Ack(old(spec), commitIndexes, peer)
      ensures code == EINVAL <==> old(pendingIndex) == 0
      ensures code == ERANGE <==> old(pendingIndex) != 0 && commitIndexes != [] &&
                                  commitIndexes[|commitIndexes| - 1] >= spec.reset + |spec.tasks|
      ensures StrictlyAscending(oo) && Elements(oo) == Committed(spec) - Committed(old(spec))
      ensures oo == [] <==> Committed(spec) == Committed(old(spec))
      ensures lastCommittedIndex ==
              if oo != [] && old(pendingIndex) in commitIndexes then pendingIndex - 1 else old(lastCommittedIndex)
    {
      oo := [];
      assert Elements(oo) == Committed(spec) - Committed(spec);
      if pendingIndex == 0 {
        return EINVAL, [];
      }
      if commitIndexes == [] {
        return 0, [];
      }
      if commitIndexes[|commitIndexes| - 1] < pendingIndex {
        StaleBatch(lastCommittedIndex, pendingIndex, pendingMetaQueue, committedIndexQueue, spec, commitIndexes, peer);
        spec := Ack(spec, commitIndexes, peer);
        return 0, [];
      }
      if commitIndexes[|commitIndexes| - 1] >= pendingIndex + |pendingMetaQueue| {
        return ERANGE, [];
      }
      ghost var before, after := Committed(spec), Committed(Ack(spec, commitIndexes, peer));
      CommittedAfter(spec, commitIndexes, peer);
      lastCommittedIndex, pendingIndex, pendingMetaQueue, committedIndexQueue, oo :=
        TakeBatch(lastCommittedIndex, pendingIndex, pendingMetaQueue, committedIndexQueue, commitIndexes, peer, spec);
      spec := Ack(spec, commitIndexes, peer);
      NothingNew(oo, before, after);
      code := 0;
    }

    /** After the mutex is let go: the last committed index is loaded only now, whatever has happened since. */
    method Notify(oo: seq<int>) returns (notice: Notice)
      ensures notice == Notice(lastCommittedIndex, oo)
    {
      return Notice(lastCommittedIndex, oo);
    }

    /** Lists the committed indexes that still wait for an earlier one. */
    method OoCommittedIndexes() returns (pending: int, indexes: seq<int>)
      requires Valid()
      ensures pending == pendingIndex
      ensures StrictlyAscending(indexes)
      ensures forall i :: i in indexes <==> pendingIndex <= i && i in Committed(spec)
    {
      indexes := [];
      for k := 0 to |committedIndexQueue|
        invariant StrictlyAscending(indexes)
        invariant forall i :: i in indexes <==> pendingIndex <= i < pendingIndex + k && i in Committed(spec)
      {
        if committedIndexQueue[k] {
          assert forall n :: 0 <= n < |indexes| ==> indexes[n] in indexes;
          indexes := indexes + [pendingIndex + k];
        }
      }
      return pendingIndex, indexes;
    }

    /** A follower's commit index only moves forward; a leader refuses to be told. */
    method SetLastCommittedIndex(lastCommitted: int, ooCommitted: seq<int>) returns (code: int, notice: Option<Notice>)
      requires Valid()
      requires pendingIndex != 0 ==> lastCommitted < pendingIndex
      modifies this
      ensures Valid()
      ensures spec == old(spec) && pendingIndex == old(pendingIndex)
      ensures code == -1 <==> old(pendingIndex) != 0
      ensures code == EINVAL <==> old(pendingIndex) == 0 && lastCommitted < old(lastCommittedIndex)
      ensures lastCommittedIndex == if code == 0 then lastCommitted else old(lastCommittedIndex)
      ensures notice ==
              if lastCommittedIndex > old(lastCommittedIndex) then Some(Notice(lastCommitted, ooCommitted)) else None
    {
      if pendingIndex != 0 || pendingMetaQueue != [] {
        return -1, None;
      }
      if lastCommitted < lastCommittedIndex {
        return EINVAL, None;
      }
      if lastCommitted > lastCommittedIndex {
        lastCommittedIndex := lastCommitted;
        return 0, Some(Notice(lastCommitted, ooCommitted));
      }
      return 0, None;
    }
  }
}
