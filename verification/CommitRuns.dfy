/**
 * Whole runs of one leadership: what the box becomes depends on which tasks were proposed and which
 * acknowledgements were in range, not on how they were ordered, grouped or repeated.
 */
module CommitRuns {
  import opened Core
  import opened Ballots
  import opened CommitSpec
  import opened BallotBoxes

  ghost predicate IsRun(es: seq<Event>) {
    forall k :: 0 <= k < |es| ==>
      match es[k]
      case Proposed(task) => IsTask(task)
      case Acked(batch, _) => Ascending(batch)
  }

  ghost function Tasks(es: seq<Event>): (r: seq<Task>) {
    if es == [] then [] else
      var e := es[|es| - 1];
      Tasks(es[..|es| - 1]) + (if e.Proposed? then [e.task] else [])
  }

  /** `peer` acknowledged `index` in some batch that did not reach past the tasks proposed by then. */
  ghost predicate Accepted(reset: int, es: seq<Event>, index: int, peer: PeerId) {
    es != [] &&
    var front, e := es[..|es| - 1], es[|es| - 1];
    || Accepted(reset, front, index, peer)
    || (&& e.Acked? && e.peer == peer && index in e.batch && reset <= index
        && reset <= e.batch[|e.batch| - 1] < reset + |Tasks(front)|)
  }

  /** A run's specification is read off its proposals and accepted acknowledgements. */
  lemma {:induction false} RunSpec(reset: int, last: int, es: seq<Event>)
    requires reset > 0 && IsRun(es)
    ensures var s := Run(reset, last, es).spec;
            && s.reset == reset && s.tasks == Tasks(es) && AcksInRange(s)
            && forall i, p :: p in Ackers(s, i) <==> Accepted(reset, es, i, p)
  {
    if es == [] {
    } else {
      var front, e := es[..|es| - 1], es[|es| - 1];
      RunSpec(reset, last, front);
      var s, t := Run(reset, last, front).spec, Run(reset, last, es).spec;
      if e.Acked? {
        AckKeepsRange(s, e.batch, e.peer);
        forall i, p ensures p in Ackers(t, i) <==> Accepted(reset, es, i, p) {
          assert p in Ackers(s, i) <==> Accepted(reset, front, i, p);
          if InRange(s, e.batch) {
            AckersAfter(s, e.batch, e.peer, i);
          }
        }
      } else {
        forall i, p ensures p in Ackers(t, i) <==> Accepted(reset, es, i, p) {
          assert p in Ackers(s, i) <==> Accepted(reset, front, i, p);
        }
      }
    }
  }

  /** Same tasks, same accepted acknowledgements. */
  ghost predicate SameAcks(reset: int, es: seq<Event>, fs: seq<Event>) {
    && Tasks(es) == Tasks(fs)
    && forall i, p :: Accepted(reset, es, i, p) <==> Accepted(reset, fs, i, p)
  }

  /** Confluence: order, grouping and repetition of acknowledgements do not matter. */
  lemma Confluence(reset: int, last: int, es: seq<Event>, fs: seq<Event>)
    requires reset > 0 && IsRun(es) && IsRun(fs) && SameAcks(reset, es, fs)
    ensures Run(reset, last, es).spec == Run(reset, last, fs).spec
  {
    RunSpec(reset, last, es);
    RunSpec(reset, last, fs);
    var s, t := Run(reset, last, es).spec, Run(reset, last, fs).spec;
    forall i ensures Ackers(s, i) == Ackers(t, i) {
      forall p ensures p in Ackers(s, i) <==> p in Ackers(t, i) {
        assert Accepted(reset, es, i, p) <==> Accepted(reset, fs, i, p);
      }
    }
    forall i ensures i in s.acks <==> i in t.acks {
      assert Ackers(s, i) == Ackers(t, i);
    }
    assert s.acks.Keys == t.acks.Keys;
    forall i | i in s.acks ensures s.acks[i] == t.acks[i] {
      assert Ackers(s, i) == Ackers(t, i);
    }
    assert s.acks == t.acks;
  }

  /** Conversely, runs that end in the same specification differ in no accepted acknowledgement. */
  lemma SpecShowsAcks(reset: int, last: int, es: seq<Event>, fs: seq<Event>)
    requires reset > 0 && IsRun(es) && IsRun(fs)
    requires Run(reset, last, es).spec == Run(reset, last, fs).spec
    ensures SameAcks(reset, es, fs)
  {
    RunSpec(reset, last, es);
    RunSpec(reset, last, fs);
    var s := Run(reset, last, es).spec;
    forall i, p ensures Accepted(reset, es, i, p) <==> Accepted(reset, fs, i, p) {
      assert p in Ackers(s, i) <==> Accepted(reset, es, i, p);
    }
  }

  /** A specification determines every queue of the box, and its last committed index once anything is popped. */
  lemma BoxDetermined(s: Leadership, last1: int, pending1: int, q1: seq<Ballot>, flags1: seq<bool>,
                      last2: int, pending2: int, q2: seq<Ballot>, flags2: seq<bool>)
    requires BoxInv(last1, pending1, q1, flags1, s) && BoxInv(last2, pending2, q2, flags2, s)
    ensures pending1 == pending2 && q1 == q2 && flags1 == flags2
    ensures pending1 > s.reset ==> last1 == last2
    ensures flags1 != [] ==> !flags1[0]
  {
    FrontIsUnique(Committed(s), s.reset, pending1, pending2);
    forall k | 0 <= k < |q1| ensures q1[k] == q2[k] && flags1[k] == flags2[k] {
      assert StandsFor(q1[k], s, pending1 + k) && StandsFor(q2[k], s, pending2 + k);
    }
    assert flags1 != [] ==> (flags1[0] <==> pending1 + 0 in Committed(s));
  }

  /** What commit_at promises about the box is one step of the run specification. */
  lemma CommitAtIsStep(s: Leadership, batch: seq<int>, peer: PeerId,
                       last: int, pending: int, q: seq<Ballot>, flags: seq<bool>,
                       last': int, pending': int, q': seq<Ballot>, flags': seq<bool>)
    requires BoxInv(last, pending, q, flags, s) && BoxInv(last', pending', q', flags', Ack(s, batch, peer))
    requires last' == if Committed(Ack(s, batch, peer)) != Committed(s) && pending in batch then pending' - 1 else last
    ensures Step(Progress(s, last), Acked(batch, peer)) == Progress(Ack(s, batch, peer), last')
  {
    FrontIsUnique(Committed(s), s.reset, pending, Pending(s));
    var t := Ack(s, batch, peer);
    FrontIsUnique(Committed(t), t.reset, pending', Pending(t));
  }

  /** A step that does not store the last committed index does not move the pending index either. */
  lemma StepStays(b: Progress, e: Event)
    requires AcksInRange(b.spec)
    requires e.Acked? ==> Committed(Step(b, e).spec) == Committed(b.spec) || Pending(b.spec) !in e.batch
    ensures Pending(Step(b, e).spec) == Pending(b.spec) && Step(b, e).last == b.last
  {
    var t := Step(b, e).spec;
    match e {
      case Proposed(task) => CommittedAfterPropose(b.spec, task);
      case Acked(batch, peer) => CommittedAfter(b.spec, batch, peer);
    }
    FrontIsUnique(Committed(t), t.reset, Pending(b.spec), Pending(t));
  }

  /** The last committed index follows the pending index, or is still at one of two starting values. */
  lemma {:induction false} LastOfRun(reset: int, last: int, es: seq<Event>)
    requires 0 <= last < reset && IsRun(es)
    ensures var b := Run(reset, last, es);
            if Pending(b.spec) > reset then b.last == Pending(b.spec) - 1 else b.last == last || b.last == reset - 1
  {
    RunSpec(reset, last, es);
    if es == [] {
    } else {
      var front, e := es[..|es| - 1], es[|es| - 1];
      LastOfRun(reset, last, front);
      RunSpec(reset, last, front);
      var b, c := Run(reset, last, front), Run(reset, last, es);
      if e.Proposed? || Committed(c.spec) == Committed(b.spec) || Pending(b.spec) !in e.batch {
        StepStays(b, e);
      }
    }
  }

  /** All proposals of a leadership are made under the node's one configuration. */
  ghost predicate OneTask(es: seq<Event>, t: Task) {
    forall k :: 0 <= k < |es| && es[k].Proposed? ==> es[k].task == t
  }

  lemma {:induction false} TasksAreOne(es: seq<Event>, t: Task)
    requires OneTask(es, t)
    ensures forall k :: 0 <= k < |Tasks(es)| ==> Tasks(es)[k] == t
  {
    if es == [] {
    } else {
      TasksAreOne(es[..|es| - 1], t);
    }
  }

  /** Where single peers decide, a batch that names the reset index commits it along with anything else. */
  lemma ResetCommittedToo(s: Leadership, batch: seq<int>, peer: PeerId, t: Task)
    requires IsTask(t) && !NeedsTwo(t.conf, t.oldConf) && (forall k :: 0 <= k < |s.tasks| ==> s.tasks[k] == t)
    requires Committed(Ack(s, batch, peer)) != Committed(s) && s.reset in batch
    ensures s.reset in Committed(Ack(s, batch, peer))
  {
    var u := Ack(s, batch, peer);
    CommittedAfter(s, batch, peer);
    var i :| i in Committed(u) && i !in Committed(s);
    AckersAfter(s, batch, peer, i);
    CompletedAlone(t.conf, t.oldConf, Ackers(s, i), peer);
    AckersAfter(s, batch, peer, s.reset);
    QuorumGrows(t.conf, t.oldConf, {peer}, Ackers(u, s.reset));
  }

  /** Where single peers decide, the last committed index is not stored before anything is popped. */
  lemma {:induction false} LastUnstored(reset: int, last: int, es: seq<Event>, t: Task)
    requires 0 <= last < reset && IsRun(es) && OneTask(es, t) && IsTask(t) && !NeedsTwo(t.conf, t.oldConf)
    ensures var b := Run(reset, last, es); Pending(b.spec) == reset ==> b.last == last
  {
    if es == [] {
    } else {
      var front, e := es[..|es| - 1], es[|es| - 1];
      LastUnstored(reset, last, front, t);
      RunSpec(reset, last, front);
      TasksAreOne(front, t);
      var b := Run(reset, last, front);
      if e.Proposed? || Committed(Step(b, e).spec) == Committed(b.spec) || Pending(b.spec) !in e.batch {
        StepStays(b, e);
      } else if Pending(b.spec) == reset {
        ResetCommittedToo(b.spec, e.batch, e.peer, t);
      } else {
        CommittedAfter(b.spec, e.batch, e.peer);
        assert reset in Committed(b.spec);
      }
    }
  }

  /** The pending index alone determines the last committed one. */
  lemma LastDetermined(reset: int, last: int, es: seq<Event>, t: Task)
    requires 0 <= last < reset && IsRun(es) && OneTask(es, t) && IsTask(t)
    requires last == reset - 1 || !NeedsTwo(t.conf, t.oldConf)
    ensures var b := Run(reset, last, es); b.last == if Pending(b.spec) > reset then Pending(b.spec) - 1 else last
  {
    RunSpec(reset, last, es);
    LastOfRun(reset, last, es);
    if last < reset - 1 {
      LastUnstored(reset, last, es, t);
    }
  }

  /** Two tasks proposed, then the second one acknowledged by some peers, one after another. */
  ghost function Prepared(reset: int, t: Task, some: seq<PeerId>): (es: seq<Event>) {
    if some == [] then [Proposed(t), Proposed(t)]
    else Prepared(reset, t, some[..|some| - 1]) + [Acked([reset + 1], some[|some| - 1])]
  }

  /** One peer acknowledges both tasks, in one batch or in two. */
  ghost function Together(reset: int, t: Task, some: seq<PeerId>, p: PeerId): (es: seq<Event>) {
    Prepared(reset, t, some) + [Acked([reset, reset + 1], p)]
  }

  ghost function Apart(reset: int, t: Task, some: seq<PeerId>, p: PeerId): (es: seq<Event>) {
    Prepared(reset, t, some) + [Acked([reset + 1], p)] + [Acked([reset], p)]
  }

  /** Two tasks of which nobody but some peers has acknowledged the second, and at most `first` the first. */
  ghost predicate IsPair(s: Leadership, reset: int, t: Task, first: set<PeerId>, second: set<PeerId>) {
    && s.reset == reset > 0 && s.tasks == [t, t] && AcksInRange(s)
    && Ackers(s, reset) == first && Ackers(s, reset + 1) == second
  }

  lemma PairAcked(s: Leadership, reset: int, t: Task, first: set<PeerId>, second: set<PeerId>, batch: seq<int>,
                  p: PeerId)
    requires IsPair(s, reset, t, first, second) && IsTask(t)
    requires batch == [reset] || batch == [reset + 1] || batch == [reset, reset + 1]
    ensures IsPair(Ack(s, batch, p), reset, t, if reset in batch then first + {p} else first,
                   if reset + 1 in batch then second + {p} else second)
  {
    AckKeepsRange(s, batch, p);
    AckersAfter(s, batch, p, reset);
    AckersAfter(s, batch, p, reset + 1);
  }

  lemma PairCommits(s: Leadership, reset: int, t: Task, first: set<PeerId>, second: set<PeerId>)
    requires IsPair(s, reset, t, first, second) && !HasQuorum(t.conf, t.oldConf, first)
    ensures Committed(s) == if HasQuorum(t.conf, t.oldConf, second) then {reset + 1} else {}
    ensures Pending(s) == reset
  {
    assert forall i :: i in Committed(s) ==> i == reset || i == reset + 1;
    assert reset !in Committed(s);
  }

  lemma PairsAreEqual(s: Leadership, u: Leadership, reset: int, t: Task, first: set<PeerId>, second: set<PeerId>)
    requires IsPair(s, reset, t, first, second) && IsPair(u, reset, t, first, second)
    ensures s == u
  {
    forall i ensures Ackers(s, i) == Ackers(u, i) && (i in s.acks <==> i in u.acks) {
      assert i in s.acks || i in u.acks ==> i == reset || i == reset + 1;
      assert (i in s.acks <==> Ackers(s, i) != {}) && (i in u.acks <==> Ackers(u, i) != {});
    }
    forall i ensures i in s.acks.Keys <==> i in u.acks.Keys {
      assert Ackers(s, i) == Ackers(u, i);
    }
    assert s.acks.Keys == u.acks.Keys;
    forall i | i in s.acks ensures s.acks[i] == u.acks[i] {
      assert Ackers(s, i) == Ackers(u, i);
    }
    assert s.acks == u.acks;
  }

  lemma OneMoreEvent(reset: int, last: int, es: seq<Event>, e: Event, t: Task)
    requires IsRun(es) && OneTask(es, t) && e.Acked? && Ascending(e.batch)
    ensures IsRun(es + [e]) && OneTask(es + [e], t)
    ensures Run(reset, last, es + [e]) == Step(Run(reset, last, es), e)
  {
    assert (es + [e])[..|es|] == es;
  }

  /** One acknowledgement of a pair whose first task stays without a quorum. */
  lemma PairStep(b: Progress, reset: int, t: Task, first: set<PeerId>, second: set<PeerId>, batch: seq<int>, p: PeerId)
    requires IsPair(b.spec, reset, t, first, second) && IsTask(t)
    requires batch == [reset] || batch == [reset + 1] || batch == [reset, reset + 1]
    requires !HasQuorum(t.conf, t.oldConf, first) && !HasQuorum(t.conf, t.oldConf, first + {p})
    ensures var c := Step(b, Acked(batch, p));
            var second' := if reset + 1 in batch then second + {p} else second;
            && IsPair(c.spec, reset, t, if reset in batch then first + {p} else first, second')
            && c.last == if && reset in batch && !HasQuorum(t.conf, t.oldConf, second)
                            && HasQuorum(t.conf, t.oldConf, second')
                         then reset - 1 else b.last
  {
    PairAcked(b.spec, reset, t, first, second, batch, p);
    PairCommits(b.spec, reset, t, first, second);
    var u := Ack(b.spec, batch, p);
    PairCommits(u, reset, t, if reset in batch then first + {p} else first,
                if reset + 1 in batch then second + {p} else second);
    if HasQuorum(t.conf, t.oldConf, second) {
      QuorumGrows(t.conf, t.oldConf, second, second + {p});
    }
    assert {reset + 1} != {};
  }

  lemma {:induction false} PreparedRun(reset: int, last: int, t: Task, some: seq<PeerId>)
    requires 0 <= last < reset && IsTask(t) && NeedsTwo(t.conf, t.oldConf)
    ensures IsRun(Prepared(reset, t, some)) && OneTask(Prepared(reset, t, some), t)
    ensures var b := Run(reset, last, Prepared(reset, t, some));
            b.last == last && IsPair(b.spec, reset, t, {}, Elements(some))
  {
    if some == [] {
      TwoProposals(reset, last, t);
      assert Elements(some) == {};
    } else {
      var front, p := some[..|some| - 1], some[|some| - 1];
      PreparedRun(reset, last, t, front);
      var es := Prepared(reset, t, front);
      OneMoreEvent(reset, last, es, Acked([reset + 1], p), t);
      NobodyDecides(t, p);
      PairStep(Run(reset, last, es), reset, t, {}, Elements(front), [reset + 1], p);
      assert some == front + [p];
      assert Elements(some) == Elements(front) + {p};
    }
  }

  lemma NobodyDecides(t: Task, p: PeerId)
    requires IsTask(t) && NeedsTwo(t.conf, t.oldConf)
    ensures !HasQuorum(t.conf, t.oldConf, {}) && !HasQuorum(t.conf, t.oldConf, {} + {p}) && {} + {p} == {p}
  {
    CountNone(t.conf);
    NoSingleQuorum(t.conf, t.oldConf, p);
    assert {} + {p} == {p};
  }

  lemma TwoProposals(reset: int, last: int, t: Task)
    requires IsTask(t) && reset > 0
    ensures var es := [Proposed(t), Proposed(t)];
            && Run(reset, last, es) == Progress(Leadership(reset, [t, t], map[]), last)
            && IsRun(es) && OneTask(es, t)
  {
    var es := [Proposed(t), Proposed(t)];
    var one := [Proposed(t)];
    assert es[..1] == one && one[..0] == [];
    assert Run(reset, last, one).spec.tasks == [t];
    assert Run(reset, last, es).spec.tasks == [t, t];
  }

  /** A batch that completes the second task's quorum and names the first one stores the last committed index. */
  lemma TogetherLast(reset: int, last: int, t: Task, some: seq<PeerId>, p: PeerId)
    requires 0 <= last < reset && IsTask(t) && NeedsTwo(t.conf, t.oldConf)
    requires !HasQuorum(t.conf, t.oldConf, Elements(some)) && HasQuorum(t.conf, t.oldConf, Elements(some) + {p})
    ensures var es := Together(reset, t, some, p);
            && IsRun(es) && OneTask(es, t) && Run(reset, last, es).last == reset - 1
            && IsPair(Run(reset, last, es).spec, reset, t, {p}, Elements(some) + {p})
  {
    PreparedRun(reset, last, t, some);
    var front := Prepared(reset, t, some);
    OneMoreEvent(reset, last, front, Acked([reset, reset + 1], p), t);
    NobodyDecides(t, p);
    PairStep(Run(reset, last, front), reset, t, {}, Elements(some), [reset, reset + 1], p);
  }

  /** The same acknowledgements in two batches do not. */
  lemma ApartLast(reset: int, last: int, t: Task, some: seq<PeerId>, p: PeerId)
    requires 0 <= last < reset && IsTask(t) && NeedsTwo(t.conf, t.oldConf)
    requires HasQuorum(t.conf, t.oldConf, Elements(some) + {p})
    ensures var es := Apart(reset, t, some, p);
            && IsRun(es) && OneTask(es, t) && Run(reset, last, es).last == last
            && IsPair(Run(reset, last, es).spec, reset, t, {p}, Elements(some) + {p})
  {
    PreparedRun(reset, last, t, some);
    var front := Prepared(reset, t, some);
    var more := front + [Acked([reset + 1], p)];
    OneMoreEvent(reset, last, front, Acked([reset + 1], p), t);
    OneMoreEvent(reset, last, more, Acked([reset], p), t);
    NobodyDecides(t, p);
    PairStep(Run(reset, last, front), reset, t, {}, Elements(some), [reset + 1], p);
    PairStep(Run(reset, last, more), reset, t, {}, Elements(some) + {p}, [reset], p);
  }

  /** The same acknowledgements, together or apart, leave different last committed indexes. */
  lemma OrderShows(reset: int, last: int, t: Task) returns (es: seq<Event>, fs: seq<Event>)
    requires 0 <= last < reset - 1 && IsTask(t) && NeedsTwo(t.conf, t.oldConf)
    ensures IsRun(es) && IsRun(fs) && OneTask(es, t) && OneTask(fs, t) && SameAcks(reset, es, fs)
    ensures Run(reset, last, es).last == reset - 1 && Run(reset, last, fs).last == last
  {
    var some, p := QuorumIsCompleted(t.conf, t.oldConf);
    TogetherLast(reset, last, t, some, p);
    ApartLast(reset, last, t, some, p);
    es, fs := Together(reset, t, some, p), Apart(reset, t, some, p);
    PairsAreEqual(Run(reset, last, es).spec, Run(reset, last, fs).spec, reset, t, {p}, Elements(some) + {p});
    SpecShowsAcks(reset, last, es, fs);
  }

  ghost predicate LastIsConfluent(reset: int, last: int, t: Task) {
    forall es, fs :: IsRun(es) && IsRun(fs) && OneTask(es, t) && OneTask(fs, t) && SameAcks(reset, es, fs) ==>
      Run(reset, last, es).last == Run(reset, last, fs).last
  }

  /**
   * In a leadership with one configuration the last committed index is order-independent exactly when everything
   * before the reset point is committed at the start, or no quorum takes two peers.
   */
  lemma LastConfluentIff(reset: int, last: int, t: Task)
    requires 0 <= last < reset && IsTask(t)
    ensures LastIsConfluent(reset, last, t) <==> last == reset - 1 || !NeedsTwo(t.conf, t.oldConf)
  {
    if last == reset - 1 || !NeedsTwo(t.conf, t.oldConf) {
      forall es, fs | IsRun(es) && IsRun(fs) && OneTask(es, t) && OneTask(fs, t) && SameAcks(reset, es, fs)
        ensures Run(reset, last, es).last == Run(reset, last, fs).last
      {
        Confluence(reset, last, es, fs);
        LastDetermined(reset, last, es, t);
        LastDetermined(reset, last, fs, t);
      }
    } else {
      var es, fs := OrderShows(reset, last, t);
    }
  }
}
