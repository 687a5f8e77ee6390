/**
 * One leadership end to end: replicators collect acknowledgements from followers, the ballot box counts
 * them, and whatever it reports as committed is in the logs of a quorum.
 */
module CommitSoundness {
  import opened Core
  import opened Ballots
  import opened CommitSpec

  /**
   * `logs` holds the indexes each peer has accepted, the leader included; `given` what each replicator has
   * already passed on.
   */
  datatype System = System(box: Progress, given: map<PeerId, set<int>>, logs: map<PeerId, set<int>>)

  datatype Action =
    | ProposeTask(task: Task)
    | Accept(peer: PeerId, index: int)
    | LeaderStable(self: PeerId, first: int, count: nat)
    | ReplySuccess(peer: PeerId, prev: int, n: nat, last: int, list: seq<int>)

  ghost function At(m: map<PeerId, set<int>>, p: PeerId): (r: set<int>) {
    if p in m then m[p] else {}
  }

  ghost function Holders(s: System, index: int): (r: set<PeerId>) {
    set p | p in s.logs && index in s.logs[p]
  }

  /** LeaderStableClosure acknowledges a contiguous run of the leader's own entries. */
  ghost function Range(first: int, count: nat): (r: seq<int>)
    ensures |r| == count && forall k :: 0 <= k < count ==> r[k] == first + k
    ensures forall i :: i in r ==> first <= i < first + count
  {
    if count == 0 then [] else Range(first, count - 1) + [first + count - 1]
  }

  method LeaderIndexes(first: int, count: nat) returns (indexes: seq<int>)
    ensures indexes == Range(first, count)
  {
    indexes := [];
    for k := 0 to count
      invariant indexes == Range(first, k)
    {
      indexes := indexes + [first + k];
    }
  }

  /** Followers answer honestly: a success covers the request's entries and the reported contiguous prefix. */
  ghost predicate Honest(s: System, a: Action) {
    match a
    case ProposeTask(task) => IsTask(task)
    case Accept(_, _) => true
    case LeaderStable(self, first, count) => forall i :: first <= i < first + count ==> i in At(s.logs, self)
    case ReplySuccess(peer, prev, n, last, list) =>
      && (forall i :: prev < i <= prev + n ==> i in At(s.logs, peer))
      && (forall i :: 1 <= i <= last ==> i in At(s.logs, peer))
      && StrictlyAscending(list)
      && forall i :: i in list <==> i !in At(s.given, peer) && (1 <= i < last || prev < i <= prev + n)
  }

  ghost function Do(s: System, a: Action): (r: System) {
    match a
    case ProposeTask(task) => s.(box := Step(s.box, Proposed(task)))
    case Accept(peer, index) => s.(logs := s.logs[peer := At(s.logs, peer) + {index}])
    case LeaderStable(self, first, count) => s.(box := Step(s.box, Acked(Range(first, count), self)))
    case ReplySuccess(peer, prev, n, last, list) =>
      s.(box := Step(s.box, Acked(list, peer)), given := s.given[peer := At(s.given, peer) + Elements(list)])
  }

  ghost predicate IsExecution(states: seq<System>, actions: seq<Action>) {
    && |states| == |actions| + 1
    && (forall k :: 0 <= k < |actions| ==> Honest(states[k], actions[k]) && states[k + 1] == Do(states[k], actions[k]))
  }

  ghost predicate Fresh(s: System) {
    && s.box.spec == Leadership(s.box.spec.reset, [], map[])
    && 0 <= s.box.last < s.box.spec.reset
    && s.given == map[]
  }

  /** Every acknowledgement counted is backed by the acknowledging peer's log. */
  ghost predicate Backed(s: System) {
    && 0 < s.box.spec.reset
    && AcksInRange(s.box.spec)
    && (forall i, p :: p in Ackers(s.box.spec, i) ==> i in At(s.logs, p))
    && s.box.last < Pending(s.box.spec)
  }

  lemma AckedBacked(s: System, batch: seq<int>, peer: PeerId)
    requires Backed(s) && Ascending(batch) && forall i :: i in batch ==> i in At(s.logs, peer)
    ensures Backed(s.(box := Step(s.box, Acked(batch, peer))))
  {
    var b := s.box.spec;
    var t := Ack(b, batch, peer);
    AckKeepsRange(b, batch, peer);
    forall i, p | p in Ackers(t, i) ensures i in At(s.logs, p) {
      if InRange(b, batch) {
        AckersAfter(b, batch, peer, i);
      }
    }
    CommittedAfter(b, batch, peer);
    assert Pending(t) < Pending(b) ==> b.reset <= Pending(t) < Pending(b);
  }

  lemma StepBacked(s: System, a: Action)
    requires Backed(s) && Honest(s, a)
    ensures Backed(Do(s, a))
  {
    match a {
      case ProposeTask(task) =>
        CommittedAfterPropose(s.box.spec, task);
        FrontIsUnique(Committed(s.box.spec), s.box.spec.reset, Pending(s.box.spec), Pending(Propose(s.box.spec, task)));
        assert forall i :: Ackers(Propose(s.box.spec, task), i) == Ackers(s.box.spec, i);
      case Accept(peer, index) =>
        assert forall p :: At(s.logs, p) <= At(Do(s, a).logs, p);
      case LeaderStable(self, first, count) =>
        AckedBacked(s, Range(first, count), self);
      case ReplySuccess(peer, prev, n, last, list) =>
        AckedBacked(s, list, peer);
    }
  }

  lemma {:induction false} RunBacked(states: seq<System>, actions: seq<Action>, k: nat)
    requires IsExecution(states, actions) && Fresh(states[0]) && k < |states|
    ensures Backed(states[k])
  {
    if k == 0 {
      assert forall i :: Ackers(states[0].box.spec, i) == {};
    } else {
      RunBacked(states, actions, k - 1);
      StepBacked(states[k - 1], actions[k - 1]);
    }
  }

  /** What is committed is held: every committed index is in the logs of a quorum of its own configuration. */
  lemma CommittedIsHeld(s: System, index: int)
    requires Backed(s) && index in Committed(s.box.spec)
    ensures var task := s.box.spec.tasks[index - s.box.spec.reset];
            HasQuorum(task.conf, task.oldConf, Holders(s, index))
  {
    var task := s.box.spec.tasks[index - s.box.spec.reset];
    forall p | p in Ackers(s.box.spec, index) ensures p in Holders(s, index) {
      assert index in At(s.logs, p);
    }
    QuorumGrows(task.conf, task.oldConf, Ackers(s.box.spec, index), Holders(s, index));
  }

  /**
   * Commit soundness: in every run of a leadership, each index from the reset point to the last committed one
   * is a proposed task held by a quorum of its configuration (jointly with the old one), and so is each index
   * committed out of order.
   */
  lemma CommitSound(states: seq<System>, actions: seq<Action>, k: nat, index: int)
    requires IsExecution(states, actions) && Fresh(states[0]) && k < |states|
    requires var b := states[k].box; b.spec.reset <= index <= b.last || index in Committed(b.spec)
    ensures var b := states[k].box;
            && b.spec.reset <= index < b.spec.reset + |b.spec.tasks|
            && var task := b.spec.tasks[index - b.spec.reset];
            HasQuorum(task.conf, task.oldConf, Holders(states[k], index))
  {
    RunBacked(states, actions, k);
    assert index in Committed(states[k].box.spec);
    CommittedIsHeld(states[k], index);
  }
}
