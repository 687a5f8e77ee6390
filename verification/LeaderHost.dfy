/** The steps of a leadership are what its replicators and its ballot box do, and what its followers say is true. */
module LeaderHosts {
  import opened Core
  import opened Ballots
  import opened CommitSpec
  import opened BallotBoxes
  import opened CommitRuns
  import opened CommitSoundness
  import opened Replicators
  import AckWindows
  import Followers

  /** The box is in the state that the run says. */
  ghost predicate Plays(box: BallotBox, s: System)
    reads box
  {
    box.Valid() && s.box == Progress(box.spec, box.lastCommittedIndex)
  }

  /** Replicators with nothing in flight that have given what the run says. */
  ghost predicate Started(rs: map<PeerId, Replicator>, s: System)
    reads rs.Values
  {
    forall p :: p in rs ==> rs[p].Valid() && rs[p].given == At(s.given, p) && rs[p].appendEntriesInFly == []
  }

  /** A replicator for every other peer, none of which has given anything yet. */
  method StartReplicators(self: PeerId, peers: seq<PeerId>, lastLogIndex: nat, maxEntriesSize: nat,
                          maxParallelRpcNum: nat)
    returns (rs: map<PeerId, Replicator>)
    ensures rs.Keys == Elements(peers) - {self}
    ensures forall p :: p in rs ==>
              fresh(rs[p]) && rs[p].Valid() && rs[p].given == {} && rs[p].appendEntriesInFly == []
  {
    rs := map[];
    for k := 0 to |peers|
      invariant rs.Keys == Elements(peers[..k]) - {self}
      invariant forall p :: p in rs ==>
                  fresh(rs[p]) && rs[p].Valid() && rs[p].given == {} && rs[p].appendEntriesInFly == []
    {
      assert peers[..k + 1] == peers[..k] + [peers[k]];
      assert Elements(peers[..k + 1]) == Elements(peers[..k]) + {peers[k]};
      if peers[k] != self {
        var r := new Replicator(lastLogIndex, maxEntriesSize, maxParallelRpcNum);
        rs := rs[peers[k] := r];
      }
    }
    assert peers[..|peers|] == peers;
  }

  /** become_leader: a leadership starts with its replicators and a box that counts from the end of the log. */
  method BecomeLeader(box: BallotBox, self: PeerId, peers: seq<PeerId>, lastLogIndex: nat, maxEntriesSize: nat,
                      maxParallelRpcNum: nat, ghost logs: map<PeerId, set<int>>)
    returns (rs: map<PeerId, Replicator>, ghost s: System)
    requires box.Valid() && box.pendingIndex == 0 && box.lastCommittedIndex <= lastLogIndex
    modifies box
    ensures Fresh(s) && s.logs == logs && s.box.spec.reset == lastLogIndex + 1
    ensures Plays(box, s) && Started(rs, s) && rs.Keys == Elements(peers) - {self}
  {
    rs := StartReplicators(self, peers, lastLogIndex, maxEntriesSize, maxParallelRpcNum);
    box.ResetPendingIndex(lastLogIndex + 1);
    s := System(Progress(box.spec, box.lastCommittedIndex), map[], logs);
  }

  /** commit_at on a box that plays the run is one acknowledged step of it. */
  method Acknowledge(box: BallotBox, batch: seq<int>, peer: PeerId, ghost s: System)
    requires Plays(box, s) && Ascending(batch)
    modifies box
    ensures Plays(box, s.(box := Step(s.box, Acked(batch, peer))))
  {
    ghost var spec, last, pending, q, flags :=
      box.spec, box.lastCommittedIndex, box.pendingIndex, box.pendingMetaQueue, box.committedIndexQueue;
    var code, oo := box.CommitAt(batch, peer);
    CommitAtIsStep(spec, batch, peer, last, pending, q, flags,
                   box.lastCommittedIndex, box.pendingIndex, box.pendingMetaQueue, box.committedIndexQueue);
  }

  method Propose(box: BallotBox, conf: Configuration, oldConf: Option<Configuration>, ghost s: System)
    requires Plays(box, s) && box.pendingIndex > 0 && IsTask(Task(conf, oldConf))
    modifies box
    ensures Honest(s, ProposeTask(Task(conf, oldConf))) && Plays(box, Do(s, ProposeTask(Task(conf, oldConf))))
  {
    box.AppendPendingTask(conf, oldConf);
  }

  /** The leader's own entries have become stable. */
  method OnStable(box: BallotBox, self: PeerId, first: int, count: nat, ghost s: System)
    requires Plays(box, s) && forall i :: first <= i < first + count ==> i in At(s.logs, self)
    modifies box
    ensures Honest(s, LeaderStable(self, first, count)) && Plays(box, Do(s, LeaderStable(self, first, count)))
  {
    var indexes := LeaderIndexes(first, count);
    Acknowledge(box, indexes, self, s);
  }

  /** What a successful reply claims about its sender's log. */
  ghost predicate IsTrue(log: set<int>, prev: int, n: nat, last: int) {
    (forall i :: prev < i <= prev + n ==> i in log) && (forall i :: 1 <= i <= last ==> i in log)
  }

  /**
   * A reply from `peer`: what its replicator gives to commit_at is a step of the run, and a reply that gives nothing
   * leaves the run where it is.
   */
  method OnReply(r: Replicator, box: BallotBox, peer: PeerId, callId: nat, prev: int, n: nat, reply: AckWindows.Reply,
                 nextCallId: nat, ghost s: System)
    returns (acked: Option<seq<int>>, inRange: bool)
    requires r.Valid() && Plays(box, s) && r.given == At(s.given, peer)
    requires forall k :: 0 <= k < |r.appendEntriesInFly| && r.appendEntriesInFly[k].callId == callId ==>
               r.appendEntriesInFly[k].logIndex == prev + 1 && r.appendEntriesInFly[k].entriesSize == n
    requires reply.Rejected? ==> reply.lastLogIndex >= 0
    requires reply.Accepted? ==> IsTrue(At(s.logs, peer), prev, n, reply.lastLogIndex)
    modifies r, box
    ensures inRange ==> r.Valid()
    ensures !inRange ==> reply.Accepted? && reply.lastLogIndex > old(r.ooStartIndex + |r.ooCommittedEntries|)
    ensures acked.None? ==> Plays(box, s) && r.given == At(s.given, peer)
    ensures acked.Some? ==>
              && reply.Accepted?
              && var a := ReplySuccess(peer, prev, n, reply.lastLogIndex, acked.value);
              Honest(s, a) && Plays(box, Do(s, a)) && r.given == At(Do(s, a).given, peer)
  {
    acked, inRange := r.OnRpcReturned(callId, prev, n, reply, nextCallId);
    if acked.Some? {
      Acknowledge(box, acked.value, peer, s);
    }
  }

  /** A follower that starts empty and meets no mismatch claims nothing in its replies that is not so. */
  lemma FollowersAreTrue(lookBack: nat, states: seq<Followers.State>, events: seq<Followers.Event>, k: nat, m: nat,
                         s: System, peer: PeerId)
    requires Followers.IsRun(lookBack, states, events) && k < m < |states|
    requires events[k].answer.Accepted? && Followers.MeetsNoMismatch(states[k], events[k])
    requires states[m].log.Keys <= At(s.logs, peer)
    ensures IsTrue(At(s.logs, peer), events[k].r.prev, |events[k].r.entries|, states[m].last)
  {
    Followers.RepliesAreTrue(lookBack, states, events, k, m);
  }
}
