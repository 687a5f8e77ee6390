/** One node's part of the election protocol; each method is what runs under the node's mutex. */
module Nodes {
  import opened Core
  import opened Ballots

  datatype Role = Leader | Candidate | Follower

  /** The pair kept on disk. */
  datatype Meta = Meta(term: int, votedFor: Option<PeerId>)

  /**
   * The fixed membership, with the old configuration while it is in its joint stage. `callers` are the peers whose
   * port lets them ask for pre-votes.
   */
  datatype Group = Group(conf: Configuration, oldConf: Option<Configuration>, callers: set<PeerId>)

  predicate Contains(g: Group, p: PeerId) {
    p in g.conf || (g.oldConf.Some? && p in g.oldConf.value)
  }

  ghost predicate IsGroup(g: Group) {
    IsSet(g.conf) && (g.oldConf.Some? ==> IsSet(g.oldConf.value))
  }

  ghost predicate Quorum(g: Group, granters: set<PeerId>) {
    HasQuorum(g.conf, g.oldConf, granters)
  }

  /**
   * A node as the protocol sees it: `granters` stands for the vote context, `preVoters` for the pre-vote context,
   * which is not there before the process first asks for pre-votes.
   */
  datatype NodeState = NodeState(self: PeerId, term: int, voted: Option<PeerId>, role: Role, leader: Option<PeerId>,
                                 granters: set<PeerId>, preVoters: Option<set<PeerId>>, meta: Meta)

  ghost function SteppedDown(n: NodeState, term: int): (r: NodeState) {
    var m := n.(leader := None, role := Follower);
    if term > n.term then m.(term := term, voted := None, meta := Meta(term, None)) else m
  }

  ghost function Standing(g: Group, n: NodeState): (r: NodeState) {
    if Contains(g, n.self)
    then n.(leader := None, role := Candidate, term := n.term + 1, voted := Some(n.self), granters := {})
    else n
  }

  /** A new pre-vote context that the node itself has granted. */
  ghost function PreVoting(g: Group, n: NodeState): (r: NodeState) {
    if n.self in g.callers then n.(preVoters := Some({n.self})) else n
  }

  ghost function PreCounted(n: NodeState, peer: PeerId): (r: set<PeerId>) {
    (if n.preVoters.Some? then n.preVoters.value else {}) + {peer}
  }

  /** A pre-vote that makes a quorum makes the node stand. */
  ghost function PreReplied(g: Group, n: NodeState, peer: PeerId, term: int, responseTerm: int,
                            granted: bool): (r: NodeState) {
    if n.role != Follower || term != n.term then n
    else if responseTerm > n.term then SteppedDown(n, responseTerm)
    else if !granted then n
    else
      var m := n.(preVoters := Some(PreCounted(n, peer)));
      if Quorum(g, PreCounted(n, peer)) then Standing(g, m) else m
  }

  /** The own vote is stored and counted. */
  ghost function SelfVoted(n: NodeState): (r: NodeState) {
    n.(meta := Meta(n.term, Some(n.self)), granters := n.granters + {n.self})
  }

  ghost function Leading(n: NodeState): (r: NodeState) {
    n.(role := Leader, leader := Some(n.self))
  }

  ghost function Elected(g: Group, n: NodeState): (r: NodeState) {
    if Quorum(g, n.granters) then Leading(n) else n
  }

  ghost function VotedFor(n: NodeState, candidate: PeerId): (r: NodeState) {
    var m := SteppedDown(n, n.term);
    m.(voted := Some(candidate), meta := m.meta.(votedFor := Some(candidate)))
  }

  ghost function Decided(n: NodeState, candidate: PeerId, term: int, logOk: bool): (r: NodeState) {
    if term == n.term && logOk && n.voted.None? then VotedFor(n, candidate) else n
  }

  ghost function Replied(g: Group, n: NodeState, peer: PeerId, term: int, responseTerm: int,
                         granted: bool): (r: NodeState) {
    if n.role != Candidate || term != n.term then n
    else if responseTerm > n.term then SteppedDown(n, responseTerm)
    else if granted then Elected(g, n.(granters := n.granters + {peer}))
    else n
  }

  /** The sender of an AppendEntries request is taken as leader unless one is already known. */
  ghost function Followed(n: NodeState, term: int, sender: PeerId): (r: NodeState) {
    var m := if term > n.term || n.role != Follower || n.leader.None? then SteppedDown(n, term) else n;
    if m.leader.None? then m.(leader := Some(sender)) else m
  }

  /** A second sender in one term makes the node leave the term. */
  ghost function Appended(n: NodeState, term: int, sender: PeerId): (r: NodeState) {
    if term < n.term then n else
      var m := Followed(n, term, sender);
      if m.leader == Some(sender) then m else SteppedDown(m, term + 1)
  }

  /** What is left after the process died and came back. */
  ghost function Restarted(n: NodeState): (r: NodeState) {
    NodeState(n.self, n.meta.term, n.meta.votedFor, Follower, None, {}, None, n.meta)
  }

  ghost function TimedOut(g: Group, n: NodeState, due: bool): (r: NodeState) {
    if n.role == Follower && due then PreVoting(g, n.(leader := None)) else n
  }

  /** With raft_step_down_when_vote_timedout the node steps down and asks for pre-votes; otherwise it stands again. */
  ghost function VoteTimedOut(g: Group, n: NodeState, retry: bool): (r: NodeState) {
    if n.role != Candidate then n
    else if retry then Standing(g, n)
    else PreVoting(g, SteppedDown(n, n.term))
  }

  /** In the joint stage, the peers recently reached and the node itself are no majority of the old configuration. */
  ghost predicate IsDeserted(g: Group, self: PeerId, recent: set<PeerId>) {
    g.oldConf.Some? && g.oldConf.value != [] && !Majority(g.oldConf.value, recent + {self})
  }

  /** The loop of check_dead_nodes. */
  method CountAlive(conf: Configuration, recent: set<PeerId>, self: PeerId) returns (alive: nat)
    ensures alive == Count(conf, recent + {self})
  {
    alive := 0;
    for i := 0 to |conf|
      invariant alive == Count(conf[..i], recent + {self})
    {
      assert conf[..i + 1][..i] == conf[..i];
      if conf[i] == self || conf[i] in recent {
        alive := alive + 1;
      }
    }
    assert conf[..|conf|] == conf;
  }

  class Node {
    const serverId: PeerId
    const group: Group
    var currentTerm: int
    var votedId: Option<PeerId>
    var state: Role
    var leaderId: Option<PeerId>
    var voteCtx: Ballot
    var prevoteCtx: Ballot
    var meta: Meta
    var voteTriggered: bool
    ghost var granters: set<PeerId>
    ghost var preVoters: Option<set<PeerId>>

    ghost predicate Valid()
      reads this
    {
      && IsGroup(group) && voteCtx == BallotOf(group.conf, group.oldConf, granters)
      && (preVoters.Some? ==> prevoteCtx == BallotOf(group.conf, group.oldConf, preVoters.value))
    }

    ghost function View(): (n: NodeState)
      reads this
    {
      NodeState(serverId, currentTerm, votedId, state, leaderId, granters, preVoters, meta)
    }

    /** A process starting, or starting again, from what is on disk. */
    constructor (serverId: PeerId, group: Group, meta: Meta, voteTriggered: bool)
      requires IsGroup(group)
      ensures Valid() && this.group == group
      ensures View() == NodeState(serverId, meta.term, meta.votedFor, Follower, None, {}, None, meta)
    {
      this.serverId, this.group, this.meta := serverId, group, meta;
      currentTerm, votedId, state, leaderId := meta.term, meta.votedFor, Follower, None;
      this.voteTriggered := voteTriggered;
      granters, preVoters := {}, None;
      prevoteCtx := Ballot([], 0, [], 0);
      var ctx := InitBallot(group.conf, group.oldConf);
      voteCtx := ctx;
    }

    method StepDown(term: int)
      requires Valid()
      modifies this
      ensures Valid() && View() == SteppedDown(old(View()), term)
      ensures state == Follower && leaderId.None? && granters == old(granters) && preVoters == old(preVoters)
      ensures if term > old(currentTerm) then currentTerm == term && votedId.None? && meta == Meta(term, None)
              else currentTerm == old(currentTerm) && votedId == old(votedId) && meta == old(meta)
    {
      leaderId := None;
      state := Follower;
      if term > currentTerm {
        currentTerm := term;
        votedId := None;
        meta := Meta(term, votedId);
      }
    }

    /** Asks the other peers for pre-votes, if the port lets it, and grants its own. */
    method PreVote() returns (asked: bool)
      requires Valid()
      modifies this`prevoteCtx, this`preVoters
      ensures Valid() && View() == PreVoting(group, old(View())) && asked == (serverId in group.callers)
    {
      if serverId !in group.callers {
        return false;
      }
      var ctx := InitBallot(group.conf, group.oldConf);
      var own, _ := ctx.Grant(serverId, PosHint(-1, -1), group.conf, group.oldConf, {});
      assert {} + {serverId} == {serverId};
      prevoteCtx, preVoters := own, Some({serverId});
      return true;
    }

    /** handle_prevote up to where it lets go of the mutex; a stale request is answered at once. */
    method ArrivePreVote(term: int) returns (goesOn: bool)
      requires Valid()
      ensures goesOn == (term >= currentTerm)
    {
      return term >= currentTerm;
    }

    /** elect_self up to where it lets go of the mutex. */
    method BeginElect() returns (oldTerm: int, standing: bool)
      requires Valid()
      modifies this
      ensures Valid() && View() == Standing(group, old(View()))
      ensures standing == (serverId in group.conf || (group.oldConf.Some? && serverId in group.oldConf.value))
      ensures oldTerm == currentTerm && meta == old(meta)
      ensures standing ==>
                && state == Candidate && currentTerm == old(currentTerm) + 1 && votedId == Some(serverId)
                && leaderId.None? && granters == {}
      ensures !standing ==> View() == old(View())
    {
      if !Contains(group, serverId) {
        return currentTerm, false;
      }
      leaderId := None;
      state := Candidate;
      currentTerm := currentTerm + 1;
      votedId := Some(serverId);
      var ctx := InitBallot(group.conf, group.oldConf);
      voteCtx := ctx;
      granters := {};
      return currentTerm, true;
    }

    /** A pre-vote of another peer; a quorum of them leads to elect_self. */
    method HandlePreVoteResponse(peer: PeerId, term: int, responseTerm: int, granted: bool) returns (standing: bool)
      requires Valid() && preVoters.Some?
      modifies this
      ensures Valid() && View() == PreReplied(group, old(View()), peer, term, responseTerm, granted)
      ensures standing <==> state == Candidate && currentTerm > old(currentTerm)
      ensures old(state) != Follower || term != old(currentTerm) ==> View() == old(View())
      ensures old(state) == Follower && term == old(currentTerm) && responseTerm > term ==>
                state == Follower && currentTerm == responseTerm && meta == Meta(responseTerm, None)
      ensures old(state) == Follower && term == old(currentTerm) && responseTerm <= term ==>
                && preVoters == Some(if granted then old(preVoters).value + {peer} else old(preVoters).value)
                && (standing <==> granted && Contains(group, serverId) && Quorum(group, preVoters.value))
    {
      if state != Follower || term != currentTerm {
        return false;
      }
      if responseTerm > currentTerm {
        StepDown(responseTerm);
        return false;
      }
      if granted {
        var ctx, _ := prevoteCtx.Grant(peer, PosHint(-1, -1), group.conf, group.oldConf, preVoters.value);
        prevoteCtx, preVoters := ctx, Some(preVoters.value + {peer});
        GrantedIffQuorum(group.conf, group.oldConf, preVoters.value);
        if prevoteCtx.Granted() {
          var _, stands := BeginElect();
          return stands;
        }
      }
      return false;
    }

    /**
     * The rest of elect_self: requests go out, the vote is stored, and a node that needs nobody else leads.
     * `checkFailed` tells that become_leader's state check stopped the process.
     */
    method FinishElect(oldTerm: int) returns (requested: bool, checkFailed: bool)
      requires Valid()
      modifies this
      ensures Valid() && requested == (oldTerm == old(currentTerm))
      ensures checkFailed <==>
              requested && old(state) != Candidate && Quorum(group, old(granters) + {serverId})
      ensures View() == if !requested then old(View())
                        else if checkFailed then SelfVoted(old(View()))
                        else Elected(group, SelfVoted(old(View())))
      ensures requested ==> meta == Meta(currentTerm, Some(serverId)) && granters == old(granters) + {serverId}
      ensures requested && !checkFailed ==>
                if Quorum(group, granters) then state == Leader && leaderId == Some(serverId)
                else state == old(state) && leaderId == old(leaderId)
    {
      if oldTerm != currentTerm {
        return false, false;
      }
      meta := Meta(currentTerm, Some(serverId));
      var failed := GrantVote(serverId);
      return true, failed;
    }

    /** Counts a vote and leads once the ballot is granted. */
    method GrantVote(peer: PeerId) returns (checkFailed: bool)
      requires Valid()
      modifies this
      ensures Valid()
      ensures var n := old(View()).(granters := old(granters) + {peer});
              && (checkFailed <==> Quorum(group, n.granters) && n.role != Candidate)
              && View() == if checkFailed then n else Elected(group, n)
    {
      var ctx, _ := voteCtx.Grant(peer, PosHint(-1, -1), group.conf, group.oldConf, granters);
      voteCtx := ctx;
      granters := granters + {peer};
      GrantedIffQuorum(group.conf, group.oldConf, granters);
      if !voteCtx.Granted() {
        return false;
      }
      if state != Candidate {
        return true;
      }
      state := Leader;
      leaderId := Some(serverId);
      return false;
    }

    /** handle_request_vote up to where it lets go of the mutex; a stale request is answered at once. */
    method ArriveVote(term: int) returns (goesOn: bool)
      requires Valid()
      modifies this
      ensures Valid() && View() == (if term > old(currentTerm) then SteppedDown(old(View()), term) else old(View()))
      ensures goesOn == (term >= old(currentTerm))
      ensures if term > old(currentTerm) then currentTerm == term && state == Follower && meta == Meta(term, None)
              else View() == old(View())
    {
      if term > currentTerm {
        StepDown(term);
        return true;
      }
      return term == currentTerm;
    }

    /**
     * The rest of handle_request_vote, given whether the candidate's log is up to date. Nothing changes unless a vote
     * is given, and a vote is given exactly to an up-to-date candidate in the same term when none was given before.
     */
    method DecideVote(candidate: PeerId, term: int, logOk: bool) returns (responseTerm: int, granted: bool)
      requires Valid()
      modifies this
      ensures Valid() && View() == Decided(old(View()), candidate, term, logOk)
      ensures responseTerm == currentTerm && (granted <==> term == currentTerm && votedId == Some(candidate))
      ensures if term == old(currentTerm) && logOk && old(votedId).None?
              then && state == Follower && leaderId.None? && votedId == Some(candidate) && granted
                   && currentTerm == old(currentTerm) && meta == old(meta).(votedFor := Some(candidate))
              else View() == old(View())
    {
      if term == currentTerm && logOk && votedId.None? {
        StepDown(term);
        votedId := Some(candidate);
        meta := meta.(votedFor := Some(candidate));
      }
      return currentTerm, term == currentTerm && votedId == Some(candidate);
    }

    /** A higher term makes a candidate step down; a vote counted here never meets a failing state check. */
    method HandleRequestVoteResponse(peer: PeerId, term: int, responseTerm: int, granted: bool)
      requires Valid()
      modifies this
      ensures Valid() && View() == Replied(group, old(View()), peer, term, responseTerm, granted)
      ensures old(state) != Candidate || term != old(currentTerm) ==> View() == old(View())
      ensures old(state) == Candidate && term == old(currentTerm) && responseTerm > term ==>
                state == Follower && currentTerm == responseTerm && meta == Meta(responseTerm, None)
      ensures old(state) == Candidate && term == old(currentTerm) && responseTerm <= term ==>
                && granters == (if granted then old(granters) + {peer} else old(granters)) && currentTerm == term
                && state == if granted && Quorum(group, granters) then Leader else Candidate
    {
      if state != Candidate || term != currentTerm {
        return;
      }
      if responseTerm > currentTerm {
        StepDown(responseTerm);
        return;
      }
      if granted {
        var failed := GrantVote(peer);
      }
    }

    method CheckStepDown(term: int, sender: PeerId)
      requires Valid()
      modifies this
      ensures Valid() && View() == Followed(old(View()), term, sender)
      ensures term > old(currentTerm) || old(state) != Follower || old(leaderId).None? ==>
                state == Follower && leaderId == Some(sender)
      ensures term <= old(currentTerm) && old(state) == Follower && old(leaderId).Some? ==> View() == old(View())
    {
      if term > currentTerm || state != Follower || leaderId.None? {
        StepDown(term);
      }
      if leaderId.None? {
        leaderId := Some(sender);
      }
    }

    /** The control part of handle_append_entries_request. */
    method HandleAppendEntries(term: int, sender: PeerId) returns (responseTerm: int, conflict: bool)
      requires Valid()
      modifies this
      ensures Valid() && View() == Appended(old(View()), term, sender)
      ensures conflict <==> term >= old(currentTerm) && Followed(old(View()), term, sender).leader != Some(sender)
      ensures responseTerm == if conflict then term + 1 else old(currentTerm)
      ensures if term < old(currentTerm) then View() == old(View())
              else state == Follower && (if conflict then currentTerm == term + 1 && leaderId.None?
                                         else currentTerm == term && leaderId == Some(sender))
    {
      responseTerm := currentTerm;
      if term < currentTerm {
        return responseTerm, false;
      }
      CheckStepDown(term, sender);
      if leaderId != Some(sender) {
        StepDown(term + 1);
        return term + 1, true;
      }
      return responseTerm, false;
    }

    /** A follower that has not heard of its leader for a whole timeout, or is told to vote, asks for pre-votes. */
    method HandleElectionTimeout(sinceLeader: int, electionTimeout: int) returns (asked: bool)
      requires Valid()
      modifies this
      ensures Valid()
      ensures var due := old(voteTriggered) || sinceLeader >= electionTimeout;
              && View() == TimedOut(group, old(View()), due)
              && asked == (old(state) == Follower && due && serverId in group.callers)
              && state == old(state) && currentTerm == old(currentTerm) && meta == old(meta)
              && (if old(state) == Follower && due then leaderId.None? else leaderId == old(leaderId))
      ensures preVoters == if asked then Some({serverId}) else old(preVoters)
      ensures voteTriggered == (old(voteTriggered) && old(state) != Follower)
    {
      if state != Follower {
        return false;
      }
      if !voteTriggered && sinceLeader < electionTimeout {
        return false;
      }
      voteTriggered := false;
      leaderId := None;
      asked := PreVote();
    }

    /** `retry` when raft_step_down_when_vote_timedout is not set. */
    method HandleVoteTimeout(retry: bool) returns (asked: bool)
      requires Valid()
      modifies this
      ensures Valid() && View() == VoteTimedOut(group, old(View()), retry)
      ensures asked == (old(state) == Candidate && !retry && serverId in group.callers)
      ensures old(state) != Candidate ==> View() == old(View())
      ensures old(state) == Candidate && !retry ==> state == Follower && currentTerm == old(currentTerm)
      ensures old(state) == Candidate && retry && Contains(group, serverId) ==>
                state == Candidate && currentTerm == old(currentTerm) + 1 && granters == {}
      ensures preVoters == if asked then Some({serverId}) else old(preVoters)
    {
      asked := false;
      if state == Candidate {
        if retry {
          var oldTerm, standing := BeginElect();
        } else {
          StepDown(currentTerm);
          asked := PreVote();
        }
      }
    }

    /**
     * A leader in the joint stage steps down when the peers it has recently sent to and itself are no majority of the
     * old configuration; outside that stage nothing is looked at.
     */
    method HandleStepdownTimeout(recent: set<PeerId>)
      requires Valid()
      modifies this
      ensures Valid()
      ensures View() == if old(state) == Leader && IsDeserted(group, serverId, recent)
                        then SteppedDown(old(View()), old(currentTerm)) else old(View())
      ensures state == if old(state) == Leader && group.oldConf.Some? && group.oldConf.value != [] &&
                          2 * Count(group.oldConf.value, recent + {serverId}) <= |group.oldConf.value|
                       then Follower else old(state)
      ensures currentTerm == old(currentTerm) && meta == old(meta)
    {
      if state != Leader || group.oldConf.None? || group.oldConf.value == [] {
        return;
      }
      var alive := CountAlive(group.oldConf.value, recent, serverId);
      if alive >= |group.oldConf.value| / 2 + 1 {
        return;
      }
      StepDown(currentTerm);
    }

    method IncreaseTermTo(term: int) returns (ok: bool)
      requires Valid()
      modifies this
      ensures Valid() && ok == (term > old(currentTerm))
      ensures View() == if ok then SteppedDown(old(View()), term) else old(View())
      ensures ok ==> state == Follower && currentTerm == term && meta == Meta(term, None)
    {
      if term <= currentTerm {
        return false;
      }
      StepDown(term);
      return true;
    }
  }
}
