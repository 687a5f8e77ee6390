/** The election protocol's steps are what the node's methods do. */
module ElectionHosts {
  import opened Core
  import opened Nodes
  import opened Elections

  /** A live node is in the state that the protocol gives it. */
  ghost predicate Plays(node: Node, s: System)
    reads node
  {
    node.Valid() && node.serverId in s.nodes && s.nodes[node.serverId] == node.View()
  }

  /** The messages that one action sends. */
  datatype Outbox = Outbox(requests: set<Bid>, replies: set<Reply>, appends: set<Bid>,
                           preRequests: set<Bid>, preReplies: set<Reply>)

  const NOTHING: Outbox := Outbox({}, {}, {}, {}, {})

  /** What an action sends goes to the network, and nothing else does. */
  ghost predicate Sends(s: System, t: System, out: Outbox) {
    && t.requests == s.requests + out.requests && t.replies == s.replies + out.replies
    && t.appends == s.appends + out.appends
    && t.pre.requests == s.pre.requests + out.preRequests && t.pre.replies == s.pre.replies + out.preReplies
  }

  /**
   * One action carried out by a node that is in the state the protocol says. Afterwards it is in the state the
   * protocol's next step gives it, and what it has sent is what that step adds to the network. A process that dies is
   * replaced by one started from the stored pair. `sinceLeader` and `electionTimeout` are what the clock says, and
   * `recent` are the peers reached within the timeout. `Met` holds in every state of every run (RunMet).
   */
  method Perform(node: Node, a: Action, sinceLeader: int, electionTimeout: int, recent: set<PeerId>,
                 ghost s: System)
    returns (node': Node, out: Outbox)
    requires a.p == node.serverId && Plays(node, s) && Met(node.group, s) && Enabled(node.group, s, a)
    requires a.ElectionTimeout? ==> (a.due <==> node.voteTriggered || sinceLeader >= electionTimeout)
    requires a.StepdownTimeout? ==> (a.deserted <==> IsDeserted(node.group, node.serverId, recent))
    modifies node
    ensures node'.group == node.group && node'.serverId == node.serverId
    ensures Plays(node', Next(node.group, s, a)) && Sends(s, Next(node.group, s, a), out)
  {
    node', out := node, NOTHING;
    if a.Finish? {
      node', out := Resume(node, a.oldTerm, s);
    } else if a.FinishCrash? {
      out := out.(requests := {Bid(node.serverId, a.oldTerm)});
      node' := Restart(node);
    } else if a.Crash? {
      node' := Restart(node);
    } else if a.PreArrive? || a.PreDecide? || a.PreAnswer? {
      out := PreReceive(node, a, s);
    } else if a.Arrive? || a.Decide? {
      out := ReceiveRequest(node, a, s);
    } else if a.Answer? || a.Append? {
      Receive(node, a, s);
    } else if a.SendAppend? {
      out := out.(appends := {Bid(node.serverId, a.term)});
    } else if a.ElectionTimeout? {
      out := ElectionExpires(node, a, sinceLeader, electionTimeout, s);
    } else if a.VoteTimeout? {
      out := VoteExpires(node, a, s);
    } else {
      Yield(node, a, recent, s);
    }
  }

  method Restart(node: Node) returns (node': Node)
    requires node.Valid()
    ensures fresh(node') && node'.Valid() && node'.group == node.group && node'.View() == Restarted(node.View())
  {
    node' := new Node(node.serverId, node.group, node.meta, node.voteTriggered);
  }

  /** elect_self taken up again; a failing state check ends the process. */
  method Resume(node: Node, oldTerm: int, ghost s: System) returns (node': Node, out: Outbox)
    requires Plays(node, s)
    modifies node
    ensures node'.group == node.group && node'.serverId == node.serverId
    ensures var t := Next(node.group, s, Finish(node.serverId, oldTerm)); Plays(node', t) && Sends(s, t, out)
  {
    var requested, checkFailed := node.FinishElect(oldTerm);
    node' := node;
    out := if requested then NOTHING.(requests := {Bid(node.serverId, oldTerm)}) else NOTHING;
    if checkFailed {
      node' := Restart(node);
    }
  }

  /** A pre-vote message arrives, or a pre-vote handler is taken up again. */
  method PreReceive(node: Node, a: Action, ghost s: System) returns (out: Outbox)
    requires a.p == node.serverId && Plays(node, s) && Met(node.group, s) && Enabled(node.group, s, a)
    requires a.PreArrive? || a.PreDecide? || a.PreAnswer?
    modifies node
    ensures Plays(node, Next(node.group, s, a)) && Sends(s, Next(node.group, s, a), out)
  {
    out := NOTHING;
    if a.PreArrive? {
      var goesOn := node.ArrivePreVote(a.bid.term + 1);
      if !goesOn {
        out := out.(preReplies := {Reply(node.serverId, a.bid, node.currentTerm, false)});
      }
    } else if a.PreDecide? {
      out := out.(preReplies := {Reply(node.serverId, a.bid, node.currentTerm, a.logOk)});
    } else {
      assert NodeMet(node.group, s.pre.calls, s.windows, s.nodes[a.p]);
      var r := a.reply;
      var standing := node.HandlePreVoteResponse(r.voter, r.bid.term, r.responseTerm, r.granted);
    }
  }

  /** A request for a vote arrives, or its handler is taken up again. */
  method ReceiveRequest(node: Node, a: Action, ghost s: System) returns (out: Outbox)
    requires a.p == node.serverId && Plays(node, s) && (a.Arrive? || a.Decide?)
    modifies node
    ensures Plays(node, Next(node.group, s, a)) && Sends(s, Next(node.group, s, a), out)
  {
    out := NOTHING;
    if a.Arrive? {
      var goesOn := node.ArriveVote(a.bid.term);
      if !goesOn {
        out := out.(replies := {Reply(node.serverId, a.bid, node.currentTerm, false)});
      }
    } else {
      var responseTerm, granted := node.DecideVote(a.bid.peer, a.bid.term, a.logOk);
      out := out.(replies := {Reply(node.serverId, a.bid, responseTerm, granted)});
    }
  }

  /** A vote is answered, or a request of a leader arrives. */
  method Receive(node: Node, a: Action, ghost s: System)
    requires a.p == node.serverId && Plays(node, s) && (a.Answer? || a.Append?)
    modifies node
    ensures Plays(node, Next(node.group, s, a)) && Sends(s, Next(node.group, s, a), NOTHING)
  {
    if a.Answer? {
      node.HandleRequestVoteResponse(a.reply.voter, a.reply.bid.term, a.reply.responseTerm, a.reply.granted);
    } else {
      var responseTerm, conflict := node.HandleAppendEntries(a.from.term, a.from.peer);
    }
  }

  /** The election timer expires. */
  method ElectionExpires(node: Node, a: Action, sinceLeader: int, electionTimeout: int, ghost s: System)
    returns (out: Outbox)
    requires a.p == node.serverId && Plays(node, s) && a.ElectionTimeout?
    requires a.due <==> node.voteTriggered || sinceLeader >= electionTimeout
    modifies node
    ensures Plays(node, Next(node.group, s, a)) && Sends(s, Next(node.group, s, a), out)
  {
    var term := node.currentTerm;
    var asked := node.HandleElectionTimeout(sinceLeader, electionTimeout);
    out := if asked then NOTHING.(preRequests := {Bid(node.serverId, term)}) else NOTHING;
  }

  /** The vote timer expires. */
  method VoteExpires(node: Node, a: Action, ghost s: System) returns (out: Outbox)
    requires a.p == node.serverId && Plays(node, s) && a.VoteTimeout?
    modifies node
    ensures Plays(node, Next(node.group, s, a)) && Sends(s, Next(node.group, s, a), out)
  {
    var term := node.currentTerm;
    var asked := node.HandleVoteTimeout(a.retry);
    out := if asked then NOTHING.(preRequests := {Bid(node.serverId, term)}) else NOTHING;
  }

  /** The stepdown timer expires, or a replicator has seen a higher term. */
  method Yield(node: Node, a: Action, recent: set<PeerId>, ghost s: System)
    requires a.p == node.serverId && Plays(node, s) && (a.StepdownTimeout? || a.IncreaseTerm?)
    requires a.StepdownTimeout? ==> (a.deserted <==> IsDeserted(node.group, node.serverId, recent))
    modifies node
    ensures Plays(node, Next(node.group, s, a)) && Sends(s, Next(node.group, s, a), NOTHING)
  {
    if a.StepdownTimeout? {
      node.HandleStepdownTimeout(recent);
    } else {
      var ok := node.IncreaseTermTo(a.term);
    }
  }
}
