/**
 * Elections over whole runs: any number of nodes, messages lost, duplicated and reordered, the mutex let go in
 * the middle of elect_self and handle_request_vote, and processes restarting from what they stored.
 */
module Elections {
  import opened Core
  import opened Ballots
  import opened Nodes

  /** A peer in a term: a request for votes, a leadership, a call made or a vote given. */
  datatype Bid = Bid(peer: PeerId, term: int)

  datatype Handler = Handler(voter: PeerId, bid: Bid)

  datatype Reply = Reply(voter: PeerId, bid: Bid, responseTerm: int, granted: bool)

  /** Pre-votes under way: requests and answers on the network, calls waited for, handlers that let go of the mutex. */
  datatype PreVotes = PreVotes(requests: set<Bid>, calls: set<Bid>, handlers: set<Handler>, replies: set<Reply>)

  /**
   * Messages are never taken out, so that they can arrive late and more than once. `windows` are the elections
   * that have let go of the mutex, `calls` the requests a live process still waits for, `handlers` the requests
   * in the middle of handle_request_vote; all three die with their process. `cast` records every vote that was
   * answered or counted, and `won` every node that ever became leader with the votes it had counted.
   */
  datatype System = System(
    nodes: map<PeerId, NodeState>, windows: set<Bid>, calls: set<Bid>, handlers: set<Handler>,
    requests: set<Bid>, replies: set<Reply>, appends: set<Bid>, pre: PreVotes,
    cast: map<Bid, PeerId>, won: map<Bid, set<PeerId>>)

  datatype Action =
    | PreArrive(p: PeerId, bid: Bid)
    | PreDecide(p: PeerId, bid: Bid, logOk: bool)
    | PreAnswer(p: PeerId, reply: Reply)
    | Finish(p: PeerId, oldTerm: int)
    | FinishCrash(p: PeerId, oldTerm: int)
    | Arrive(p: PeerId, bid: Bid)
    | Decide(p: PeerId, bid: Bid, logOk: bool)
    | Answer(p: PeerId, reply: Reply)
    | SendAppend(p: PeerId, term: int)
    | Append(p: PeerId, from: Bid)
    | ElectionTimeout(p: PeerId, due: bool)
    | VoteTimeout(p: PeerId, retry: bool)
    | StepdownTimeout(p: PeerId, deserted: bool)
    | IncreaseTerm(p: PeerId, term: int)
    | Crash(p: PeerId)

  /** Pre-votes are asked of the other members of the configuration. */
  ghost predicate Enabled(g: Group, s: System, a: Action) {
    && a.p in s.nodes
    && match a
       case PreArrive(p, bid) => bid in s.pre.requests && p in g.conf && p != bid.peer
       case PreDecide(p, bid, _) => Handler(p, bid) in s.pre.handlers
       case PreAnswer(p, reply) => reply in s.pre.replies && reply.bid.peer == p && reply.bid in s.pre.calls
       case Finish(p, oldTerm) => Bid(p, oldTerm) in s.windows
       case FinishCrash(p, oldTerm) => Bid(p, oldTerm) in s.windows && oldTerm == s.nodes[p].term
       case Arrive(p, bid) => bid in s.requests && p != bid.peer
       case Decide(p, bid, _) => Handler(p, bid) in s.handlers
       case Answer(p, reply) => reply in s.replies && reply.bid.peer == p && reply.bid in s.calls
       case SendAppend(p, term) => Bid(p, term) in s.won
       case Append(p, from) => from in s.appends
       case _ => true
  }

  ghost function Put(s: System, n: NodeState): (r: System) {
    s.(nodes := s.nodes[n.self := n])
  }

  /** A node that has become leader goes on record. */
  ghost function Record(s: System, n: NodeState): (r: System) {
    if n.role == Leader && Bid(n.self, n.term) !in s.won
    then Put(s, n).(won := s.won[Bid(n.self, n.term) := n.granters])
    else Put(s, n)
  }

  ghost function Died(s: System, n: NodeState): (r: System) {
    Put(s, Restarted(n)).(
      windows := (set b | b in s.windows && b.peer != n.self),
      calls := (set b | b in s.calls && b.peer != n.self),
      handlers := (set h | h in s.handlers && h.voter != n.self),
      pre := s.pre.(calls := (set b | b in s.pre.calls && b.peer != n.self),
                    handlers := (set h | h in s.pre.handlers && h.voter != n.self)))
  }

  /** The node becomes `m`, which may have made it stand. */
  ghost function Moved(s: System, n: NodeState, m: NodeState): (r: System) {
    if m.role == Candidate && m.term > n.term
    then Put(s, m).(windows := s.windows + {Bid(m.self, m.term)})
    else Put(s, m)
  }

  /** prevote's requests, from a node whose port lets it ask. */
  ghost function Asks(g: Group, s: System, b: Bid): (r: System) {
    if b.peer in g.callers then s.(pre := s.pre.(requests := s.pre.requests + {b}, calls := s.pre.calls + {b})) else s
  }

  ghost function PreArriveStep(s: System, n: NodeState, bid: Bid): (r: System) {
    if bid.term + 1 < n.term
    then s.(pre := s.pre.(replies := s.pre.replies + {Reply(n.self, bid, n.term, false)}))
    else s.(pre := s.pre.(handlers := s.pre.handlers + {Handler(n.self, bid)}))
  }

  ghost function PreDecideStep(s: System, n: NodeState, bid: Bid, logOk: bool): (r: System) {
    s.(pre := s.pre.(handlers := s.pre.handlers - {Handler(n.self, bid)},
                     replies := s.pre.replies + {Reply(n.self, bid, n.term, logOk)}))
  }

  ghost function ElectionTimeoutStep(g: Group, s: System, n: NodeState, due: bool): (r: System) {
    var t := Put(s, TimedOut(g, n, due));
    if n.role == Follower && due then Asks(g, t, Bid(n.self, n.term)) else t
  }

  ghost function VoteTimeoutStep(g: Group, s: System, n: NodeState, retry: bool): (r: System) {
    var t := Moved(s, n, VoteTimedOut(g, n, retry));
    if n.role == Candidate && !retry then Asks(g, t, Bid(n.self, n.term)) else t
  }

  /** become_leader's state check would stop the process. */
  ghost predicate CheckFails(g: Group, s: System, a: Action) {
    && a.Finish? && a.p in s.nodes
    && var n := s.nodes[a.p];
    a.oldTerm == n.term && n.role != Candidate && Quorum(g, n.granters + {a.p})
  }

  /** The request is answered by a node that does not follow its sender. */
  ghost predicate Conflicts(s: System, a: Action) {
    && a.Append? && a.p in s.nodes
    && var n := s.nodes[a.p];
    a.from.term >= n.term && Followed(n, a.from.term, a.from.peer).leader != Some(a.from.peer)
  }

  ghost function FinishStep(g: Group, s: System, n: NodeState, oldTerm: int, fails: bool): (r: System) {
    var b := Bid(n.self, oldTerm);
    var t := s.(windows := s.windows - {b});
    if oldTerm != n.term then t else
      var u := t.(requests := s.requests + {b}, calls := s.calls + {b}, cast := s.cast[b := n.self]);
      if fails then Died(u, SelfVoted(n)) else Record(u, Elected(g, SelfVoted(n)))
  }

  ghost function ArriveStep(s: System, n: NodeState, bid: Bid): (r: System) {
    if bid.term < n.term then s.(replies := s.replies + {Reply(n.self, bid, n.term, false)})
    else Put(s, if bid.term > n.term then SteppedDown(n, bid.term) else n).(
           handlers := s.handlers + {Handler(n.self, bid)})
  }

  ghost function DecideStep(s: System, n: NodeState, bid: Bid, logOk: bool): (r: System) {
    var m := Decided(n, bid.peer, bid.term, logOk);
    var granted := bid.term == m.term && m.voted == Some(bid.peer);
    Put(s, m).(handlers := s.handlers - {Handler(n.self, bid)},
               replies := s.replies + {Reply(n.self, bid, m.term, granted)},
               cast := if granted then s.cast[Bid(n.self, bid.term) := bid.peer] else s.cast)
  }

  /** What the stepdown timer or a higher term seen by a replicator does to a node. */
  ghost function Alone(n: NodeState, a: Action): (r: NodeState) {
    match a
    case StepdownTimeout(_, deserted) => if deserted && n.role == Leader then SteppedDown(n, n.term) else n
    case IncreaseTerm(_, term) => if term > n.term then SteppedDown(n, term) else n
    case _ => n
  }

  ghost function Next(g: Group, s: System, a: Action): (r: System)
    requires a.p in s.nodes
  {
    var n := s.nodes[a.p];
    match a
    case PreArrive(p, bid) => PreArriveStep(s, n, bid)
    case PreDecide(p, bid, logOk) => PreDecideStep(s, n, bid, logOk)
    case PreAnswer(p, r) => Moved(s, n, PreReplied(g, n, r.voter, r.bid.term, r.responseTerm, r.granted))
    case Finish(p, oldTerm) => FinishStep(g, s, n, oldTerm, CheckFails(g, s, a))
    case FinishCrash(p, oldTerm) => Died(s.(requests := s.requests + {Bid(p, oldTerm)}), n)
    case Arrive(p, bid) => ArriveStep(s, n, bid)
    case Decide(p, bid, logOk) => DecideStep(s, n, bid, logOk)
    case Answer(p, r) => Record(s, Replied(g, n, r.voter, r.bid.term, r.responseTerm, r.granted))
    case SendAppend(p, term) => s.(appends := s.appends + {Bid(p, term)})
    case Append(p, from) => Put(s, Appended(n, from.term, from.peer))
    case ElectionTimeout(p, due) => ElectionTimeoutStep(g, s, n, due)
    case VoteTimeout(p, retry) => VoteTimeoutStep(g, s, n, retry)
    case Crash(p) => Died(s, n)
    case _ => Put(s, Alone(n, a))
  }

  /** A pre-vote asks for the term after the candidate's; it is answered at once exactly by a node beyond that term. */
  lemma PreVoteStaleIff(g: Group, s: System, p: PeerId, bid: Bid)
    requires p in s.nodes && s.nodes[p].self == p && s.pre.handlers == {} && s.pre.replies == {}
    ensures Next(g, s, PreArrive(p, bid)).pre.replies ==
            if s.nodes[p].term > bid.term + 1 then {Reply(p, bid, s.nodes[p].term, false)} else {}
    ensures Next(g, s, PreArrive(p, bid)).pre.handlers ==
            if s.nodes[p].term > bid.term + 1 then {} else {Handler(p, bid)}
  {
  }

  /** Nodes that all start from what they have stored, with nothing under way. */
  ghost predicate Initial(s: System) {
    && s.windows == {} && s.calls == {} && s.handlers == {} && s.requests == {} && s.replies == {} && s.appends == {}
    && s.pre == PreVotes({}, {}, {}, {}) && s.cast == map[] && s.won == map[]
    && forall p :: p in s.nodes ==> s.nodes[p] == Restarted(s.nodes[p]) && s.nodes[p].self == p
  }

  ghost predicate StepAt(g: Group, states: seq<System>, actions: seq<Action>, k: nat)
    requires k < |actions| < |states|
  {
    Enabled(g, states[k], actions[k]) && states[k + 1] == Next(g, states[k], actions[k])
  }

  ghost predicate IsRun(g: Group, states: seq<System>, actions: seq<Action>) {
    && IsGroup(g) && |states| == |actions| + 1 && Initial(states[0])
    && forall k :: 0 <= k < |actions| ==> StepAt(g, states, actions, k)
  }

  ghost predicate VoteOf(cast: map<Bid, PeerId>, voter: PeerId, term: int, candidate: PeerId) {
    var b := Bid(voter, term);
    b in cast && cast[b] == candidate
  }

  /** Only the own vote can be ahead of the disk. */
  ghost predicate MemoryOk(n: NodeState) {
    && n.meta.term <= n.term
    && (n.meta.term == n.term ==> n.meta.votedFor == n.voted)
    && (n.meta.term < n.term ==> n.voted == Some(n.self))
    && (n.role == Leader ==> n.leader == Some(n.self))
  }

  /** Votes given are on disk as long as their term is the latest. */
  ghost predicate VotesStored(cast: map<Bid, PeerId>, p: PeerId, meta: Meta) {
    forall b :: b in cast && b.peer == p ==>
      b.term <= meta.term && (b.term == meta.term ==> meta.votedFor == Some(cast[b]))
  }

  /** An election in its window is not stored yet and has counted nothing. */
  ghost predicate CallsOk(windows: set<Bid>, calls: set<Bid>, n: NodeState) {
    && (forall b :: b in windows && b.peer == n.self ==> b.term <= n.term && b !in calls)
    && (forall b :: b in calls && b.peer == n.self ==> b.term <= n.term)
    && (Bid(n.self, n.term) in windows ==> n.meta.term < n.term && n.granters == {})
  }

  ghost predicate CountedOk(cast: map<Bid, PeerId>, n: NodeState) {
    n.role == Candidate ==> forall q :: q in n.granters ==> VoteOf(cast, q, n.term, n.self)
  }

  ghost predicate LeaderOk(won: map<Bid, set<PeerId>>, n: NodeState) {
    n.leader.Some? ==> Bid(n.leader.value, n.term) in won
  }

  ghost predicate NodeOk(s: System, n: NodeState) {
    && MemoryOk(n) && VotesStored(s.cast, n.self, n.meta) && CallsOk(s.windows, s.calls, n)
    && CountedOk(s.cast, n) && LeaderOk(s.won, n)
  }

  ghost predicate NodesOk(s: System) {
    forall p :: p in s.nodes ==> s.nodes[p].self == p && NodeOk(s, s.nodes[p])
  }

  ghost predicate HandlersOk(handlers: set<Handler>) {
    forall h :: h in handlers ==> h.voter != h.bid.peer
  }

  ghost predicate RepliesOk(replies: set<Reply>, cast: map<Bid, PeerId>) {
    forall r :: r in replies && r.granted ==> VoteOf(cast, r.voter, r.bid.term, r.bid.peer)
  }

  ghost predicate WonOk(g: Group, won: map<Bid, set<PeerId>>, cast: map<Bid, PeerId>) {
    forall b :: b in won ==> Quorum(g, won[b]) && forall q :: q in won[b] ==> VoteOf(cast, q, b.term, b.peer)
  }

  ghost predicate Inv(g: Group, s: System) {
    && NodesOk(s) && HandlersOk(s.handlers) && RepliesOk(s.replies, s.cast) && WonOk(g, s.won, s.cast)
    && s.appends <= s.won.Keys
  }

  /** Votes are never taken back. */
  ghost predicate CastGrows(c: map<Bid, PeerId>, d: map<Bid, PeerId>, p: PeerId) {
    && (forall b :: b in c ==> b in d && d[b] == c[b])
    && (forall b :: b in d && b.peer != p ==> b in c)
  }

  ghost predicate SameBut(x: set<Bid>, y: set<Bid>, p: PeerId) {
    forall b: Bid :: b.peer != p ==> (b in x <==> b in y)
  }

  /** A node does not notice what another node does. */
  lemma OtherOk(s: System, t: System, p: PeerId, n: NodeState)
    requires NodeOk(s, n) && n.self != p
    requires CastGrows(s.cast, t.cast, p) && s.won.Keys <= t.won.Keys
    requires SameBut(s.windows, t.windows, p) && SameBut(s.calls, t.calls, p)
    ensures NodeOk(t, n)
  {
    forall v | n.role == Candidate && v in n.granters ensures VoteOf(t.cast, v, n.term, n.self) {
      assert VoteOf(s.cast, v, n.term, n.self);
    }
  }

  lemma OthersOk(s: System, t: System, p: PeerId)
    requires NodesOk(s) && p in s.nodes && p in t.nodes && t.nodes == s.nodes[p := t.nodes[p]]
    requires CastGrows(s.cast, t.cast, p) && s.won.Keys <= t.won.Keys
    requires SameBut(s.windows, t.windows, p) && SameBut(s.calls, t.calls, p)
    requires t.nodes[p].self == p && NodeOk(t, t.nodes[p])
    ensures NodesOk(t)
  {
    forall q | q in t.nodes && q != p ensures t.nodes[q].self == q && NodeOk(t, t.nodes[q]) {
      OtherOk(s, t, p, s.nodes[q]);
    }
  }

  /** Steps that change only the node itself. */
  lemma PutOk(g: Group, s: System, n: NodeState)
    requires Inv(g, s) && n.self in s.nodes && NodeOk(s, n)
    ensures Inv(g, Put(s, n))
  {
    OthersOk(s, Put(s, n), n.self);
  }

  /** More votes on record do not disturb what rests on the old ones. */
  lemma MoreVotes(g: Group, s: System, cast: map<Bid, PeerId>, p: PeerId)
    requires RepliesOk(s.replies, s.cast) && WonOk(g, s.won, s.cast) && CastGrows(s.cast, cast, p)
    ensures RepliesOk(s.replies, cast) && WonOk(g, s.won, cast)
  {
    forall r | r in s.replies && r.granted ensures VoteOf(cast, r.voter, r.bid.term, r.bid.peer) {
      assert VoteOf(s.cast, r.voter, r.bid.term, r.bid.peer);
    }
    forall b, q | b in s.won && q in s.won[b] ensures VoteOf(cast, q, b.term, b.peer) {
      assert VoteOf(s.cast, q, b.term, b.peer);
    }
  }

  /** Nothing that has to do with votes rests on pre-votes. */
  lemma PreOnly(g: Group, s: System, pre: PreVotes)
    requires Inv(g, s)
    ensures Inv(g, s.(pre := pre))
  {
    var t := s.(pre := pre);
    forall p | p in t.nodes ensures t.nodes[p].self == p && NodeOk(t, t.nodes[p]) {
      assert NodeOk(s, s.nodes[p]);
    }
  }

  /** A node that stands has neither stored nor called anything in its new term. */
  lemma StandOk(g: Group, s: System, n: NodeState)
    requires Inv(g, s) && n.self in s.nodes && NodeOk(s, n) && n.role != Leader
    ensures Inv(g, Moved(s, n, Standing(g, n)))
  {
    if Contains(g, n.self) {
      OthersOk(s, Moved(s, n, Standing(g, n)), n.self);
    } else {
      PutOk(g, s, n);
    }
  }

  lemma AskedOk(g: Group, s: System, b: Bid)
    requires Inv(g, s)
    ensures Inv(g, Asks(g, s, b))
  {
    PreOnly(g, s, Asks(g, s, b).pre);
  }

  lemma PreReplyOk(g: Group, s: System, n: NodeState, peer: PeerId, term: int, responseTerm: int, granted: bool)
    requires Inv(g, s) && n.self in s.nodes && NodeOk(s, n)
    ensures Inv(g, Moved(s, n, PreReplied(g, n, peer, term, responseTerm, granted)))
  {
    var m := n.(preVoters := Some(PreCounted(n, peer)));
    if n.role != Follower || term != n.term {
      PutOk(g, s, n);
    } else if responseTerm > n.term {
      SteppedDownOk(s, n, responseTerm);
      PutOk(g, s, SteppedDown(n, responseTerm));
    } else if granted && Quorum(g, PreCounted(n, peer)) {
      StandOk(g, s, m);
    } else {
      PutOk(g, s, if granted then m else n);
    }
  }

  lemma ElectionTimeoutOk(g: Group, s: System, n: NodeState, due: bool)
    requires Inv(g, s) && n.self in s.nodes && NodeOk(s, n)
    ensures Inv(g, ElectionTimeoutStep(g, s, n, due))
  {
    var m := TimedOut(g, n, due);
    PutOk(g, s, m);
    AskedOk(g, Put(s, m), Bid(n.self, n.term));
  }

  lemma VoteTimeoutOk(g: Group, s: System, n: NodeState, retry: bool)
    requires Inv(g, s) && n.self in s.nodes && NodeOk(s, n)
    ensures Inv(g, VoteTimeoutStep(g, s, n, retry))
  {
    if n.role == Candidate && retry {
      StandOk(g, s, n);
    } else {
      var m := VoteTimedOut(g, n, retry);
      SteppedDownOk(s, n, n.term);
      PutOk(g, s, m);
      AskedOk(g, Put(s, m), Bid(n.self, n.term));
    }
  }

  /** A process that comes back has forgotten its election and kept its votes. */
  lemma DiedOk(g: Group, s: System, n: NodeState)
    requires Inv(g, s) && n.self in s.nodes && NodeOk(s, n)
    ensures Inv(g, Died(s, n))
  {
    OthersOk(s, Died(s, n), n.self);
  }

  ghost function WithSelfVote(s: System, b: Bid): (r: System) {
    s.(windows := s.windows - {b}, requests := s.requests + {b}, calls := s.calls + {b}, cast := s.cast[b := b.peer])
  }

  /** An election taken up again: the vote for oneself is the node's first vote of the term. */
  lemma SelfVoteOk(g: Group, s: System, p: PeerId, term: int)
    requires Inv(g, s) && Enabled(g, s, Finish(p, term)) && term == s.nodes[p].term
    ensures Inv(g, Put(WithSelfVote(s, Bid(p, term)), SelfVoted(s.nodes[p])))
  {
    var n, b := s.nodes[p], Bid(p, term);
    assert NodeOk(s, n);
    assert b !in s.cast;
    var t := Put(WithSelfVote(s, b), SelfVoted(n));
    OthersOk(s, t, p);
    MoreVotes(g, s, t.cast, p);
  }

  /** A candidate whose counted votes make a quorum goes on record as leader. */
  lemma RecordOk(g: Group, s: System, n: NodeState)
    requires Inv(g, s) && n.self in s.nodes && NodeOk(s, n) && (n.role == Candidate || !Quorum(g, n.granters))
    ensures Inv(g, Record(s, Elected(g, n)))
  {
    var m := Elected(g, n);
    var t := Record(s, m);
    var b := Bid(n.self, n.term);
    if m.role == Leader && b !in s.won {
      assert m != n;
      assert WonOk(g, t.won, s.cast);
      OthersOk(s, t, n.self);
    } else {
      PutOk(g, s, m);
    }
  }

  lemma FinishOk(g: Group, s: System, a: Action)
    requires Inv(g, s) && a.Finish? && Enabled(g, s, a)
    ensures Inv(g, Next(g, s, a))
  {
    var n := s.nodes[a.p];
    if a.oldTerm != n.term {
      assert NodeOk(s, n);
      OthersOk(s, Next(g, s, a), a.p);
    } else {
      var u, m := WithSelfVote(s, Bid(a.p, a.oldTerm)), SelfVoted(n);
      SelfVoteOk(g, s, a.p, a.oldTerm);
      var t := Put(u, m);
      assert NodeOk(t, t.nodes[a.p]);
      if CheckFails(g, s, a) {
        DiedOk(g, t, m);
        PutTwice(u, m, Restarted(m));
      } else {
        var e := Elected(g, m);
        RecordOk(g, t, m);
        PutTwice(u, m, e);
      }
    }
  }

  lemma PutTwice(s: System, n: NodeState, m: NodeState)
    requires n.self == m.self
    ensures Put(Put(s, n), m) == Put(s, m)
  {
    assert s.nodes[n.self := n][m.self := m] == s.nodes[m.self := m];
  }

  lemma ArriveOk(g: Group, s: System, p: PeerId, bid: Bid)
    requires Inv(g, s) && Enabled(g, s, Arrive(p, bid))
    ensures Inv(g, Next(g, s, Arrive(p, bid)))
  {
    var n := s.nodes[p];
    assert NodeOk(s, n);
    if bid.term < n.term {
      OthersOk(s, ArriveStep(s, n, bid), p);
    } else {
      SteppedDownOk(s, n, bid.term);
      PutOk(g, s.(handlers := s.handlers + {Handler(p, bid)}),
            if bid.term > n.term then SteppedDown(n, bid.term) else n);
    }
  }

  lemma SteppedDownOk(s: System, n: NodeState, term: int)
    requires NodeOk(s, n)
    ensures NodeOk(s, SteppedDown(n, term))
  {
    var b := Bid(n.self, term);
    assert term > n.term ==> b !in s.windows;
  }

  lemma DecidedOk(s: System, n: NodeState, bid: Bid, logOk: bool)
    requires NodeOk(s, n) && bid.peer != n.self
    ensures var t := DecideStep(s, n, bid, logOk);
            CastGrows(s.cast, t.cast, n.self) && NodeOk(t, t.nodes[n.self])
  {
    var t := DecideStep(s, n, bid, logOk);
    assert CastGrows(s.cast, t.cast, n.self);
  }

  /** A vote is on disk before it is answered, and answered with the same name ever after. */
  lemma DecideOk(g: Group, s: System, p: PeerId, bid: Bid, logOk: bool)
    requires Inv(g, s) && Enabled(g, s, Decide(p, bid, logOk))
    ensures Inv(g, Next(g, s, Decide(p, bid, logOk)))
  {
    var n := s.nodes[p];
    assert NodeOk(s, n);
    DecidedOk(s, n, bid, logOk);
    OthersOk(s, DecideStep(s, n, bid, logOk), p);
    DecideMessages(g, s, n, bid, logOk);
  }

  lemma DecideMessages(g: Group, s: System, n: NodeState, bid: Bid, logOk: bool)
    requires HandlersOk(s.handlers) && RepliesOk(s.replies, s.cast) && WonOk(g, s.won, s.cast)
    requires CastGrows(s.cast, DecideStep(s, n, bid, logOk).cast, n.self)
    ensures var t := DecideStep(s, n, bid, logOk);
            HandlersOk(t.handlers) && RepliesOk(t.replies, t.cast) && WonOk(g, t.won, t.cast)
  {
    MoreVotes(g, s, DecideStep(s, n, bid, logOk).cast, n.self);
  }

  lemma AnswerOk(g: Group, s: System, p: PeerId, r: Reply)
    requires Inv(g, s) && Enabled(g, s, Answer(p, r))
    ensures Inv(g, Next(g, s, Answer(p, r)))
  {
    var n := s.nodes[p];
    assert NodeOk(s, n);
    if n.role == Candidate && r.bid.term == n.term && r.responseTerm <= n.term && r.granted {
      var m := n.(granters := n.granters + {r.voter});
      assert VoteOf(s.cast, r.voter, n.term, p);
      RecordOk(g, s, m);
    } else {
      PutOk(g, s, Replied(g, n, r.voter, r.bid.term, r.responseTerm, r.granted));
    }
  }

  /** A request from the winner of its term is followed. */
  lemma AppendOk(g: Group, s: System, p: PeerId, from: Bid)
    requires Inv(g, s) && Enabled(g, s, Append(p, from))
    ensures Inv(g, Next(g, s, Append(p, from)))
    ensures !Conflicts(s, Append(p, from))
  {
    var n := s.nodes[p];
    assert NodeOk(s, n);
    if from.term >= n.term {
      var m := Followed(n, from.term, from.peer);
      if from.term == n.term && n.leader.Some? {
        OneWinner(g, s, from, Bid(n.leader.value, n.term));
      }
      assert m.leader == Some(from.peer);
    }
    PutOk(g, s, Appended(n, from.term, from.peer));
  }

  /** Two quorums of votes cast in one term share a voter, and nobody votes twice. */
  lemma OneWinner(g: Group, s: System, a: Bid, b: Bid)
    requires WonOk(g, s.won, s.cast) && a in s.won && b in s.won && a.term == b.term
    ensures a == b
  {
    MajoritiesMeet(g.conf, s.won[a], s.won[b]);
    var v :| v in s.won[a] && v in s.won[b];
    assert VoteOf(s.cast, v, a.term, a.peer) && VoteOf(s.cast, v, b.term, b.peer);
  }

  /** The steps of a pre-vote, and the timers that start one. */
  ghost predicate IsPreVoting(a: Action) {
    a.PreArrive? || a.PreDecide? || a.PreAnswer? || a.ElectionTimeout? || a.VoteTimeout?
  }

  lemma PreVotingOk(g: Group, s: System, a: Action)
    requires Inv(g, s) && a.p in s.nodes && IsPreVoting(a)
    ensures Inv(g, Next(g, s, a))
  {
    var n := s.nodes[a.p];
    assert NodeOk(s, n);
    if a.PreArrive? {
      PreOnly(g, s, PreArriveStep(s, n, a.bid).pre);
    } else if a.PreDecide? {
      PreOnly(g, s, PreDecideStep(s, n, a.bid, a.logOk).pre);
    } else if a.PreAnswer? {
      PreReplyOk(g, s, n, a.reply.voter, a.reply.bid.term, a.reply.responseTerm, a.reply.granted);
    } else if a.ElectionTimeout? {
      ElectionTimeoutOk(g, s, n, a.due);
    } else {
      VoteTimeoutOk(g, s, n, a.retry);
    }
  }

  lemma NextOk(g: Group, s: System, a: Action)
    requires Inv(g, s) && Enabled(g, s, a)
    ensures Inv(g, Next(g, s, a))
  {
    if IsPreVoting(a) {
      PreVotingOk(g, s, a);
    } else {
      VotingOk(g, s, a);
    }
  }

  lemma VotingOk(g: Group, s: System, a: Action)
    requires Inv(g, s) && Enabled(g, s, a) && !IsPreVoting(a)
    ensures Inv(g, Next(g, s, a))
  {
    var n := s.nodes[a.p];
    assert NodeOk(s, n);
    if a.Finish? {
      FinishOk(g, s, a);
    } else if a.FinishCrash? {
      DiedOk(g, s.(requests := s.requests + {Bid(a.p, a.oldTerm)}), n);
    } else if a.Crash? {
      DiedOk(g, s, n);
    } else if a.Arrive? {
      ArriveOk(g, s, a.p, a.bid);
    } else if a.Decide? {
      DecideOk(g, s, a.p, a.bid, a.logOk);
    } else if a.Answer? {
      AnswerOk(g, s, a.p, a.reply);
    } else if a.SendAppend? {
      PutOk(g, s.(appends := s.appends + {Bid(a.p, a.term)}), n);
    } else if a.Append? {
      AppendOk(g, s, a.p, a.from);
    } else {
      LocalOk(g, s, a);
    }
  }

  lemma LocalOk(g: Group, s: System, a: Action)
    requires Inv(g, s) && a.p in s.nodes
    requires a.StepdownTimeout? || a.IncreaseTerm?
    ensures Inv(g, Next(g, s, a))
  {
    var n := s.nodes[a.p];
    assert NodeOk(s, n);
    SteppedDownOk(s, n, if a.IncreaseTerm? then a.term else n.term);
    PutOk(g, s, Alone(n, a));
  }

  lemma InitialOk(g: Group, s: System)
    requires Initial(s)
    ensures Inv(g, s)
  {
    forall p | p in s.nodes ensures NodeOk(s, s.nodes[p]) {
      assert s.nodes[p] == Restarted(s.nodes[p]);
    }
  }

  lemma {:induction false} RunOk(g: Group, states: seq<System>, actions: seq<Action>, k: nat)
    requires IsRun(g, states, actions) && k < |states|
    ensures Inv(g, states[k])
  {
    if k == 0 {
      InitialOk(g, states[0]);
    } else {
      RunOk(g, states, actions, k - 1);
      assert StepAt(g, states, actions, k - 1);
      NextOk(g, states[k - 1], actions[k - 1]);
    }
  }

  /** A step by one node leaves the others and the record of leaderships alone. */
  ghost predicate Frames(s: System, t: System, p: PeerId) {
    && s.won.Keys <= t.won.Keys && t.nodes.Keys == s.nodes.Keys
    && forall q :: q in s.nodes && q != p ==> t.nodes[q] == s.nodes[q]
  }

  lemma PutFrames(s: System, n: NodeState)
    requires n.self in s.nodes
    ensures Frames(s, Put(s, n), n.self) && Frames(s, Record(s, n), n.self) && Frames(s, Died(s, n), n.self)
  {
    assert Put(s, n).nodes.Keys == s.nodes.Keys && Put(s, Restarted(n)).nodes.Keys == s.nodes.Keys;
  }

  lemma FinishFrames(g: Group, s: System, n: NodeState, oldTerm: int, fails: bool)
    requires n.self in s.nodes
    ensures Frames(s, FinishStep(g, s, n, oldTerm, fails), n.self)
  {
    if oldTerm == n.term {
      var u := WithSelfVote(s, Bid(n.self, oldTerm));
      PutFrames(u, SelfVoted(n));
      PutFrames(u, Elected(g, SelfVoted(n)));
    }
  }

  lemma NextFrame(g: Group, s: System, a: Action)
    requires a.p in s.nodes && s.nodes[a.p].self == a.p
    ensures Frames(s, Next(g, s, a), a.p)
  {
    if IsPreVoting(a) {
      PreVotingFrame(g, s, a);
    } else {
      VotingFrame(g, s, a);
    }
  }

  lemma PreVotingFrame(g: Group, s: System, a: Action)
    requires a.p in s.nodes && s.nodes[a.p].self == a.p && IsPreVoting(a)
    ensures Frames(s, Next(g, s, a), a.p)
  {
    assert Next(g, s, a).nodes.Keys == s.nodes.Keys;
  }

  lemma VotingFrame(g: Group, s: System, a: Action)
    requires a.p in s.nodes && s.nodes[a.p].self == a.p && !IsPreVoting(a)
    ensures Frames(s, Next(g, s, a), a.p)
  {
    var n := s.nodes[a.p];
    if a.Finish? {
      FinishFrames(g, s, n, a.oldTerm, CheckFails(g, s, a));
    } else if a.Answer? {
      PutFrames(s, Replied(g, n, a.reply.voter, a.reply.bid.term, a.reply.responseTerm, a.reply.granted));
    } else if a.Crash? || a.FinishCrash? {
      PutFrames(s, n);
    }
  }

  lemma FrameAt(g: Group, states: seq<System>, actions: seq<Action>, k: nat)
    requires IsRun(g, states, actions) && k < |actions|
    ensures states[k].won.Keys <= states[k + 1].won.Keys && states[k].nodes.Keys == states[k + 1].nodes.Keys
  {
    RunOk(g, states, actions, k);
    assert StepAt(g, states, actions, k);
    NextFrame(g, states[k], actions[k]);
  }

  /** Leaderships stay on record. */
  lemma {:induction false} WonStays(g: Group, states: seq<System>, actions: seq<Action>, i: nat, j: nat)
    requires IsRun(g, states, actions) && i <= j < |states|
    ensures states[i].won.Keys <= states[j].won.Keys && states[i].nodes.Keys == states[j].nodes.Keys
  {
    if i == j {
    } else {
      WonStays(g, states, actions, i, j - 1);
      FrameAt(g, states, actions, j - 1);
    }
  }

  /** A known leader is the one winner of its term: no two nodes, at whatever times, name different ones. */
  lemma LeaderIsWinner(g: Group, states: seq<System>, actions: seq<Action>, i: nat, j: nat, p: PeerId, q: PeerId)
    requires IsRun(g, states, actions) && i < |states| && j < |states|
    requires p in states[i].nodes && q in states[j].nodes
    requires var n, m := states[i].nodes[p], states[j].nodes[q]; n.term == m.term && n.leader.Some? && m.leader.Some?
    ensures states[i].nodes[p].leader == states[j].nodes[q].leader
    ensures Bid(states[i].nodes[p].leader.value, states[i].nodes[p].term) in states[i].won
  {
    RunOk(g, states, actions, i);
    RunOk(g, states, actions, j);
    var n, m, last := states[i].nodes[p], states[j].nodes[q], if i < j then j else i;
    assert NodeOk(states[i], n) && NodeOk(states[j], m);
    WonStays(g, states, actions, i, last);
    WonStays(g, states, actions, j, last);
    RunOk(g, states, actions, last);
    OneWinner(g, states[last], Bid(n.leader.value, n.term), Bid(m.leader.value, m.term));
  }

  /** Election safety: whoever leads at any time, and whoever leads the same term at any other, are the same node. */
  lemma ElectionSafety(g: Group, states: seq<System>, actions: seq<Action>, i: nat, j: nat, p: PeerId, q: PeerId)
    requires IsRun(g, states, actions) && i < |states| && j < |states|
    requires p in states[i].nodes && q in states[j].nodes
    requires states[i].nodes[p].role == Leader && states[j].nodes[q].role == Leader
    requires states[i].nodes[p].term == states[j].nodes[q].term
    ensures p == q
  {
    RunOk(g, states, actions, i);
    RunOk(g, states, actions, j);
    assert NodeOk(states[i], states[i].nodes[p]) && NodeOk(states[j], states[j].nodes[q]);
    LeaderIsWinner(g, states, actions, i, j, p, q);
  }

  /** The branch for a second leader in one term is never taken. */
  lemma NoConflict(g: Group, states: seq<System>, actions: seq<Action>, k: nat)
    requires IsRun(g, states, actions) && k < |actions|
    ensures !Conflicts(states[k], actions[k])
  {
    RunOk(g, states, actions, k);
    assert StepAt(g, states, actions, k);
    if actions[k].Append? {
      AppendOk(g, states[k], actions[k].p, actions[k].from);
    }
  }

  ghost predicate Dies(g: Group, s: System, a: Action) {
    a.Crash? || a.FinishCrash? || CheckFails(g, s, a)
  }

  lemma OwnTerms(g: Group, s: System, a: Action)
    requires a.p in s.nodes && s.nodes[a.p].self == a.p && MemoryOk(s.nodes[a.p])
    ensures a.p in Next(g, s, a).nodes
    ensures var n, m := s.nodes[a.p], Next(g, s, a).nodes[a.p];
            n.meta.term <= m.meta.term && (!Dies(g, s, a) ==> n.term <= m.term)
  {
    if IsPreVoting(a) {
      PreVotingTerms(g, s, a);
    } else if a.Finish? {
      FinishTerms(g, s, a);
    } else {
      VotingTerms(g, s, a);
    }
  }

  lemma PreVotingTerms(g: Group, s: System, a: Action)
    requires a.p in s.nodes && s.nodes[a.p].self == a.p && IsPreVoting(a) && MemoryOk(s.nodes[a.p])
    ensures a.p in Next(g, s, a).nodes
    ensures var n, m := s.nodes[a.p], Next(g, s, a).nodes[a.p]; n.meta.term <= m.meta.term && n.term <= m.term
  {
    assert a.p in Next(g, s, a).nodes;
  }

  lemma FinishTerms(g: Group, s: System, a: Action)
    requires a.p in s.nodes && s.nodes[a.p].self == a.p && a.Finish? && MemoryOk(s.nodes[a.p])
    ensures a.p in Next(g, s, a).nodes
    ensures var n, m := s.nodes[a.p], Next(g, s, a).nodes[a.p];
            n.meta.term <= m.meta.term && (!Dies(g, s, a) ==> n.term <= m.term)
  {
    var n, t := s.nodes[a.p], Next(g, s, a);
    assert a.p in t.nodes;
    assert a.oldTerm == n.term ==> SelfVoted(n).meta.term == n.term;
  }

  lemma VotingTerms(g: Group, s: System, a: Action)
    requires a.p in s.nodes && s.nodes[a.p].self == a.p && !IsPreVoting(a) && !a.Finish? && MemoryOk(s.nodes[a.p])
    ensures a.p in Next(g, s, a).nodes
    ensures var n, m := s.nodes[a.p], Next(g, s, a).nodes[a.p];
            n.meta.term <= m.meta.term && (!Dies(g, s, a) ==> n.term <= m.term)
  {
    assert a.p in Next(g, s, a).nodes;
  }

  lemma StepTerms(g: Group, states: seq<System>, actions: seq<Action>, k: nat, p: PeerId)
    requires IsRun(g, states, actions) && k < |actions| && p in states[k].nodes
    ensures p in states[k + 1].nodes && states[k].nodes[p].meta.term <= states[k + 1].nodes[p].meta.term
    ensures p != actions[k].p || !Dies(g, states[k], actions[k]) ==>
              states[k].nodes[p].term <= states[k + 1].nodes[p].term
  {
    var s, a := states[k], actions[k];
    RunOk(g, states, actions, k);
    assert StepAt(g, states, actions, k);
    assert NodeOk(s, s.nodes[a.p]);
    NextFrame(g, s, a);
    OwnTerms(g, s, a);
  }

  /** `p` lives through every step from `i` to `j`. */
  ghost predicate Alive(g: Group, states: seq<System>, actions: seq<Action>, i: nat, j: nat, p: PeerId)
    requires j <= |actions| < |states|
  {
    forall k :: i <= k < j ==> actions[k].p != p || !Dies(g, states[k], actions[k])
  }

  /** The stored term never decreases, and the term in memory only when its process dies. */
  lemma {:induction false} TermsGrow(g: Group, states: seq<System>, actions: seq<Action>, i: nat, j: nat, p: PeerId)
    requires IsRun(g, states, actions) && i <= j < |states| && p in states[i].nodes
    ensures p in states[j].nodes && states[i].nodes[p].meta.term <= states[j].nodes[p].meta.term
    ensures Alive(g, states, actions, i, j, p) ==> states[i].nodes[p].term <= states[j].nodes[p].term
  {
    if i == j {
    } else {
      TermsGrow(g, states, actions, i, j - 1, p);
      StepTerms(g, states, actions, j - 1, p);
    }
  }

  /** A term can be forgotten, by dying between standing and storing the vote; no vote was given in it. */
  lemma LostTermIsUnspent(g: Group, states: seq<System>, actions: seq<Action>, k: nat, p: PeerId, b: Bid)
    requires IsRun(g, states, actions) && k < |states| && p in states[k].nodes
    requires b.peer == p && states[k].nodes[p].meta.term < b.term
    ensures b !in states[k].cast
    ensures Next(g, states[k], Crash(p)).nodes[p].term < states[k].nodes[p].term <==>
            states[k].nodes[p].meta.term < states[k].nodes[p].term
  {
    RunOk(g, states, actions, k);
    assert NodeOk(states[k], states[k].nodes[p]);
  }

  /** The votes for other peers that were stored when the run began. */
  ghost function StoredVotes(s: System): (r: set<Handler>) {
    set p | p in s.nodes && s.nodes[p].meta.votedFor.Some? ::
      Handler(p, Bid(s.nodes[p].meta.votedFor.value, s.nodes[p].meta.term))
  }

  /** Those, and the votes decided on since then while the candidate's log was up to date. */
  ghost function Grounds(s: System, actions: seq<Action>): (r: set<Handler>) {
    if actions == [] then StoredVotes(s) else
      var a := actions[|actions| - 1];
      Grounds(s, actions[..|actions| - 1]) + if a.Decide? && a.logOk then {Handler(a.p, a.bid)} else {}
  }

  ghost predicate VoteGrounded(grounds: set<Handler>, voter: PeerId, term: int, candidate: PeerId) {
    candidate != voter ==> Handler(voter, Bid(candidate, term)) in grounds
  }

  ghost predicate MetaGrounded(grounds: set<Handler>, p: PeerId, meta: Meta) {
    meta.votedFor.Some? ==> VoteGrounded(grounds, p, meta.term, meta.votedFor.value)
  }

  ghost predicate CastGrounded(grounds: set<Handler>, cast: map<Bid, PeerId>) {
    forall b :: b in cast ==> VoteGrounded(grounds, b.peer, b.term, cast[b])
  }

  ghost predicate Grounded(grounds: set<Handler>, s: System) {
    && CastGrounded(grounds, s.cast)
    && forall p :: p in s.nodes ==> MetaGrounded(grounds, p, s.nodes[p].meta)
  }

  /** A vote for another peer is given in a Decide step with an up-to-date log, or was given and stored before. */
  lemma DecideGrounded(s: System, a: Action, g: Group, grounds: set<Handler>)
    requires Inv(g, s) && a.p in s.nodes && a.Decide? && Grounded(grounds, s)
    ensures var t := Next(g, s, a);
            var more := grounds + if a.logOk then {Handler(a.p, a.bid)} else {};
            a.p in t.nodes && MetaGrounded(more, a.p, t.nodes[a.p].meta) && CastGrounded(more, t.cast)
  {
    assert NodeOk(s, s.nodes[a.p]) && MetaGrounded(grounds, a.p, s.nodes[a.p].meta);
  }

  lemma PreVotingGrounded(g: Group, s: System, a: Action, grounds: set<Handler>)
    requires a.p in s.nodes && s.nodes[a.p].self == a.p && IsPreVoting(a)
    requires MetaGrounded(grounds, a.p, s.nodes[a.p].meta)
    ensures var t := Next(g, s, a);
            a.p in t.nodes && MetaGrounded(grounds, a.p, t.nodes[a.p].meta) && t.cast == s.cast
  {
  }

  lemma FinishGrounded(g: Group, s: System, a: Action, grounds: set<Handler>)
    requires a.p in s.nodes && s.nodes[a.p].self == a.p && a.Finish?
    requires MetaGrounded(grounds, a.p, s.nodes[a.p].meta) && CastGrounded(grounds, s.cast)
    ensures var t := Next(g, s, a);
            a.p in t.nodes && MetaGrounded(grounds, a.p, t.nodes[a.p].meta) && CastGrounded(grounds, t.cast)
  {
  }

  lemma OtherGrounded(g: Group, s: System, a: Action, grounds: set<Handler>)
    requires a.p in s.nodes && s.nodes[a.p].self == a.p && !IsPreVoting(a) && !a.Decide? && !a.Finish?
    requires MetaGrounded(grounds, a.p, s.nodes[a.p].meta)
    ensures var t := Next(g, s, a);
            a.p in t.nodes && MetaGrounded(grounds, a.p, t.nodes[a.p].meta) && t.cast == s.cast
  {
  }

  lemma NextGrounded(g: Group, s: System, a: Action, grounds: set<Handler>)
    requires Inv(g, s) && Enabled(g, s, a) && Grounded(grounds, s)
    ensures Grounded(grounds + if a.Decide? && a.logOk then {Handler(a.p, a.bid)} else {}, Next(g, s, a))
  {
    var t, more := Next(g, s, a), grounds + if a.Decide? && a.logOk then {Handler(a.p, a.bid)} else {};
    assert s.nodes[a.p].self == a.p && MetaGrounded(grounds, a.p, s.nodes[a.p].meta);
    if a.Decide? {
      DecideGrounded(s, a, g, grounds);
    } else if IsPreVoting(a) {
      PreVotingGrounded(g, s, a, grounds);
    } else if a.Finish? {
      FinishGrounded(g, s, a, grounds);
    } else {
      OtherGrounded(g, s, a, grounds);
    }
    NextFrame(g, s, a);
    forall p | p in t.nodes ensures MetaGrounded(more, p, t.nodes[p].meta) {
      assert p != a.p ==> MetaGrounded(grounds, p, s.nodes[p].meta);
    }
  }

  lemma {:induction false} RunGrounded(g: Group, states: seq<System>, actions: seq<Action>, k: nat)
    requires IsRun(g, states, actions) && k < |states|
    ensures Grounded(Grounds(states[0], actions[..k]), states[k])
  {
    if k == 0 {
    } else {
      RunGrounded(g, states, actions, k - 1);
      RunOk(g, states, actions, k - 1);
      assert StepAt(g, states, actions, k - 1);
      NextGrounded(g, states[k - 1], actions[k - 1], Grounds(states[0], actions[..k - 1]));
      assert actions[..k][..k - 1] == actions[..k - 1];
    }
  }

  ghost predicate DecidedAt(actions: seq<Action>, j: nat, h: Handler)
    requires j < |actions|
  {
    actions[j] == Decide(h.voter, h.bid, true)
  }

  lemma {:induction false} GroundsAre(s: System, actions: seq<Action>, k: nat, h: Handler)
    requires k <= |actions| && h in Grounds(s, actions[..k])
    ensures h in StoredVotes(s) || exists j: nat :: j < k && DecidedAt(actions, j, h)
  {
    if k == 0 {
    } else {
      assert actions[..k][..k - 1] == actions[..k - 1];
      if h in Grounds(s, actions[..k - 1]) {
        GroundsAre(s, actions, k - 1, h);
      } else {
        assert DecidedAt(actions, k - 1, h);
      }
    }
  }

  /**
   * Every vote on record for another peer goes back to a step of its voter that found the candidate's log up to date,
   * unless it was stored before the run began.
   */
  lemma VotesAreGrounded(g: Group, states: seq<System>, actions: seq<Action>, k: nat, b: Bid)
    requires IsRun(g, states, actions) && k < |states| && b in states[k].cast && states[k].cast[b] != b.peer
    ensures var h := Handler(b.peer, Bid(states[k].cast[b], b.term));
            h in StoredVotes(states[0]) || exists j: nat :: j < k && DecidedAt(actions, j, h)
  {
    RunGrounded(g, states, actions, k);
    GroundsAre(states[0], actions, k, Handler(b.peer, Bid(states[k].cast[b], b.term)));
  }

  /** The own vote alone is no quorum where there is another member. */
  lemma NotAlone(g: Group, p: PeerId, q: PeerId)
    requires IsGroup(g) && q in g.conf && q != p
    ensures !Quorum(g, {p})
  {
    CountOne(g.conf, p);
  }

  ghost predicate PreMessagesOk(g: Group, pre: PreVotes) {
    && (forall r :: r in pre.replies ==> r.voter in g.conf && r.voter != r.bid.peer)
    && (forall h :: h in pre.handlers ==> h.voter in g.conf && h.voter != h.bid.peer)
  }

  /** The port lets it ask, and it is no quorum by itself. */
  ghost predicate MayStand(g: Group, p: PeerId) {
    p in g.callers && !Quorum(g, {p})
  }

  /** Who stands, leads or has stood may stand, and who waits for pre-votes has a context to count them in. */
  ghost predicate NodeMet(g: Group, calls: set<Bid>, windows: set<Bid>, n: NodeState) {
    && (n.role != Follower ==> MayStand(g, n.self))
    && (forall b :: b in windows && b.peer == n.self ==> MayStand(g, n.self))
    && (forall b :: b in calls && b.peer == n.self ==> n.preVoters.Some?)
    && (n.preVoters.Some? ==> n.self in g.callers)
  }

  ghost predicate Met(g: Group, s: System) {
    && IsGroup(g) && PreMessagesOk(g, s.pre)
    && forall p :: p in s.nodes ==> s.nodes[p].self == p && NodeMet(g, s.pre.calls, s.windows, s.nodes[p])
  }

  /** What a step by `p` has to keep, about itself and about what is under way. */
  ghost predicate StepMet(g: Group, s: System, t: System, p: PeerId) {
    && PreMessagesOk(g, t.pre) && SameBut(s.windows, t.windows, p) && SameBut(s.pre.calls, t.pre.calls, p)
    && p in t.nodes && t.nodes[p].self == p && NodeMet(g, t.pre.calls, t.windows, t.nodes[p])
  }

  lemma PreVotingMet(g: Group, s: System, a: Action)
    requires Met(g, s) && Enabled(g, s, a) && IsPreVoting(a)
    ensures StepMet(g, s, Next(g, s, a), a.p)
  {
    assert NodeMet(g, s.pre.calls, s.windows, s.nodes[a.p]);
    if a.PreAnswer? {
      NotAlone(g, a.p, a.reply.voter);
    } else if a.ElectionTimeout? || a.VoteTimeout? {
      TimeoutMet(g, s, a);
    }
  }

  lemma TimeoutMet(g: Group, s: System, a: Action)
    requires Met(g, s) && a.p in s.nodes && (a.ElectionTimeout? || a.VoteTimeout?)
    ensures StepMet(g, s, Next(g, s, a), a.p)
  {
    assert NodeMet(g, s.pre.calls, s.windows, s.nodes[a.p]);
  }

  lemma DiedMet(g: Group, s: System, n: NodeState)
    requires PreMessagesOk(g, s.pre)
    ensures StepMet(g, s, Died(s, n), n.self)
  {
  }

  lemma FinishMet(g: Group, s: System, a: Action)
    requires Met(g, s) && a.p in s.nodes && (a.Finish? || a.FinishCrash? || a.Crash?)
    ensures StepMet(g, s, Next(g, s, a), a.p)
  {
    var n := s.nodes[a.p];
    assert NodeMet(g, s.pre.calls, s.windows, n);
    if a.Crash? {
      DiedMet(g, s, n);
    } else if a.FinishCrash? {
      DiedMet(g, s.(requests := s.requests + {Bid(a.p, a.oldTerm)}), n);
    } else if CheckFails(g, s, a) {
      DiedMet(g, WithSelfVote(s, Bid(a.p, a.oldTerm)), SelfVoted(n));
    }
  }

  lemma MessageMet(g: Group, s: System, a: Action)
    requires Met(g, s) && a.p in s.nodes && !IsPreVoting(a) && !a.Finish? && !a.FinishCrash? && !a.Crash?
    ensures StepMet(g, s, Next(g, s, a), a.p)
  {
    assert NodeMet(g, s.pre.calls, s.windows, s.nodes[a.p]);
  }

  lemma NextMet(g: Group, s: System, a: Action)
    requires Met(g, s) && Enabled(g, s, a)
    ensures Met(g, Next(g, s, a))
  {
    if IsPreVoting(a) {
      PreVotingMet(g, s, a);
    } else if a.Finish? || a.FinishCrash? || a.Crash? {
      FinishMet(g, s, a);
    } else {
      MessageMet(g, s, a);
    }
    NextFrame(g, s, a);
    OthersMet(g, s, Next(g, s, a), a.p);
  }

  lemma OthersMet(g: Group, s: System, t: System, p: PeerId)
    requires Met(g, s) && StepMet(g, s, t, p) && Frames(s, t, p)
    ensures Met(g, t)
  {
    forall q | q in t.nodes ensures t.nodes[q].self == q && NodeMet(g, t.pre.calls, t.windows, t.nodes[q]) {
      if q != p {
        assert NodeMet(g, s.pre.calls, s.windows, s.nodes[q]);
      }
    }
  }

  lemma {:induction false} RunMet(g: Group, states: seq<System>, actions: seq<Action>, k: nat)
    requires IsRun(g, states, actions) && k < |states|
    ensures Met(g, states[k])
  {
    if k == 0 {
      forall p | p in states[0].nodes ensures NodeMet(g, {}, {}, states[0].nodes[p]) {
        assert states[0].nodes[p] == Restarted(states[0].nodes[p]);
      }
    } else {
      RunMet(g, states, actions, k - 1);
      assert StepAt(g, states, actions, k - 1);
      NextMet(g, states[k - 1], actions[k - 1]);
    }
  }

  /** become_leader always finds a candidate: a node that lost its standing in the window is no quorum alone. */
  lemma CheckHolds(g: Group, states: seq<System>, actions: seq<Action>, k: nat)
    requires IsRun(g, states, actions) && k < |actions|
    ensures !CheckFails(g, states[k], actions[k])
  {
    RunOk(g, states, actions, k);
    RunMet(g, states, actions, k);
    assert StepAt(g, states, actions, k);
    var s, a := states[k], actions[k];
    assert NodeOk(s, s.nodes[a.p]) && NodeMet(g, s.pre.calls, s.windows, s.nodes[a.p]);
    assert {} + {a.p} == {a.p};
  }

  /** Whoever stands or leads was let ask by its port and is no quorum by itself: a group of one never has a leader. */
  lemma OnlyTheseStand(g: Group, states: seq<System>, actions: seq<Action>, k: nat, p: PeerId)
    requires IsRun(g, states, actions) && k < |states| && p in states[k].nodes
    requires states[k].nodes[p].role != Follower
    ensures MayStand(g, p)
  {
    RunMet(g, states, actions, k);
    assert NodeMet(g, states[k].pre.calls, states[k].windows, states[k].nodes[p]);
  }

  lemma OneMore(g: Group, states: seq<System>, actions: seq<Action>, a: Action)
    returns (states': seq<System>, actions': seq<Action>)
    requires IsRun(g, states, actions) && Enabled(g, states[|actions|], a)
    ensures IsRun(g, states', actions') && |actions'| == |actions| + 1 && states'[..|states|] == states
    ensures states'[|actions'|] == Next(g, states[|actions|], a)
  {
    states', actions' := states + [Next(g, states[|actions|], a)], actions + [a];
    forall k | 0 <= k < |actions'| ensures StepAt(g, states', actions', k) {
      assert k < |actions| ==> StepAt(g, states, actions, k);
    }
  }

  /** Two peers that are a quorum, one of which may ask, with nothing under way. */
  ghost predicate IsPair(g: Group, s: System, p: PeerId, q: PeerId) {
    && IsGroup(g) && Initial(s) && p in s.nodes && q in s.nodes && p != q && s.nodes[q].term <= s.nodes[p].term
    && Contains(g, p) && p in g.callers && q in g.conf && Quorum(g, {p, q})
  }

  /** A node stands: its timer expires, the other peer grants the pre-vote, and that makes a quorum. */
  lemma PairStands(g: Group, s: System, p: PeerId, q: PeerId) returns (states: seq<System>, actions: seq<Action>)
    requires IsPair(g, s, p, q)
    ensures IsRun(g, states, actions) && |actions| == 4 && states[0] == s
    ensures var n, t := s.nodes[p], states[4];
            && t.nodes.Keys == s.nodes.Keys && t.nodes[q] == s.nodes[q] && Bid(p, n.term + 1) in t.windows
            && t.nodes[p] == Standing(g, n.(preVoters := Some({p} + {q})))
  {
    var n, b := s.nodes[p], Bid(p, s.nodes[p].term);
    var r := Reply(q, b, s.nodes[q].term, true);
    assert n == Restarted(n) && n.self == p && s.nodes[q] == Restarted(s.nodes[q]) && s.nodes[q].self == q;
    states, actions := [s], [];
    states, actions := OneMore(g, states, actions, ElectionTimeout(p, true));
    states, actions := OneMore(g, states, actions, PreArrive(q, b));
    states, actions := OneMore(g, states, actions, PreDecide(q, b, true));
    assert {p} + {q} == {p, q};
    states, actions := OneMore(g, states, actions, PreAnswer(p, r));
  }

  /** The term in memory does go back: stand, and die before the vote is stored. */
  lemma TermGoesBack(g: Group, s: System, p: PeerId, q: PeerId) returns (states: seq<System>, actions: seq<Action>)
    requires IsPair(g, s, p, q)
    ensures IsRun(g, states, actions) && states[0] == s && |actions| == 5 && p in states[4].nodes
    ensures p in states[5].nodes
    ensures states[5].nodes[p].term < states[4].nodes[p].term
  {
    assert s.nodes[p] == Restarted(s.nodes[p]);
    var standing, before := PairStands(g, s, p, q);
    states, actions := OneMore(g, standing, before, Crash(p));
    assert states[4] == standing[4] && states[0] == standing[0];
  }

  /** Left in peace, and granted its vote, the same node leads. */
  lemma PairLeads(g: Group, s: System, p: PeerId, q: PeerId) returns (states: seq<System>, actions: seq<Action>)
    requires IsPair(g, s, p, q)
    ensures IsRun(g, states, actions) && states[0] == s && |actions| == 8
    ensures p in states[8].nodes && states[8].nodes[p].role == Leader && states[8].nodes[p].term == s.nodes[p].term + 1
    ensures q in states[8].nodes && states[8].nodes[q].term == s.nodes[p].term + 1
    ensures states[8].nodes[q].role == Follower && states[8].nodes[q].leader.None?
  {
    var b := Bid(p, s.nodes[p].term + 1);
    assert s.nodes[p].self == p && s.nodes[q] == Restarted(s.nodes[q]) && s.nodes[q].self == q;
    states, actions := PairStands(g, s, p, q);
    NotAlone(g, p, q);
    assert {} + {p} == {p} && {p} + {q} == {p, q};
    states, actions := OneMore(g, states, actions, Finish(p, b.term));
    states, actions := OneMore(g, states, actions, Arrive(q, b));
    states, actions := OneMore(g, states, actions, Decide(q, b, true));
    states, actions := OneMore(g, states, actions, Answer(p, Reply(q, b, b.term, true)));
  }

  /** And the other peer follows it once a request of its arrives. */
  lemma PairFollows(g: Group, s: System, p: PeerId, q: PeerId) returns (states: seq<System>, actions: seq<Action>)
    requires IsPair(g, s, p, q)
    ensures IsRun(g, states, actions) && states[0] == s && |actions| == 10
    ensures p in states[10].nodes && q in states[10].nodes
    ensures var n, m := states[10].nodes[p], states[10].nodes[q];
            n.role == Leader && m.role == Follower && m.term == n.term && m.leader == Some(p)
  {
    states, actions := PairLeads(g, s, p, q);
    var leader := states[8].nodes[p];
    RunOk(g, states, actions, 8);
    assert NodeOk(states[8], leader);
    states, actions := OneMore(g, states, actions, SendAppend(p, leader.term));
    states, actions := OneMore(g, states, actions, Append(q, Bid(p, leader.term)));
  }
}
