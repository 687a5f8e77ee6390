/**
 * Ballots: counting the grants of a configuration, and of the old configuration
 * as well while a membership change is in its joint stage.
 */
module Ballots {
  import opened Core

  /** A set of peers, listed in order as std::set iterates it. */
  type Configuration = seq<PeerId>

  ghost predicate IsSet(conf: Configuration) {
    StrictlyAscending(conf)
  }

  datatype UnfoundPeerId = UnfoundPeerId(peerId: PeerId, found: bool)

  /** A position remembered from the previous ballot; -1 when there is none. */
  datatype PosHint = PosHint(pos0: int, pos1: int)

  /** How many members of `conf` are among `granters`. */
  ghost function Count(conf: Configuration, granters: set<PeerId>): (r: nat) {
    if conf == [] then 0 else
      Count(conf[..|conf| - 1], granters) + (if conf[|conf| - 1] in granters then 1 else 0)
  }

  /** More than half of `conf` is among `granters`. */
  ghost predicate Majority(conf: Configuration, granters: set<PeerId>) {
    2 * Count(conf, granters) > |conf|
  }

  /** The quorum of a configuration, joint with the old one when there is one. */
  ghost predicate HasQuorum(conf: Configuration, oldConf: Option<Configuration>, granters: set<PeerId>) {
    && Majority(conf, granters)
    && (oldConf.Some? ==> Majority(oldConf.value, granters))
  }

  /** The members of `conf` in order, each with whether it granted. */
  ghost function Marked(conf: Configuration, granters: set<PeerId>): (r: seq<UnfoundPeerId>)
    ensures |r| == |conf|
    ensures forall i :: 0 <= i < |conf| ==> r[i] == UnfoundPeerId(conf[i], conf[i] in granters)
  {
    if conf == [] then [] else
      var last := conf[|conf| - 1];
      Marked(conf[..|conf| - 1], granters) + [UnfoundPeerId(last, last in granters)]
  }

  ghost function Remaining(conf: Configuration, granters: set<PeerId>): (r: int) {
    |conf| / 2 + 1 - Count(conf, granters)
  }

  /** The ballot of (`conf`, `oldConf`) after exactly `granters` granted it, in whatever order. */
  ghost function BallotOf(conf: Configuration, oldConf: Option<Configuration>, granters: set<PeerId>): (r: Ballot) {
    Ballot(Marked(conf, granters), Remaining(conf, granters),
           if oldConf.Some? then Marked(oldConf.value, granters) else [],
           if oldConf.Some? then Remaining(oldConf.value, granters) else 0)
  }

  /** A ballot lives by value in the queues and contexts that hold it. */
  datatype Ballot = Ballot(peers: seq<UnfoundPeerId>, quorum: int, oldPeers: seq<UnfoundPeerId>, oldQuorum: int) {

    predicate Granted() {
      quorum <= 0 && oldQuorum <= 0
    }

    /** A grant adds its peer to the granters, whatever the hint and however often it is repeated. */
    method Grant(peer: PeerId, hint: PosHint,
                 ghost conf: Configuration, ghost oldConf: Option<Configuration>, ghost granters: set<PeerId>)
      returns (b: Ballot, next: PosHint)
      requires IsSet(conf) && (oldConf.Some? ==> IsSet(oldConf.value))
      requires this == BallotOf(conf, oldConf, granters)
      ensures b == BallotOf(conf, oldConf, granters + {peer})
      ensures if peer in conf then 0 <= next.pos0 < |conf| && conf[next.pos0] == peer else next.pos0 == -1
      ensures if oldConf.Some? && peer in oldConf.value
              then 0 <= next.pos1 < |oldConf.value| && oldConf.value[next.pos1] == peer else next.pos1 == -1
    {
      var ps, q, pos0 := GrantIn(peers, quorum, peer, hint.pos0, conf, granters);
      if oldPeers == [] {
        if oldConf.Some? {
          MoreGranters(oldConf.value, granters, peer);
        }
        return Ballot(ps, q, oldPeers, oldQuorum), PosHint(pos0, -1);
      }
      var ops, oq, pos1 := GrantIn(oldPeers, oldQuorum, peer, hint.pos1, oldConf.value, granters);
      return Ballot(ps, q, ops, oq), PosHint(pos0, pos1);
    }
  }

  method InitBallot(conf: Configuration, oldConf: Option<Configuration>) returns (b: Ballot)
    ensures b == BallotOf(conf, oldConf, {})
  {
    var ps := ListPeers(conf);
    if oldConf.None? {
      return Ballot(ps, |ps| / 2 + 1, [], 0);
    }
    var ops := ListPeers(oldConf.value);
    return Ballot(ps, |ps| / 2 + 1, ops, |ops| / 2 + 1);
  }

  /** Lays out the members of a configuration, none of them found yet. */
  method ListPeers(conf: Configuration) returns (ps: seq<UnfoundPeerId>)
    ensures ps == Marked(conf, {}) && |ps| / 2 + 1 == Remaining(conf, {})
  {
    ps := [];
    for i := 0 to |conf|
      invariant ps == Marked(conf, {})[..i]
    {
      ps := ps + [UnfoundPeerId(conf[i], false)];
    }
    CountNone(conf);
  }

  /** Position of `peer`, or |ps|; a wrong hint costs a search and nothing else. */
  method FindPeer(peer: PeerId, ps: seq<UnfoundPeerId>, posHint: int) returns (pos: nat)
    ensures pos <= |ps|
    ensures pos < |ps| ==> ps[pos].peerId == peer
    ensures pos == |ps| ==> forall i :: 0 <= i < |ps| ==> ps[i].peerId != peer
  {
    if posHint < 0 || posHint >= |ps| || ps[posHint].peerId != peer {
      pos := 0;
      while pos < |ps|
        invariant pos <= |ps|
        invariant forall i :: 0 <= i < pos ==> ps[i].peerId != peer
      {
        if ps[pos].peerId == peer {
          return;
        }
        pos := pos + 1;
      }
    } else {
      pos := posHint;
    }
  }

  /** One configuration's share of a grant: mark the peer once, count it once. */
  method GrantIn(ps: seq<UnfoundPeerId>, quorum: int, peer: PeerId, posHint: int,
                 ghost conf: Configuration, ghost granters: set<PeerId>)
    returns (ps': seq<UnfoundPeerId>, quorum': int, pos: int)
    requires IsSet(conf)
    requires ps == Marked(conf, granters) && quorum == Remaining(conf, granters)
    ensures ps' == Marked(conf, granters + {peer}) && quorum' == Remaining(conf, granters + {peer})
    ensures if peer in conf then 0 <= pos < |conf| && conf[pos] == peer else pos == -1
  {
    MoreGranters(conf, granters, peer);
    var at := FindPeer(peer, ps, posHint);
    if at == |ps| {
      assert forall i :: 0 <= i < |conf| ==> ps[i].peerId == conf[i];
      assert Marked(conf, granters + {peer}) == ps;
      return ps, quorum, -1;
    }
    assert conf[at] == peer;
    ps', quorum', pos := ps, quorum, at;
    if !ps[at].found {
      ps' := ps[at := UnfoundPeerId(ps[at].peerId, true)];
      quorum' := quorum - 1;
    }
    assert Marked(conf, granters + {peer}) == ps';
  }

  lemma {:induction false} CountNone(conf: Configuration)
    ensures Count(conf, {}) == 0
  {
    if conf == [] {
    } else {
      CountNone(conf[..|conf| - 1]);
    }
  }

  /** A grant counts once, and only when it comes from a member. */
  lemma {:induction false} MoreGranters(conf: Configuration, granters: set<PeerId>, peer: PeerId)
    requires IsSet(conf)
    ensures Count(conf, granters + {peer}) ==
            Count(conf, granters) + (if peer in conf && peer !in granters then 1 else 0)
  {
    if conf == [] {
    } else {
      var front, last := conf[..|conf| - 1], conf[|conf| - 1];
      assert conf == front + [last];
      assert last !in front;
      MoreGranters(front, granters, peer);
    }
  }

  /** A ballot is granted exactly when its granters form a (joint) quorum. */
  lemma GrantedIffQuorum(conf: Configuration, oldConf: Option<Configuration>, granters: set<PeerId>)
    ensures BallotOf(conf, oldConf, granters).Granted() <==> HasQuorum(conf, oldConf, granters)
  {
    if oldConf.Some? {
      var n, k := |oldConf.value|, Count(oldConf.value, granters);
      assert n / 2 + 1 - k <= 0 <==> 2 * k > n;
    }
    var n, k := |conf|, Count(conf, granters);
    assert n / 2 + 1 - k <= 0 <==> 2 * k > n;
  }

  lemma {:induction false} CountGrows(conf: Configuration, few: set<PeerId>, many: set<PeerId>)
    requires few <= many
    ensures Count(conf, few) <= Count(conf, many)
  {
    if conf == [] {
    } else {
      CountGrows(conf[..|conf| - 1], few, many);
    }
  }

  lemma QuorumGrows(conf: Configuration, oldConf: Option<Configuration>, few: set<PeerId>, many: set<PeerId>)
    requires few <= many
    requires HasQuorum(conf, oldConf, few)
    ensures HasQuorum(conf, oldConf, many)
  {
    CountGrows(conf, few, many);
    if oldConf.Some? {
      CountGrows(oldConf.value, few, many);
    }
  }

  /** Counting two sets of granters counts at least what they share beyond one full pass. */
  lemma {:induction false} CountsOverlap(conf: Configuration, g1: set<PeerId>, g2: set<PeerId>)
    ensures Count(conf, g1) + Count(conf, g2) <= |conf| + Count(conf, g1 * g2)
  {
    if conf == [] {
    } else {
      CountsOverlap(conf[..|conf| - 1], g1, g2);
    }
  }

  lemma {:induction false} CountedMember(conf: Configuration, g: set<PeerId>) returns (p: PeerId)
    requires Count(conf, g) > 0
    ensures p in conf && p in g
  {
    var last := conf[|conf| - 1];
    if last in g {
      p := last;
    } else {
      p := CountedMember(conf[..|conf| - 1], g);
    }
  }

  /** Two majorities of one configuration share a member. */
  lemma MajoritiesMeet(conf: Configuration, g1: set<PeerId>, g2: set<PeerId>)
    requires Majority(conf, g1) && Majority(conf, g2)
    ensures exists p :: p in conf && p in g1 && p in g2
  {
    CountsOverlap(conf, g1, g2);
    var p := CountedMember(conf, g1 * g2);
    assert p in conf && p in g1 && p in g2;
  }

  /** Two granted ballots over one configuration share a member that granted both. */
  lemma GrantedBallotsMeet(conf: Configuration, old1: Option<Configuration>, old2: Option<Configuration>,
                           g1: set<PeerId>, g2: set<PeerId>)
    requires BallotOf(conf, old1, g1).Granted() && BallotOf(conf, old2, g2).Granted()
    ensures exists p :: p in conf && p in g1 && p in g2
  {
    GrantedIffQuorum(conf, old1, g1);
    GrantedIffQuorum(conf, old2, g2);
    MajoritiesMeet(conf, g1, g2);
  }

  /** Every member together is a majority of a configuration that has any. */
  lemma {:induction false} CountAll(conf: Configuration, g: set<PeerId>)
    requires forall p :: p in conf ==> p in g
    ensures Count(conf, g) == |conf|
  {
    if conf == [] {
    } else {
      CountAll(conf[..|conf| - 1], g);
    }
  }

  /** One peer counts at most once. */
  lemma CountOne(conf: Configuration, p: PeerId)
    requires IsSet(conf)
    ensures Count(conf, {p}) == if p in conf then 1 else 0
  {
    CountNone(conf);
    MoreGranters(conf, {}, p);
    assert {} + {p} == {p};
  }

  /** Some quorum exists and none consists of a single peer. */
  predicate NeedsTwo(conf: Configuration, oldConf: Option<Configuration>) {
    && conf != [] && oldConf != Some([])
    && !(|conf| == 1 && (oldConf.None? || oldConf.value == conf))
  }

  lemma NoSingleQuorum(conf: Configuration, oldConf: Option<Configuration>, p: PeerId)
    requires IsSet(conf) && (oldConf.Some? ==> IsSet(oldConf.value)) && NeedsTwo(conf, oldConf)
    ensures !HasQuorum(conf, oldConf, {p})
  {
    CountOne(conf, p);
    if oldConf.Some? {
      CountOne(oldConf.value, p);
    }
  }

  /** Where two are needed, some peer completes a quorum that it is not alone. */
  lemma QuorumIsCompleted(conf: Configuration, oldConf: Option<Configuration>) returns (some: seq<PeerId>, p: PeerId)
    requires IsSet(conf) && (oldConf.Some? ==> IsSet(oldConf.value)) && NeedsTwo(conf, oldConf)
    ensures !HasQuorum(conf, oldConf, Elements(some)) && HasQuorum(conf, oldConf, Elements(some) + {p})
  {
    var all := conf + if oldConf.Some? then oldConf.value else [];
    CountAll(conf, Elements(all));
    if oldConf.Some? {
      CountAll(oldConf.value, Elements(all));
    }
    some, p := LastOfQuorum(conf, oldConf, all);
  }

  lemma {:induction false} LastOfQuorum(conf: Configuration, oldConf: Option<Configuration>, all: seq<PeerId>)
    returns (some: seq<PeerId>, p: PeerId)
    requires HasQuorum(conf, oldConf, Elements(all))
    ensures !HasQuorum(conf, oldConf, Elements(some)) && HasQuorum(conf, oldConf, Elements(some) + {p})
  {
    CountNone(conf);
    assert Elements<PeerId>([]) == {};
    var front, last := all[..|all| - 1], all[|all| - 1];
    assert all == front + [last];
    assert Elements(all) == Elements(front) + {last};
    if HasQuorum(conf, oldConf, Elements(front)) {
      some, p := LastOfQuorum(conf, oldConf, front);
    } else {
      some, p := front, last;
    }
  }

  /** Where no two are needed, whoever completes a quorum is one. */
  lemma CompletedAlone(conf: Configuration, oldConf: Option<Configuration>, g: set<PeerId>, p: PeerId)
    requires IsSet(conf) && (oldConf.Some? ==> IsSet(oldConf.value)) && !NeedsTwo(conf, oldConf)
    requires !HasQuorum(conf, oldConf, g) && HasQuorum(conf, oldConf, g + {p})
    ensures HasQuorum(conf, oldConf, {p})
  {
    MoreGranters(conf, g, p);
    CountOne(conf, p);
    if oldConf.Some? {
      MoreGranters(oldConf.value, g, p);
      CountOne(oldConf.value, p);
    }
  }
}
