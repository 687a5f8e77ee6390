/**
 * What a leadership has committed, stated without queues: which tasks were proposed
 * and which peers acknowledged which index. Nothing here depends on the order in
 * which acknowledgements came in.
 */
module CommitSpec {
  import opened Core
  import opened Ballots

  datatype Task = Task(conf: Configuration, oldConf: Option<Configuration>)

  ghost predicate IsTask(t: Task) {
    IsSet(t.conf) && (t.oldConf.Some? ==> IsSet(t.oldConf.value))
  }

  /** `reset` is the index of the first task; 0 when the node is not leading. */
  datatype Leadership = Leadership(reset: int, tasks: seq<Task>, acks: map<int, set<PeerId>>)

  ghost function Ackers(s: Leadership, index: int): (r: set<PeerId>) {
    if index in s.acks then s.acks[index] else {}
  }

  /** What was proposed at `index` has been acknowledged by a quorum of its own configuration. */
  ghost predicate Quorate(s: Leadership, index: int) {
    && s.reset <= index < s.reset + |s.tasks|
    && HasQuorum(s.tasks[index - s.reset].conf, s.tasks[index - s.reset].oldConf, Ackers(s, index))
  }

  /** The indexes committed so far, in order or not. */
  ghost function Committed(s: Leadership): (r: set<int>)
    ensures forall i :: i in r <==> Quorate(s, i)
  {
    set i | s.reset <= i < s.reset + |s.tasks| && Quorate(s, i)
  }

  /** `p` is the first index from `lo` on that is not in `c`. */
  ghost predicate IsFront(c: set<int>, lo: int, p: int) {
    && lo <= p
    && (forall i :: lo <= i < p ==> i in c)
    && p !in c
  }

  ghost predicate InRange(s: Leadership, batch: seq<int>) {
    s.reset > 0 && batch != [] && s.reset <= batch[|batch| - 1] < s.reset + |s.tasks|
  }

  ghost predicate AcksInRange(s: Leadership) {
    forall i :: i in s.acks ==> s.reset <= i < s.reset + |s.tasks| && s.acks[i] != {}
  }

  ghost function AckOne(s: Leadership, index: int, peer: PeerId): (r: Leadership) {
    s.(acks := s.acks[index := Ackers(s, index) + {peer}])
  }

  /** The indexes of a batch acknowledged one at a time; those before the reset point are nobody's task. */
  ghost function AckAll(s: Leadership, batch: seq<int>, peer: PeerId): (r: Leadership)
    ensures r.reset == s.reset && r.tasks == s.tasks
  {
    if batch == [] then s else
      var front := AckAll(s, batch[..|batch| - 1], peer);
      var last := batch[|batch| - 1];
      if last < s.reset then front else AckOne(front, last, peer)
  }

  /** A batch that reaches past the proposed tasks is refused as a whole. */
  ghost function Ack(s: Leadership, batch: seq<int>, peer: PeerId): (r: Leadership) {
    if InRange(s, batch) then AckAll(s, batch, peer) else s
  }

  ghost function Propose(s: Leadership, task: Task): (r: Leadership) {
    s.(tasks := s.tasks + [task])
  }

  lemma FrontIsUnique(c: set<int>, lo: int, p: int, q: int)
    requires IsFront(c, lo, p) && IsFront(c, lo, q)
    ensures p == q
  {
    assert p < q ==> p in c;
    assert q < p ==> q in c;
  }

  /** A batch adds its peer to the indexes it names, at or after the reset point, and to no other. */
  lemma {:induction false} AckersAfterAll(s: Leadership, batch: seq<int>, peer: PeerId, index: int)
    ensures index in batch && s.reset <= index ==> Ackers(AckAll(s, batch, peer), index) == Ackers(s, index) + {peer}
    ensures index !in batch || index < s.reset ==> Ackers(AckAll(s, batch, peer), index) == Ackers(s, index)
    ensures AckAll(s, batch, peer).acks.Keys == s.acks.Keys + (set i | i in batch && s.reset <= i)
  {
    if batch == [] {
    } else {
      var front, last := batch[..|batch| - 1], batch[|batch| - 1];
      AckersAfterAll(s, front, peer, index);
      assert batch == front + [last];
      assert index in batch <==> index in front || index == last;
    }
  }

  lemma AckersAfter(s: Leadership, batch: seq<int>, peer: PeerId, index: int)
    requires InRange(s, batch)
    ensures index in batch && s.reset <= index ==> Ackers(Ack(s, batch, peer), index) == Ackers(s, index) + {peer}
    ensures index !in batch || index < s.reset ==> Ackers(Ack(s, batch, peer), index) == Ackers(s, index)
  {
    AckersAfterAll(s, batch, peer, index);
  }

  /** A batch never takes a quorum away, and commits no index outside it. */
  lemma CommittedAfter(s: Leadership, batch: seq<int>, peer: PeerId)
    ensures Committed(s) <= Committed(Ack(s, batch, peer)) <= Committed(s) + Elements(batch)
  {
    if InRange(s, batch) {
      var t := Ack(s, batch, peer);
      forall i | i in Committed(s) ensures i in Committed(t) {
        AckersAfter(s, batch, peer, i);
        var task := s.tasks[i - s.reset];
        QuorumGrows(task.conf, task.oldConf, Ackers(s, i), Ackers(t, i));
      }
      forall i | i in Committed(t) && i !in batch ensures i in Committed(s) {
        AckersAfter(s, batch, peer, i);
      }
    }
  }

  /** A single acknowledgement can commit its own index and nothing else. */
  lemma CommittedAfterOne(s: Leadership, index: int, peer: PeerId)
    ensures var t := AckOne(s, index, peer);
            Committed(t) == if Quorate(t, index) then Committed(s) + {index} else Committed(s)
  {
    var t := AckOne(s, index, peer);
    forall i | i in Committed(s) ensures i in Committed(t) {
      var task := s.tasks[i - s.reset];
      QuorumGrows(task.conf, task.oldConf, Ackers(s, i), Ackers(t, i));
    }
    assert forall i :: i in Committed(t) && i != index ==> i in Committed(s);
  }

  lemma AckKeepsRange(s: Leadership, batch: seq<int>, peer: PeerId)
    requires AcksInRange(s) && Ascending(batch)
    ensures AcksInRange(Ack(s, batch, peer))
  {
    if InRange(s, batch) {
      var t := Ack(s, batch, peer);
      forall i | i in t.acks ensures s.reset <= i < s.reset + |s.tasks| && t.acks[i] != {} {
        AckersAfterAll(s, batch, peer, i);
        if i in batch && s.reset <= i {
          assert peer in t.acks[i];
        } else {
          assert t.acks[i] == Ackers(s, i);
        }
      }
    }
  }

  /** A new task starts without acknowledgements and commits nothing. */
  lemma CommittedAfterPropose(s: Leadership, task: Task)
    requires AcksInRange(s)
    ensures AcksInRange(Propose(s, task))
    ensures Committed(Propose(s, task)) == Committed(s)
  {
    var t := Propose(s, task);
    CountNone(task.conf);
    forall i ensures i in Committed(t) <==> i in Committed(s) {
      if s.reset <= i < s.reset + |s.tasks| {
        assert t.tasks[i - s.reset] == s.tasks[i - s.reset];
      }
    }
  }

  datatype Event = Proposed(task: Task) | Acked(batch: seq<int>, peer: PeerId)

  /** The specification of a box together with its last committed index. */
  datatype Progress = Progress(spec: Leadership, last: int)

  /** The first index from `k` on that is not committed. */
  ghost function FrontFrom(s: Leadership, k: int): (p: int)
    requires s.reset <= k <= s.reset + |s.tasks|
    requires forall i :: s.reset <= i < k ==> i in Committed(s)
    ensures IsFront(Committed(s), s.reset, p)
    decreases s.reset + |s.tasks| - k
  {
    if k in Committed(s) then FrontFrom(s, k + 1) else k
  }

  ghost function Pending(s: Leadership): (p: int)
    ensures IsFront(Committed(s), s.reset, p)
  {
    FrontFrom(s, s.reset)
  }

  ghost function Step(b: Progress, e: Event): (r: Progress) {
    match e
    case Proposed(task) => b.(spec := Propose(b.spec, task))
    case Acked(batch, peer) =>
      var t := Ack(b.spec, batch, peer);
      Progress(t, if Committed(t) != Committed(b.spec) && Pending(b.spec) in batch then Pending(t) - 1 else b.last)
  }

  ghost function Run(reset: int, last: int, es: seq<Event>): (r: Progress) {
    if es == [] then Progress(Leadership(reset, [], map[]), last)
    else Step(Run(reset, last, es[..|es| - 1]), es[|es| - 1])
  }
}
