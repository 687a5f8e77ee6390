/** Ballot box, notification filter and closure queue working together on one leadership. */
module CommitPipelines {
  import opened Core
  import opened Ballots
  import opened CommitSpec
  import opened BallotBoxes
  import opened ClosureQueues

  /** The notification filter: what the contiguous commit index already covers is dropped from the list. */
  method OnCommitted(committedIndex: int, ooCommitted: seq<int>) returns (rest: seq<int>)
    requires StrictlyAscending(ooCommitted)
    ensures StrictlyAscending(rest)
    ensures forall i :: i in rest <==> i in ooCommitted && i > committedIndex
  {
    rest := ooCommitted;
    ghost var n := 0;
    while rest != [] && rest[0] <= committedIndex
      invariant 0 <= n <= |ooCommitted| && rest == ooCommitted[n..]
      invariant forall k :: 0 <= k < n ==> ooCommitted[k] <= committedIndex
    {
      rest, n := rest[1..], n + 1;
    }
    forall i ensures i in rest <==> i in ooCommitted && i > committedIndex {
      if i in ooCommitted && i > committedIndex {
        var k :| 0 <= k < |ooCommitted| && ooCommitted[k] == i;
        assert rest[k - n] == i;
      }
      if i in rest {
        var k :| 0 <= k < |rest| && rest[k] == i;
        assert rest[0] <= rest[k];
      }
    }
  }

  /** The closures handed out so far are those of the committed indexes `c`, each at its own index. */
  ghost predicate HandedOnce(handed: map<int, Closure>, closures: seq<Closure>, c: set<int>, reset: int) {
    && handed.Keys == c
    && (forall i :: i in handed ==> 0 <= i - reset < |closures| && handed[i] == closures[i - reset])
  }

  /** `handed` after the closures `out` are given out at `indexes`, none of them given out before. */
  ghost predicate HandsOver(handed: map<int, Closure>, indexes: seq<int>, out: seq<Closure>, 
                            handed': map<int, Closure>) {
    && |indexes| == |out|
    && (forall j, k :: 0 <= j < k < |indexes| ==> indexes[j] != indexes[k])
    && (forall k :: 0 <= k < |indexes| ==>
          indexes[k] !in handed && indexes[k] in handed' && handed'[indexes[k]] == out[k])
    && handed'.Keys == handed.Keys + Elements(indexes)
    && (forall i :: i in handed ==> i in handed' && handed'[i] == handed[i])
  }

  ghost function HandedBy(closures: seq<Closure>, c: set<int>, reset: int): (r: map<int, Closure>)
    requires forall i :: i in c ==> 0 <= i - reset < |closures|
    ensures HandedOnce(r, closures, c, reset)
  {
    map i | i in c :: closures[i - reset]
  }

  /** A notification after the filter; `load` indexes were loaded before its own. */
  datatype Message = Message(last: int, rest: seq<int>, load: nat)

  /** What was committed, and the first index that was not. */
  datatype Stage = Stage(committed: set<int>, pending: int)

  /**
   * Box, queue and what is between them: the lists of calls that have let go of the mutex (`unsent`), the messages
   * whose index has been loaded (`loaded`), and those in the state machine caller's queue (`sent`). `stages` holds the
   * stage the box was in at each load, `seen` the number of loads up to the latest one delivered, `known` the indexes
   * the closure queue was told about.
   */
  datatype Link = Link(
    queue: QueueState, unsent: seq<seq<int>>, loaded: seq<Message>, sent: seq<Message>, stages: seq<Stage>, seen: nat,
    known: set<int>, closures: seq<Closure>, handed: map<int, Closure>, box: Stage, reset: int)

  /** The end of what was proposed. */
  ghost function End(l: Link): (r: int) {
    l.reset + |l.closures|
  }

  /** The queue holds the closures from position `at` on. */
  ghost predicate Holds(q: seq<Closure>, closures: seq<Closure>, at: int) {
    0 <= at && at + |q| == |closures| && forall k :: 0 <= k < |q| ==> q[k] == closures[at + k]
  }

  /** The queue waits for what follows the first index not known to be committed, `known` being those that are. */
  ghost predicate Waits(s: QueueState, known: set<int>, closures: seq<Closure>, reset: int) {
    && IsFront(known, reset, s.first) && |s.closures| == |s.done| && FlagsMatch(s.done, known, s.first)
    && Holds(s.closures, closures, s.first - reset)
    && forall i :: i in known ==> reset <= i < reset + |closures|
  }

  /** The notification tells about index `i`. */
  ghost predicate Tells(m: Message, reset: int, i: int) {
    reset <= i <= m.last || i in m.rest
  }

  /** What a message can say about a box in stage `at`: nothing but committed indexes, up to the contiguous end. */
  ghost predicate IsSent(m: Message, at: Stage, reset: int, end: int) {
    && IsFront(at.committed, reset, at.pending) && (forall i :: i in at.committed ==> reset <= i < end)
    && m.last < at.pending && (at.pending > reset ==> m.last == at.pending - 1)
    && StrictlyAscending(m.rest) && forall i :: i in m.rest ==> i in at.committed && i > m.last
  }

  /** The list starts at or after the first index the queue waits for. */
  predicate InPlace(m: Message, first: int) {
    m.rest == [] || first <= m.rest[0]
  }

  /** The indexes that are known to the queue once the message is delivered. */
  ghost function Learned(known: set<int>, m: Message, at: Stage, reset: int): (r: set<int>)
    ensures forall i :: i in r <==> i in known || (i in at.committed && Tells(m, reset, i))
  {
    known + set i | i in at.committed && Tells(m, reset, i)
  }

  lemma TellsCommitted(m: Message, at: Stage, reset: int, end: int, i: int)
    requires IsSent(m, at, reset, end) && Tells(m, reset, i)
    ensures i in at.committed
  {
  }

  /** Marking the slots a message tells about makes the flags show what is known afterwards. */
  lemma MarkedMatch(s: QueueState, known: set<int>, m: Message, at: Stage, reset: int, end: int)
    requires IsSent(m, at, reset, end) && FlagsMatch(s.done, known, s.first) && reset <= s.first
    ensures FlagsMatch(MarkAll(s.done, s.first, m.last, m.rest), Learned(known, m, at, reset), s.first)
  {
    var marked, known' := MarkAll(s.done, s.first, m.last, m.rest), Learned(known, m, at, reset);
    forall k | 0 <= k < |marked| ensures marked[k] <==> s.first + k in known' {
      assert s.done[k] <==> s.first + k in known;
      if Tells(m, reset, s.first + k) {
        TellsCommitted(m, at, reset, end, s.first + k);
      }
    }
  }

  /** Dropping the leading marked slots leaves the queue waiting at the new front. */
  lemma NextFront(q: seq<Closure>, marked: seq<bool>, n: int, known: set<int>, first: int, closures: seq<Closure>,
                  reset: int)
    requires |q| == |marked| && Holds(q, closures, first - reset)
    requires FlagsMatch(marked, known, first) && IsLeading(marked, n)
    requires forall i :: reset <= i < first ==> i in known
    requires forall i :: i in known ==> reset <= i < reset + |closures|
    ensures Waits(QueueState(first + n, q[n..], marked[n..]), known, closures, reset)
  {
    assert n < |marked| ==> (marked[n] <==> first + n in known);
    forall i | reset <= i < first + n ensures i in known {
      if i >= first {
        assert marked[i - first] <==> first + (i - first) in known;
      }
    }
    MatchFrom(marked, known, first, n);
    HoldsRest(q, closures, first - reset, n);
  }

  lemma MatchFrom(flags: seq<bool>, c: set<int>, pending: int, n: nat)
    requires FlagsMatch(flags, c, pending) && n <= |flags|
    ensures FlagsMatch(flags[n..], c, pending + n)
  {
    var rest := flags[n..];
    forall k | 0 <= k < |rest| ensures rest[k] <==> pending + n + k in c {
      assert flags[n + k] <==> pending + (n + k) in c;
    }
  }

  lemma HoldsRest(q: seq<Closure>, closures: seq<Closure>, at: int, n: nat)
    requires Holds(q, closures, at) && n <= |q|
    ensures Holds(q[n..], closures, at + n)
  {
    var rest := q[n..];
    forall k | 0 <= k < |rest| ensures rest[k] == closures[at + n + k] {
      assert q[n + k] == closures[at + (n + k)];
    }
  }

  /** The indexes that become known. */
  ghost predicate AreNew(indexes: seq<int>, known: set<int>, known': set<int>) {
    forall i :: i in indexes <==> i in known' && i !in known
  }

  /** Closures handed out at distinct indexes, each the one proposed there. */
  ghost predicate AreProposed(out: seq<Closure>, indexes: seq<int>, closures: seq<Closure>, reset: int) {
    && |out| == |indexes| && (forall j, k :: 0 <= j < k < |indexes| ==> indexes[j] != indexes[k])
    && forall k :: 0 <= k < |indexes| ==>
         0 <= indexes[k] - reset < |closures| && out[k] == closures[indexes[k] - reset]
  }

  /** The indexes handed out at a delivery are those that become known. */
  lemma NewlyMarked(s: QueueState, known: set<int>, known': set<int>, marked: seq<bool>, reset: int,
                    out: seq<Closure>, indexes: seq<int>)
    requires |s.closures| == |s.done| == |marked|
    requires FlagsMatch(s.done, known, s.first) && FlagsMatch(marked, known', s.first)
    requires IsFront(known, reset, s.first) && forall i :: i in known' ==> reset <= i < s.first + |marked|
    requires HandsOut(out, indexes, s.closures, s.done, marked, s.first)
    ensures AreNew(indexes, known, known')
  {
    var first := s.first;
    forall i ensures i in indexes <==> i in known' && i !in known {
      if first <= i < first + |s.done| {
        assert marked[i - first] <==> first + (i - first) in known';
        assert s.done[i - first] <==> first + (i - first) in known;
      }
    }
  }

  lemma OutsAreProposed(s: QueueState, marked: seq<bool>, closures: seq<Closure>, reset: int, out: seq<Closure>,
                        indexes: seq<int>)
    requires |s.closures| == |s.done| == |marked| && Holds(s.closures, closures, s.first - reset)
    requires HandsOut(out, indexes, s.closures, s.done, marked, s.first)
    ensures AreProposed(out, indexes, closures, reset)
  {
    forall k | 0 <= k < |indexes|
      ensures 0 <= indexes[k] - reset < |closures| && out[k] == closures[indexes[k] - reset]
    {
      var i := indexes[k];
      assert i in indexes;
      assert s.closures[i - s.first] == closures[s.first - reset + (i - s.first)];
    }
  }

  /** Giving out closures at new indexes, each the one proposed there, hands over exactly these. */
  lemma HandsOverNew(out: seq<Closure>, indexes: seq<int>, c: set<int>, c': set<int>, reset: int,
                     closures: seq<Closure>, handed: map<int, Closure>)
    requires HandedOnce(handed, closures, c, reset) && c <= c'
    requires forall i :: i in c' ==> 0 <= i - reset < |closures|
    requires AreNew(indexes, c, c') && AreProposed(out, indexes, closures, reset)
    ensures HandsOver(handed, indexes, out, HandedBy(closures, c', reset))
  {
    assert forall k :: 0 <= k < |indexes| ==> indexes[k] in indexes;
    forall i ensures i in Elements(indexes) <==> i in c' - c {
      assert i in indexes <==> i in c' && i !in c;
    }
    assert c' == c + Elements(indexes);
  }

  /** Queue and record of what was handed out agree about what the queue knows. */
  ghost predicate Settled(l: Link) {
    Waits(l.queue, l.known, l.closures, l.reset) && HandedOnce(l.handed, l.closures, l.known, l.reset)
  }

  lemma LearnedInRange(l: Link, m: Message, at: Stage)
    requires Settled(l) && IsSent(m, at, l.reset, End(l))
    ensures var known' := Learned(l.known, m, at, l.reset);
            && (forall i :: i in known' ==> 0 <= i - l.reset < |l.closures|)
            && (forall i :: i in known' ==> l.reset <= i < l.queue.first + |l.queue.done|)
  {
  }

  /** A message in place leaves the queue waiting for what follows what it has learned, whenever it was loaded. */
  lemma DeliveredStep(l: Link, m: Message, at: Stage, queue: QueueState, out: seq<Closure>, indexes: seq<int>)
    requires Settled(l) && IsSent(m, at, l.reset, End(l)) && Popped(l.queue, m.last, m.rest, queue, out, indexes)
    ensures Waits(queue, Learned(l.known, m, at, l.reset), l.closures, l.reset)
  {
    var s := l.queue;
    MarkedMatch(s, l.known, m, at, l.reset, End(l));
    NextFront(s.closures, MarkAll(s.done, s.first, m.last, m.rest), queue.first - s.first,
              Learned(l.known, m, at, l.reset), s.first, l.closures, l.reset);
  }

  /** A delivery hands out exactly the closures of what becomes known. */
  lemma DeliveredOnce(l: Link, m: Message, at: Stage, out: seq<Closure>, indexes: seq<int>)
    requires Settled(l) && IsSent(m, at, l.reset, End(l))
    requires HandsOut(out, indexes, l.queue.closures, l.queue.done,
                      MarkAll(l.queue.done, l.queue.first, m.last, m.rest), l.queue.first)
    ensures var known' := Learned(l.known, m, at, l.reset);
            && (forall i :: i in known' ==> 0 <= i - l.reset < |l.closures|)
            && AreNew(indexes, l.known, known')
            && HandsOver(l.handed, indexes, out, HandedBy(l.closures, known', l.reset))
  {
    var s, known' := l.queue, Learned(l.known, m, at, l.reset);
    var marked := MarkAll(s.done, s.first, m.last, m.rest);
    LearnedInRange(l, m, at);
    MarkedMatch(s, l.known, m, at, l.reset, End(l));
    NewlyMarked(s, l.known, known', marked, l.reset, out, indexes);
    OutsAreProposed(s, marked, l.closures, l.reset, out, indexes);
    HandsOverNew(out, indexes, l.known, known', l.reset, l.closures, l.handed);
  }

  /** What the latest load delivered so far could tell. */
  ghost function Seen(l: Link): (r: set<int>)
    requires l.seen <= |l.stages|
  {
    if l.seen == 0 then {} else l.stages[l.seen - 1].committed
  }

  ghost predicate StagesOk(l: Link) {
    && (forall a, b :: 0 <= a < b < |l.stages| ==> l.stages[a].committed <= l.stages[b].committed)
    && (forall a :: 0 <= a < |l.stages| ==> l.stages[a].committed <= l.box.committed)
    && l.seen <= |l.stages| && l.known <= Seen(l)
  }

  ghost predicate MessageOk(l: Link, m: Message) {
    m.load < |l.stages| && IsSent(m, l.stages[m.load], l.reset, End(l))
  }

  ghost predicate MessagesOk(l: Link) {
    forall m :: m in l.loaded || m in l.sent ==> MessageOk(l, m)
  }

  /** Index `i` is told by a message on its way, or by a call that has not loaded its index yet. */
  ghost predicate OnItsWay(l: Link, i: int) {
    || (exists m :: (m in l.loaded || m in l.sent) && Tells(m, l.reset, i))
    || (exists u :: u in l.unsent && i in u)
  }

  /** Whatever is committed is known to the queue or on its way, and only committed indexes are. */
  ghost predicate Accounted(l: Link) {
    && (forall i :: i in l.box.committed ==> i in l.known || OnItsWay(l, i))
    && (forall u :: u in l.unsent ==> u != [] && StrictlyAscending(u) && Elements(u) <= l.box.committed)
  }

  ghost predicate Linked(l: Link) {
    Settled(l) && StagesOk(l) && MessagesOk(l) && Accounted(l)
  }

  /** The sequence without its element at `k`. */
  function Without<T(!new)>(s: seq<T>, k: nat): (r: seq<T>)
    requires k < |s|
    ensures |r| == |s| - 1 && forall x :: x in s <==> x in r || x == s[k]
  {
    assert s == s[..k] + [s[k]] + s[k + 1..];
    s[..k] + s[k + 1..]
  }

  lemma AfterPropose(l: Link, closure: Closure)
    requires Linked(l)
    ensures Linked(l.(queue := QueueState(l.queue.first, l.queue.closures + [closure], l.queue.done + [false]),
                      closures := l.closures + [closure]))
  {
    var queue := QueueState(l.queue.first, l.queue.closures + [closure], l.queue.done + [false]);
    var l' := l.(queue := queue, closures := l.closures + [closure]);
    forall k | 0 <= k < |queue.done| ensures queue.done[k] <==> queue.first + k in l.known {
      assert k < |l.queue.done| ==> (l.queue.done[k] <==> queue.first + k in l.known);
    }
    assert forall m :: MessageOk(l, m) ==> MessageOk(l', m);
    assert forall i :: OnItsWay(l, i) ==> OnItsWay(l', i);
  }

  lemma AfterCommit(l: Link, oo: seq<int>, box: Stage)
    requires Linked(l) && oo != [] && StrictlyAscending(oo)
    requires Elements(oo) == box.committed - l.box.committed && l.box.committed <= box.committed
    ensures Linked(l.(unsent := l.unsent + [oo], box := box))
  {
    var l' := l.(unsent := l.unsent + [oo], box := box);
    assert forall m :: MessageOk(l, m) ==> MessageOk(l', m);
    forall i | i in box.committed ensures i in l'.known || OnItsWay(l', i) {
      if i in l.box.committed {
        assert i in l.known || OnItsWay(l, i);
      } else {
        assert i in Elements(oo) && oo in l'.unsent;
      }
    }
  }

  /** A call loads the last committed index, as it is by now, for its own list; calls may do so in any order. */
  lemma AfterLoad(l: Link, j: nat, m: Message)
    requires Linked(l) && j < |l.unsent| && m.load == |l.stages| && IsSent(m, l.box, l.reset, End(l))
    requires forall i :: i in m.rest <==> i in l.unsent[j] && i > m.last
    ensures Linked(l.(unsent := Without(l.unsent, j), loaded := l.loaded + [m], stages := l.stages + [l.box]))
  {
    var l' := l.(unsent := Without(l.unsent, j), loaded := l.loaded + [m], stages := l.stages + [l.box]);
    assert Seen(l') == Seen(l);
    forall k | k in l'.loaded || k in l'.sent ensures MessageOk(l', k) {
      assert k != m ==> MessageOk(l, k);
    }
    forall i | i in l.box.committed ensures i in l'.known || OnItsWay(l', i) {
      assert i in l.known || OnItsWay(l, i);
      if u :| u in l.unsent && i in u {
        if u == l.unsent[j] {
          assert m in l'.loaded && Tells(m, l.reset, i);
        } else {
          assert u in l'.unsent;
        }
      }
    }
  }

  /** A call hands its message to the state machine caller; calls may do so in any order. */
  lemma AfterEnqueue(l: Link, k: nat)
    requires Linked(l) && k < |l.loaded|
    ensures Linked(l.(loaded := Without(l.loaded, k), sent := l.sent + [l.loaded[k]]))
  {
    var l' := l.(loaded := Without(l.loaded, k), sent := l.sent + [l.loaded[k]]);
    assert forall m :: m in l'.loaded || m in l'.sent <==> m in l.loaded || m in l.sent;
    assert forall m :: MessageOk(l, m) ==> MessageOk(l', m);
    assert forall i :: OnItsWay(l, i) ==> OnItsWay(l', i);
  }

  /** `m` has left the caller's queue and everything it tells about is known. */
  lemma AfterDelivery(l: Link, l': Link)
    requires Linked(l) && l.sent != [] && Settled(l')
    requires var m := l.sent[0];
             && m.load < |l.stages|
             && l' == l.(queue := l'.queue, known := l'.known, handed := l'.handed, sent := l.sent[1..],
                         seen := if m.load < l.seen then l.seen else m.load + 1)
             && l.known <= l'.known <= l.known + l.stages[m.load].committed
             && forall i :: Tells(m, l.reset, i) ==> i in l'.known
    ensures Linked(l')
  {
    var m := l.sent[0];
    assert MessageOk(l, m);
    assert forall k :: k in l.sent <==> k in l'.sent || k == m;
    assert forall k :: MessageOk(l, k) ==> MessageOk(l', k);
    forall i | i in l.box.committed ensures i in l'.known || OnItsWay(l', i) {
      assert i in l.known || OnItsWay(l, i);
    }
  }

  /** The queue's end is the end of what was proposed, so that no message reaches beyond it. */
  lemma WithinQueue(l: Link, m: Message)
    requires Settled(l) && MessageOk(l, m)
    ensures !IsBeyond(l.queue, m.rest) && m.last < l.queue.first + |l.queue.closures|
  {
    var at := l.stages[m.load];
    assert at.pending > End(l) ==> End(l) in at.committed;
    assert m.rest != [] ==> m.rest[|m.rest| - 1] in m.rest;
  }

  /** Where the list lies behind the queue, everything the message tells about is known already. */
  lemma BehindIsKnown(l: Link, m: Message)
    requires Settled(l) && MessageOk(l, m) && IsBehind(l.queue, m.rest)
    ensures forall i :: Tells(m, l.reset, i) ==> i in l.known
    ensures InPlace(m, l.queue.first) <==> m.rest == []
  {
    var at, first := l.stages[m.load], l.queue.first;
    assert at.pending > End(l) ==> End(l) in at.committed;
    forall i | i in m.rest ensures i < first {
      var k :| 0 <= k < |m.rest| && m.rest[k] == i;
      assert m.rest[k] <= m.rest[|m.rest| - 1];
    }
    if m.rest != [] {
      assert m.rest[0] in m.rest;
    }
  }

  ghost function Seeing(l: Link, m: Message): (r: nat) {
    if m.load < l.seen then l.seen else m.load + 1
  }

  /** A message delivered to a queue that is past it: nothing changes. */
  lemma DeliveredBehind(l: Link)
    requires Linked(l) && l.sent != [] && IsBehind(l.queue, l.sent[0].rest)
    ensures Linked(l.(sent := l.sent[1..], seen := Seeing(l, l.sent[0])))
  {
    assert MessageOk(l, l.sent[0]);
    BehindIsKnown(l, l.sent[0]);
    AfterDelivery(l, l.(sent := l.sent[1..], seen := Seeing(l, l.sent[0])));
  }

  /** A message delivered to a queue that pops. */
  lemma Delivered(l: Link, queue: QueueState, out: seq<Closure>, indexes: seq<int>)
    returns (known: set<int>, handed: map<int, Closure>)
    requires Linked(l) && l.sent != []
    requires Popped(l.queue, l.sent[0].last, l.sent[0].rest, queue, out, indexes)
    ensures Linked(l.(queue := queue, known := known, handed := handed, sent := l.sent[1..],
                      seen := Seeing(l, l.sent[0])))
    ensures HandsOver(l.handed, indexes, out, handed)
    ensures forall i :: i in indexes <==> Tells(l.sent[0], l.reset, i) && i !in l.handed
  {
    var m := l.sent[0];
    assert MessageOk(l, m);
    var at := l.stages[m.load];
    DeliveredStep(l, m, at, queue, out, indexes);
    DeliveredOnce(l, m, at, out, indexes);
    known := Learned(l.known, m, at, l.reset);
    handed := HandedBy(l.closures, known, l.reset);
    forall i | Tells(m, l.reset, i) ensures i in known {
      TellsCommitted(m, at, l.reset, End(l), i);
    }
    AfterDelivery(l, l.(queue := queue, known := known, handed := handed, sent := l.sent[1..], seen := Seeing(l, m)));
  }

  /** A message whose index was loaded after those of all messages delivered so far is in place. */
  lemma LoadOrderSuffices(l: Link, m: Message)
    requires Linked(l) && m in l.sent && l.seen <= m.load
    ensures InPlace(m, l.queue.first)
  {
    assert MessageOk(l, m);
    var at, first := l.stages[m.load], l.queue.first;
    assert Seen(l) <= at.committed;
    assert first > at.pending ==> at.pending in l.known;
    assert m.rest != [] ==> m.rest[0] in m.rest;
  }

  /** The three cases of a delivery. */
  lemma DeliveredAll(l: Link, queue: QueueState, out: seq<Closure>, indexes: seq<int>, inRange: bool)
    returns (known: set<int>, handed: map<int, Closure>, seen: nat)
    requires Linked(l) && l.sent != []
    requires Pops(l.queue, l.sent[0].last, l.sent[0].rest, queue, out, indexes, inRange)
    ensures inRange ==>
              Linked(l.(queue := queue, known := known, handed := handed, sent := l.sent[1..], seen := seen))
    ensures seen == Seeing(l, l.sent[0])
    ensures inRange <==> InPlace(l.sent[0], l.queue.first) || IsBehind(l.queue, l.sent[0].rest)
    ensures InPlace(l.sent[0], l.queue.first) <==> inRange && HandsOver(l.handed, indexes, out, handed)
    ensures InPlace(l.sent[0], l.queue.first) ==>
              forall i :: i in indexes <==> Tells(l.sent[0], l.reset, i) && i !in l.handed
    ensures inRange && !InPlace(l.sent[0], l.queue.first) ==>
              && out == [] && handed == l.handed && queue == l.queue
              && indexes == l.sent[0].rest && indexes != [] && Elements(indexes) <= l.handed.Keys
    ensures l.seen <= l.sent[0].load ==> InPlace(l.sent[0], l.queue.first)
  {
    var m := l.sent[0];
    assert MessageOk(l, m);
    known, handed, seen := l.known, l.handed, Seeing(l, m);
    WithinQueue(l, m);
    if l.seen <= m.load {
      LoadOrderSuffices(l, m);
    }
    if IsBehind(l.queue, m.rest) {
      BehindIsKnown(l, m);
      DeliveredBehind(l);
    } else if inRange {
      known, handed := Delivered(l, queue, out, indexes);
    }
  }

  /** With nothing on its way, queue and box are in lockstep and the committed closures are handed out. */
  lemma Lockstep(l: Link, last: int, ballots: seq<Ballot>, flags: seq<bool>, s: Leadership)
    requires Linked(l) && l.unsent == [] && l.loaded == [] && l.sent == []
    requires BoxInv(last, l.box.pending, ballots, flags, s) && |l.closures| == |s.tasks|
    requires l.box.committed == Committed(s) && l.reset == s.reset
    ensures l.queue.first == l.box.pending && l.queue.done == flags && l.handed.Keys == Committed(s)
  {
    assert forall i :: !OnItsWay(l, i);
    assert l.known <= l.box.committed;
    assert l.known == Committed(s);
    FrontIsUnique(l.known, s.reset, l.queue.first, l.box.pending);
    SameFlags(l.queue.done, flags, l.known, l.box.pending);
  }

  lemma SameFlags(a: seq<bool>, b: seq<bool>, c: set<int>, pending: int)
    requires |a| == |b| && FlagsMatch(a, c, pending) && FlagsMatch(b, c, pending)
    ensures a == b
  {
    forall k | 0 <= k < |a| ensures a[k] == b[k] {
      assert a[k] <==> pending + k in c;
      assert b[k] <==> pending + k in c;
    }
  }

  /** The box's own invariant, read as what a message can say. */
  lemma Notifies(s: Leadership, last: int, pending: int, q: seq<Ballot>, flags: seq<bool>, oo: seq<int>, m: Message)
    requires BoxInv(last, pending, q, flags, s) && oo != [] && Elements(oo) <= Committed(s) && m.last == last
    requires StrictlyAscending(m.rest) && forall i :: i in m.rest <==> i in oo && i > last
    ensures IsSent(m, Stage(Committed(s), pending), s.reset, s.reset + |s.tasks|)
  {
    assert oo[0] in Elements(oo);
    assert forall i :: i in m.rest ==> i in Elements(oo);
  }

  lemma FreshIsLinked(reset: int)
    ensures Linked(Link(QueueState(reset, [], []), [], [], [], [], 0, {}, [], map[], Stage({}, reset), reset))
  {
  }

  /** Box and queue, joined by notifications that are loaded, sent and delivered at any later time. */
  class CommitPipeline {
    const box: BallotBox
    const queue: ClosureQueue
    var unsent: seq<seq<int>>
    var loaded: seq<Message>
    var sent: seq<Message>
    ghost var stages: seq<Stage>
    ghost var seen: nat
    ghost var known: set<int>
    ghost var closures: seq<Closure>
    ghost var handed: map<int, Closure>

    ghost function View(): (l: Link)
      reads this, box, queue
    {
      Link(queue.View(), unsent, loaded, sent, stages, seen, known, closures, handed,
           Stage(Committed(box.spec), box.pendingIndex), box.spec.reset)
    }

    ghost predicate Valid()
      reads this, box, queue
    {
      box.Valid() && queue.Valid() && |closures| == |box.spec.tasks| && |stages| == loads && Linked(View())
    }

    var loads: nat

    constructor ()
      ensures Valid() && fresh(box) && fresh(queue)
      ensures box.spec == Leadership(0, [], map[]) && box.lastCommittedIndex == 0 && handed == map[]
      ensures sent == [] && loaded == [] && unsent == []
    {
      var b := new BallotBox();
      var q := new ClosureQueue();
      NothingProposed(b.spec);
      FreshIsLinked(0);
      box, queue := b, q;
      unsent, loaded, sent, loads := [], [], [], 0;
      stages, seen, known, closures, handed := [], 0, {}, [], map[];
    }

    /** become_leader opens a leadership at `newPendingIndex` on both sides. */
    method ResetPendingIndex(newPendingIndex: int)
      requires Valid() && box.pendingIndex == 0 && newPendingIndex > box.lastCommittedIndex
      requires sent == [] && loaded == [] && unsent == []
      modifies this, box, queue
      ensures Valid() && sent == [] && loaded == [] && unsent == []
      ensures box.spec == Leadership(newPendingIndex, [], map[]) && closures == [] && handed == map[]
      ensures box.lastCommittedIndex == old(box.lastCommittedIndex) && box.pendingIndex == newPendingIndex
      ensures queue.firstIndex == newPendingIndex && seen == 0
    {
      NothingProposed(box.spec);
      box.ResetPendingIndex(newPendingIndex);
      queue.ResetFirstIndex(newPendingIndex);
      NothingProposed(box.spec);
      FreshIsLinked(newPendingIndex);
      loads := 0;
      stages, seen, known, handed := [], 0, {}, map[];
    }

    method AppendPendingTask(conf: Configuration, oldConf: Option<Configuration>, closure: Closure)
      requires Valid() && box.pendingIndex > 0 && IsTask(Task(conf, oldConf))
      modifies this, box, queue
      ensures Valid() && sent == old(sent) && loaded == old(loaded) && unsent == old(unsent) && seen == old(seen)
      ensures box.spec == Propose(old(box.spec), Task(conf, oldConf))
      ensures box.pendingIndex == old(box.pendingIndex) && box.lastCommittedIndex == old(box.lastCommittedIndex)
      ensures queue.firstIndex == old(queue.firstIndex)
      ensures closures == old(closures) + [closure] && handed == old(handed)
    {
      CommittedAfterPropose(box.spec, Task(conf, oldConf));
      AfterPropose(View(), closure);
      box.AppendPendingTask(conf, oldConf);
      queue.AppendPendingClosure(closure);
      closures := closures + [closure];
    }

    /** An acknowledgement, up to where the mutex is let go; what it committed is still to be told. */
    method CommitAt(commitIndexes: seq<int>, peer: PeerId)
      requires Valid() && Ascending(commitIndexes)
      modifies this, box
      ensures Valid() && closures == old(closures) && handed == old(handed) && seen == old(seen)
      ensures loaded == old(loaded) && sent == old(sent)
      ensures box.spec == Ack(old(box.spec), commitIndexes, peer)
      ensures if Committed(box.spec) == Committed(old(box.spec)) then unsent == old(unsent)
              else |unsent| == |old(unsent)| + 1 && unsent[..|old(unsent)|] == old(unsent) &&
                   Elements(unsent[|old(unsent)|]) == Committed(box.spec) - Committed(old(box.spec))
      ensures box.lastCommittedIndex ==
              if Committed(box.spec) != Committed(old(box.spec)) && old(box.pendingIndex) in commitIndexes
              then box.pendingIndex - 1 else old(box.lastCommittedIndex)
      ensures queue.View() == old(queue.View()) && loads == old(loads)
    {
      ghost var s, l := box.spec, View();
      var code, oo := box.CommitAt(commitIndexes, peer);
      CommittedAfter(s, commitIndexes, peer);
      if oo == [] {
        FrontIsUnique(Committed(s), s.reset, old(box.pendingIndex), box.pendingIndex);
        return;
      }
      AfterCommit(l, oo, Stage(Committed(box.spec), box.pendingIndex));
      unsent := unsent + [oo];
    }

    /** One of the calls that let go of the mutex loads the last committed index and drops what it covers. */
    method Load(j: nat)
      requires Valid() && j < |unsent|
      modifies this
      ensures Valid() && closures == old(closures) && handed == old(handed) && seen == old(seen)
      ensures unsent == Without(old(unsent), j) && sent == old(sent)
      ensures |loaded| == |old(loaded)| + 1 && loaded[..|old(loaded)|] == old(loaded)
      ensures var m := loaded[|old(loaded)|];
              && m.last == box.lastCommittedIndex && m.load == old(loads) && loads == m.load + 1
              && StrictlyAscending(m.rest)
              && forall i :: i in m.rest <==> i in old(unsent)[j] && i > box.lastCommittedIndex
    {
      ghost var l := View();
      assert unsent[j] in l.unsent;
      var notice := box.Notify(unsent[j]);
      var rest := OnCommitted(notice.lastCommitted, notice.ooCommitted);
      var m := Message(notice.lastCommitted, rest, loads);
      Notifies(box.spec, box.lastCommittedIndex, box.pendingIndex, box.pendingMetaQueue, box.committedIndexQueue,
               unsent[j], m);
      AfterLoad(l, j, m);
      loaded, unsent, loads := loaded + [m], Without(unsent, j), loads + 1;
      stages := stages + [l.box];
    }

    /** One of the calls that loaded the index hands its message to the state machine caller. */
    method Enqueue(k: nat)
      requires Valid() && k < |loaded|
      modifies this
      ensures Valid() && closures == old(closures) && handed == old(handed) && seen == old(seen)
      ensures unsent == old(unsent) && loads == old(loads)
      ensures loaded == Without(old(loaded), k) && sent == old(sent) + [old(loaded)[k]]
    {
      AfterEnqueue(View(), k);
      loaded, sent := Without(loaded, k), sent + [loaded[k]];
    }

    /**
     * The oldest message in the caller's queue reaches the closure queue. It is handled within the deques' bounds and
     * hands out closures once each, with their own indexes, exactly if its list starts at or after the queue's first
     * index; then these are the indexes it tells about that were not known. It is so if its index was loaded after
     * those of the messages delivered before. A list wholly behind the queue is told a second time, without closures.
     */
    method Deliver() returns (out: seq<Closure>, outIndexes: seq<int>, inRange: bool)
      requires Valid() && sent != []
      modifies this, queue
      ensures inRange ==> Valid()
      ensures closures == old(closures) && sent == old(sent)[1..] && loaded == old(loaded) && unsent == old(unsent)
      ensures InPlace(old(sent)[0], old(queue.firstIndex)) <==>
              inRange && HandsOver(old(handed), outIndexes, out, handed)
      ensures InPlace(old(sent)[0], old(queue.firstIndex)) ==>
                forall i :: i in outIndexes <==> Tells(old(sent)[0], box.spec.reset, i) && i !in old(handed)
      ensures inRange && !InPlace(old(sent)[0], old(queue.firstIndex)) ==>
                && out == [] && handed == old(handed) && queue.View() == old(queue.View())
                && outIndexes == old(sent)[0].rest && outIndexes != [] && Elements(outIndexes) <= old(handed).Keys
      ensures inRange <==>
              InPlace(old(sent)[0], old(queue.firstIndex)) || IsBehind(old(queue.View()), old(sent)[0].rest)
      ensures old(seen) <= old(sent)[0].load ==> InPlace(old(sent)[0], old(queue.firstIndex))
      ensures inRange ==> seen == if old(sent)[0].load < old(seen) then old(seen) else old(sent)[0].load + 1
    {
      ghost var l := View();
      var m := sent[0];
      assert StrictlyAscending(m.rest) by {
        assert MessageOk(l, m);
      }
      var code;
      code, out, outIndexes, inRange := queue.PopClosureUntil(m.last, m.rest);
      known, handed, seen := DeliveredAll(l, queue.View(), out, outIndexes, inRange);
      sent := sent[1..];
      assert View() == l.(queue := queue.View(), known := known, handed := handed, sent := l.sent[1..], seen := seen);
    }
  }

  lemma NothingProposed(s: Leadership)
    requires s.tasks == []
    ensures Committed(s) == {}
  {
    assert forall i :: i !in Committed(s);
  }
}
