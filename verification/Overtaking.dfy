/** A run of the commit pipeline in which one notification overtakes another that was loaded before it. */
module Overtaking {
  import opened Core
  import opened Ballots
  import opened CommitSpec
  import opened CommitPipelines

  /** Three peers: one is no quorum and two are. */
  lemma TwoOfThree()
    ensures !HasQuorum([1, 2, 3], None, {}) && !HasQuorum([1, 2, 3], None, {1})
    ensures !HasQuorum([1, 2, 3], None, {2}) && HasQuorum([1, 2, 3], None, {1, 2})
  {
    assert [1, 2, 3][..2] == [1, 2] && [1, 2][..1] == [1] && [1][..0] == [];
  }

  ghost function SameTasks(n: nat): (s: Leadership) {
    Leadership(1, seq(n, _ => Task([1, 2, 3], None)), map[])
  }

  predicate IsLate(late: seq<int>) {
    late == [2] || late == [2, 4]
  }

  /**
   * The acknowledgements of the run: peer 1 answers for index 2 and then for index 4; peer 2 answers for index 1, and
   * then for index 2, or for index 4 when it has 2 and 3 as well; and at last peer 1 answers for index 1.
   */
  function Batch(late: seq<int>, k: nat): (r: seq<int>) {
    if k == 0 then [2] else if k == 1 then [4] else if k != 3 then [1] else if late == [2] then [2] else [2, 3, 4]
  }

  function Sender(k: nat): (r: PeerId) {
    if k == 2 || k == 3 then 2 else 1
  }

  ghost function AckersAt(late: seq<int>, k: nat, i: int): (r: set<PeerId>) {
    if i in late && k > 3 then {1, 2}
    else if (i == 2 && k > 0) || (i == 4 && k > 1) then {1}
    else if i == 3 && k > 3 && late != [2] then {2}
    else if i == 1 then if k < 3 then {} else if k < 5 then {2} else {1, 2}
    else {}
  }

  ghost predicate IsStage(s: Leadership, late: seq<int>, k: nat) {
    s.reset == 1 && s.tasks == SameTasks(4).tasks && forall i :: Ackers(s, i) == AckersAt(late, k, i)
  }

  ghost function CommittedBy(late: seq<int>, k: nat): (r: set<int>) {
    if k < 4 then {} else if k == 4 then Elements(late) else Elements(late) + {1}
  }

  lemma StageCommits(s: Leadership, late: seq<int>, k: nat)
    requires IsLate(late) && IsStage(s, late, k)
    ensures Committed(s) == CommittedBy(late, k)
  {
    TwoOfThree();
    forall i ensures i in Committed(s) <==> AckersAt(late, k, i) == {1, 2} {
      assert Ackers(s, i) == AckersAt(late, k, i);
      if 1 <= i < 5 {
        assert s.tasks[i - 1] == Task([1, 2, 3], None);
      }
    }
  }

  lemma NextStage(s: Leadership, late: seq<int>, k: nat)
    requires IsLate(late) && IsStage(s, late, k) && k < 5
    ensures IsStage(Ack(s, Batch(late, k), Sender(k)), late, k + 1)
  {
    var t := Ack(s, Batch(late, k), Sender(k));
    assert {} + {1} == {1} && {} + {2} == {2} && {1} + {2} == {1, 2} && {2} + {1} == {1, 2};
    forall i ensures Ackers(t, i) == AckersAt(late, k + 1, i) {
      AckersAfter(s, Batch(late, k), Sender(k), i);
      assert Ackers(s, i) == AckersAt(late, k, i);
    }
  }

  /** What each acknowledgement of the run commits. */
  lemma StageStep(s: Leadership, late: seq<int>, k: nat)
    requires IsLate(late) && IsStage(s, late, k) && k < 5
    ensures var c, c' := Committed(s), Committed(Ack(s, Batch(late, k), Sender(k)));
            && IsStage(Ack(s, Batch(late, k), Sender(k)), late, k + 1)
            && c == CommittedBy(late, k) && c' == CommittedBy(late, k + 1)
            && (k < 3 <==> c == c') && (k == 3 ==> c' - c == Elements(late)) && (k == 4 ==> c' - c == {1})
  {
    NextStage(s, late, k);
    StageCommits(s, late, k);
    StageCommits(Ack(s, Batch(late, k), Sender(k)), late, k + 1);
    assert 2 in Elements(late) && 1 !in Elements(late);
  }

  lemma StageFront(late: seq<int>, k: nat, pending: int)
    requires IsLate(late) && k <= 5 && IsFront(CommittedBy(late, k), 1, pending)
    ensures pending == if k < 5 then 1 else 3
  {
    var c := CommittedBy(late, k);
    assert k < 5 ==> 1 !in c;
    assert k == 5 ==> 1 in c && 2 in c && 3 !in c;
  }

  /** Nothing was told yet. */
  ghost predicate IsQuiet(p: CommitPipeline)
    reads p, p.box, p.queue
  {
    && p.Valid() && p.sent == [] && p.loaded == [] && p.unsent == [] && p.handed == map[]
    && p.box.lastCommittedIndex == 0
  }

  method StartAtOne() returns (p: CommitPipeline)
    ensures fresh(p) && fresh(p.box) && fresh(p.queue) && IsQuiet(p)
    ensures p.box.spec == SameTasks(0) && p.box.pendingIndex == 1
  {
    p := new CommitPipeline();
    p.ResetPendingIndex(1);
    assert p.box.spec.tasks == SameTasks(0).tasks;
  }

  method ProposeNext(p: CommitPipeline, k: nat)
    requires IsQuiet(p) && p.box.spec == SameTasks(k) && p.box.pendingIndex == 1
    modifies p, p.box, p.queue
    ensures IsQuiet(p) && p.box.spec == SameTasks(k + 1) && p.box.pendingIndex == 1
  {
    p.AppendPendingTask([1, 2, 3], None, k);
    assert p.box.spec.tasks == SameTasks(k + 1).tasks;
  }

  /** Four tasks proposed to three peers. */
  method ProposeFour() returns (p: CommitPipeline)
    ensures fresh(p) && fresh(p.box) && fresh(p.queue) && IsQuiet(p) && p.box.spec == SameTasks(4)
  {
    p := StartAtOne();
    for k := 0 to 4
      invariant fresh(p) && fresh(p.box) && fresh(p.queue) && IsQuiet(p)
      invariant p.box.spec == SameTasks(k) && p.box.pendingIndex == 1
    {
      ProposeNext(p, k);
    }
  }

  /** The next acknowledgement of the run. */
  method AckNext(p: CommitPipeline, late: seq<int>, k: nat)
    requires p.Valid() && IsLate(late) && k < 5 && IsStage(p.box.spec, late, k) && p.box.lastCommittedIndex == 0
    modifies p, p.box
    ensures p.Valid() && p.loaded == old(p.loaded) && p.sent == old(p.sent) && p.handed == old(p.handed)
    ensures IsStage(p.box.spec, late, k + 1) && p.box.lastCommittedIndex == if k == 4 then 2 else 0
    ensures if k < 3 then p.unsent == old(p.unsent)
            else
              && |p.unsent| == |old(p.unsent)| + 1 && p.unsent[..|old(p.unsent)|] == old(p.unsent)
              && Elements(p.unsent[|old(p.unsent)|]) == if k == 3 then Elements(late) else {1}
  {
    StageStep(p.box.spec, late, k);
    StageFront(late, k, p.box.pendingIndex);
    p.CommitAt(Batch(late, k), Sender(k));
    StageFront(late, k + 1, p.box.pendingIndex);
  }

  /** Nothing is committed yet. */
  method AckThree(late: seq<int>) returns (p: CommitPipeline)
    requires IsLate(late)
    ensures fresh(p) && fresh(p.box) && fresh(p.queue) && IsQuiet(p) && IsStage(p.box.spec, late, 3)
  {
    p := ProposeFour();
    for k := 0 to 3
      invariant fresh(p) && fresh(p.box) && fresh(p.queue) && IsQuiet(p) && IsStage(p.box.spec, late, k)
    {
      AckNext(p, late, k);
    }
  }

  /** The late indexes are committed, and the index is loaded for them. */
  method CommitLate(late: seq<int>) returns (p: CommitPipeline)
    requires IsLate(late)
    ensures fresh(p) && fresh(p.box) && fresh(p.queue) && p.Valid() && IsStage(p.box.spec, late, 4)
    ensures p.sent == [] && p.unsent == [] && p.handed == map[] && p.box.lastCommittedIndex == 0
    ensures |p.loaded| == 1 && Elements(p.loaded[0].rest) == Elements(late)
  {
    p := AckThree(late);
    AckNext(p, late, 3);
    ghost var oo := p.unsent[0];
    p.Load(0);
    assert forall i :: i in oo <==> i in Elements(oo);
    assert Elements(p.loaded[0].rest) == Elements(oo);
  }

  /** Then index 1 is, and the index is loaded again. */
  method CommitFirst(p: CommitPipeline, late: seq<int>)
    requires p.Valid() && IsLate(late) && IsStage(p.box.spec, late, 4)
    requires p.unsent == [] && p.box.lastCommittedIndex == 0
    modifies p, p.box
    ensures p.Valid() && p.sent == old(p.sent) && p.unsent == [] && p.handed == old(p.handed) && p.box.spec.reset == 1
    ensures |p.loaded| == |old(p.loaded)| + 1 && p.loaded[..|old(p.loaded)|] == old(p.loaded)
    ensures p.loaded[|old(p.loaded)|].last == 2 && p.loaded[|old(p.loaded)|].rest == []
  {
    AckNext(p, late, 4);
    assert p.unsent == [p.unsent[0]] && forall i :: i in p.unsent[0] ==> i in Elements(p.unsent[0]);
    p.Load(0);
    ghost var m := p.loaded[|old(p.loaded)|];
    assert m.rest != [] ==> m.rest[0] in m.rest;
  }

  lemma SettledAtThree(l: Link)
    requires Settled(l) && l.handed.Keys == {1, 2} && l.reset == 1
    ensures l.queue.first == 3
  {
    assert l.known == {1, 2};
    FrontIsUnique({1, 2}, 1, 3, l.queue.first);
  }

  /** A message that tells about indexes 1 and 2 carries a new queue to index 3. */
  method DeliverTwo(p: CommitPipeline) returns (indexes: seq<int>)
    requires p.Valid() && p.sent != [] && p.sent[0].last == 2 && p.sent[0].rest == [] && p.handed == map[]
    requires p.box.spec.reset == 1
    modifies p, p.queue
    ensures p.Valid() && p.sent == old(p.sent)[1..] && p.handed.Keys == {1, 2} && p.queue.firstIndex == 3
    ensures Elements(indexes) == {1, 2}
  {
    var out, inRange;
    out, indexes, inRange := p.Deliver();
    assert Elements(indexes) == {1, 2};
    SettledAtThree(p.View());
  }

  /**
   * Of two calls the first to load is the last to hand its message over. The other message carries the queue past
   * the first one's list, which is then told a second time, or indexed out of range where it straddles the queue's
   * first index.
   */
  method Overtaken(straddles: bool) returns (indexes: seq<int>, again: seq<int>, inRange: bool)
    ensures Elements(indexes) == {1, 2}
    ensures inRange == !straddles
    ensures inRange ==> Elements(again) == {2}
  {
    var late := if straddles then [2, 4] else [2];
    var p := CommitLate(late);
    CommitFirst(p, late);
    p.Enqueue(1);
    p.Enqueue(0);
    indexes := DeliverTwo(p);
    again, inRange := DeliverLate(p, late);
  }

  method DeliverLate(p: CommitPipeline, late: seq<int>) returns (again: seq<int>, inRange: bool)
    requires p.Valid() && p.sent != [] && p.handed.Keys == {1, 2} && p.queue.firstIndex == 3
    requires IsLate(late) && Elements(p.sent[0].rest) == Elements(late)
    modifies p, p.queue
    ensures inRange == (late == [2])
    ensures inRange ==> Elements(again) == {2}
  {
    ghost var rest := p.sent[0].rest;
    assert forall i :: i in rest <==> i in Elements(rest);
    assert 2 in Elements(late) && 2 in rest;
    assert StrictlyAscending(rest) && rest[0] <= 2 by {
      assert MessageOk(p.View(), p.sent[0]);
    }
    assert late == [2] ==> rest[|rest| - 1] in Elements(late);
    assert late == [2, 4] ==> 4 in Elements(late);
    var out;
    out, again, inRange := p.Deliver();
  }
}
