/** A chain of adjacent segments that stands for one map: routing, rotation and truncation from both ends. */
module SegmentChains {
  import opened Core
  import opened RecordFormat
  import opened Segments

  type Log = map<int, Record>

  /** Within its range a segment holds what the log holds, as far as the log reaches back. */
  ghost predicate Agrees(s: SegmentState, firstLog: int, log: Log) {
    forall i :: s.first <= i <= s.last && firstLog <= i ==>
      (i in log <==> i in s.entries) && (i in log ==> log[i] == s.entries[i])
  }

  /** Each segment begins where the one before it ends. */
  ghost predicate Adjacent(all: seq<SegmentState>) {
    && (forall k :: 1 <= k < |all| ==> all[k].first == all[k - 1].last + 1)
    && (forall j, k :: 0 <= j < k < |all| ==> all[j].last < all[k].first)
  }

  ghost predicate AllValid(all: seq<SegmentState>) {
    forall k :: 0 <= k < |all| ==> SegmentInv(all[k])
  }

  ghost predicate AllAgree(all: seq<SegmentState>, firstLog: int, log: Log) {
    forall k :: 0 <= k < |all| ==> Agrees(all[k], firstLog, log)
  }

  /** Where the log begins on disk, or would begin. */
  ghost function Low(all: seq<SegmentState>, lastLog: int): (i: int) {
    if all == [] then lastLog + 1 else all[0].first
  }

  ghost predicate ChainInv(all: seq<SegmentState>, firstLog: int, lastLog: int, log: Log) {
    && AllValid(all) && Adjacent(all) && AllAgree(all, firstLog, log)
    && (all != [] ==> all[|all| - 1].last == lastLog)
    && Low(all, lastLog) <= firstLog
    && forall i :: i in log ==> firstLog <= i <= lastLog
  }

  function All(segments: seq<SegmentState>, open: Option<SegmentState>): (all: seq<SegmentState>) {
    if open.Some? then segments + [open.value] else segments
  }

  /** Full segments are not wholly before the log, and the open one is open, and not either unless still empty. */
  ghost predicate RolesInv(segments: seq<SegmentState>, open: Option<SegmentState>, firstLog: int) {
    && (segments != [] ==> firstLog <= segments[0].last)
    && (open.Some? ==>
          open.value.isOpen && !open.value.pending && (firstLog <= open.value.last || open.value.bytes == 0))
  }

  ghost predicate StoreInv(segments: seq<SegmentState>, open: Option<SegmentState>, firstLog: int, lastLog: int,
                           log: Log) {
    ChainInv(All(segments, open), firstLog, lastLog, log) && RolesInv(segments, open, firstLog)
  }

  /** The size in bytes and the index range beyond which the storage starts a new segment. */
  datatype Limits = Limits(size: nat, indexSize: nat)

  predicate IsOver(limits: Limits, s: SegmentState) {
    s.bytes > limits.size || s.last - s.first > limits.indexSize
  }

  /** No index was appended again since the segments were created. */
  ghost predicate AllExact(all: seq<SegmentState>) {
    forall k :: 0 <= k < |all| ==> Exact(all[k])
  }

  ghost predicate AllSettled(segments: seq<SegmentState>) {
    forall k :: 0 <= k < |segments| ==> Settled(segments[k])
  }

  /** Closed if it has no gap, and otherwise waiting for the last one. */
  ghost predicate IsClosedIfGapless(s: SegmentState) {
    (!s.isOpen <==> Gapless(s)) && (s.isOpen ==> s.pending)
  }

  ghost predicate ClosedIfGapless(segments: seq<SegmentState>) {
    forall k :: 0 <= k < |segments| ==> IsClosedIfGapless(segments[k])
  }

  /** While no index was appended again, the segments besides the open one are closed exactly if they have no gap. */
  lemma SettledChain(segments: seq<SegmentState>, open: Option<SegmentState>, firstLog: int, lastLog: int, log: Log)
    requires StoreInv(segments, open, firstLog, lastLog, log) && AllExact(All(segments, open)) && AllSettled(segments)
    ensures ClosedIfGapless(segments)
  {
    forall k | 0 <= k < |segments| ensures IsClosedIfGapless(segments[k]) {
      assert segments[k] == All(segments, open)[k];
      ClosedIffGapless(segments[k]);
    }
  }

  /** The first index of the segment that takes the next new record. */
  ghost function OpenFirst(limits: Limits, open: Option<SegmentState>, lastLog: int): (i: int) {
    if open.None? || IsOver(limits, open.value) then lastLog + 1 else open.value.first
  }

  lemma GrownChain(all: seq<SegmentState>, firstLog: int, lastLog: int, log: Log)
    requires ChainInv(all, firstLog, lastLog, log)
    ensures ChainInv(all + [NewSegment(lastLog + 1)], firstLog, lastLog, log)
  {
    var s := NewSegment(lastLog + 1);
    GrownOrder(all, s);
    assert SegmentInv(s) && Agrees(s, firstLog, log);
  }

  lemma GrownOrder(all: seq<SegmentState>, s: SegmentState)
    requires Adjacent(all) && (all != [] ==> s.first == all[|all| - 1].last + 1)
    requires forall k :: 0 <= k < |all| ==> all[k].first - 1 <= all[k].last
    ensures Adjacent(all + [s])
  {
    var all' := all + [s];
    forall j, k | 0 <= j < k < |all'| ensures all'[j].last < all'[k].first {
      if k == |all| && j < |all| - 1 {
        assert all[j].last < all[|all| - 1].first;
      }
    }
  }

  /** Getting ready to close, and closing when already full, changes no record. */
  lemma RetiredChain(segments: seq<SegmentState>, s: SegmentState, t: SegmentState, firstLog: int, lastLog: int,
                     log: Log)
    requires ChainInv(segments + [s], firstLog, lastLog, log) && SegmentInv(t)
    requires t.first == s.first && t.last == s.last && t.entries == s.entries
    ensures ChainInv(segments + [t], firstLog, lastLog, log)
  {
    var all, all' := segments + [s], segments + [t];
    assert forall k :: 0 <= k < |all| ==> all'[k].first == all[k].first && all'[k].last == all[k].last;
    forall k | 0 <= k < |all'| ensures SegmentInv(all'[k]) && Agrees(all'[k], firstLog, log) {
      assert SegmentInv(all[k]) && Agrees(all[k], firstLog, log);
    }
  }

  /** A segment that takes no new indexes is closed as soon as it looks full. */
  ghost function Retired(s: SegmentState): (t: SegmentState) {
    if IsFullfilled(s) then Closed(s) else s.(pending := true)
  }

  method Retire(s: SegmentState) returns (t: SegmentState)
    requires SegmentInv(s) && s.isOpen
    ensures SegmentInv(t) && t == Retired(s)
    ensures Exact(s) ==> Exact(t) && (!t.isOpen <==> Gapless(s))
    ensures t.isOpen ==> t.pending
  {
    if Exact(s) {
      FullfilledIff(s);
    }
    t := s.(pending := true);
    if IsFullfilled(t) {
      t := t.(isOpen := false, pending := false);
    }
  }

  /** The segments besides the open one, once there is room for a new record. */
  ghost function Rotated(limits: Limits, segments: seq<SegmentState>,
                         open: Option<SegmentState>): (r: seq<SegmentState>) {
    segments + if open.Some? && IsOver(limits, open.value) then [Retired(open.value)] else []
  }

  /** A segment is retired exactly if it is larger than either limit. */
  lemma RotatedIff(limits: Limits, segments: seq<SegmentState>, open: Option<SegmentState>)
    ensures |Rotated(limits, segments, open)| > |segments| <==>
            open.Some? && (open.value.bytes > limits.size || open.value.last - open.value.first > limits.indexSize)
    ensures Rotated(limits, segments, open)[..|segments|] == segments
  {
  }

  /** The segment for new records; a large one is retired first. */
  method OpenSegment(limits: Limits, segments: seq<SegmentState>, open: Option<SegmentState>, lastLog: int,
                     ghost firstLog: int, ghost log: Log)
    returns (segments': seq<SegmentState>, s: SegmentState)
    requires StoreInv(segments, open, firstLog, lastLog, log)
    ensures StoreInv(segments', Some(s), firstLog, lastLog, log)
    ensures s.first == OpenFirst(limits, open, lastLog)
    ensures segments' == Rotated(limits, segments, open)
    ensures s == if open.None? || IsOver(limits, open.value) then NewSegment(lastLog + 1) else open.value
    ensures AllExact(All(segments, open)) ==> AllExact(All(segments', Some(s)))
  {
    if open.None? {
      GrownChain(segments, firstLog, lastLog, log);
      GrownExact(segments, lastLog);
      return segments, NewSegment(lastLog + 1);
    }
    s := open.value;
    assert All(segments, open)[|segments|] == s;
    if !IsOver(limits, s) {
      return segments, s;
    }
    segments' := RetireOpen(segments, s, lastLog, firstLog, log);
    return segments', NewSegment(lastLog + 1);
  }

  /** The open segment joins the others, and a new one is opened. */
  method RetireOpen(segments: seq<SegmentState>, s: SegmentState, ghost lastLog: int, ghost firstLog: int,
                    ghost log: Log)
    returns (segments': seq<SegmentState>)
    requires ChainInv(segments + [s], firstLog, lastLog, log) && s.isOpen
    ensures segments' == segments + [Retired(s)]
    ensures ChainInv(segments' + [NewSegment(lastLog + 1)], firstLog, lastLog, log)
    ensures AllExact(segments + [s]) ==> AllExact(segments' + [NewSegment(lastLog + 1)])
  {
    assert SegmentInv(s) by {
      assert (segments + [s])[|segments|] == s;
    }
    var retired := Retire(s);
    RetiredChain(segments, s, retired, firstLog, lastLog, log);
    GrownChain(segments + [retired], firstLog, lastLog, log);
    RetiredExact(segments, s, retired);
    GrownExact(segments + [retired], lastLog);
    return segments + [retired];
  }

  lemma GrownExact(all: seq<SegmentState>, lastLog: int)
    ensures AllExact(all) ==> AllExact(all + [NewSegment(lastLog + 1)])
  {
    var s := NewSegment(lastLog + 1);
    assert Exact(s);
  }

  /** Rotation leaves every other segment closed, or waiting for the last of its gaps. */
  lemma RotatedSettled(limits: Limits, segments: seq<SegmentState>, open: Option<SegmentState>)
    requires AllSettled(segments)
    ensures AllSettled(Rotated(limits, segments, open))
  {
    assert open.Some? ==> Settled(Retired(open.value));
  }

  /** So does a record that fills one of the gaps. */
  lemma ReceivedSettled(segments: seq<SegmentState>, pos: nat, r: Record)
    requires AllSettled(segments) && pos < |segments| && segments[pos].isOpen
    ensures AllSettled(segments[pos := Received(segments[pos], r)])
  {
  }

  lemma RetiredExact(segments: seq<SegmentState>, s: SegmentState, t: SegmentState)
    requires Exact(s) ==> Exact(t)
    ensures AllExact(segments + [s]) ==> AllExact(segments + [t])
  {
    var all, all' := segments + [s], segments + [t];
    if AllExact(all) {
      assert forall k :: 0 <= k < |segments| ==> all'[k] == all[k];
      assert Exact(all[|segments|]);
    }
  }

  /** Position of the segment of an index; the open segment comes after all others. None outside of the log. */
  method GetSegment(segments: seq<SegmentState>, open: Option<SegmentState>, firstLog: int, lastLog: int, index: int,
                    ghost log: Log)
    returns (pos: Option<nat>)
    requires StoreInv(segments, open, firstLog, lastLog, log)
    ensures pos.Some? <==> firstLog <= index <= lastLog
    ensures pos.Some? ==>
              && pos.value < |All(segments, open)|
              && var s := All(segments, open)[pos.value]; s.first <= index <= s.last
  {
    if firstLog == lastLog + 1 {
      return None;
    }
    if index < firstLog || index > lastLog + 1 {
      return None;
    } else if index == lastLog + 1 {
      return None;
    }
    ghost var all := All(segments, open);
    if open.Some? && index >= open.value.first {
      assert all[|segments|] == open.value;
      return Some(|segments|);
    }
    assert segments != [];
    var it := UpperBound(segments, index);
    assert it > 0;
    assert it < |all| ==> all[it].first == all[it - 1].last + 1;
    return Some(it - 1);
  }

  method UpperBound(segments: seq<SegmentState>, index: int) returns (it: nat)
    ensures it <= |segments|
    ensures it < |segments| ==> index < segments[it].first
    ensures it > 0 ==> segments[it - 1].first <= index
  {
    it := 0;
    while it < |segments| && segments[it].first <= index
      invariant it <= |segments| && (it > 0 ==> segments[it - 1].first <= index)
    {
      it := it + 1;
    }
  }

  /** The record of an index, as the map has it. */
  method GetEntry(segments: seq<SegmentState>, open: Option<SegmentState>, firstLog: int, lastLog: int, index: int,
                  ghost log: Log)
    returns (r: Option<Record>)
    requires StoreInv(segments, open, firstLog, lastLog, log)
    ensures r == if index in log then Some(log[index]) else None
  {
    var pos := GetSegment(segments, open, firstLog, lastLog, index, log);
    if pos.None? {
      return None;
    }
    var s := All(segments, open)[pos.value];
    assert Agrees(s, firstLog, log);
    return if index in s.entries then Some(s.entries[index]) else None;
  }

  /** One segment takes one new record. */
  lemma WrittenChain(all: seq<SegmentState>, pos: nat, t: SegmentState, r: Record, firstLog: int, lastLog: int,
                     log: Log)
    requires ChainInv(all, firstLog, lastLog, log) && pos < |all| && SegmentInv(t)
    requires firstLog <= r.index && all[pos].first <= r.index && (pos < |all| - 1 ==> r.index <= all[pos].last)
    requires t.first == all[pos].first && t.entries == all[pos].entries[r.index := r]
    requires t.last == if r.index > all[pos].last then r.index else all[pos].last
    ensures ChainInv(all[pos := t], firstLog, Later(r.index, lastLog), log[r.index := r])
  {
    var all', log' := all[pos := t], log[r.index := r];
    assert AllValid(all') by {
      assert forall k :: 0 <= k < |all'| && k != pos ==> all'[k] == all[k];
    }
    WrittenOrder(all, pos, t);
    forall k | 0 <= k < |all'| ensures Agrees(all'[k], firstLog, log') {
      assert Agrees(all[k], firstLog, log);
      assert k < pos ==> all[k].last < all[pos].first;
      assert pos < k ==> all[pos].last < all[k].first;
    }
  }

  lemma WrittenOrder(all: seq<SegmentState>, pos: nat, t: SegmentState)
    requires Adjacent(all) && pos < |all| && t.first == all[pos].first
    requires t.last == all[pos].last || pos == |all| - 1
    ensures Adjacent(all[pos := t])
  {
    var all' := all[pos := t];
    forall j, k | 0 <= j < k < |all'| ensures all'[j].last < all'[k].first {
      assert all[j].last < all[k].first;
    }
    forall k | 1 <= k < |all'| ensures all'[k].first == all'[k - 1].last + 1 {
      assert all[k].first == all[k - 1].last + 1;
    }
  }

  /** Where no index was appended again, a new record reaches a segment that is open: a closed one has no gap. */
  lemma TargetIsOpen(all: seq<SegmentState>, pos: nat, index: int, firstLog: int, lastLog: int, log: Log)
    requires ChainInv(all, firstLog, lastLog, log) && AllExact(all)
    requires pos < |all| && index !in log && firstLog <= index && all[pos].first <= index <= all[pos].last
    ensures all[pos].isOpen && index !in all[pos].entries
  {
    assert SegmentInv(all[pos]) && Agrees(all[pos], firstLog, log);
  }

  /** What the caller of append_entries owes: an index not before the log, and room in the open segment's arrays. */
  ghost predicate CanAppend(limits: Limits, r: Record, open: Option<SegmentState>, firstLog: int, lastLog: int) {
    firstLog <= r.index < OpenFirst(limits, open, lastLog) + CAPACITY
  }

  /** The segment whose range contains the index is closed. */
  ghost predicate InClosed(segments: seq<SegmentState>, index: int) {
    exists k :: 0 <= k < |segments| && segments[k].first <= index <= segments[k].last && !segments[k].isOpen
  }

  ghost function Later(a: int, b: int): (r: int) {
    if a > b then a else b
  }

  /**
   * Routes one record. It is refused exactly if its index lies in a closed segment, which does not happen to a new
   * index unless some index was appended again before.
   */
  method AppendOne(limits: Limits, segments: seq<SegmentState>, open: Option<SegmentState>, firstLog: int, lastLog: int,
                   r: Record,
                   ghost log: Log)
    returns (segments': seq<SegmentState>, open': SegmentState, lastLog': int, ok: bool)
    requires StoreInv(segments, open, firstLog, lastLog, log) && CanAppend(limits, r, open, firstLog, lastLog)
    ensures ok <==> !InClosed(Rotated(limits, segments, open), r.index)
    ensures lastLog' == if ok then Later(r.index, lastLog) else lastLog
    ensures StoreInv(segments', Some(open'), firstLog, lastLog', if ok then log[r.index := r] else log)
    ensures !ok ==> segments' == Rotated(limits, segments, open)
    ensures OpenFirst(limits, open, lastLog) <= open'.first
    ensures AllExact(All(segments, open)) && r.index !in log ==> ok && AllExact(All(segments', Some(open')))
    ensures AllSettled(segments) ==> AllSettled(segments')
  {
    segments', open' := OpenSegment(limits, segments, open, lastLog, firstLog, log);
    ghost var rotated := segments';
    if AllSettled(segments) {
      RotatedSettled(limits, segments, open);
    }
    if r.index < open'.first {
      segments', ok := AppendLate(segments', open', firstLog, lastLog, r, log);
      if AllSettled(segments) && ok {
        var pos :| 0 <= pos < |rotated| && rotated[pos].isOpen &&
                   segments' == rotated[pos := Received(rotated[pos], r)];
        ReceivedSettled(rotated, pos, r);
      }
      lastLog' := lastLog;
    } else {
      NotInClosed(segments', open', r.index);
      open', ok := AppendNew(segments', open', firstLog, lastLog, r, log);
      lastLog' := if r.index > lastLog then r.index else lastLog;
    }
  }

  lemma NotInClosed(segments: seq<SegmentState>, open: SegmentState, index: int)
    requires Adjacent(All(segments, Some(open))) && open.first <= index
    ensures !InClosed(segments, index)
  {
    var all := All(segments, Some(open));
    assert forall k :: 0 <= k < |segments| ==> segments[k] == all[k] && all[k].last < all[|segments|].first;
  }

  /** Only one segment's range contains an index. */
  lemma InClosedAt(segments: seq<SegmentState>, open: SegmentState, pos: nat, index: int)
    requires Adjacent(All(segments, Some(open))) && pos < |segments|
    requires segments[pos].first <= index <= segments[pos].last
    ensures InClosed(segments, index) <==> !segments[pos].isOpen
  {
    var all := All(segments, Some(open));
    assert forall k :: 0 <= k < |segments| ==> segments[k] == all[k];
    forall k | 0 <= k < |segments| && segments[k].first <= index <= segments[k].last ensures k == pos {
      var this1, that := all[k], all[pos];
      assert k < pos ==> this1.last < that.first;
      assert pos < k ==> that.last < this1.first;
    }
  }

  /** A record from before the open segment. */
  method AppendLate(segments: seq<SegmentState>, open: SegmentState, firstLog: int, lastLog: int, r: Record,
                    ghost log: Log)
    returns (segments': seq<SegmentState>, ok: bool)
    requires StoreInv(segments, Some(open), firstLog, lastLog, log) && firstLog <= r.index < open.first
    ensures ok <==> !InClosed(segments, r.index)
    ensures r.index <= lastLog
    ensures StoreInv(segments', Some(open), firstLog, lastLog, if ok then log[r.index := r] else log)
    ensures if ok then exists pos :: 0 <= pos < |segments| && segments[pos].first <= r.index <= segments[pos].last &&
                         segments[pos].isOpen && segments' == segments[pos := Received(segments[pos], r)]
            else segments' == segments
    ensures AllExact(All(segments, Some(open))) && r.index !in log ==> ok && AllExact(All(segments', Some(open)))
  {
    ghost var all := All(segments, Some(open));
    var pos := FindLate(segments, open, firstLog, lastLog, r.index, log);
    InClosedAt(segments, open, pos, r.index);
    var t;
    t, ok := WriteTo(segments[pos], r, firstLog, lastLog, all, pos, log);
    segments' := segments[pos := t];
    assert all[pos := t] == All(segments', Some(open));
  }

  method FindLate(segments: seq<SegmentState>, open: SegmentState, firstLog: int, lastLog: int, index: int,
                  ghost log: Log)
    returns (pos: nat)
    requires StoreInv(segments, Some(open), firstLog, lastLog, log) && firstLog <= index < open.first
    ensures pos < |segments| && segments[pos].first <= index <= segments[pos].last < segments[pos].first + CAPACITY
    ensures index <= lastLog && All(segments, Some(open))[pos] == segments[pos]
  {
    ghost var all := All(segments, Some(open));
    assert all[|segments|] == open && SegmentInv(open);
    var found := GetSegment(segments, Some(open), firstLog, lastLog, index, log);
    assert SegmentInv(all[found.value]);
    return found.value;
  }

  /** A record for the open segment. */
  method AppendNew(segments: seq<SegmentState>, open: SegmentState, ghost firstLog: int, ghost lastLog: int, r: Record,
                   ghost log: Log)
    returns (open': SegmentState, ok: bool)
    requires StoreInv(segments, Some(open), firstLog, lastLog, log)
    requires firstLog <= r.index && open.first <= r.index < open.first + CAPACITY
    ensures ok && open' == Appended(open, r)
    ensures StoreInv(segments, Some(open'), firstLog, Later(r.index, lastLog), log[r.index := r])
    ensures AllExact(All(segments, Some(open))) && r.index !in log ==> AllExact(All(segments, Some(open')))
  {
    ghost var all := All(segments, Some(open));
    assert all[|segments|] == open;
    open', ok := WriteTo(open, r, firstLog, lastLog, all, |segments|, log);
    assert all[|segments| := open'] == All(segments, Some(open'));
  }

  method WriteTo(s: SegmentState, r: Record, ghost firstLog: int, ghost lastLog: int, ghost all: seq<SegmentState>,
                 ghost pos: nat,
                 ghost log: Log)
    returns (t: SegmentState, ok: bool)
    requires ChainInv(all, firstLog, lastLog, log) && pos < |all| && all[pos] == s
    requires firstLog <= r.index && s.first <= r.index < s.first + CAPACITY
    requires pos < |all| - 1 ==> r.index <= s.last
    ensures ok == s.isOpen && t == if ok then Received(s, r) else s
    ensures ok ==> ChainInv(all[pos := t], firstLog, Later(r.index, lastLog), log[r.index := r])
    ensures AllExact(all) && r.index !in log ==> (r.index <= s.last ==> ok) && (ok ==> AllExact(all[pos := t]))
  {
    assert SegmentInv(s) && Agrees(s, firstLog, log);
    t, ok := AppendRecord(s, r);
    if ok {
      WrittenChain(all, pos, t, r, firstLog, lastLog, log);
    }
    if AllExact(all) && r.index !in log {
      assert Exact(s) && r.index !in s.entries;
      if r.index <= s.last {
        TargetIsOpen(all, pos, r.index, firstLog, lastLog, log);
      }
    }
  }

  ghost function From(log: Log, first: int): (r: Log) {
    map i | i in log && first <= i :: log[i]
  }

  /** What is left when the first `n` segments go, all of them before `kept`. */
  lemma DroppedChain(all: seq<SegmentState>, n: nat, kept: int, firstLog: int, lastLog: int, log: Log)
    requires ChainInv(all, firstLog, lastLog, log) && n < |all| && firstLog < kept
    requires n > 0 ==> all[n - 1].last < kept
    ensures ChainInv(all[n..], kept, lastLog, From(log, kept))
  {
    var all', log' := all[n..], From(log, kept);
    assert AllValid(all') && Adjacent(all') by {
      DroppedOrder(all, n);
    }
    forall k | 0 <= k < |all'| ensures Agrees(all'[k], kept, log') {
      assert Agrees(all[n + k], firstLog, log);
    }
  }

  lemma DroppedOrder(all: seq<SegmentState>, n: nat)
    requires AllValid(all) && Adjacent(all) && n <= |all|
    ensures AllValid(all[n..]) && Adjacent(all[n..])
  {
    var all' := all[n..];
    assert forall k :: 0 <= k < |all'| ==> all'[k] == all[n + k];
    forall k | 1 <= k < |all'| ensures all'[k].first == all'[k - 1].last + 1 {
      assert all[n + k].first == all[n + k - 1].last + 1;
    }
  }

  /** A log that ends before `kept` starts anew there. */
  lemma EmptiedChain(all: seq<SegmentState>, kept: int, firstLog: int, lastLog: int, log: Log)
    requires ChainInv(all, firstLog, lastLog, log) && firstLog < kept && (all != [] ==> lastLog < kept)
    ensures ChainInv([], kept, kept - 1, From(log, kept))
  {
  }

  lemma SegmentsLeft(segments: seq<SegmentState>, open: Option<SegmentState>, n: nat, kept: int, firstLog: int,
                     lastLog: int,
                     log: Log)
    requires StoreInv(segments, open, firstLog, lastLog, log) && firstLog < kept
    requires n < |segments| && (n > 0 ==> segments[n - 1].last < kept) && kept <= segments[n].last
    ensures StoreInv(segments[n..], open, kept, lastLog, From(log, kept))
  {
    var all := All(segments, open);
    DroppedChain(all, n, kept, firstLog, lastLog, log);
    assert all[n..] == All(segments[n..], open);
    if open.Some? {
      assert all[n].last < all[|segments|].first && SegmentInv(all[|segments|]);
    }
  }

  lemma OpenLeft(segments: seq<SegmentState>, open: SegmentState, kept: int, firstLog: int, lastLog: int, log: Log)
    requires StoreInv(segments, Some(open), firstLog, lastLog, log) && firstLog < kept && kept <= open.last
    requires segments != [] ==> segments[|segments| - 1].last < kept
    ensures StoreInv(segments[|segments|..], Some(open), kept, lastLog, From(log, kept)) && open.first <= kept
  {
    var all, n := All(segments, Some(open)), |segments|;
    assert n > 0 ==> all[n - 1] == segments[n - 1];
    DroppedChain(all, n, kept, firstLog, lastLog, log);
    assert segments[n..] == [] && all[n..] == [open];
    assert All(segments[n..], Some(open)) == [open];
  }

  lemma ExactAfterDrop(segments: seq<SegmentState>, open: Option<SegmentState>, n: nat)
    requires n <= |segments|
    ensures AllExact(All(segments, open)) ==> AllExact(All(segments[n..], open))
  {
    var all, all' := All(segments, open), All(segments[n..], open);
    assert forall k :: 0 <= k < |all'| ==> all'[k] == all[n + k];
  }

  lemma SettledAfterDrop(segments: seq<SegmentState>, n: nat)
    requires n <= |segments|
    ensures AllSettled(segments) ==> AllSettled(segments[n..])
  {
  }

  method TruncatePrefix(segments: seq<SegmentState>, open: Option<SegmentState>, firstLog: int, lastLog: int, kept: int,
                        ghost log: Log)
    returns (segments': seq<SegmentState>, open': Option<SegmentState>, firstLog': int, lastLog': int)
    requires StoreInv(segments, open, firstLog, lastLog, log)
    ensures firstLog' == if firstLog >= kept then firstLog else kept
    ensures lastLog' == if firstLog < kept && All(segments', open') == [] then kept - 1 else lastLog
    ensures firstLog >= kept ==> segments' == segments && open' == open
    ensures StoreInv(segments', open', firstLog', lastLog', if firstLog >= kept then log else From(log, kept))
    ensures AllExact(All(segments, open)) ==> AllExact(All(segments', open'))
    ensures AllSettled(segments) ==> AllSettled(segments')
  {
    if firstLog >= kept {
      return segments, open, firstLog, lastLog;
    }
    var n := PopFront(segments, kept);
    if n < |segments| {
      SegmentsLeft(segments, open, n, kept, firstLog, lastLog, log);
      ExactAfterDrop(segments, open, n);
      SettledAfterDrop(segments, n);
      return segments[n..], open, kept, lastLog;
    }
    if open.Some? && open.value.last >= kept {
      OpenLeft(segments, open.value, kept, firstLog, lastLog, log);
      ExactAfterDrop(segments, open, n);
      SettledAfterDrop(segments, n);
      assert open.value.first <= kept;
      return segments[n..], open, kept, lastLog;
    }
    EmptiedChain(All(segments, open), kept, firstLog, lastLog, log);
    return [], None, kept, kept - 1;
  }

  method PopFront(segments: seq<SegmentState>, kept: int) returns (n: nat)
    ensures n <= |segments| && (n > 0 ==> segments[n - 1].last < kept)
    ensures n < |segments| ==> kept <= segments[n].last
  {
    n := 0;
    while n < |segments| && segments[n].last < kept
      invariant n <= |segments| && (n > 0 ==> segments[n - 1].last < kept)
    {
      n := n + 1;
    }
  }

  method PopBack(segments: seq<SegmentState>, kept: int) returns (m: nat)
    ensures m <= |segments| && (m > 0 ==> segments[m - 1].first <= kept)
    ensures m < |segments| ==> kept < segments[m].first
  {
    m := |segments|;
    while m > 0 && segments[m - 1].first > kept
      invariant m <= |segments| && (m < |segments| ==> kept < segments[m].first)
    {
      m := m - 1;
    }
  }

  /** What is left when the segments from `m` on go, all of them after `kept`, and the one before is truncated. */
  lemma CutChain(all: seq<SegmentState>, m: nat, t: SegmentState, kept: int, firstLog: int, lastLog: int, log: Log)
    requires ChainInv(all, firstLog, lastLog, log) && 0 < m <= |all| && kept <= lastLog && SegmentInv(t)
    requires all[m - 1].first <= kept && (m < |all| ==> kept < all[m].first)
    requires t.first == all[m - 1].first && t.last == kept && firstLog <= kept
    requires t.entries == UpToIndex(all[m - 1].entries, kept)
    ensures ChainInv(all[..m - 1] + [t], firstLog, kept, UpToIndex(log, kept))
  {
    var all', log' := all[..m - 1] + [t], UpToIndex(log, kept);
    CutOrder(all, m, t);
    forall k | 0 <= k < |all'| ensures Agrees(all'[k], firstLog, log') {
      assert Agrees(all[k], firstLog, log);
      assert k < m - 1 ==> all[k].last < all[m - 1].first;
    }
  }

  lemma CutOrder(all: seq<SegmentState>, m: nat, t: SegmentState)
    requires AllValid(all) && Adjacent(all) && 0 < m <= |all| && SegmentInv(t) && t.first == all[m - 1].first
    ensures AllValid(all[..m - 1] + [t]) && Adjacent(all[..m - 1] + [t])
  {
    var all' := all[..m - 1] + [t];
    assert forall k :: 0 <= k < m - 1 ==> all'[k] == all[k];
    forall j, k | 0 <= j < k < |all'| ensures all'[j].last < all'[k].first {
      assert all[j].last < all[k].first;
    }
    forall k | 1 <= k < |all'| ensures all'[k].first == all'[k - 1].last + 1 {
      assert all[k].first == all[k - 1].last + 1;
    }
  }

  /** Nothing after `kept` and nothing before the log leaves nothing. */
  lemma NothingLeft(all: seq<SegmentState>, kept: int, firstLog: int, lastLog: int, log: Log, firstLog': int)
    requires ChainInv(all, firstLog, lastLog, log) && kept < firstLog'
    requires kept < firstLog || kept < Low(all, lastLog) || all == []
    ensures ChainInv([], firstLog', kept, UpToIndex(log, kept))
  {
  }

  /** Truncation keeps the storage sound, unless it names an index beyond a log that has one. */
  ghost predicate CanTruncate(segments: seq<SegmentState>, open: Option<SegmentState>, firstLog: int, lastLog: int,
                              kept: int) {
    kept <= lastLog || kept < firstLog || All(segments, open) == []
  }

  lemma OpenCut(segments: seq<SegmentState>, open: SegmentState, t: SegmentState, kept: int, firstLog: int,
                lastLog: int, log: Log)
    requires StoreInv(segments, Some(open), firstLog, lastLog, log) && SegmentInv(t)
    requires open.first <= kept <= lastLog && firstLog <= kept
    requires t.first == open.first && t.last == kept && t.entries == UpToIndex(open.entries, kept) && t.isOpen
    requires !t.pending
    ensures StoreInv(segments, Some(t), firstLog, kept, UpToIndex(log, kept))
  {
    var all, m := All(segments, Some(open)), |segments| + 1;
    CutChain(all, m, t, kept, firstLog, lastLog, log);
    assert all[..m - 1] + [t] == All(segments, Some(t));
  }

  lemma SegmentCut(segments: seq<SegmentState>, open: Option<SegmentState>, m: nat, t: SegmentState, kept: int,
                   firstLog: int, lastLog: int, log: Log)
    requires StoreInv(segments, open, firstLog, lastLog, log) && SegmentInv(t)
    requires 0 < m <= |segments| && segments[m - 1].first <= kept && (m < |segments| ==> kept < segments[m].first)
    requires (open.Some? ==> kept < open.value.first) && kept <= lastLog && firstLog <= kept
    requires t.first == segments[m - 1].first && t.last == kept && t.entries == UpToIndex(segments[m - 1].entries, kept)
    ensures StoreInv(segments[..m - 1] + [t], None, firstLog, kept, UpToIndex(log, kept))
  {
    var all := All(segments, open);
    CutChain(all, m, t, kept, firstLog, lastLog, log);
    assert all[..m - 1] == segments[..m - 1];
  }

  /** A segment with an index not after `kept` and a log that begins later is the only one left. */
  lemma OnlyOneLeft(segments: seq<SegmentState>, open: Option<SegmentState>, m: nat, kept: int, firstLog: int,
                    lastLog: int,
                    log: Log)
    requires StoreInv(segments, open, firstLog, lastLog, log) && kept < firstLog
    requires 0 < m <= |All(segments, open)| && All(segments, open)[m - 1].first <= kept
    ensures m == 1
  {
    var all := All(segments, open);
    var lowest, kept1 := all[0].last, all[m - 1].first;
    assert m > 1 ==> lowest < kept1;
  }

  /** An index after the last one makes the storage lose track of where its last segment ends. */
  lemma BeyondBreaks(segments: seq<SegmentState>, open: Option<SegmentState>, firstLog: int, lastLog: int, log: Log,
                     kept: int,
                     log': Log)
    requires StoreInv(segments, open, firstLog, lastLog, log) && All(segments, open) != [] && kept > lastLog
    ensures !StoreInv(segments, open, firstLog, kept, log')
  {
  }

  /** Truncates the segment that keeps the last index. */
  method CutTo(s: SegmentState, kept: int) returns (t: SegmentState)
    requires SegmentInv(s) && s.first <= kept
    ensures SegmentInv(t) && t.first == s.first && t.last == (if kept < s.last then kept else s.last)
    ensures t.entries == UpToIndex(s.entries, kept) && t.pending == s.pending && (s.isOpen ==> t.isOpen)
    ensures kept >= s.last ==> t == s
    ensures Exact(s) ==> Exact(t)
  {
    t := Truncate(s, kept);
    assert kept >= s.last ==> UpToIndex(s.entries, kept) == s.entries;
  }

  /** The open segment has an index that is kept. */
  method CutOpen(segments: seq<SegmentState>, open: SegmentState, firstLog: int, lastLog: int, kept: int,
                 ghost log: Log)
    returns (open': Option<SegmentState>)
    requires StoreInv(segments, Some(open), firstLog, lastLog, log) && open.first <= kept
    ensures StoreInv(segments, open', firstLog, kept, UpToIndex(log, kept)) <==>
            CanTruncate(segments, Some(open), firstLog, lastLog, kept)
    ensures AllExact(All(segments, Some(open))) ==> AllExact(All(segments, open'))
  {
    ghost var all := All(segments, Some(open));
    assert all[|segments|] == open;
    if firstLog > kept {
      OnlyOneLeft(segments, Some(open), |segments| + 1, kept, firstLog, lastLog, log);
      NothingLeft(all, kept, firstLog, lastLog, log, firstLog);
      return None;
    }
    assert SegmentInv(open);
    var t := CutTo(open, kept);
    assert All(segments, Some(t)) == all[|segments| := t];
    if kept <= lastLog {
      OpenCut(segments, open, t, kept, firstLog, lastLog, log);
    } else {
      BeyondBreaks(segments, Some(open), firstLog, lastLog, log, kept, UpToIndex(log, kept));
    }
    return Some(t);
  }

  /** Segment `m - 1` is the last with an index that is kept. */
  method CutSegments(segments: seq<SegmentState>, open: Option<SegmentState>, m: nat, firstLog: int, lastLog: int,
                     kept: int,
                     ghost log: Log)
    returns (segments': seq<SegmentState>)
    requires StoreInv(segments, open, firstLog, lastLog, log)
    requires 0 < m <= |segments| && segments[m - 1].first <= kept && (m < |segments| ==> kept < segments[m].first)
    requires open.Some? ==> kept < open.value.first
    ensures StoreInv(segments', None, firstLog, kept, UpToIndex(log, kept)) <==>
            CanTruncate(segments, open, firstLog, lastLog, kept)
    ensures AllExact(All(segments, open)) ==> AllExact(segments')
    ensures AllSettled(segments) && kept >= segments[m - 1].last ==> AllSettled(segments')
  {
    ghost var all := All(segments, open);
    var s := segments[m - 1];
    assert all[m - 1] == s && SegmentInv(s);
    if firstLog > kept {
      OnlyOneLeft(segments, open, m, kept, firstLog, lastLog, log);
      NothingLeft(all, kept, firstLog, lastLog, log, firstLog);
      return [];
    }
    var t := CutTo(s, kept);
    segments' := segments[..m - 1] + [t];
    assert forall k :: 0 <= k < m - 1 ==> segments'[k] == all[k];
    if kept <= lastLog {
      EndsAfter(segments, open, m, kept, firstLog, lastLog, log);
      SegmentCut(segments, open, m, t, kept, firstLog, lastLog, log);
    } else {
      AllKept(segments, open, m, kept, firstLog, lastLog, log);
      assert segments' == segments;
      BeyondBreaks(segments, open, firstLog, lastLog, log, kept, UpToIndex(log, kept));
    }
  }

  /** Nothing on disk is at or before `kept`. */
  ghost predicate AllAfter(all: seq<SegmentState>, kept: int) {
    all == [] || kept < all[0].first
  }

  lemma LowestFirst(segments: seq<SegmentState>, open: Option<SegmentState>, k: nat)
    requires AllValid(All(segments, open)) && Adjacent(All(segments, open)) && k < |All(segments, open)|
    ensures All(segments, open)[0].first <= All(segments, open)[k].first
  {
    var all := All(segments, open);
    assert SegmentInv(all[0]);
    assert k > 0 ==> all[0].last < all[k].first;
  }

  /** Segments after `kept` go, the last one left is truncated, and a log emptied from both ends begins after `kept`. */
  method TruncateSuffix(segments: seq<SegmentState>, open: Option<SegmentState>, firstLog: int, lastLog: int, kept: int,
                        ghost log: Log)
    returns (segments': seq<SegmentState>, open': Option<SegmentState>, firstLog': int)
    requires StoreInv(segments, open, firstLog, lastLog, log)
    ensures StoreInv(segments', open', firstLog', kept, UpToIndex(log, kept)) <==>
            CanTruncate(segments, open, firstLog, lastLog, kept)
    ensures firstLog' == if AllAfter(All(segments, open), kept) then kept + 1 else firstLog
    ensures AllExact(All(segments, open)) ==> AllExact(All(segments', open'))
  {
    if open.Some? && open.value.first <= kept {
      LowestFirst(segments, open, |segments|);
      open' := CutOpen(segments, open.value, firstLog, lastLog, kept, log);
      return segments, open', firstLog;
    }
    var m := PopBack(segments, kept);
    if m == 0 {
      NothingKept(segments, open, firstLog, lastLog, kept, log);
      return [], None, kept + 1;
    }
    LowestFirst(segments, open, m - 1);
    segments' := CutSegments(segments, open, m, firstLog, lastLog, kept, log);
    return segments', None, firstLog;
  }

  lemma NothingKept(segments: seq<SegmentState>, open: Option<SegmentState>, firstLog: int, lastLog: int, kept: int,
                    log: Log)
    requires StoreInv(segments, open, firstLog, lastLog, log)
    requires (segments != [] ==> kept < segments[0].first) && (open.Some? ==> kept < open.value.first)
    ensures StoreInv([], None, kept + 1, kept, UpToIndex(log, kept))
    ensures CanTruncate(segments, open, firstLog, lastLog, kept) && AllAfter(All(segments, open), kept)
  {
    var all := All(segments, open);
    assert all != [] ==> kept < all[0].first;
    NothingLeft(all, kept, firstLog, lastLog, log, kept + 1);
  }

  lemma EndsAfter(segments: seq<SegmentState>, open: Option<SegmentState>, m: nat, kept: int, firstLog: int,
                  lastLog: int,
                  log: Log)
    requires StoreInv(segments, open, firstLog, lastLog, log) && 0 < m <= |segments| && kept <= lastLog
    requires (m < |segments| ==> kept < segments[m].first) && (open.Some? ==> kept < open.value.first)
    ensures kept <= segments[m - 1].last
  {
    var all := All(segments, open);
    assert m < |all| ==> all[m].first == all[m - 1].last + 1;
  }

  lemma AllKept(segments: seq<SegmentState>, open: Option<SegmentState>, m: nat, kept: int, firstLog: int,
                lastLog: int, log: Log)
    requires StoreInv(segments, open, firstLog, lastLog, log) && 0 < m <= |segments| && kept > lastLog
    requires (m < |segments| ==> kept < segments[m].first) && (open.Some? ==> kept < open.value.first)
    ensures m == |segments| && open.None? && segments[m - 1].last == lastLog
  {
    var all := All(segments, open);
    FirstsBelow(all, firstLog, lastLog, log);
    assert forall k :: 0 <= k < |segments| ==> segments[k] == all[k];
  }

  lemma FirstsBelow(all: seq<SegmentState>, firstLog: int, lastLog: int, log: Log)
    requires ChainInv(all, firstLog, lastLog, log)
    ensures forall k :: 0 <= k < |all| ==> all[k].first <= lastLog + 1
  {
    forall k | 0 <= k < |all| ensures all[k].first <= lastLog + 1 {
      var end := all[|all| - 1];
      assert SegmentInv(all[k]) && SegmentInv(end);
      assert k < |all| - 1 ==> all[k].last < end.first;
    }
  }

  /** `log` with records written over it in turn. */
  ghost function Written(log: Log, rs: seq<Record>): (r: Log) {
    if rs == [] then log else Written(log, rs[..|rs| - 1])[rs[|rs| - 1].index := rs[|rs| - 1]]
  }

  ghost predicate CanAppendAll(limits: Limits, rs: seq<Record>, open: Option<SegmentState>, firstLog: int,
                               lastLog: int) {
    forall k :: 0 <= k < |rs| ==> CanAppend(limits, rs[k], open, firstLog, lastLog)
  }

  /** Every record is at an index of its own that the log does not have. */
  ghost predicate AllNew(rs: seq<Record>, log: Log) {
    && (forall k :: 0 <= k < |rs| ==> rs[k].index !in log)
    && (forall j, k :: 0 <= j < k < |rs| ==> rs[j].index != rs[k].index)
  }

  lemma {:induction false} StillAbsent(log: Log, rs: seq<Record>, index: int)
    requires index !in log && forall k :: 0 <= k < |rs| ==> rs[k].index != index
    ensures index !in Written(log, rs)
  {
    if rs == [] {
    } else {
      StillAbsent(log, rs[..|rs| - 1], index);
    }
  }

  /** Records in any order, up to the first one that is refused. */
  method AppendAll(limits: Limits, segments: seq<SegmentState>, open: Option<SegmentState>, firstLog: int, lastLog: int,
                   rs: seq<Record>, ghost log: Log)
    returns (segments': seq<SegmentState>, open': Option<SegmentState>, lastLog': int, stored: nat)
    requires StoreInv(segments, open, firstLog, lastLog, log) && CanAppendAll(limits, rs, open, firstLog, lastLog)
    ensures stored <= |rs| && lastLog <= lastLog'
    ensures StoreInv(segments', open', firstLog, lastLog', Written(log, rs[..stored]))
    ensures stored < |rs| ==> InClosed(segments', rs[stored].index)
    ensures AllExact(All(segments, open)) && AllNew(rs, log) ==> stored == |rs| && AllExact(All(segments', open'))
    ensures AllSettled(segments) ==> AllSettled(segments')
  {
    segments', open', lastLog', stored := segments, open, lastLog, 0;
    ghost var good := AllExact(All(segments, open)) && AllNew(rs, log);
    while stored < |rs|
      invariant stored <= |rs| && lastLog <= lastLog'
      invariant StoreInv(segments', open', firstLog, lastLog', Written(log, rs[..stored]))
      invariant OpenFirst(limits, open, lastLog) <= OpenFirst(limits, open', lastLog')
      invariant good ==> AllExact(All(segments', open'))
      invariant AllSettled(segments) ==> AllSettled(segments')
    {
      var ok;
      MayAppendNext(limits, rs, stored, open, firstLog, lastLog, log, open', lastLog');
      segments', open', lastLog', ok :=
        AppendNext(limits, segments', open', firstLog, lastLog', rs[stored], rs[..stored], rs[..stored + 1], log);
      if !ok {
        return;
      }
      stored := stored + 1;
    }
  }

  lemma MayAppendNext(limits: Limits, rs: seq<Record>, k: nat, open: Option<SegmentState>, firstLog: int, lastLog: int,
                      log: Log,
                      open': Option<SegmentState>, lastLog': int)
    requires CanAppendAll(limits, rs, open, firstLog, lastLog) && k < |rs|
    requires OpenFirst(limits, open, lastLog) <= OpenFirst(limits, open', lastLog')
    ensures CanAppend(limits, rs[k], open', firstLog, lastLog') && rs[..k + 1] == rs[..k] + [rs[k]]
    ensures AllNew(rs, log) ==> rs[k].index !in Written(log, rs[..k])
  {
    assert CanAppend(limits, rs[k], open, firstLog, lastLog);
    if AllNew(rs, log) {
      StillAbsent(log, rs[..k], rs[k].index);
    }
  }

  method AppendNext(limits: Limits, segments: seq<SegmentState>, open: Option<SegmentState>, firstLog: int,
                    lastLog: int,
                    r: Record,
                    ghost some: seq<Record>, ghost more: seq<Record>, ghost log: Log)
    returns (segments': seq<SegmentState>, open': Option<SegmentState>, lastLog': int, ok: bool)
    requires StoreInv(segments, open, firstLog, lastLog, Written(log, some)) && more == some + [r]
    requires CanAppend(limits, r, open, firstLog, lastLog)
    ensures lastLog <= lastLog'
    ensures StoreInv(segments', open', firstLog, lastLog', Written(log, if ok then more else some))
    ensures !ok ==> InClosed(segments', r.index)
    ensures OpenFirst(limits, open, lastLog) <= OpenFirst(limits, open', lastLog')
    ensures AllExact(All(segments, open)) && r.index !in Written(log, some) ==> ok && AllExact(All(segments', open'))
    ensures AllSettled(segments) ==> AllSettled(segments')
  {
    var s;
    segments', s, lastLog', ok := AppendOne(limits, segments, open, firstLog, lastLog, r, Written(log, some));
    open' := Some(s);
    assert more[..|some|] == some;
    OpenFirstBelow(limits, segments', s, firstLog, lastLog', Written(log, if ok then more else some));
  }

  lemma OpenFirstBelow(limits: Limits, segments: seq<SegmentState>, open: SegmentState, firstLog: int, lastLog: int,
                       log: Log)
    requires StoreInv(segments, Some(open), firstLog, lastLog, log)
    ensures open.first <= OpenFirst(limits, Some(open), lastLog)
  {
    var all := All(segments, Some(open));
    assert all[|segments|] == open && SegmentInv(open);
  }

  /** A record that arrives again after its segment was closed is refused, and one for an open segment is not. */
  lemma RepeatedRecord(r: Record)
    requires r.index == 1
    ensures var s := Appended(NewSegment(1), r);
            && StoreInv([Closed(s)], None, 1, 1, map[1 := r]) && AllExact([Closed(s)]) && InClosed([Closed(s)], 1)
            && StoreInv([], Some(s), 1, 1, map[1 := r]) && !Exact(Appended(s, r))
  {
    var s := Appended(NewSegment(1), r);
    assert Live(s.entries, 1, 1) == 0 && Live(s.entries, 1, 2) == 1;
    assert SegmentInv(s) && SegmentInv(Closed(s));
    assert InClosed([Closed(s)], 1) by {
      assert [Closed(s)][0].first <= 1 <= [Closed(s)][0].last;
    }
    assert Appended(s, r).entries == s.entries;
  }
}
