/** A segment as the storage sees it: the live records of an index range, with a counter that tells when it is full. */
module Segments {
  import opened Core
  import opened RecordFormat

  datatype SegmentState = SegmentState(first: int, last: int, counter: int, bytes: int, isOpen: bool, pending: bool,
                                       entries: map<int, Record>)

  function NewSegment(first: int): (s: SegmentState) {
    SegmentState(first, first - 1, 0, 0, true, false, map[])
  }

  predicate IsFullfilled(s: SegmentState) {
    s.last - s.first + 1 - s.counter == 0
  }

  ghost predicate InBounds(s: SegmentState) {
    && s.first - 1 <= s.last < s.first + CAPACITY
    && forall i :: i in s.entries ==> s.first <= i <= s.last && s.entries[i].index == i
  }

  ghost predicate Gapless(s: SegmentState) {
    forall i :: s.first <= i <= s.last ==> i in s.entries
  }

  /** How many indexes from `lo` to before `hi` have a record. */
  ghost function Live(entries: map<int, Record>, lo: int, hi: int): (n: nat)
    decreases hi - lo
  {
    if hi <= lo then 0 else Live(entries, lo, hi - 1) + (if hi - 1 in entries then 1 else 0)
  }

  ghost function LiveIn(s: SegmentState): (n: nat) {
    Live(s.entries, s.first, s.last + 1)
  }

  /** The counter counts every live record, and others only if an index was appended again. */
  ghost predicate SegmentInv(s: SegmentState) {
    && InBounds(s) && s.counter >= LiveIn(s) && 0 <= s.bytes
    && (s.bytes == 0 ==> s.last == s.first - 1)
    && (!s.isOpen ==> !s.pending && (Exact(s) ==> Gapless(s)))
  }

  /** The counter equals the number of live indexes: none was appended again. */
  ghost predicate Exact(s: SegmentState) {
    s.counter == LiveIn(s)
  }

  /** A segment that takes no new indexes is closed, or waits for the last of its gaps. */
  ghost predicate Settled(s: SegmentState) {
    s.isOpen ==> s.pending && !IsFullfilled(s)
  }

  /** With an exact counter, such a segment is closed exactly if it has no gap. */
  lemma ClosedIffGapless(s: SegmentState)
    requires SegmentInv(s) && Exact(s) && Settled(s)
    ensures !s.isOpen <==> Gapless(s)
    ensures s.isOpen ==> s.pending
  {
    FullfilledIff(s);
  }

  lemma {:induction false} LiveAll(entries: map<int, Record>, lo: int, hi: int)
    requires lo <= hi
    ensures Live(entries, lo, hi) <= hi - lo
    ensures Live(entries, lo, hi) == hi - lo <==> forall i :: lo <= i < hi ==> i in entries
    decreases hi - lo
  {
    if hi <= lo {
    } else {
      LiveAll(entries, lo, hi - 1);
    }
  }

  lemma {:induction false} LiveSplit(entries: map<int, Record>, lo: int, mid: int, hi: int)
    requires lo <= mid <= hi
    ensures Live(entries, lo, hi) == Live(entries, lo, mid) + Live(entries, mid, hi)
    decreases hi - mid
  {
    if mid == hi {
    } else {
      LiveSplit(entries, lo, mid, hi - 1);
    }
  }

  /** Only the indexes of the range matter. */
  lemma {:induction false} LiveSame(a: map<int, Record>, b: map<int, Record>, lo: int, hi: int)
    requires forall i :: lo <= i < hi ==> (i in a <==> i in b)
    ensures Live(a, lo, hi) == Live(b, lo, hi)
    decreases hi - lo
  {
    if hi <= lo {
    } else {
      LiveSame(a, b, lo, hi - 1);
    }
  }

  lemma LiveOneMore(entries: map<int, Record>, r: Record, lo: int, hi: int)
    requires lo <= r.index < hi && r.index !in entries
    ensures Live(entries[r.index := r], lo, hi) == Live(entries, lo, hi) + 1
  {
    var i, more := r.index, entries[r.index := r];
    LiveSplit(entries, lo, i, hi);
    LiveSplit(entries, i, i + 1, hi);
    LiveSplit(more, lo, i, hi);
    LiveSplit(more, i, i + 1, hi);
    LiveSame(entries, more, lo, i);
    LiveSame(entries, more, i + 1, hi);
  }

  /** Beyond the last index nothing is live. */
  lemma LiveBeyond(entries: map<int, Record>, lo: int, mid: int, hi: int)
    requires lo <= mid <= hi && forall i :: i in entries ==> i < mid
    ensures Live(entries, lo, hi) == Live(entries, lo, mid)
  {
    LiveSplit(entries, lo, mid, hi);
    LiveSame(entries, map[], mid, hi);
    LiveNone(mid, hi);
  }

  lemma {:induction false} LiveNone(lo: int, hi: int)
    ensures Live(map[], lo, hi) == 0
    decreases hi - lo
  {
    if hi <= lo {
    } else {
      LiveNone(lo, hi - 1);
    }
  }

  /** Counting tells whether an index of the range is missing. */
  lemma GaplessIff(s: SegmentState)
    requires InBounds(s)
    ensures LiveIn(s) <= s.last - s.first + 1
    ensures Gapless(s) <==> LiveIn(s) == s.last - s.first + 1
  {
    LiveAll(s.entries, s.first, s.last + 1);
  }

  /** The test for being full is exact as long as every index was appended once. */
  lemma FullfilledIff(s: SegmentState)
    requires InBounds(s) && Exact(s)
    ensures IsFullfilled(s) <==> Gapless(s)
  {
    GaplessIff(s);
  }

  /** With `repeats` appends of indexes that were already there, full means that as many indexes are missing. */
  lemma FullfilledWithRepeats(s: SegmentState, repeats: nat)
    requires InBounds(s) && s.counter == LiveIn(s) + repeats
    ensures IsFullfilled(s) <==> s.last - s.first + 1 - LiveIn(s) == repeats
    ensures repeats > 0 && IsFullfilled(s) ==> !Gapless(s)
    ensures repeats > 0 && Gapless(s) ==> !IsFullfilled(s)
  {
    GaplessIff(s);
  }

  ghost function Appended(s: SegmentState, r: Record): (t: SegmentState) {
    s.(entries := s.entries[r.index := r], last := if r.index > s.last then r.index else s.last,
       counter := s.counter + 1, bytes := s.bytes + HEADER_SIZE + |r.data|)
  }

  ghost function Closed(s: SegmentState): (t: SegmentState) {
    s.(isOpen := false, pending := false)
  }

  /** An append counts one more; only at a new index is there one more live record. */
  lemma AppendedInv(s: SegmentState, r: Record)
    requires SegmentInv(s) && s.isOpen && s.first <= r.index < s.first + CAPACITY
    ensures SegmentInv(Appended(s, r))
    ensures IsFullfilled(Appended(s, r)) ==> SegmentInv(Closed(Appended(s, r)))
    ensures LiveIn(Appended(s, r)) == LiveIn(s) + if r.index in s.entries then 0 else 1
  {
    var t := Appended(s, r);
    LiveBeyond(s.entries, s.first, s.last + 1, t.last + 1);
    if r.index in s.entries {
      LiveSame(s.entries, t.entries, s.first, t.last + 1);
    } else {
      LiveOneMore(s.entries, r, s.first, t.last + 1);
    }
    if Exact(t) {
      FullfilledIff(t);
    }
  }

  /** Appending an index twice makes a segment look full with another index missing. */
  lemma RepeatLooksFull(one: Record, three: Record)
    requires one.index == 1 && three.index == 3
    ensures var s := Appended(Appended(Appended(NewSegment(1), one), one), three);
            IsFullfilled(s) && !Gapless(s)
  {
    var s := Appended(Appended(Appended(NewSegment(1), one), one), three);
    assert 2 !in s.entries && s.first <= 2 <= s.last;
  }

  /** A segment about to close does so once it looks full. */
  ghost function Received(s: SegmentState, r: Record): (t: SegmentState) {
    var more := Appended(s, r);
    if s.pending && IsFullfilled(more) then Closed(more) else more
  }

  /** A closed segment refuses. At a new index the counter stays exact, and closing means that no gap is left. */
  method AppendRecord(s: SegmentState, r: Record) returns (t: SegmentState, ok: bool)
    requires SegmentInv(s) && s.first <= r.index < s.first + CAPACITY
    ensures ok == s.isOpen && t == if ok then Received(s, r) else s
    ensures SegmentInv(t)
    ensures ok && Exact(s) && r.index !in s.entries ==> Exact(t) && (!t.isOpen <==> s.pending && Gapless(t))
    ensures ok && r.index in s.entries ==> !Exact(t)
    ensures Settled(s) ==> Settled(t)
  {
    if !s.isOpen {
      return s, false;
    }
    AppendedInv(s, r);
    t := s.(entries := s.entries[r.index := r], last := if r.index > s.last then r.index else s.last,
            counter := s.counter + 1, bytes := s.bytes + HEADER_SIZE + |r.data|);
    if Exact(t) {
      FullfilledIff(t);
    }
    if t.pending && IsFullfilled(t) {
      t := t.(isOpen := false, pending := false);
    }
    return t, true;
  }

  ghost function UpToIndex(m: map<int, Record>, last: int): (r: map<int, Record>) {
    map i | i in m && i <= last :: m[i]
  }

  /** Strikes out the records after `kept` one by one. */
  method StrikeOut(m: map<int, Record>, count: int, kept: int, last: int)
    returns (entries: map<int, Record>, counter: int)
    requires kept < last && forall i :: i in m ==> i <= last
    ensures entries == UpToIndex(m, kept) && counter == count - Live(m, kept + 1, last + 1)
  {
    entries, counter := m, count;
    for i := kept + 1 to last + 1
      invariant counter == count - Live(m, kept + 1, i)
      invariant forall j :: j in entries <==> j in m && !(kept < j < i)
      invariant forall j :: j in entries ==> entries[j] == m[j]
    {
      if i in entries {
        entries, counter := entries - {i}, counter - 1;
      }
    }
    ghost var upTo := UpToIndex(m, kept);
    forall j ensures j in entries <==> j in upTo {
      assert j in m ==> j <= last;
    }
    assert entries.Keys == upTo.Keys;
    assert entries == upTo;
  }

  /** A truncated segment ends at `kept`, and opens again if it was closed. */
  ghost function Truncated(s: SegmentState, kept: int): (t: SegmentState) {
    if kept >= s.last then s
    else s.(entries := UpToIndex(s.entries, kept), isOpen := true, last := kept,
            counter := s.counter - Live(s.entries, kept + 1, s.last + 1))
  }

  /** A segment cut back stays settled exactly if it was not closed and is not full now; a closed one never closes. */
  lemma CutSettledIff(s: SegmentState, kept: int, r: Record)
    requires SegmentInv(s) && Settled(s) && s.first <= kept < s.last
    ensures Settled(Truncated(s, kept)) <==> s.isOpen && !IsFullfilled(Truncated(s, kept))
    ensures !s.isOpen ==> Received(Truncated(s, kept), r).isOpen && !Received(Truncated(s, kept), r).pending
  {
  }

  method Truncate(s: SegmentState, kept: int) returns (t: SegmentState)
    requires SegmentInv(s) && s.first <= kept
    ensures SegmentInv(t)
    ensures t == Truncated(s, kept)
    ensures Exact(s) ==> Exact(t)
  {
    if kept >= s.last {
      return s;
    }
    LiveSplit(s.entries, s.first, kept + 1, s.last + 1);
    LiveSame(s.entries, UpToIndex(s.entries, kept), s.first, kept + 1);
    var entries, counter := StrikeOut(s.entries, s.counter, kept, s.last);
    t := s.(entries := entries, counter := counter, isOpen := true, last := kept);
  }
}
