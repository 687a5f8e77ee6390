/**
 * The part of the log kept in memory: a deque with empty slots, the contiguous and the greatest index, and a
 * bitmap of what was received, all standing for one map from index to entry.
 */
module LogWindows {
  import opened Core
  import opened Bits

  datatype LogId = LogId(term: int, index: int)

  predicate IdGreater(a: LogId, b: LogId) {
    if a.term == b.term then a.index > b.index else a.term > b.term
  }

  datatype LogEntry = LogEntry(term: int, index: int, dependency: Word, data: seq<int>)

  type Log = map<int, LogEntry>

  ghost function Slot(log: Log, i: int): (r: Option<LogEntry>) {
    if i in log then Some(log[i]) else None
  }

  /** Term 0 stands for an entry that is not there. */
  ghost function TermAt(log: Log, i: int): (r: int) {
    if i in log then log[i].term else 0
  }

  /** Bit `b` tells about index `max - b`. */
  ghost predicate BitsOf(bitmap: Word, max: int, received: set<int>) {
    && |bitmap| == WINDOW_BITS
    && (forall i :: i in received ==> i <= max)
    && (forall b :: 0 <= b < WINDOW_BITS ==> (bitmap[b] <==> max - b in received))
  }

  ghost predicate BitmapOf(bitmap: Word, max: int, received: set<int>) {
    BitsOf(bitmap, max, received) && forall i :: i in received ==> 1 <= i
  }

  /** Whatever a bitmap says. */
  ghost function Told(bitmap: Word, max: int): (r: set<int>)
    requires |bitmap| == WINDOW_BITS
    ensures BitsOf(bitmap, max, r)
  {
    set b | 0 <= b < WINDOW_BITS && bitmap[b] :: max - b
  }

  /** Deque and bitmap both end at `max`. */
  ghost predicate Mirrors(mem: seq<Option<LogEntry>>, max: int, bitmap: Word, log: Log) {
    && |mem| <= max && BitmapOf(bitmap, max, log.Keys)
    && (forall i :: i in log ==> log[i].index == i)
    && (forall k :: 0 <= k < |mem| ==> mem[k] == Slot(log, max - |mem| + 1 + k))
  }

  /** Everything up to `last` was received and `last + 1` was not; `max` is the greatest index received. */
  ghost predicate Bounds(last: int, max: int, received: set<int>) {
    && 0 <= last <= max
    && (forall i :: i in received ==> 1 <= i <= max)
    && (forall i :: 1 <= i <= last ==> i in received)
    && last + 1 !in received
    && (max > 0 ==> max in received)
  }

  ghost predicate WindowInv(mem: seq<Option<LogEntry>>, last: int, max: int, bitmap: Word, log: Log) {
    && Mirrors(mem, max, bitmap, log) && Bounds(last, max, log.Keys)
    && max - |mem| <= last
  }

  /** The received indexes determine both. */
  lemma BoundsUnique(received: set<int>, last1: int, max1: int, last2: int, max2: int)
    requires Bounds(last1, max1, received) && Bounds(last2, max2, received)
    ensures last1 == last2 && max1 == max2
  {
    assert last1 < last2 ==> last1 + 1 in received;
    assert last2 < last1 ==> last2 + 1 in received;
  }

  /** A non-empty deque ends in an entry, the one with the greatest index. */
  lemma EndsInEntry(mem: seq<Option<LogEntry>>, last: int, max: int, bitmap: Word, log: Log)
    requires WindowInv(mem, last, max, bitmap, log) && mem != []
    ensures var end := mem[|mem| - 1]; end.Some? && end.value.index == max
  {
    assert mem[|mem| - 1] == Slot(log, max - |mem| + 1 + (|mem| - 1));
  }

  /** Consecutive entries. */
  ghost predicate Consecutive(entries: seq<LogEntry>) {
    forall k :: 0 <= k < |entries| ==> entries[k].index == entries[0].index + k
  }

  /** `log` with `entries` written over it, the last one winning. */
  ghost function Overlay(log: Log, entries: seq<LogEntry>): (r: Log) {
    if entries == [] then log else
      var e := entries[|entries| - 1];
      Overlay(log, entries[..|entries| - 1])[e.index := e]
  }

  lemma {:induction false} OverlaySlot(log: Log, entries: seq<LogEntry>, i: int)
    requires Consecutive(entries)
    ensures Slot(Overlay(log, entries), i) ==
            if entries != [] && entries[0].index <= i < entries[0].index + |entries|
            then Some(entries[i - entries[0].index]) else Slot(log, i)
  {
    if entries == [] {
    } else {
      OverlaySlot(log, entries[..|entries| - 1], i);
    }
  }

  lemma SameSlots(a: Log, b: Log)
    requires forall i :: Slot(a, i) == Slot(b, i)
    ensures a == b
  {
    forall i ensures i in a <==> i in b {
      assert Slot(a, i) == Slot(b, i);
    }
    assert a.Keys == b.Keys;
    forall i | i in a ensures a[i] == b[i] {
      assert Slot(a, i) == Slot(b, i);
    }
  }

  /** Writing a few of the entries beforehand makes no difference. */
  lemma OverlayTwice(log: Log, entries: seq<LogEntry>, n: nat)
    requires Consecutive(entries) && n <= |entries|
    ensures Overlay(Overlay(log, entries[..n]), entries) == Overlay(log, entries)
  {
    var a, b := Overlay(Overlay(log, entries[..n]), entries), Overlay(log, entries);
    forall i ensures Slot(a, i) == Slot(b, i) {
      OverlaySlot(log, entries[..n], i);
      OverlaySlot(Overlay(log, entries[..n]), entries, i);
      OverlaySlot(log, entries, i);
    }
    SameSlots(a, b);
  }

  lemma PushedNull(mem: seq<Option<LogEntry>>, max: int, bitmap: Word, log: Log)
    requires Mirrors(mem, max, bitmap, log)
    ensures Mirrors(mem + [None], max + 1, ShiftLeft(bitmap, 1), log)
  {
    var mem', bitmap' := mem + [None], ShiftLeft(bitmap, 1);
    forall b | 0 <= b < WINDOW_BITS ensures bitmap'[b] <==> max + 1 - b in log {
      assert b > 0 ==> (bitmap[b - 1] <==> max - (b - 1) in log);
    }
    forall k | 0 <= k < |mem'| ensures mem'[k] == Slot(log, max + 1 - |mem'| + 1 + k) {
      assert k < |mem| ==> mem[k] == Slot(log, max - |mem| + 1 + k);
    }
  }

  lemma PlacedOne(mem: seq<Option<LogEntry>>, max: int, bitmap: Word, log: Log, e: LogEntry)
    requires Mirrors(mem, max, bitmap, log) && max - |mem| < e.index <= max && max - e.index < WINDOW_BITS
    ensures Mirrors(mem[e.index - (max - |mem| + 1) := Some(e)], max, bitmap[max - e.index := true], log[e.index := e])
  {
    var at := e.index - (max - |mem| + 1);
    var mem', bitmap', log' := mem[at := Some(e)], bitmap[max - e.index := true], log[e.index := e];
    forall k | 0 <= k < |mem'| ensures mem'[k] == Slot(log', max - |mem'| + 1 + k) {
      assert mem[k] == Slot(log, max - |mem| + 1 + k);
    }
    forall b | 0 <= b < WINDOW_BITS ensures bitmap'[b] <==> max - b in log' {
      assert bitmap[b] <==> max - b in log;
    }
  }

  /** The deque, bitmap and greatest index grow by one entry. */
  method PushEntry(mem: seq<Option<LogEntry>>, max: int, bitmap: Word, e: LogEntry, ghost log: Log)
    returns (mem': seq<Option<LogEntry>>, bitmap': Word)
    requires Mirrors(mem, max, bitmap, log) && e.index == max + 1
    ensures |mem'| == |mem| + 1 && Mirrors(mem', max + 1, bitmap', log[e.index := e])
  {
    PushedNull(mem, max, bitmap, log);
    mem', bitmap' := mem + [Some(e)], ShiftLeft(bitmap, 1);
    PlacedOne(mem + [None], max + 1, bitmap', log, e);
    assert (mem + [None])[|mem| := Some(e)] == mem';
    bitmap' := bitmap'[0 := true];
  }

  /** Extends the window up to `back`, with the entries from the front where they fall on the next index. */
  method GrowTo(mem: seq<Option<LogEntry>>, max: int, bitmap: Word, entries: seq<LogEntry>, back: int, ghost log: Log)
    returns (mem': seq<Option<LogEntry>>, max': int, bitmap': Word, ghost pushed: nat)
    requires Mirrors(mem, max, bitmap, log) && Consecutive(entries) && max <= back
    requires entries != [] ==> back == entries[0].index + |entries| - 1
    ensures max' == back && max' - |mem'| == max - |mem|
    ensures pushed <= |entries| && Mirrors(mem', max', bitmap', Overlay(log, entries[..pushed]))
  {
    mem', max', bitmap' := mem, max, bitmap;
    pushed := 0;
    var it := 0;
    while max' < back
      invariant max <= max' <= back && max' - |mem'| == max - |mem|
      invariant 0 <= it <= |entries| && pushed == it
      invariant it > 0 ==> entries[0].index + it == max' + 1
      invariant Mirrors(mem', max', bitmap', Overlay(log, entries[..it]))
    {
      if it < |entries| && entries[it].index == max' + 1 {
        assert entries[..it + 1][..it] == entries[..it];
        mem', bitmap' := PushEntry(mem', max', bitmap', entries[it], Overlay(log, entries[..it]));
        it, pushed := it + 1, pushed + 1;
      } else {
        PushedNull(mem', max', bitmap', Overlay(log, entries[..it]));
        mem', bitmap' := mem' + [None], ShiftLeft(bitmap', 1);
      }
      max' := max' + 1;
    }
  }

  /** The index has a slot in a deque of `size` slots and a bit in a bitset of `bits` that both end at `max`. */
  ghost predicate HasPlace(i: int, max: int, size: nat, bits: nat) {
    max - size < i <= max && max - i < bits
  }

  ghost predicate HavePlaces(entries: seq<LogEntry>, max: int, size: nat, bits: nat) {
    forall k :: 0 <= k < |entries| ==> HasPlace(entries[k].index, max, size, bits)
  }

  /** Each entry is in the slot of its index, and its bit is set. */
  ghost predicate Landed(mem: seq<Option<LogEntry>>, max: int, bitmap: Word, entries: seq<LogEntry>) {
    forall k :: 0 <= k < |entries| ==>
      && HasPlace(entries[k].index, max, |mem|, |bitmap|)
      && mem[entries[k].index - (max - |mem|) - 1] == Some(entries[k]) && bitmap[max - entries[k].index]
  }

  lemma LandedIn(mem: seq<Option<LogEntry>>, max: int, bitmap: Word, log: Log, entries: seq<LogEntry>)
    requires Mirrors(mem, max, bitmap, Overlay(log, entries)) && Consecutive(entries)
    requires HavePlaces(entries, max, |mem|, |bitmap|)
    ensures Landed(mem, max, bitmap, entries)
  {
    var log' := Overlay(log, entries);
    forall k | 0 <= k < |entries|
      ensures HasPlace(entries[k].index, max, |mem|, |bitmap|)
      ensures mem[entries[k].index - (max - |mem|) - 1] == Some(entries[k]) && bitmap[max - entries[k].index]
    {
      var i := entries[k].index;
      OverlaySlot(log, entries, i);
      assert HasPlace(i, max, |mem|, |bitmap|);
      assert mem[i - (max - |mem|) - 1] == Slot(log', max - |mem| + 1 + (i - (max - |mem|) - 1));
      assert bitmap[max - i] <==> max - (max - i) in log';
    }
  }

  /** Writes entries one at a time, each to the slot and the bit of its index, as long as these are there. */
  method PlaceAll(mem: seq<Option<LogEntry>>, max: int, bitmap: Word, entries: seq<LogEntry>, ghost log: Log)
    returns (mem': seq<Option<LogEntry>>, bitmap': Word, inRange: bool)
    requires Mirrors(mem, max, bitmap, log) && Consecutive(entries)
    ensures |mem'| == |mem| && |bitmap'| == |bitmap|
    ensures inRange <==> HavePlaces(entries, max, |mem|, |bitmap|)
    ensures inRange ==> Mirrors(mem', max, bitmap', Overlay(log, entries)) && Landed(mem', max, bitmap', entries)
  {
    mem', bitmap' := mem, bitmap;
    for k := 0 to |entries|
      invariant |mem'| == |mem| && Mirrors(mem', max, bitmap', Overlay(log, entries[..k]))
      invariant forall n :: 0 <= n < k ==> HasPlace(entries[n].index, max, |mem|, |bitmap|)
    {
      var e := entries[k];
      var slot, bit := e.index - (max - |mem| + 1), max - e.index;
      if slot < 0 || slot >= |mem'| || bit < 0 || bit >= |bitmap'| {
        return mem', bitmap', false;
      }
      PlacedOne(mem', max, bitmap', Overlay(log, entries[..k]), e);
      assert entries[..k + 1][..k] == entries[..k];
      mem', bitmap' := mem'[slot := Some(e)], bitmap'[bit := true];
    }
    assert entries[..|entries|] == entries;
    LandedIn(mem', max, bitmap', log, entries);
    inRange := true;
  }

  /** Moves the contiguous index over the slots that have been filled. */
  method Advance(mem: seq<Option<LogEntry>>, last: int, max: int, bitmap: Word, ghost log: Log) returns (last': int)
    requires Mirrors(mem, max, bitmap, log) && max - |mem| <= last <= max && 0 <= last
    requires (forall i :: 1 <= i <= last ==> i in log) && (max > 0 ==> max in log)
    ensures last <= last' && WindowInv(mem, last', max, bitmap, log)
  {
    last' := last;
    while last' < max && mem[last' - (max - |mem| + 1) + 1].Some?
      invariant last <= last' <= max
      invariant forall i :: 1 <= i <= last' ==> i in log
    {
      assert mem[last' - (max - |mem| + 1) + 1] == Slot(log, last' + 1);
      last' := last' + 1;
    }
    assert last' < max ==> mem[last' - (max - |mem| + 1) + 1] == Slot(log, last' + 1);
  }
}
