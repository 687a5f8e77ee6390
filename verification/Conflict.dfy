/**
 * What becomes of the part of the log in memory when entries conflict with the contiguous log: its suffix is
 * truncated, but the greatest index and the bitmap stay as they are, and the new entries are placed by them.
 */
module Conflicts {
  import opened Core
  import opened Bits
  import opened LogWindows

  /** Done, stopped by a check, through an empty slot followed, or by a deque or bitset indexed out of range. */
  datatype Ending = Done | Aborted | NullSlot | OutOfRange

  ghost function Kept(log: Log, kept: int): (r: Log) {
    map i | i in log && i <= kept :: log[i]
  }

  /** `cut` is what is left of `mem` once entries after `kept` have been popped, as far as they are there. */
  ghost predicate IsCut(mem: seq<Option<LogEntry>>, kept: int, cut: seq<Option<LogEntry>>) {
    && |cut| <= |mem| && cut == mem[..|cut|]
    && (forall k :: |cut| <= k < |mem| ==> mem[k].Some? && mem[k].value.index > kept)
    && (cut != [] && cut[|cut| - 1].Some? ==> cut[|cut| - 1].value.index <= kept)
  }

  /** The loop of unsafe_truncate_suffix, which follows the last slot without looking whether it is empty. */
  method TruncateMemory(mem: seq<Option<LogEntry>>, kept: int) returns (cut: seq<Option<LogEntry>>, nullSlot: bool)
    ensures IsCut(mem, kept, cut)
    ensures nullSlot <==> cut != [] && cut[|cut| - 1].None?
  {
    cut := mem;
    while cut != []
      invariant |cut| <= |mem| && cut == mem[..|cut|]
      invariant forall k :: |cut| <= k < |mem| ==> mem[k].Some? && mem[k].value.index > kept
      decreases |cut|
    {
      if cut[|cut| - 1].None? {
        return cut, true;
      }
      if cut[|cut| - 1].value.index <= kept {
        return cut, false;
      }
      cut := cut[..|cut| - 1];
    }
    nullSlot := false;
  }

  /**
   * An empty slot is followed exactly if something was received out of order; otherwise the deque ends at the kept
   * index, or is empty.
   */
  lemma CutWindow(mem: seq<Option<LogEntry>>, last: int, max: int, bitmap: Word, log: Log, kept: int,
                  cut: seq<Option<LogEntry>>)
    requires WindowInv(mem, last, max, bitmap, log) && 0 <= kept < last && IsCut(mem, kept, cut)
    ensures (cut != [] && cut[|cut| - 1].None?) <==> last < max
    ensures last == max ==> |cut| == if kept <= max - |mem| then 0 else kept - (max - |mem|)
  {
    var first := max - |mem| + 1;
    assert forall k :: 0 <= k < |mem| ==> mem[k] == Slot(log, first + k);
    if last < max {
      assert mem[last + 1 - first] == Slot(log, first + (last + 1 - first));
      assert |cut| > last + 1 - first;
      assert cut[|cut| - 1] == Slot(log, first + (|cut| - 1));
    } else {
      assert forall k :: 0 <= k < |mem| ==> first + k in log && mem[k].Some? && mem[k].value.index == first + k;
      assert |cut| < |mem| ==> mem[|cut|].value.index > kept;
      assert cut != [] ==> cut[|cut| - 1] == mem[|cut| - 1];
    }
  }

  /** The slots and bits of `entries` are set, by `max`, and no others. */
  ghost predicate ArePlaced(mem: seq<Option<LogEntry>>, bitmap: Word, max: int, entries: seq<LogEntry>,
                            mem': seq<Option<LogEntry>>, bitmap': Word)
    requires entries != []
  {
    && |mem'| == |mem| && |bitmap'| == |bitmap|
    && (forall k :: 0 <= k < |mem| ==>
          mem'[k] == PlacedSlot(mem[k], max - |mem| + 1 + k, entries))
    && (forall b :: 0 <= b < |bitmap| ==>
          (bitmap'[b] <==> bitmap[b] || entries[0].index <= max - b < entries[0].index + |entries|))
  }

  ghost function PlacedSlot(slot: Option<LogEntry>, i: int, entries: seq<LogEntry>): (r: Option<LogEntry>)
    requires entries != []
  {
    if entries[0].index <= i < entries[0].index + |entries| then Some(entries[i - entries[0].index]) else slot
  }

  /** Places entries by the greatest index, without looking where the deque and the bitset end. */
  method PlaceBlindly(mem: seq<Option<LogEntry>>, max: int, bitmap: Word, entries: seq<LogEntry>)
    returns (mem': seq<Option<LogEntry>>, bitmap': Word, inRange: bool)
    requires entries != [] && Consecutive(entries) && entries[0].index + |entries| - 1 <= max && |bitmap| == WINDOW_BITS
    ensures inRange <==> max - |mem| < entries[0].index && max - entries[0].index < WINDOW_BITS
    ensures |bitmap'| == |bitmap|
    ensures inRange ==> ArePlaced(mem, bitmap, max, entries, mem', bitmap')
  {
    mem', bitmap' := mem, bitmap;
    var first := max - |mem| + 1;
    for n := 0 to |entries|
      invariant |mem'| == |mem| && |bitmap'| == |bitmap|
      invariant n > 0 ==> first <= entries[0].index && max - entries[0].index < WINDOW_BITS
      invariant n > 0 ==> ArePlaced(mem, bitmap, max, entries[..n], mem', bitmap')
      invariant n == 0 ==> mem' == mem && bitmap' == bitmap
    {
      var i := entries[n].index;
      assert i == entries[0].index + n;
      if i < first || max - i >= WINDOW_BITS {
        return mem', bitmap', false;
      }
      mem', bitmap' := mem'[i - first := Some(entries[n])], bitmap'[max - i := true];
    }
    assert entries[..|entries|] == entries;
    inRange := true;
  }

  /** The contiguous index moves over filled slots. */
  method MoveLast(mem: seq<Option<LogEntry>>, last: int, max: int) returns (last': int)
    requires max - |mem| <= last <= max
    ensures last <= last' <= max && (last' < max ==> mem[last' - (max - |mem|)].None?)
  {
    last' := last;
    while last' < max && mem[last' - (max - |mem| + 1) + 1].Some?
      invariant last <= last' <= max
    {
      last' := last' + 1;
    }
  }

  /** As many entries stay in memory as are dropped, and the new entries replace all of these. */
  predicate FillsExactly(max: int, size: nat, kept: int, back: int) {
    back == max && kept - (max - size) == max - kept <= WINDOW_BITS
  }

  lemma {:induction false} FilledWindow(mem: seq<Option<LogEntry>>, max: int, bitmap: Word, log: Log, kept: int,
                                        entries: seq<LogEntry>, cut: seq<Option<LogEntry>>,
                                        mem': seq<Option<LogEntry>>, bitmap': Word, last': int)
    requires WindowInv(mem, max, max, bitmap, log) && 0 <= kept < max && |cut| == kept - (max - |mem|)
    requires entries != [] && Consecutive(entries) && entries[0].index == kept + 1
    requires FillsExactly(max, |mem|, kept, kept + |entries|) && ArePlaced(cut, bitmap, max, entries, mem', bitmap')
    requires kept <= last' <= max && (last' < max ==> mem'[last' - (max - |mem'|)].None?)
    ensures WindowInv(mem', last', max, bitmap', Overlay(Kept(log, kept), entries))
  {
    var log' := Overlay(Kept(log, kept), entries);
    forall i ensures i in log' <==> 1 <= i <= max
      ensures i in log' ==> log'[i].index == i
      ensures kept < i <= max ==> Slot(log', i) == Some(entries[i - kept - 1])
    {
      OverlaySlot(Kept(log, kept), entries, i);
      assert i in log' <==> Slot(log', i).Some?;
      assert i in log' ==> Slot(log', i) == Some(log'[i]);
    }
    forall b | 0 <= b < WINDOW_BITS ensures bitmap'[b] <==> max - b in log' {
      assert bitmap[b] <==> max - b in log;
    }
    forall k | 0 <= k < |mem'| ensures mem'[k] == Slot(log', max - |mem'| + 1 + k) {
      assert mem'[k] == PlacedSlot(cut[k], max - |cut| + 1 + k, entries);
    }
  }

  lemma {:induction false} OnlyFilled(mem: seq<Option<LogEntry>>, max: int, bitmap: Word, log: Log, kept: int,
                                      entries: seq<LogEntry>, cut: seq<Option<LogEntry>>,
                                      mem': seq<Option<LogEntry>>, bitmap': Word, last': int)
    requires WindowInv(mem, max, max, bitmap, log) && 0 <= kept < max
    requires max - |mem| < kept && |cut| == kept - (max - |mem|) && cut == mem[..|cut|]
    requires entries != [] && Consecutive(entries) && entries[0].index == kept + 1 && kept + |entries| <= max
    requires max - |cut| <= kept && max - kept <= WINDOW_BITS && ArePlaced(cut, bitmap, max, entries, mem', bitmap')
    requires WindowInv(mem', last', max, bitmap', Overlay(Kept(log, kept), entries))
    ensures FillsExactly(max, |mem|, kept, kept + |entries|)
  {
    var log' := Overlay(Kept(log, kept), entries);
    OverlaySlot(Kept(log, kept), entries, max);
    assert Slot(log', max).Some?;
    assert kept + |entries| == max;
    assert mem'[0] == Slot(log', max - |mem'| + 1 + 0);
    assert mem'[0] == PlacedSlot(cut[0], max - |cut| + 1 + 0, entries);
    assert mem[0] == Slot(log, max - |mem| + 1 + 0);
  }

  /**
   * A conflict after `kept` that is resolved, on plain values. It ends in a check if what is dropped was applied, in an
   * empty slot that is followed if anything was received out of order, and out of range unless at least as many
   * entries stay in memory as are dropped. Otherwise memory stands for the log asked for exactly if it is as many, and
   * the new entries replace all that were dropped.
   */
  method Resolve(mem: seq<Option<LogEntry>>, last: int, max: int, bitmap: Word, kept: int, entries: seq<LogEntry>,
                 applied: int, ghost log: Log)
    returns (mem': seq<Option<LogEntry>>, last': int, bitmap': Word, ending: Ending)
    requires WindowInv(mem, last, max, bitmap, log) && 0 <= kept < last
    requires entries != [] && Consecutive(entries) && entries[0].index == kept + 1 && kept + |entries| <= max
    ensures ending == Aborted <==> kept < applied
    ensures |bitmap'| == |bitmap|
    ensures ending == NullSlot <==> applied <= kept && last < max
    ensures ending == OutOfRange <==>
            applied <= kept && last == max && (kept - (max - |mem|) < max - kept || max - kept > WINDOW_BITS)
    ensures ending == Done ==>
              (WindowInv(mem', last', max, bitmap', Overlay(Kept(log, kept), entries)) <==>
               FillsExactly(max, |mem|, kept, kept + |entries|))
  {
    mem', last', bitmap' := mem, last, bitmap;
    if kept < applied {
      return mem', last', bitmap', Aborted;
    }
    var cut, nullSlot := TruncateMemory(mem, kept);
    CutWindow(mem, last, max, bitmap, log, kept, cut);
    if nullSlot {
      return cut, last', bitmap', NullSlot;
    }
    var inRange;
    mem', bitmap', inRange := PlaceBlindly(cut, max, bitmap, entries);
    if !inRange {
      return mem', kept, bitmap', OutOfRange;
    }
    last' := MoveLast(mem', kept, max);
    ending := Done;
    if FillsExactly(max, |mem|, kept, kept + |entries|) {
      FilledWindow(mem, max, bitmap, log, kept, entries, cut, mem', bitmap', last');
    } else if WindowInv(mem', last', max, bitmap', Overlay(Kept(log, kept), entries)) {
      OnlyFilled(mem, max, bitmap, log, kept, entries, cut, mem', bitmap', last');
    }
  }
}
