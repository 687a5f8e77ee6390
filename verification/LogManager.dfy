/** Appending to the log, in or out of order, and testing dependency words against what was received. */
module LogManagers {
  import opened Core
  import opened Bits
  import opened LogWindows
  import opened Conflicts

  /**
   * What becomes of a request: refused for a gap, already applied, written, or in conflict with the contiguous log,
   * which is then truncated after `kept` before the entries are written.
   */
  datatype Outcome =
    | Gap
    | Stale
    | Written(entries: seq<LogEntry>)
    | Conflict(kept: int, entries: seq<LogEntry>)

  /** The leader's own entries come without an index and get the next ones. */
  ghost function Numbered(entries: seq<LogEntry>, first: int): (r: seq<LogEntry>)
    ensures |r| == |entries|
    ensures forall k :: 0 <= k < |r| ==> r[k] == entries[k].(index := first + k)
  {
    if entries == [] then [] else
      var n := |entries| - 1;
      Numbered(entries[..n], first) + [entries[n].(index := first + n)]
  }

  /** Out of order, an absent entry is no mismatch. */
  ghost predicate Mismatch(ooRep: bool, log: Log, e: LogEntry) {
    var term := TermAt(log, e.index);
    term != e.term && (ooRep ==> term != 0)
  }

  /** `c` is the position of the first mismatch, or the end. */
  ghost predicate FirstMismatch(ooRep: bool, log: Log, entries: seq<LogEntry>, c: nat) {
    && c <= |entries|
    && (forall k :: 0 <= k < c ==> !Mismatch(ooRep, log, entries[k]))
    && (c < |entries| ==> Mismatch(ooRep, log, entries[c]))
  }

  /** What a follower does with consecutive entries, told without deque, bitmap or storage. */
  ghost predicate IsOutcome(ooRep: bool, entries: seq<LogEntry>, log: Log, last: int, max: int, applied: int,
                            r: Outcome)
    requires entries != []
  {
    var front, back := entries[0].index, entries[|entries| - 1].index;
    if front == 0 then r == Written(Numbered(entries, last + 1))
    else if !ooRep && front > last + 1 then r == Gap
    else if back <= applied then r == Stale
    else if back > max then r == Written(entries)
    else exists c: nat :: FirstMismatch(ooRep, log, entries, c) && r == Resolved(ooRep, entries, last, c)
  }

  /** What is done about a first mismatch at `c`, or about none. */
  function Resolved(ooRep: bool, entries: seq<LogEntry>, last: int, c: nat): (r: Outcome)
    requires c <= |entries|
  {
    if c < |entries| && entries[c].index <= last then Conflict(entries[c].index - 1, entries[c..])
    else Written(if ooRep && c == |entries| then entries else entries[c..])
  }

  ghost predicate IsRequest(entries: seq<LogEntry>) {
    if entries != [] && entries[0].index == 0 then forall k :: 0 <= k < |entries| ==> entries[k].index == 0
    else Consecutive(entries) && (entries != [] ==> 0 < entries[0].index)
  }

  /** Deque and bitmap reach back to the first of the entries to be written. */
  ghost predicate HasRoom(entries: seq<LogEntry>, max: int, size: nat) {
    entries != [] ==>
      var front, back := entries[0].index, entries[0].index + |entries| - 1;
      max - size < front && back - front < 1024 && max - front < 1024
  }

  /** What is written lands inside deque and bitmap, or resolves a conflict that fills what it drops. */
  ghost predicate IsSound(r: Outcome, last: int, max: int, size: nat, applied: int) {
    match r
    case Written(entries) => HasRoom(entries, max, size)
    case Conflict(kept, entries) =>
      applied <= kept && last == max && FillsExactly(max, size, kept, kept + |entries|)
    case _ => true
  }

  /** The log that a request asks for. */
  ghost function Target(log: Log, r: Outcome): (r': Log) {
    match r
    case Written(entries) => Overlay(log, entries)
    case Conflict(kept, entries) => Overlay(Kept(log, kept), entries)
    case _ => log
  }

  /** The storage knows every entry that has left memory, and nothing that was never received. */
  ghost predicate StorageAgrees(stored: map<int, int>, log: Log, firstInMemory: int) {
    && (forall i :: i in stored ==> i in log && stored[i] == log[i].term)
    && (forall i :: i in log && i < firstInMemory ==> i in stored)
  }

  ghost predicate AllReceived(entries: seq<LogEntry>, log: Log) {
    forall k :: 0 <= k < |entries| ==> entries[k].index in log
  }

  /**
   * An out-of-order request that overlaps the log leaves all its entries received exactly when it meets no
   * mismatch, or already had every entry before the mismatch: those are dropped as duplicates unseen.
   */
  lemma AllReceivedIff(entries: seq<LogEntry>, log: Log, c: nat)
    requires Consecutive(entries) && FirstMismatch(true, log, entries, c)
    ensures AllReceived(entries, Overlay(log, if c == |entries| then entries else entries[c..])) <==>
            c == |entries| || AllReceived(entries[..c], log)
  {
    var written := if c == |entries| then entries else entries[c..];
    assert Consecutive(written);
    var log' := Overlay(log, written);
    forall k | 0 <= k < |entries|
      ensures entries[k].index in log' <==> c == |entries| || c <= k || entries[k].index in log
    {
      OverlaySlot(log, written, entries[k].index);
      assert entries[k].index in log' <==> Slot(log', entries[k].index).Some?;
    }
    assert forall k :: 0 <= k < c ==> entries[..c][k] == entries[k];
  }

  /** A request of one entry, as the replicator sends them, never loses it. */
  lemma SingleIsReceived(entries: seq<LogEntry>, log: Log, c: nat)
    requires Consecutive(entries) && FirstMismatch(true, log, entries, c) && |entries| <= 1
    ensures AllReceived(entries, Overlay(log, if c == |entries| then entries else entries[c..]))
  {
    AllReceivedIff(entries, log, c);
  }

  /** Entry 2 is absent and entry 3 is there from another term: of a request for both, only entry 3 is kept. */
  lemma MismatchDropsAbsent(one: LogEntry, three: LogEntry, entries: seq<LogEntry>)
    requires one.index == 1 && three.index == 3 && three.term > 0 && |entries| == 2
    requires entries[0].index == 2 && entries[1].index == 3 && entries[1].term != three.term
    ensures var log: Log := map[1 := one, 3 := three];
            && IsOutcome(true, entries, log, 1, 3, 0, Written(entries[1..]))
            && !AllReceived(entries, Overlay(log, entries[1..]))
  {
    var log: Log := map[1 := one, 3 := three];
    assert FirstMismatch(true, log, entries, 1);
    assert Resolved(true, entries, 1, 1) == Written(entries[1..]);
    OverlaySlot(log, entries[1..], 2);
    assert entries[0].index in Overlay(log, entries[1..]) <==> Slot(Overlay(log, entries[1..]), 2).Some?;
  }

  /** Every index that the word of entry `index` names was received, and is not beyond the bitmap's reach. */
  ghost predicate Covered(word: Word, index: int, max: int, received: set<int>) {
    forall b :: 0 <= b < |word| && word[b] ==> index - b in received && b + max - index < WINDOW_BITS
  }

  /** An entry too far behind the greatest index passes unseen. */
  ghost predicate Passes(word: Word, index: int, max: int, lookBack: nat, received: set<int>) {
    || (index <= max && max - index + lookBack >= WINDOW_BITS)
    || Covered(word, index, max, received)
  }

  lemma AheadCovers(word: Word, index: int, max: int, bitmap: Word, received: set<int>)
    requires |word| == WORD_BITS && BitsOf(bitmap, max, received) && index >= max
    ensures Covers(ShiftLeft(bitmap, index - max), Widen(word)) <==> Covered(word, index, max, received)
  {
    var shifted, wide := ShiftLeft(bitmap, index - max), Widen(word);
    forall b | 0 <= b < WORD_BITS ensures shifted[b] <==> index - b in received {
      var c := b - (index - max);
      assert c >= 0 ==> (bitmap[c] <==> max - c in received);
    }
    assert forall b :: 0 <= b < WORD_BITS ==> word[b] == wide[b];
    assert Covered(word, index, max, received) ==> forall b :: 0 <= b < WINDOW_BITS && wide[b] ==> shifted[b];
    assert Covers(shifted, wide) ==> forall b :: 0 <= b < |word| && word[b] ==> wide[b] && shifted[b];
  }

  lemma BehindCovers(word: Word, index: int, max: int, bitmap: Word, received: set<int>)
    requires |word| == WORD_BITS && BitsOf(bitmap, max, received) && index <= max
    ensures Covers(ShiftRight(bitmap, max - index), Widen(word)) <==> Covered(word, index, max, received)
  {
    var gap := max - index;
    var shifted, wide := ShiftRight(bitmap, gap), Widen(word);
    forall b | 0 <= b < WORD_BITS ensures shifted[b] <==> b + gap < WINDOW_BITS && index - b in received {
      assert b + gap < WINDOW_BITS ==> (bitmap[b + gap] <==> max - (b + gap) in received);
    }
    assert forall b :: 0 <= b < WORD_BITS ==> word[b] == wide[b];
    assert Covered(word, index, max, received) ==> forall b :: 0 <= b < WINDOW_BITS && wide[b] ==> shifted[b];
    assert Covers(shifted, wide) ==> forall b :: 0 <= b < |word| && word[b] ==> wide[b] && shifted[b];
  }

  /** The shifts and masks decide what the received indexes say. */
  method TestWord(word: Word, index: int, max: int, bitmap: Word, lookBack: nat, ghost received: set<int>)
    returns (ok: bool)
    requires |word| == WORD_BITS && BitsOf(bitmap, max, received)
    ensures ok <==> Passes(word, index, max, lookBack, received)
  {
    if word == Zeros(WORD_BITS) {
      return true;
    }
    if index > max {
      AheadCovers(word, index, max, bitmap, received);
      return Covers(ShiftLeft(bitmap, index - max), Widen(word));
    }
    var gap := max - index;
    if gap + lookBack >= WINDOW_BITS {
      return true;
    }
    BehindCovers(word, index, max, bitmap, received);
    return Covers(ShiftRight(bitmap, gap), Widen(word));
  }

  /** `last` is the contiguous index, or has already been moved over entries that follow it. */
  ghost predicate CanWrite(entries: seq<LogEntry>, lastLogIndex: int, last: int) {
    && Consecutive(entries) && (entries != [] ==> 1 <= entries[0].index)
    && (|| last == lastLogIndex
        || (entries != [] && entries[0].index == lastLogIndex + 1 && last == lastLogIndex + |entries|))
  }

  lemma OutcomeWrites(ooRep: bool, entries: seq<LogEntry>, log: Log, last: int, max: int, applied: int, r: Outcome)
    requires entries != [] && IsRequest(entries) && r.Written? && 0 <= last
    requires IsOutcome(ooRep, entries, log, last, max, applied, r)
    ensures CanWrite(r.entries, last, if entries[0].index == 0 then last + |entries| else last)
  {
  }

  /** Entries in place of some of those after `kept` in the contiguous log, and not beyond the greatest index. */
  ghost predicate IsReplacement(r: Outcome, last: int, max: int)
    requires r.Conflict?
  {
    && 0 <= r.kept < last && r.entries != [] && Consecutive(r.entries) && r.entries[0].index == r.kept + 1
    && r.kept + |r.entries| <= max
  }

  lemma OutcomeConflicts(ooRep: bool, entries: seq<LogEntry>, log: Log, last: int, max: int, applied: int, r: Outcome)
    requires entries != [] && IsRequest(entries) && r.Conflict?
    requires IsOutcome(ooRep, entries, log, last, max, applied, r)
    ensures IsReplacement(r, last, max)
  {
  }

  /** A conflict that fills what it drops leaves the log as if its entries had just been written over it. */
  lemma ConflictIsOverlay(log: Log, last: int, max: int, r: Outcome)
    requires Bounds(last, max, log.Keys) && r.Conflict? && r.entries != [] && Consecutive(r.entries)
    requires r.entries[0].index == r.kept + 1 && r.kept + |r.entries| == max
    ensures Target(log, r) == Overlay(log, r.entries)
  {
    var a, b := Target(log, r), Overlay(log, r.entries);
    forall i ensures Slot(a, i) == Slot(b, i) {
      OverlaySlot(Kept(log, r.kept), r.entries, i);
      OverlaySlot(log, r.entries, i);
      assert i !in log ==> Slot(log, i) == None;
    }
    SameSlots(a, b);
  }

  /** No entry up to `applied` has another term than before. */
  ghost predicate TermsKept(log: Log, log': Log, applied: int) {
    forall i :: i <= applied ==> TermAt(log', i) == TermAt(log, i)
  }

  ghost predicate Agree(log: Log, entries: seq<LogEntry>, applied: int) {
    forall k :: 0 <= k < |entries| && entries[k].index <= applied ==> entries[k].term == TermAt(log, entries[k].index)
  }

  lemma OverlayTerm(log: Log, entries: seq<LogEntry>, i: int)
    requires Consecutive(entries)
    ensures TermAt(Overlay(log, entries), i) ==
            if entries != [] && entries[0].index <= i < entries[0].index + |entries|
            then entries[i - entries[0].index].term else TermAt(log, i)
  {
    var log' := Overlay(log, entries);
    OverlaySlot(log, entries, i);
    assert Slot(log', i) == if i in log' then Some(log'[i]) else None;
    assert Slot(log, i) == if i in log then Some(log[i]) else None;
  }

  lemma OverlayTerms(log: Log, entries: seq<LogEntry>, applied: int)
    requires Consecutive(entries)
    ensures TermsKept(log, Overlay(log, entries), applied) <==> Agree(log, entries, applied)
  {
    if TermsKept(log, Overlay(log, entries), applied) {
      forall k | 0 <= k < |entries| && entries[k].index <= applied
        ensures entries[k].term == TermAt(log, entries[k].index)
      {
        OverlayTerm(log, entries, entries[k].index);
      }
    }
    if Agree(log, entries, applied) {
      forall i | i <= applied ensures TermAt(Overlay(log, entries), i) == TermAt(log, i) {
        OverlayTerm(log, entries, i);
        if entries != [] && entries[0].index <= i < entries[0].index + |entries| {
          assert entries[i - entries[0].index].index == i;
        }
      }
    }
  }

  /**
   * What was applied keeps its terms, unless a request reaches beyond the greatest index: such a request is not
   * compared with what it overlaps.
   */
  lemma AppliedTermsKeptIff(ooRep: bool, entries: seq<LogEntry>, log: Log, last: int, max: int, applied: int,
                            r: Outcome)
    requires Bounds(last, max, log.Keys) && applied <= last && (forall i :: i in log ==> log[i].term > 0)
    requires entries != [] && Consecutive(entries) && 0 < entries[0].index
    requires IsOutcome(ooRep, entries, log, last, max, applied, r) && (r.Conflict? ==> applied <= r.kept)
    ensures TermsKept(log, Target(log, r), applied) <==>
            entries[0].index + |entries| - 1 <= max || Agree(log, entries, applied)
  {
    if entries[0].index + |entries| - 1 > max {
      if r.Written? {
        OverlayTerms(log, entries, applied);
      }
    } else {
      match r {
        case Written(es) =>
          OverlayTerms(log, es, applied);
          NothingAppliedDiffers(ooRep, entries, log, last, max, applied, r);
        case Conflict(kept, es) =>
          OutcomeConflicts(ooRep, entries, log, last, max, applied, r);
          OverlayTerms(Kept(log, kept), es, applied);
        case _ =>
      }
    }
  }

  lemma NothingAppliedDiffers(ooRep: bool, entries: seq<LogEntry>, log: Log, last: int, max: int, applied: int,
                              r: Outcome)
    requires Bounds(last, max, log.Keys) && applied <= last && (forall i :: i in log ==> log[i].term > 0)
    requires entries != [] && Consecutive(entries) && 0 < entries[0].index && entries[0].index + |entries| - 1 <= max
    requires IsOutcome(ooRep, entries, log, last, max, applied, r) && r.Written?
    ensures Agree(log, r.entries, applied)
  {
    var c: nat :| FirstMismatch(ooRep, log, entries, c) && r == Resolved(ooRep, entries, last, c);
    forall k | 0 <= k < |r.entries| && r.entries[k].index <= applied
      ensures r.entries[k].term == TermAt(log, r.entries[k].index)
    {
      var n := |entries| - |r.entries| + k;
      assert r.entries[k] == entries[n] && entries[n].index in log;
      assert !Mismatch(ooRep, log, entries[n]);
    }
  }

  /** A request for nothing but what was applied changes nothing, whatever its entries are. */
  lemma AppliedRequestIsIgnored(ooRep: bool, entries: seq<LogEntry>, log: Log, last: int, max: int, applied: int,
                                r: Outcome)
    requires entries != [] && Consecutive(entries) && 0 < entries[0].index
    requires IsOutcome(ooRep, entries, log, last, max, applied, r) && entries[|entries| - 1].index <= applied
    ensures Target(log, r) == log && (r.Stale? || r.Gap?)
  {
  }

  /** Entry 2 was applied, and a request for entries 2 and 3 of another term is written over it. */
  lemma OverlapUnchecked(one: LogEntry, two: LogEntry, entries: seq<LogEntry>)
    requires one.index == 1 && two.index == 2 && |entries| == 2 && entries[0].index == 2 && entries[1].index == 3
    requires entries[0].term != two.term
    ensures var log: Log := map[1 := one, 2 := two];
            IsOutcome(true, entries, log, 2, 2, 2, Written(entries)) && !TermsKept(log, Overlay(log, entries), 2)
  {
    var log: Log := map[1 := one, 2 := two];
    OverlayTerms(log, entries, 2);
    assert entries[0].index <= 2 && TermAt(log, 2) == two.term;
  }

  /** Everything up to `n` and nothing else. */
  ghost predicate IsPrefix(log: Log, n: int) {
    0 <= n && forall i :: i in log <==> 1 <= i <= n
  }

  /** Consecutive entries that leave no gap after the log extend it, or lie inside it. */
  lemma PrefixAfter(log: Log, n: int, entries: seq<LogEntry>)
    requires IsPrefix(log, n) && Consecutive(entries) && (entries != [] ==> 1 <= entries[0].index <= n + 1)
    ensures IsPrefix(Overlay(log, entries), if entries != [] && n < entries[0].index + |entries| - 1
                                            then entries[0].index + |entries| - 1 else n)
  {
    var log' := Overlay(log, entries);
    forall i
      ensures i in log' <==> i in log || (entries != [] && entries[0].index <= i < entries[0].index + |entries|)
    {
      OverlaySlot(log, entries, i);
      assert i in log' <==> Slot(log', i).Some?;
      assert i in log <==> Slot(log, i).Some?;
    }
  }

  /** Where requests are taken in order only, a request never leaves a gap: one that would is refused. */
  lemma InOrderStep(entries: seq<LogEntry>, log: Log, n: int, applied: int, r: Outcome) returns (n': int)
    requires IsPrefix(log, n) && entries != [] && IsRequest(entries)
    requires IsOutcome(false, entries, log, n, n, applied, r)
    ensures IsPrefix(Target(log, r), n')
    ensures entries[0].index > n + 1 ==> r == Gap && n' == n
  {
    n' := n;
    match r {
      case Written(es) =>
        OutcomeWrites(false, entries, log, n, n, applied, r);
        PrefixAfter(log, n, es);
        n' := if es != [] && n < es[0].index + |es| - 1 then es[0].index + |es| - 1 else n;
      case Conflict(kept, es) =>
        OutcomeConflicts(false, entries, log, n, n, applied, r);
        assert IsPrefix(Kept(log, kept), kept);
        PrefixAfter(Kept(log, kept), kept, es);
        n' := kept + |es|;
      case _ =>
    }
  }

  /** A log as append_entries leaves it, by AppendEntries' contract. */
  datatype Appended = Appended(log: Log, last: int, max: int)

  ghost predicate IsInOrder(s: Appended, entries: seq<LogEntry>, applied: int, t: Appended) {
    && entries != [] && IsRequest(entries) && Bounds(t.last, t.max, t.log.Keys)
    && exists r :: IsOutcome(false, entries, s.log, s.last, s.max, applied, r) && t.log == Target(s.log, r)
  }

  /** In every run of in-order requests from an empty log the log is contiguous. */
  lemma {:induction false} InOrderRun(states: seq<Appended>, requests: seq<seq<LogEntry>>, applied: seq<int>, k: nat)
    requires |states| == |requests| + 1 == |applied| + 1 && states[0] == Appended(map[], 0, 0) && k < |states|
    requires forall j :: 0 <= j < |requests| ==> IsInOrder(states[j], requests[j], applied[j], states[j + 1])
    ensures states[k].last == states[k].max && IsPrefix(states[k].log, states[k].last)
  {
    if k == 0 {
    } else {
      InOrderRun(states, requests, applied, k - 1);
      var s, t := states[k - 1], states[k];
      assert IsInOrder(s, requests[k - 1], applied[k - 1], t);
      var r :| IsOutcome(false, requests[k - 1], s.log, s.last, s.max, applied[k - 1], r) && t.log == Target(s.log, r);
      var n := InOrderStep(requests[k - 1], s.log, s.last, applied[k - 1], r);
      BoundsUnique(t.log.Keys, t.last, t.max, n, n);
    }
  }

  method WriteWindow(mem: seq<Option<LogEntry>>, lastLogIndex: int, max: int, bitmap: Word,
                     entries: seq<LogEntry>, last: int, ghost log: Log)
    returns (mem': seq<Option<LogEntry>>, last': int, max': int, bitmap': Word, inRange: bool)
    requires WindowInv(mem, lastLogIndex, max, bitmap, log) && CanWrite(entries, lastLogIndex, last)
    ensures max' - |mem'| == max - |mem| && |bitmap'| == |bitmap|
    ensures inRange <==> HavePlaces(entries, max', |mem'|, |bitmap'|)
    ensures inRange <==> HasRoom(entries, max, |mem|)
    ensures inRange ==> WindowInv(mem', last', max', bitmap', Overlay(log, entries))
    ensures inRange ==> Landed(mem', max', bitmap', entries)
  {
    mem', last', max', bitmap', inRange := mem, last, max, bitmap, true;
    if entries == [] {
      return;
    }
    var back := entries[|entries| - 1].index;
    if max < back {
      ghost var pushed;
      mem', max', bitmap', pushed := GrowTo(mem, max, bitmap, entries, back, log);
      OverlayTwice(log, entries, pushed);
      mem', bitmap', inRange := PlaceAll(mem', max', bitmap', entries, Overlay(log, entries[..pushed]));
    } else {
      mem', bitmap', inRange := PlaceAll(mem, max, bitmap, entries, log);
    }
    RoomIsPlaces(entries, max, max', |mem|, |mem'|);
    if inRange {
      WrittenBounds(log, entries, lastLogIndex, max, last);
      last' := Advance(mem', last, max', bitmap', Overlay(log, entries));
    }
  }

  /** It is the first of consecutive entries that decides whether there is room. */
  lemma RoomIsPlaces(entries: seq<LogEntry>, max: int, max': int, size: nat, size': nat)
    requires entries != [] && Consecutive(entries) && max' - size' == max - size
    requires max' == if max < entries[|entries| - 1].index then entries[|entries| - 1].index else max
    ensures HasRoom(entries, max, size) <==> HavePlaces(entries, max', size', WINDOW_BITS)
  {
    if HavePlaces(entries, max', size', WINDOW_BITS) {
      assert HasPlace(entries[0].index, max', size', WINDOW_BITS);
    }
  }

  lemma WrittenBounds(log: Log, entries: seq<LogEntry>, lastLogIndex: int, max: int, last: int)
    requires Bounds(lastLogIndex, max, log.Keys) && CanWrite(entries, lastLogIndex, last) && entries != []
    ensures forall i :: 1 <= i <= last ==> i in Overlay(log, entries)
    ensures max in log ==> max in Overlay(log, entries)
    ensures entries[|entries| - 1].index in Overlay(log, entries)
  {
    var log' := Overlay(log, entries);
    forall i | 1 <= i <= last || i == max ensures (1 <= i <= last || i in log) ==> i in log' {
      OverlaySlot(log, entries, i);
      assert Slot(log, i).Some? <==> i in log;
      assert Slot(log', i).Some? <==> i in log';
    }
    OverlaySlot(log, entries, entries[|entries| - 1].index);
    assert Slot(log', entries[|entries| - 1].index).Some?;
  }

  method AssignIndexes(entries: seq<LogEntry>, first: int) returns (own: seq<LogEntry>)
    ensures own == Numbered(entries, first)
  {
    own := [];
    for k := 0 to |entries|
      invariant own == Numbered(entries, first)[..k]
    {
      own := own + [entries[k].(index := first + k)];
    }
  }

  const BATCH := 256

  predicate Clearable(slot: Option<LogEntry>, id: LogId) {
    slot.Some? && !IdGreater(LogId(slot.value.term, slot.value.index), id)
  }

  /** By term first and by index then; an empty slot is never cleared. */
  lemma ClearableIff(slot: Option<LogEntry>, id: LogId)
    ensures Clearable(slot, id) <==>
            slot.Some? && (slot.value.term < id.term || (slot.value.term == id.term && slot.value.index <= id.index))
  {
  }

  /** Exactly the first `n` slots go: the next one, if any, is empty or greater. */
  ghost predicate Cleared(mem: seq<Option<LogEntry>>, id: LogId, n: nat) {
    && n <= |mem| && (forall k :: 0 <= k < n ==> Clearable(mem[k], id))
    && (n < |mem| ==> !Clearable(mem[n], id))
  }

  /** One round under the mutex. */
  method ClearBatch(mem: seq<Option<LogEntry>>, id: LogId) returns (n: nat)
    ensures n <= |mem| && n <= BATCH && (forall k :: 0 <= k < n ==> Clearable(mem[k], id))
    ensures n < BATCH ==> Cleared(mem, id, n)
  {
    n := 0;
    while n < |mem| && n < BATCH
      invariant n <= |mem| && n <= BATCH
      invariant forall k :: 0 <= k < n ==> Clearable(mem[k], id)
    {
      if !Clearable(mem[n], id) {
        break;
      }
      n := n + 1;
    }
  }

  /** An empty slot is never dropped, so the deque still reaches the end of the contiguous log. */
  lemma ClearedWindow(mem: seq<Option<LogEntry>>, last: int, max: int, bitmap: Word, log: Log, id: LogId, n: nat)
    requires WindowInv(mem, last, max, bitmap, log)
    requires n <= |mem| && forall k :: 0 <= k < n ==> Clearable(mem[k], id)
    ensures WindowInv(mem[n..], last, max, bitmap, log)
  {
    var mem' := mem[n..];
    forall k | 0 <= k < |mem'| ensures mem'[k] == Slot(log, max - |mem'| + 1 + k) {
      assert mem[k + n] == Slot(log, max - |mem| + 1 + (k + n));
    }
    var at := last + 1 - (max - |mem| + 1);
    assert at < |mem| ==> mem[at] == Slot(log, max - |mem| + 1 + at);
  }

  class LogManager {
    const firstLogIndex := 1
    const dependencyLookBack: nat
    var logsInMemory: seq<Option<LogEntry>>
    var lastLogIndex: int
    var maxLogIndex: int
    var dependencyBitmap: Word
    var appliedId: LogId
    ghost var log: Log

    ghost predicate Valid()
      reads this
    {
      WindowInv(logsInMemory, lastLogIndex, maxLogIndex, dependencyBitmap, log)
    }

    constructor (lookBack: nat)
      ensures Valid() && log == map[] && dependencyLookBack == lookBack && logsInMemory == []
      ensures appliedId == LogId(0, 0)
    {
      dependencyLookBack := lookBack;
      logsInMemory, lastLogIndex, maxLogIndex, dependencyBitmap := [], 0, 0, Zeros(WINDOW_BITS);
      appliedId, log := LogId(0, 0), map[];
    }

    method GetEntryFromMemory(index: int) returns (entry: Option<LogEntry>)
      requires Valid()
      ensures entry == if maxLogIndex - |logsInMemory| < index then Slot(log, index) else None
    {
      entry := None;
      if logsInMemory != [] {
        EndsInEntry(logsInMemory, lastLogIndex, maxLogIndex, dependencyBitmap, log);
        var back := logsInMemory[|logsInMemory| - 1].value;
        var firstIndex := back.index - |logsInMemory| + 1;
        if firstIndex <= index && index <= back.index {
          return logsInMemory[index - firstIndex];
        }
      }
    }

    /** The term of an entry in memory or on disk, 0 when there is none. */
    method UnsafeGetTerm(index: int, stored: map<int, int>) returns (term: int)
      requires Valid() && StorageAgrees(stored, log, maxLogIndex - |logsInMemory| + 1)
      ensures term == TermAt(log, index)
    {
      if index == 0 {
        return 0;
      }
      if index > maxLogIndex || index < firstLogIndex {
        return 0;
      }
      var entry := GetEntryFromMemory(index);
      if entry.Some? {
        return entry.value.term;
      }
      return if index in stored then stored[index] else 0;
    }

    method CheckDependency(index: int, dependency: Word) returns (ok: bool)
      requires Valid() && |dependency| == WORD_BITS
      ensures ok <==> Passes(dependency, index, maxLogIndex, dependencyLookBack, log.Keys)
    {
      ok := TestWord(dependency, index, maxLogIndex, dependencyBitmap, dependencyLookBack, log.Keys);
    }

    /**
     * One round of clear_memory_logs, between taking the mutex and letting go of it: entries not greater than `id`
     * leave memory from the front, at most a batch of them. Where there is no further round, none is left at the front.
     */
    method ClearNextBatch(id: LogId) returns (more: bool)
      requires Valid()
      modifies this`logsInMemory
      ensures Valid()
      ensures exists n :: 0 <= n <= |old(logsInMemory)| && logsInMemory == old(logsInMemory)[n..] && n <= 256 &&
                (more <==> n == 256) && forall k :: 0 <= k < n ==> Clearable(old(logsInMemory)[k], id)
      ensures !more ==> logsInMemory == [] || !Clearable(logsInMemory[0], id)
    {
      var n := ClearBatch(logsInMemory, id);
      ClearedWindow(logsInMemory, lastLogIndex, maxLogIndex, dependencyBitmap, log, id, n);
      logsInMemory := logsInMemory[n..];
      more := n == BATCH;
    }

    /** All rounds with nothing in between: exactly the leading entries not greater than `id` leave. */
    method ClearMemoryLogs(id: LogId)
      requires Valid()
      modifies this`logsInMemory
      ensures Valid()
      ensures exists n :: 0 <= n <= |old(logsInMemory)| && Cleared(old(logsInMemory), id, n) &&
                logsInMemory == old(logsInMemory)[n..]
    {
      var n := 0;
      assert logsInMemory == old(logsInMemory)[n..];
      while true
        invariant Valid() && n <= |old(logsInMemory)| && logsInMemory == old(logsInMemory)[n..]
        invariant forall k :: 0 <= k < n ==> Clearable(old(logsInMemory)[k], id)
        decreases |logsInMemory|
      {
        var batch := ClearBatch(logsInMemory, id);
        ClearedWindow(logsInMemory, lastLogIndex, maxLogIndex, dependencyBitmap, log, id, batch);
        logsInMemory := logsInMemory[batch..];
        n := n + batch;
        if batch != BATCH {
          break;
        }
      }
    }

    /**
     * Appends a request. It comes to an end with memory standing for the log asked for, exactly if what is written
     * lands inside deque and bitmap and a conflict, if there is one, fills exactly what it drops.
     */
    method AppendEntries(entries: seq<LogEntry>, ooRep: bool, stored: map<int, int>)
      returns (r: Outcome, ending: Ending)
      requires Valid() && IsRequest(entries)
      requires StorageAgrees(stored, log, maxLogIndex - |logsInMemory| + 1)
      modifies this`logsInMemory, this`lastLogIndex, this`maxLogIndex, this`dependencyBitmap, this`log
      ensures if entries == [] then r == Written([])
              else IsOutcome(ooRep, entries, old(log), old(lastLogIndex), old(maxLogIndex), appliedId.index, r)
      ensures log == Target(old(log), r) && |dependencyBitmap| == 1024
      ensures ending == Done && Valid() <==>
              IsSound(r, old(lastLogIndex), old(maxLogIndex), |old(logsInMemory)|, appliedId.index)
      ensures !r.Conflict? ==> maxLogIndex - |logsInMemory| == old(maxLogIndex) - |old(logsInMemory)|
      ensures r.Written? ==>
                (ending == Done <==> HavePlaces(r.entries, maxLogIndex, |logsInMemory|, |dependencyBitmap|))
      ensures r.Written? && ending == Done ==> Landed(logsInMemory, maxLogIndex, dependencyBitmap, r.entries)
    {
      if entries == [] {
        return Written([]), Done;
      }
      r := CheckAndResolveConflict(entries, ooRep, stored);
      if r.Written? {
        OutcomeWrites(ooRep, entries, log, lastLogIndex, maxLogIndex, appliedId.index, r);
      } else if r.Conflict? {
        OutcomeConflicts(ooRep, entries, log, lastLogIndex, maxLogIndex, appliedId.index, r);
      }
      ending := CarryOut(r, if entries[0].index == 0 then lastLogIndex + |entries| else lastLogIndex);
    }

    method CarryOut(r: Outcome, last: int) returns (ending: Ending)
      requires Valid() && (r.Written? ==> CanWrite(r.entries, lastLogIndex, last))
      requires r.Conflict? ==> IsReplacement(r, lastLogIndex, maxLogIndex)
      modifies this`logsInMemory, this`lastLogIndex, this`maxLogIndex, this`dependencyBitmap, this`log
      ensures log == Target(old(log), r) && |dependencyBitmap| == WINDOW_BITS
      ensures ending == Done && Valid() <==>
              IsSound(r, old(lastLogIndex), old(maxLogIndex), |old(logsInMemory)|, appliedId.index)
      ensures !r.Conflict? ==> maxLogIndex - |logsInMemory| == old(maxLogIndex) - |old(logsInMemory)|
      ensures r.Written? ==>
                (ending == Done <==> HavePlaces(r.entries, maxLogIndex, |logsInMemory|, |dependencyBitmap|))
      ensures r.Written? && ending == Done ==> Landed(logsInMemory, maxLogIndex, dependencyBitmap, r.entries)
    {
      ending := Done;
      if r.Written? {
        ending := Write(r.entries, last);
      } else if r.Conflict? {
        ending := ReplaceSuffix(r);
      }
    }

    /** The suffix in conflict is truncated and the entries placed. */
    method ReplaceSuffix(r: Outcome) returns (ending: Ending)
      requires Valid() && r.Conflict? && IsReplacement(r, lastLogIndex, maxLogIndex)
      modifies this`logsInMemory, this`lastLogIndex, this`dependencyBitmap, this`log
      ensures log == Target(old(log), r) && |dependencyBitmap| == WINDOW_BITS
      ensures ending == Done && Valid() <==>
              IsSound(r, old(lastLogIndex), maxLogIndex, |old(logsInMemory)|, appliedId.index)
    {
      logsInMemory, lastLogIndex, dependencyBitmap, ending :=
        Resolve(logsInMemory, lastLogIndex, maxLogIndex, dependencyBitmap, r.kept, r.entries, appliedId.index, log);
      log := Overlay(Kept(log, r.kept), r.entries);
    }

    method CheckAndResolveConflict(entries: seq<LogEntry>, ooRep: bool, stored: map<int, int>) returns (r: Outcome)
      requires Valid() && entries != []
      requires StorageAgrees(stored, log, maxLogIndex - |logsInMemory| + 1)
      ensures IsOutcome(ooRep, entries, log, lastLogIndex, maxLogIndex, appliedId.index, r)
    {
      var front, back := entries[0].index, entries[|entries| - 1].index;
      if front == 0 {
        var own := AssignIndexes(entries, lastLogIndex + 1);
        return Written(own);
      }
      if !ooRep && front > lastLogIndex + 1 {
        return Gap;
      }
      if back <= appliedId.index {
        return Stale;
      }
      if back > maxLogIndex {
        return Written(entries);
      }
      var c := FindMismatch(entries, ooRep, stored);
      assert FirstMismatch(ooRep, log, entries, c);
      return Resolved(ooRep, entries, lastLogIndex, c);
    }

    method FindMismatch(entries: seq<LogEntry>, ooRep: bool, stored: map<int, int>) returns (c: nat)
      requires Valid() && StorageAgrees(stored, log, maxLogIndex - |logsInMemory| + 1)
      ensures FirstMismatch(ooRep, log, entries, c)
    {
      c := 0;
      while c < |entries|
        invariant c <= |entries|
        invariant forall k :: 0 <= k < c ==> !Mismatch(ooRep, log, entries[k])
      {
        var term := UnsafeGetTerm(entries[c].index, stored);
        if (!ooRep && term != entries[c].term) || (ooRep && term != 0 && term != entries[c].term) {
          return;
        }
        c := c + 1;
      }
    }

    /**
     * Grows the window, writes the entries into it, and moves the contiguous index on from `last`. Entries before the
     * deque or the bitmap are placed out of range.
     */
    method Write(entries: seq<LogEntry>, last: int) returns (ending: Ending)
      requires Valid() && CanWrite(entries, lastLogIndex, last)
      modifies this`logsInMemory, this`lastLogIndex, this`maxLogIndex, this`dependencyBitmap, this`log
      ensures log == Overlay(old(log), entries) && |dependencyBitmap| == WINDOW_BITS
      ensures maxLogIndex - |logsInMemory| == old(maxLogIndex) - |old(logsInMemory)|
      ensures ending == if HasRoom(entries, old(maxLogIndex), |old(logsInMemory)|) then Done else OutOfRange
      ensures ending == Done <==> HavePlaces(entries, maxLogIndex, |logsInMemory|, |dependencyBitmap|)
      ensures ending == Done ==> Valid() && Landed(logsInMemory, maxLogIndex, dependencyBitmap, entries)
    {
      var inRange;
      logsInMemory, lastLogIndex, maxLogIndex, dependencyBitmap, inRange :=
        WriteWindow(logsInMemory, lastLogIndex, maxLogIndex, dependencyBitmap, entries, last, log);
      log := Overlay(log, entries);
      ending := if inRange then Done else OutOfRange;
    }
  }

  /** Three entries in memory, and another one in place of the third: memory does not stand for the log any more. */
  method LoseToConflict(entries: seq<LogEntry>, other: LogEntry) returns (m: LogManager, ending: Ending)
    requires |entries| == 3 && forall k :: 0 <= k < 3 ==> entries[k].index == k + 1
    requires other.index == 3 && entries[2].term > 0 && other.term != entries[2].term
    ensures m.log == Overlay(Overlay(map[], entries[..2]), [other]) && !(ending == Done && m.Valid())
  {
    m := new LogManager(63);
    var r;
    r, ending := m.AppendEntries(entries, true, map[]);
    ThreeReceived(entries, m.lastLogIndex, m.maxLogIndex, m.log);
    assert FirstMismatch(true, m.log, [other], 0);
    assert Resolved(true, [other], 3, 0) == Conflict(2, [other]);
    ghost var log := m.log;
    r, ending := m.AppendEntries([other], true, map[]);
    assert r == Conflict(2, [other]);
    assert Kept(log, 2) == Overlay(map[], entries[..2]) by {
      KeptIsPrefix(entries, log);
    }
  }

  lemma ThreeReceived(entries: seq<LogEntry>, last: int, max: int, log: Log)
    requires |entries| == 3 && forall k :: 0 <= k < 3 ==> entries[k].index == k + 1
    requires log == Overlay(map[], entries) && Bounds(last, max, log.Keys)
    ensures last == max == 3 && TermAt(log, 3) == entries[2].term
  {
    forall i ensures i in log <==> 1 <= i <= 3 {
      OverlaySlot(map[], entries, i);
      assert i in log <==> Slot(log, i).Some?;
    }
    OverlaySlot(map[], entries, 3);
    assert 3 in log && Slot(log, 3) == Some(log[3]);
    BoundsUnique(log.Keys, last, max, 3, 3);
  }

  lemma KeptIsPrefix(entries: seq<LogEntry>, log: Log)
    requires |entries| == 3 && (forall k :: 0 <= k < 3 ==> entries[k].index == k + 1) && log == Overlay(map[], entries)
    ensures Kept(log, 2) == Overlay(map[], entries[..2])
  {
    var a, b := Kept(log, 2), Overlay(map[], entries[..2]);
    forall i ensures Slot(a, i) == Slot(b, i) {
      OverlaySlot(map[], entries, i);
      OverlaySlot(map[], entries[..2], i);
      assert i in log <==> Slot(log, i).Some?;
    }
    SameSlots(a, b);
  }
}
