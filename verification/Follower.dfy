/** A follower with out-of-order replication: what it accepts, and what that says about dependencies. */
module Followers {
  import opened Core
  import opened Bits
  import opened LogWindows
  import opened Conflicts
  import opened LogManagers
  import opened AppendCaches

  datatype Answer = Accepted(outcome: Outcome) | Cached | Rejected

  /** A request as a leader sends it: consecutive entries after `prev` and the word built from theirs. */
  ghost predicate IsSent(r: Request) {
    && 0 <= r.prev && (forall k :: 0 <= k < |r.entries| ==> r.entries[k].index == r.prev + 1 + k)
    && (forall k :: 0 <= k < |r.entries| ==> |r.entries[k].dependency| == WORD_BITS)
    && IsRequestWord(r.dependency, r.entries)
  }

  /** The data part of handle_append_entries_request with oo_enabled. */
  class Follower {
    const manager: LogManager
    const cache: AppendEntriesCache

    ghost predicate Valid()
      reads this, manager, cache
    {
      manager.Valid() && cache.Valid()
    }

    constructor (manager: LogManager, cache: AppendEntriesCache)
      requires manager.Valid() && cache.Valid()
      ensures Valid() && this.manager == manager && this.cache == cache
    {
      this.manager, this.cache := manager, cache;
    }

    /**
     * A request that passes the dependency test is written and lets go of the requests that waited for it; one
     * that does not is cached, if it lies ahead and does not come from the cache itself, or rejected. `sound` tells
     * that memory stands for the log afterwards; where it does not, nothing else is promised.
     */
    method Handle(r: Request, fromCache: bool, stored: map<int, int>)
      returns (answer: Answer, released: seq<Request>, ghost sound: bool)
      requires Valid() && IsSent(r)
      requires StorageAgrees(stored, manager.log, manager.maxLogIndex - |manager.logsInMemory| + 1)
      modifies manager, cache
      ensures manager.appliedId == old(manager.appliedId)
      ensures sound <==> answer.Accepted? ==>
                IsSound(answer.outcome, old(manager.lastLogIndex), old(manager.maxLogIndex),
                        |old(manager.logsInMemory)|, manager.appliedId.index)
      ensures sound ==> Valid()
      ensures answer.Accepted? <==>
              Passes(r.dependency, LastIndex(r), old(manager.maxLogIndex), manager.dependencyLookBack,
                     old(manager.log).Keys)
      ensures answer.Accepted? ==>
                && (if r.entries == [] then answer.outcome == Written([])
                    else IsOutcome(true, r.entries, old(manager.log), old(manager.lastLogIndex),
                                   old(manager.maxLogIndex), manager.appliedId.index, answer.outcome))
                && manager.log == Target(old(manager.log), answer.outcome)
                && (sound && r.entries != [] ==>
                      && released == Chosen(old(cache.rpcMap), true, manager.maxLogIndex, manager.log.Keys)
                      && cache.rpcMap == Chosen(old(cache.rpcMap), false, manager.maxLogIndex, manager.log.Keys))
      ensures !answer.Accepted? || r.entries == [] ==>
                manager.log == old(manager.log) && manager.lastLogIndex == old(manager.lastLogIndex) &&
                manager.maxLogIndex == old(manager.maxLogIndex)
      ensures forall q :: q in cache.rpcMap || q in released ==> q in old(cache.rpcMap) || (answer.Cached? && q == r)
      ensures answer.Cached? <==>
              !answer.Accepted? && !fromCache && r.entries != [] && old(manager.lastLogIndex) < r.prev
      ensures answer.Cached? && !HasPrev(old(cache.rpcMap), r.prev) ==> r in cache.rpcMap + released
    {
      released := [];
      var ok := manager.CheckDependency(LastIndex(r), r.dependency);
      if !ok {
        if fromCache || manager.lastLogIndex >= r.prev || r.entries == [] {
          return Rejected, [], true;
        }
        released := cache.Store(r);
        return Cached, released, true;
      }
      if r.entries == [] {
        return Accepted(Written([])), [], true;
      }
      var outcome, ending := manager.AppendEntries(r.entries, true, stored);
      sound := ending == Done && manager.Valid();
      if ending != Done {
        return Accepted(outcome), [], sound;
      }
      ghost var told := if sound then manager.log.Keys else Told(manager.dependencyBitmap, manager.maxLogIndex);
      released := cache.ProcessRunnableRpcs(manager.dependencyBitmap, manager.maxLogIndex, told);
      return Accepted(outcome), released, sound;
    }
  }

  /** Whatever an entry of the log depends on is in the log. */
  ghost predicate Closed(log: Log) {
    forall i, b :: i in log && 0 <= b < |log[i].dependency| && log[i].dependency[b] ==> i - b in log
  }

  /** No dependency of an entry falls off the request's word. */
  ghost predicate WordHolds(r: Request) {
    forall j, b :: 0 <= j < |r.entries| && 0 <= b < |r.entries[j].dependency| && r.entries[j].dependency[b] ==>
      b + |r.entries| - 1 - j < WORD_BITS
  }

  datatype State = State(log: Log, last: int, max: int, waiting: set<Request>)

  /** A request handled, from the network or from the cache, and what was written of it. */
  datatype Event = Handled(r: Request, fromCache: bool, answer: Answer, applied: int)

  /** The entry is not so far behind that the dependency test lets it pass unseen. */
  ghost predicate InReach(s: State, lookBack: nat, r: Request) {
    LastIndex(r) > s.max || s.max - LastIndex(r) + lookBack < WINDOW_BITS
  }

  ghost predicate IsStep(lookBack: nat, s: State, e: Event, t: State) {
    && IsSent(e.r) && (e.fromCache ==> e.r in s.waiting)
    && (e.answer.Accepted? <==> Passes(e.r.dependency, LastIndex(e.r), s.max, lookBack, s.log.Keys))
    && match e.answer
       case Accepted(outcome) =>
         && (if e.r.entries == [] then outcome == Written([])
             else IsOutcome(true, e.r.entries, s.log, s.last, s.max, e.applied, outcome))
         && (outcome.Conflict? ==> s.last == s.max == outcome.kept + |outcome.entries|)
         && t.log == Target(s.log, outcome)
         && Bounds(t.last, t.max, t.log.Keys)
         && t.waiting <= s.waiting
       case Cached => t == s.(waiting := s.waiting + {e.r})
       case Rejected => t == s
  }

  /** What is accepted does not pass unseen and was sent with a word that names all that its entries name. */
  ghost predicate InSight(lookBack: nat, s: State, e: Event) {
    e.answer.Accepted? ==> WordHolds(e.r) && InReach(s, lookBack, e.r)
  }

  ghost predicate IsRun(lookBack: nat, states: seq<State>, events: seq<Event>) {
    && |states| == |events| + 1 && states[0] == State(map[], 0, 0, {})
    && forall k :: 0 <= k < |events| ==> IsStep(lookBack, states[k], events[k], states[k + 1])
  }

  /** The follower is in the state that the run says; whatever its cache holds is known to wait. */
  ghost predicate Tracks(f: Follower, s: State)
    reads f, f.manager, f.cache
  {
    && f.Valid() && s.log == f.manager.log && s.last == f.manager.lastLogIndex && s.max == f.manager.maxLogIndex
    && forall q :: q in f.cache.rpcMap ==> q in s.waiting
  }

  /** Handling a request is a step of the run, and whatever the cache lets go may be handled as coming from it. */
  method HandleStep(f: Follower, r: Request, fromCache: bool, stored: map<int, int>, ghost s: State)
    returns (answer: Answer, released: seq<Request>, ghost sound: bool, ghost e: Event, ghost t: State)
    requires Tracks(f, s) && IsSent(r) && (fromCache ==> r in s.waiting)
    requires StorageAgrees(stored, s.log, s.max - |f.manager.logsInMemory| + 1)
    modifies f.manager, f.cache
    ensures e == Handled(r, fromCache, answer, f.manager.appliedId.index)
    ensures sound <==> answer.Accepted? ==>
              IsSound(answer.outcome, s.last, s.max, |old(f.manager.logsInMemory)|, f.manager.appliedId.index)
    ensures sound ==> IsStep(f.manager.dependencyLookBack, s, e, t) && Tracks(f, t)
    ensures forall q :: q in released ==> q in t.waiting
  {
    answer, released, sound := f.Handle(r, fromCache, stored);
    e := Handled(r, fromCache, answer, f.manager.appliedId.index);
    t := State(f.manager.log, f.manager.lastLogIndex, f.manager.maxLogIndex,
               if answer.Cached? then s.waiting + {r} else s.waiting);
  }

  /** A covered request word covers the words of its entries. */
  lemma EntriesCovered(r: Request, max: int, received: set<int>, j: nat, b: nat)
    requires IsSent(r) && WordHolds(r) && Covered(r.dependency, LastIndex(r), max, received)
    requires j < |r.entries| && b < |r.entries[j].dependency| && r.entries[j].dependency[b]
    ensures r.entries[j].index - b in received
  {
    var c := b + |r.entries| - 1 - j;
    assert NamesAt(r.entries, j, c);
    assert r.dependency[c];
  }

  lemma ClosedAfter(log: Log, entries: seq<LogEntry>)
    requires Closed(log) && Consecutive(entries)
    requires forall k, b :: 0 <= k < |entries| && 0 <= b < |entries[k].dependency| && entries[k].dependency[b] ==>
               entries[k].index - b in log
    ensures Closed(Overlay(log, entries))
  {
    var log' := Overlay(log, entries);
    forall i, b | i in log' && 0 <= b < |log'[i].dependency| && log'[i].dependency[b] ensures i - b in log' {
      OverlaySlot(log, entries, i);
      assert Slot(log', i) == Some(log'[i]);
      var k := if entries != [] && entries[0].index <= i < entries[0].index + |entries| then i - entries[0].index
               else -1;
      if k >= 0 {
        assert log'[i] == entries[k];
      } else {
        assert Slot(log, i) == Some(log'[i]);
      }
      assert i - b in log;
      OverlaySlot(log, entries, i - b);
      assert Slot(log, i - b).Some? && Slot(log', i - b).Some?;
    }
  }

  lemma WrittenIsSuffix(entries: seq<LogEntry>, log: Log, last: int, max: int, applied: int, r: Outcome)
    requires entries != [] && entries[0].index > 0 && (r.Written? || r.Conflict?)
    requires IsOutcome(true, entries, log, last, max, applied, r)
    ensures |r.entries| <= |entries| && r.entries == entries[|entries| - |r.entries|..]
  {
  }

  /** Writing part of a covered request keeps the log closed. */
  lemma AcceptCloses(r: Request, log: Log, max: int, skipped: nat)
    requires IsSent(r) && WordHolds(r) && Covered(r.dependency, LastIndex(r), max, log.Keys)
    requires Closed(log) && skipped <= |r.entries|
    ensures Closed(Overlay(log, r.entries[skipped..]))
  {
    var written := r.entries[skipped..];
    forall k, b | 0 <= k < |written| && 0 <= b < |written[k].dependency| && written[k].dependency[b]
      ensures written[k].index - b in log
    {
      EntriesCovered(r, max, log.Keys, skipped + k, b);
    }
    ClosedAfter(log, written);
  }

  /** In every accepted step that writes, a suffix of the request's entries is written over the log. */
  lemma StepOverlays(lookBack: nat, s: State, e: Event, t: State)
    requires IsStep(lookBack, s, e, t) && Bounds(s.last, s.max, s.log.Keys) && e.r.entries != []
    requires e.answer.Accepted? && (e.answer.outcome.Written? || e.answer.outcome.Conflict?)
    ensures t.log == Overlay(s.log, e.answer.outcome.entries)
  {
    if e.answer.outcome.Conflict? {
      OutcomeConflicts(true, e.r.entries, s.log, s.last, s.max, e.applied, e.answer.outcome);
      ConflictIsOverlay(s.log, s.last, s.max, e.answer.outcome);
    }
  }

  lemma StepCloses(lookBack: nat, s: State, e: Event, t: State)
    requires IsStep(lookBack, s, e, t) && InSight(lookBack, s, e) && Closed(s.log)
    requires Bounds(s.last, s.max, s.log.Keys)
    ensures Closed(t.log)
  {
    if e.answer.Accepted? && (e.answer.outcome.Written? || e.answer.outcome.Conflict?) && e.r.entries != [] {
      StepOverlays(lookBack, s, e, t);
      WrittenIsSuffix(e.r.entries, s.log, s.last, s.max, e.applied, e.answer.outcome);
      AcceptCloses(e.r, s.log, s.max, |e.r.entries| - |e.answer.outcome.entries|);
    }
  }

  /**
   * Dependency closure: in every run in which nothing passes unseen, every index named by the word of an entry
   * in the log is in the log too, whether requests came directly or through the cache.
   */
  lemma {:induction false} DependencyClosure(lookBack: nat, states: seq<State>, events: seq<Event>, k: nat)
    requires IsRun(lookBack, states, events) && k < |states|
    requires forall j :: 0 <= j < k ==> InSight(lookBack, states[j], events[j])
    ensures Closed(states[k].log)
  {
    if k == 0 {
    } else {
      DependencyClosure(lookBack, states, events, k - 1);
      LogGrows(lookBack, states, events, k - 1, k - 1);
      StepCloses(lookBack, states[k - 1], events[k - 1], states[k]);
    }
  }

  /** Passing the test at `index` means that everything named was received. */
  ghost predicate PassingMeansReceived(index: int, max: int, lookBack: nat) {
    forall word: Word, received ::
      (forall i :: i in received ==> 1 <= i <= max) && Passes(word, index, max, lookBack, received) ==>
        forall b :: 0 <= b < |word| && word[b] ==> index - b in received
  }

  /** The dependency test is sound exactly in reach of the bitmap. */
  lemma PassingMeansReceivedIff(index: int, max: int, lookBack: nat)
    ensures PassingMeansReceived(index, max, lookBack) <==> index > max || max - index + lookBack < 1024
  {
    if index <= max && max - index + lookBack >= WINDOW_BITS {
      var word: Word := [false, true];
      assert word[1] && index - 1 !in {};
      assert Passes(word, index, max, lookBack, {});
    }
  }

  /**
   * Out of reach closure is lost: entry 966 comes first, and entry 5 then passes although it waits for entry 4. One
   * index nearer it does not pass.
   */
  lemma UnseenBreaksClosure(far: LogEntry, near: LogEntry)
    requires far.index == 966 && far.dependency == Zeros(WORD_BITS)
    requires near.index == 5 && near.dependency == Zeros(WORD_BITS)[1 := true]
    ensures var log: Log := map[966 := far];
            && Passes(far.dependency, 966, 0, 63, {}) && Closed(log)
            && Passes(near.dependency, 5, 966, 63, log.Keys)
            && !Closed(Overlay(log, [near]))
    ensures !Passes(near.dependency, 5, 965, 63, {965})
  {
    var log: Log := map[966 := far];
    assert near.dependency[1] && 5 - 1 !in {965};
    var log' := Overlay(log, [near]);
    OverlaySlot(log, [near], 5);
    OverlaySlot(log, [near], 4);
    assert Slot(log', 5) == Some(near) && Slot(log', 4) == None;
    assert log'[5].dependency[1] && 5 - 1 !in log';
  }

  /** Writing over a log keeps every index that was in it. */
  lemma OverlayKeeps(log: Log, entries: seq<LogEntry>)
    requires Consecutive(entries)
    ensures log.Keys <= Overlay(log, entries).Keys
    ensures forall k :: 0 <= k < |entries| ==> entries[k].index in Overlay(log, entries)
  {
    var log' := Overlay(log, entries);
    forall i | i in log ensures i in log' {
      OverlaySlot(log, entries, i);
      assert Slot(log, i).Some? && Slot(log', i).Some?;
    }
    forall k | 0 <= k < |entries| ensures entries[k].index in log' {
      OverlaySlot(log, entries, entries[k].index);
      assert Slot(log', entries[k].index).Some?;
    }
  }

  /** Steps only add to the log, and the contiguous index is always backed by it. */
  lemma StepGrows(lookBack: nat, s: State, e: Event, t: State)
    requires IsStep(lookBack, s, e, t) && Bounds(s.last, s.max, s.log.Keys)
    ensures s.log.Keys <= t.log.Keys && Bounds(t.last, t.max, t.log.Keys)
  {
    if e.answer.Accepted? && (e.answer.outcome.Written? || e.answer.outcome.Conflict?) && e.r.entries != [] {
      StepOverlays(lookBack, s, e, t);
      WrittenIsSuffix(e.r.entries, s.log, s.last, s.max, e.applied, e.answer.outcome);
      OverlayKeeps(s.log, e.answer.outcome.entries);
    }
  }

  lemma {:induction false} LogGrows(lookBack: nat, states: seq<State>, events: seq<Event>, k: nat, m: nat)
    requires IsRun(lookBack, states, events) && k <= m < |states|
    ensures states[k].log.Keys <= states[m].log.Keys
    ensures Bounds(states[m].last, states[m].max, states[m].log.Keys)
  {
    if m == 0 {
    } else if k == m {
      LogGrows(lookBack, states, events, m - 1, m - 1);
      StepGrows(lookBack, states[m - 1], events[m - 1], states[m]);
    } else {
      LogGrows(lookBack, states, events, k, m - 1);
      StepGrows(lookBack, states[m - 1], events[m - 1], states[m]);
    }
  }

  /** The request agrees with what the follower has, and what was applied is in the contiguous log. */
  ghost predicate MeetsNoMismatch(s: State, e: Event) {
    e.applied <= s.last && FirstMismatch(true, s.log, e.r.entries, |e.r.entries|)
  }

  lemma AcceptedIsHeld(lookBack: nat, s: State, e: Event, t: State)
    requires IsStep(lookBack, s, e, t) && Bounds(s.last, s.max, s.log.Keys) && e.answer.Accepted?
    requires MeetsNoMismatch(s, e)
    ensures forall k :: 0 <= k < |e.r.entries| ==> e.r.entries[k].index in t.log
  {
    var entries := e.r.entries;
    if entries != [] && (e.answer.outcome.Written? || e.answer.outcome.Conflict?) {
      StepOverlays(lookBack, s, e, t);
      NoMismatchWritesAll(entries, s.log, s.last, s.max, e.applied, e.answer.outcome);
      OverlayKeeps(s.log, entries);
    }
  }

  lemma NoMismatchWritesAll(entries: seq<LogEntry>, log: Log, last: int, max: int, applied: int, r: Outcome)
    requires entries != [] && entries[0].index > 0 && FirstMismatch(true, log, entries, |entries|)
    requires IsOutcome(true, entries, log, last, max, applied, r) && (r.Written? || r.Conflict?)
    ensures r.Written? && r.entries == entries
  {
    var back := entries[|entries| - 1].index;
    if back > applied && back <= max {
      var c: nat :| FirstMismatch(true, log, entries, c) && r == Resolved(true, entries, last, c);
      assert c == |entries|;
    }
  }

  /**
   * What a follower says in a successful reply, formed at any later time, is true of its log: the entries of the
   * request are in it, and so is everything up to the contiguous index that it reports.
   */
  lemma RepliesAreTrue(lookBack: nat, states: seq<State>, events: seq<Event>, k: nat, m: nat)
    requires IsRun(lookBack, states, events) && k < m < |states|
    requires events[k].answer.Accepted? && MeetsNoMismatch(states[k], events[k])
    ensures var r, log := events[k].r, states[m].log;
            && (forall i :: r.prev < i <= r.prev + |r.entries| ==> i in log)
            && (forall i :: 1 <= i <= states[m].last ==> i in log)
  {
    LogGrows(lookBack, states, events, k, k);
    LogGrows(lookBack, states, events, k + 1, m);
    AcceptedIsHeld(lookBack, states[k], events[k], states[k + 1]);
    var r := events[k].r;
    forall i | r.prev < i <= r.prev + |r.entries| ensures i in states[m].log {
      assert r.entries[i - r.prev - 1].index == i;
    }
  }
}
