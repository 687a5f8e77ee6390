/** The segmented log: out-of-order appends over rotating segments, and truncation from both ends. */
module SegmentStorages {
  import opened Core
  import opened RecordFormat
  import opened Segments
  import opened SegmentChains

  /** Refines a map from index to record: every method changes `log` as its name says, and lookup reads it. */
  class SegmentLogStorage {
    const limits: Limits
    var firstLogIndex: int
    var lastLogIndex: int
    var segments: seq<SegmentState>
    var openSegment: Option<SegmentState>
    ghost var log: Log

    ghost predicate Valid()
      reads this
    {
      StoreInv(segments, openSegment, firstLogIndex, lastLogIndex, log)
    }

    /** No index was ever appended again, so that the counters of all segments are exact. */
    ghost predicate Exact()
      reads this
    {
      AllExact(All(segments, openSegment))
    }

    /** The segments besides the open one are closed, or wait for the last of their gaps. */
    ghost predicate Settled()
      reads this
    {
      AllSettled(segments)
    }

    /** While no index was appended again, a segment besides the open one is closed exactly if it has no gap. */
    lemma SegmentsClose()
      requires Valid() && Exact() && Settled()
      ensures ClosedIfGapless(segments)
    {
      SettledChain(segments, openSegment, firstLogIndex, lastLogIndex, log);
    }

    constructor (limits: Limits)
      ensures this.limits == limits && Exact() && Settled()
      ensures Valid() && log == map[] && firstLogIndex == 1 && lastLogIndex == 0
    {
      this.limits := limits;
      firstLogIndex, lastLogIndex, segments, openSegment, log := 1, 0, [], None, map[];
    }

    method GetEntry(index: int) returns (r: Option<Record>)
      requires Valid()
      ensures r == if index in log then Some(log[index]) else None
    {
      r := SegmentChains.GetEntry(segments, openSegment, firstLogIndex, lastLogIndex, index, log);
    }

    method GetTerm(index: int) returns (term: int)
      requires Valid()
      ensures term == if index in log then log[index].term else 0
    {
      var r := GetEntry(index);
      return if r.Some? then r.value.term else 0;
    }

    /**
     * Appends records in any order, up to one whose index lies in a closed segment. New indexes are all stored, unless
     * some index was appended again before.
     */
    method AppendEntries(rs: seq<Record>) returns (stored: nat)
      requires Valid() && CanAppendAll(limits, rs, openSegment, firstLogIndex, lastLogIndex)
      modifies this
      ensures Valid() && stored <= |rs| && log == Written(old(log), rs[..stored])
      ensures firstLogIndex == old(firstLogIndex) && lastLogIndex >= old(lastLogIndex)
      ensures stored < |rs| ==> InClosed(segments, rs[stored].index)
      ensures old(Exact()) && AllNew(rs, old(log)) ==> stored == |rs| && Exact()
      ensures old(Settled()) ==> Settled()
    {
      segments, openSegment, lastLogIndex, stored :=
        AppendAll(limits, segments, openSegment, firstLogIndex, lastLogIndex, rs, log);
      log := Written(log, rs[..stored]);
    }

    method TruncatePrefix(kept: int)
      requires Valid()
      modifies this
      ensures Valid() && log == (if old(firstLogIndex) >= kept then old(log) else From(old(log), kept))
      ensures firstLogIndex == if old(firstLogIndex) >= kept then old(firstLogIndex) else kept
      ensures lastLogIndex ==
              if old(firstLogIndex) < kept && All(segments, openSegment) == [] then kept - 1 else old(lastLogIndex)
      ensures old(Exact()) ==> Exact()
      ensures old(Settled()) ==> Settled()
    {
      ghost var log' := if firstLogIndex >= kept then log else From(log, kept);
      segments, openSegment, firstLogIndex, lastLogIndex :=
        SegmentChains.TruncatePrefix(segments, openSegment, firstLogIndex, lastLogIndex, kept, log);
      log := log';
    }

    /** Sound exactly when the kept index is not beyond the log. */
    method TruncateSuffix(kept: int)
      requires Valid()
      modifies this
      ensures log == UpToIndex(old(log), kept) && lastLogIndex == kept
      ensures firstLogIndex ==
              if AllAfter(All(old(segments), old(openSegment)), kept) then kept + 1 else old(firstLogIndex)
      ensures old(Exact()) ==> Exact()
      ensures Valid() <==>
              CanTruncate(old(segments), old(openSegment), old(firstLogIndex), old(lastLogIndex), kept)
    {
      segments, openSegment, firstLogIndex :=
        SegmentChains.TruncateSuffix(segments, openSegment, firstLogIndex, lastLogIndex, kept, log);
      lastLogIndex := kept;
      log := UpToIndex(log, kept);
    }
  }
}
