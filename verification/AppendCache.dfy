/** Requests whose dependencies are not there yet wait in a cache until the log has caught up. */
module AppendCaches {
  import opened Core
  import opened Bits
  import opened LogWindows
  import opened LogManagers

  datatype Request = Request(prev: int, entries: seq<LogEntry>, dependency: Word)

  function LastIndex(r: Request): (i: int) {
    r.prev + |r.entries|
  }

  /** The word of a request names index `last - c` when one of its entries names it. */
  ghost predicate IsRequestWord(word: Word, entries: seq<LogEntry>) {
    && |word| == WORD_BITS
    && forall c :: 0 <= c < WORD_BITS ==> (word[c] <==> Names(entries, c))
  }

  ghost predicate Names(entries: seq<LogEntry>, c: int) {
    exists j :: 0 <= j < |entries| && NamesAt(entries, j, c)
  }

  ghost predicate NamesAt(entries: seq<LogEntry>, j: int, c: int)
    requires 0 <= j < |entries|
  {
    var b := c - (|entries| - 1 - j);
    0 <= b < |entries[j].dependency| && entries[j].dependency[b]
  }

  /** How the replicator builds a request's word: one place further back with every entry added. */
  method BuildWord(entries: seq<LogEntry>) returns (word: Word)
    requires forall j :: 0 <= j < |entries| ==> |entries[j].dependency| == WORD_BITS
    ensures IsRequestWord(word, entries)
  {
    word := Zeros(WORD_BITS);
    for n := 0 to |entries|
      invariant IsRequestWord(word, entries[..n])
    {
      var next := Or(ShiftLeft(word, 1), entries[n].dependency);
      forall c | 0 <= c < WORD_BITS ensures next[c] <==> Names(entries[..n + 1], c) {
        NamesStep(entries, n, c);
        assert c > 0 ==> (word[c - 1] <==> Names(entries[..n], c - 1));
      }
      word := next;
    }
    assert entries[..|entries|] == entries;
  }

  lemma NamesStep(entries: seq<LogEntry>, n: nat, c: int)
    requires n < |entries| && 0 <= c < |entries[n].dependency|
    ensures Names(entries[..n + 1], c) <==> (c > 0 && Names(entries[..n], c - 1)) || entries[n].dependency[c]
  {
    var less, more := entries[..n], entries[..n + 1];
    if entries[n].dependency[c] {
      assert NamesAt(more, n, c);
    }
    if c > 0 && Names(less, c - 1) {
      var j :| 0 <= j < |less| && NamesAt(less, j, c - 1);
      assert NamesAt(more, j, c);
    }
    if Names(more, c) {
      var j :| 0 <= j < |more| && NamesAt(more, j, c);
      assert j < n ==> NamesAt(less, j, c - 1);
    }
  }

  /** In order of their previous index, one request each. */
  ghost predicate Sorted(rpcs: seq<Request>) {
    forall i, j :: 0 <= i < j < |rpcs| ==> rpcs[i].prev < rpcs[j].prev
  }

  ghost predicate IsRunnable(r: Request, max: int, received: set<int>) {
    Covered(r.dependency, LastIndex(r), max, received)
  }

  /** The requests that can go, or those that stay, in order. */
  ghost function Chosen(rpcs: seq<Request>, runnable: bool, max: int, received: set<int>): (s: seq<Request>)
    ensures forall r :: r in s <==> r in rpcs && (IsRunnable(r, max, received) <==> runnable)
  {
    if rpcs == [] then [] else
      var n := |rpcs| - 1;
      assert rpcs == rpcs[..n] + [rpcs[n]];
      Chosen(rpcs[..n], runnable, max, received) +
        (if IsRunnable(rpcs[n], max, received) == runnable then [rpcs[n]] else [])
  }

  lemma {:induction false} ChosenSorted(rpcs: seq<Request>, runnable: bool, max: int, received: set<int>)
    requires Sorted(rpcs)
    ensures Sorted(Chosen(rpcs, runnable, max, received))
  {
    if rpcs == [] {
    } else {
      var n := |rpcs| - 1;
      ChosenSorted(rpcs[..n], runnable, max, received);
      var s := Chosen(rpcs[..n], runnable, max, received);
      assert forall k :: 0 <= k < |s| ==> s[k] in rpcs[..n];
    }
  }

  /** The test of process_runable_rpcs. */
  method Runs(r: Request, bitmap: Word, max: int, ghost received: set<int>) returns (ok: bool)
    requires BitsOf(bitmap, max, received) && |r.dependency| == WORD_BITS
    ensures ok <==> IsRunnable(r, max, received)
  {
    var gap := max - LastIndex(r);
    if gap > 0 {
      BehindCovers(r.dependency, LastIndex(r), max, bitmap, received);
      return Covers(ShiftRight(bitmap, gap), Widen(r.dependency));
    }
    AheadCovers(r.dependency, LastIndex(r), max, bitmap, received);
    return Covers(ShiftLeft(bitmap, -gap), Widen(r.dependency));
  }

  /** Goes over the cache once, against a bitmap and a greatest index read together. */
  method SplitRunnable(rpcs: seq<Request>, bitmap: Word, max: int, ghost received: set<int>)
    returns (stay: seq<Request>, go: seq<Request>)
    requires BitsOf(bitmap, max, received)
    requires forall k :: 0 <= k < |rpcs| ==> |rpcs[k].dependency| == WORD_BITS
    ensures stay == Chosen(rpcs, false, max, received) && go == Chosen(rpcs, true, max, received)
  {
    stay, go := [], [];
    for k := 0 to |rpcs|
      invariant stay == Chosen(rpcs[..k], false, max, received) && go == Chosen(rpcs[..k], true, max, received)
    {
      var r := rpcs[k];
      assert rpcs[..k + 1][..k] == rpcs[..k];
      var ok := Runs(r, bitmap, max, received);
      if ok {
        go := go + [r];
      } else {
        stay := stay + [r];
      }
    }
    assert rpcs[..|rpcs|] == rpcs;
  }

  /** Position of the first request that does not come before `prev`. */
  method LowerBound(rpcs: seq<Request>, prev: int) returns (pos: nat)
    requires Sorted(rpcs)
    ensures pos <= |rpcs| && (forall k :: 0 <= k < pos ==> rpcs[k].prev < prev)
    ensures forall k :: pos <= k < |rpcs| ==> prev <= rpcs[k].prev
  {
    pos := 0;
    while pos < |rpcs| && rpcs[pos].prev < prev
      invariant pos <= |rpcs| && (forall k :: 0 <= k < pos ==> rpcs[k].prev < prev)
    {
      pos := pos + 1;
    }
  }

  ghost predicate HasPrev(rpcs: seq<Request>, prev: int) {
    exists k :: 0 <= k < |rpcs| && rpcs[k].prev == prev
  }

  ghost predicate CacheInv(rpcs: seq<Request>, maxSize: nat) {
    && Sorted(rpcs) && |rpcs| <= maxSize
    && forall k :: 0 <= k < |rpcs| ==> |rpcs[k].dependency| == WORD_BITS
  }

  /** The cache with a request put in before position `pos`. */
  ghost function With(rpcs: seq<Request>, r: Request, pos: int): (s: seq<Request>)
    requires 0 <= pos <= |rpcs|
  {
    rpcs[..pos] + [r] + rpcs[pos..]
  }

  lemma WithSorted(rpcs: seq<Request>, r: Request, pos: nat)
    requires Sorted(rpcs) && pos <= |rpcs| && (forall k :: 0 <= k < |rpcs| ==> |rpcs[k].dependency| == WORD_BITS)
    requires |r.dependency| == WORD_BITS
    requires (forall k :: 0 <= k < pos ==> rpcs[k].prev < r.prev)
    requires (forall k :: pos <= k < |rpcs| ==> r.prev < rpcs[k].prev)
    ensures Sorted(With(rpcs, r, pos)) && |With(rpcs, r, pos)| == |rpcs| + 1
    ensures forall k :: 0 <= k <= |rpcs| ==> |With(rpcs, r, pos)[k].dependency| == WORD_BITS
    ensures forall q :: q in With(rpcs, r, pos) ==> q in rpcs || q == r
  {
    var all := With(rpcs, r, pos);
    assert forall k :: 0 <= k <= |rpcs| ==> all[k] == if k < pos then rpcs[k] else if k == pos then r else rpcs[k - 1];
  }

  /** Requests furthest ahead leave until the rest fits. */
  method Evict(all: seq<Request>, maxSize: nat) returns (kept: seq<Request>, evicted: seq<Request>)
    requires |all| <= maxSize + 1
    ensures kept + evicted == all && |evicted| == if |all| > maxSize then 1 else 0
  {
    kept, evicted := all, [];
    while |kept| > maxSize
      invariant kept + evicted == all && (evicted == [] || |kept| == maxSize)
      decreases |kept|
    {
      kept, evicted := kept[..|kept| - 1], [kept[|kept| - 1]] + evicted;
    }
  }

  /** A request with a known previous index is not stored again; the one furthest ahead makes room. */
  method Insert(rpcs: seq<Request>, r: Request, maxSize: nat) returns (rpcs': seq<Request>, evicted: seq<Request>)
    requires CacheInv(rpcs, maxSize) && |r.dependency| == WORD_BITS
    ensures CacheInv(rpcs', maxSize)
    ensures if HasPrev(rpcs, r.prev) then rpcs' == rpcs && evicted == []
            else exists pos :: 0 <= pos <= |rpcs| && rpcs' + evicted == With(rpcs, r, pos)
    ensures |evicted| == if !HasPrev(rpcs, r.prev) && |rpcs| == maxSize then 1 else 0
    ensures forall q :: q in rpcs' || q in evicted ==> q in rpcs || q == r
  {
    var pos := LowerBound(rpcs, r.prev);
    if pos < |rpcs| && rpcs[pos].prev == r.prev {
      return rpcs, [];
    }
    assert forall k :: pos < k < |rpcs| ==> rpcs[pos].prev < rpcs[k].prev;
    WithSorted(rpcs, r, pos);
    var all := rpcs[..pos] + [r] + rpcs[pos..];
    rpcs', evicted := Evict(all, maxSize);
    assert rpcs' == all[..|rpcs'|];
    assert forall q :: q in rpcs' || q in evicted ==> q in rpcs' + evicted;
  }

  class AppendEntriesCache {
    const maxSize: nat
    var rpcMap: seq<Request>

    ghost predicate Valid()
      reads this
    {
      CacheInv(rpcMap, maxSize)
    }

    constructor (maxSize: nat)
      ensures Valid() && rpcMap == [] && this.maxSize == maxSize
    {
      this.maxSize, rpcMap := maxSize, [];
    }

    method Store(r: Request) returns (evicted: seq<Request>)
      requires Valid() && |r.dependency| == WORD_BITS
      modifies this
      ensures Valid()
      ensures if HasPrev(old(rpcMap), r.prev) then rpcMap == old(rpcMap) && evicted == []
              else exists pos :: 0 <= pos <= |old(rpcMap)| && rpcMap + evicted == With(old(rpcMap), r, pos)
      ensures |evicted| == if !HasPrev(old(rpcMap), r.prev) && |old(rpcMap)| == maxSize then 1 else 0
      ensures forall q :: q in rpcMap || q in evicted ==> q in old(rpcMap) || q == r
    {
      rpcMap, evicted := Insert(rpcMap, r, maxSize);
    }

    /** Everything whose dependencies are all received leaves; everything else stays. */
    method ProcessRunnableRpcs(bitmap: Word, max: int, ghost received: set<int>) returns (released: seq<Request>)
      requires Valid() && BitsOf(bitmap, max, received)
      modifies this
      ensures Valid()
      ensures rpcMap == Chosen(old(rpcMap), false, max, received)
      ensures released == Chosen(old(rpcMap), true, max, received)
    {
      ChosenSorted(rpcMap, false, max, received);
      ghost var stayed := Chosen(rpcMap, false, max, received);
      ChosenFewer(rpcMap, false, max, received);
      assert forall k :: 0 <= k < |stayed| ==> stayed[k] in rpcMap;
      rpcMap, released := SplitRunnable(rpcMap, bitmap, max, received);
    }
  }

  lemma {:induction false} ChosenFewer(rpcs: seq<Request>, runnable: bool, max: int, received: set<int>)
    ensures |Chosen(rpcs, runnable, max, received)| <= |rpcs|
  {
    if rpcs == [] {
    } else {
      ChosenFewer(rpcs[..|rpcs| - 1], runnable, max, received);
    }
  }

  /** A log that has only grown. */
  ghost predicate Later(max: int, received: set<int>, max': int, received': set<int>) {
    max <= max' && received <= received'
  }

  /** Whatever is released now passes the dependency test now and after any further appends. */
  ghost predicate ReleaseIsStable(word: Word, lookBack: nat) {
    forall index, max, received, max', received' ::
      Later(max, received, max', received') && Covered(word, index, max, received) ==>
        Passes(word, index, max', lookBack, received')
  }

  /** Release is stable exactly when the word names nothing beyond the look-back. */
  lemma ReleaseIsStableIff(word: Word, lookBack: nat)
    requires |word| == WORD_BITS && lookBack < WINDOW_BITS
    ensures ReleaseIsStable(word, lookBack) <==> forall b :: 0 <= b < |word| && word[b] ==> b <= lookBack
  {
    if far :| 0 <= far < |word| && word[far] && far > lookBack {
      var received := UpTo(WORD_BITS);
      var max' := WORD_BITS + WINDOW_BITS - far;
      assert Covered(word, WORD_BITS, WORD_BITS, received);
      assert Later(WORD_BITS, received, max', received + {max'});
      assert !Passes(word, WORD_BITS, max', lookBack, received + {max'});
    } else {
      forall index, max, received, max', received' |
        Later(max, received, max', received') && Covered(word, index, max, received)
        ensures Passes(word, index, max', lookBack, received')
      {
        assert !Covered(word, index, max', received') ==> max' - index + lookBack >= WINDOW_BITS;
      }
    }
  }

  /** What was received, each index moved `distance` places. */
  ghost function Moved(received: set<int>, distance: int): (r: set<int>)
    ensures forall i :: i in r <==> i - distance in received
  {
    set i | i in received :: i + distance
  }

  /** A bitmap read before or after the greatest index it is used with tells of a log moved by the distance. */
  lemma TornBitmap(bitmap: Word, max: int, received: set<int>, max': int)
    requires BitsOf(bitmap, max, received)
    ensures BitsOf(bitmap, max', Moved(received, max' - max))
  {
    var moved := Moved(received, max' - max);
    forall b | 0 <= b < WINDOW_BITS ensures bitmap[b] <==> max' - b in moved {
      assert max' - b - (max' - max) == max - b;
    }
  }

  /** `max` is the greatest index received. */
  ghost predicate EndsAt(received: set<int>, max: int) {
    max in received && forall i :: i in received ==> 1 <= i <= max
  }

  /** What a bitmap and a greatest index read apart, in either order, release passes the test from then on. */
  ghost predicate TornReleaseIsStable(word: Word, lookBack: nat) {
    forall index, max0, received0, max1, received1, max', received' ::
      EndsAt(received0, max0) && EndsAt(received1, max1) && EndsAt(received', max') &&
      (Later(max0, received0, max1, received1) || Later(max1, received1, max0, received0)) &&
      Later(max0, received0, max', received') && Later(max1, received1, max', received') &&
      Covered(word, index, max1, Moved(received0, max1 - max0)) ==>
        Passes(word, index, max', lookBack, received')
  }

  lemma LowestBit(word: Word) returns (b: nat)
    requires exists k :: 0 <= k < |word| && word[k]
    ensures b < |word| && word[b] && forall k :: 0 <= k < b ==> !word[k]
  {
    b := 0;
    while !word[b]
      invariant b < |word| && forall k :: 0 <= k < b ==> !word[k]
      decreases |word| - b
    {
      b := b + 1;
    }
  }

  /** Reading the two apart is safe exactly for a word that names nothing. */
  lemma TornReleaseIsStableIff(word: Word, lookBack: nat)
    requires |word| == WORD_BITS && lookBack < WINDOW_BITS && (word[0] ==> lookBack + 1 < WINDOW_BITS)
    ensures TornReleaseIsStable(word, lookBack) <==> forall b :: 0 <= b < |word| ==> !word[b]
  {
    if exists b :: 0 <= b < |word| && word[b] {
      var low := LowestBit(word);
      var max := 2 * WORD_BITS;
      var received, index := UpTo(max), max + 1 + low;
      var received' := received + {max + 2};
      assert Later(max, received, max + 2, received') && EndsAt(received, max) && EndsAt(received', max + 2);
      assert Later(max + 2, received', max + 2, received');
      assert Covered(word, index, max + 2, Moved(received, max + 2 - max));
      assert word[low] && index - low !in received';
      assert !Passes(word, index, max + 2, lookBack, received');
    }
  }
}
