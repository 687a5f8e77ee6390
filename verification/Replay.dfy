/**
 * Why the dependency words are enough: entries are writes to single cells, and any order of acceptance that
 * passes the follower's test leaves every cell as index order does.
 */
module Replays {
  import opened Core
  import opened Bits
  import opened LogWindows
  import opened LogManagers
  import opened DependencyTrackers
  import opened AppendCaches

  /** Entry `i` writes cell `ids[i - 1]`; a store remembers which entry wrote a cell last. */
  ghost function Replay(ids: seq<int>, order: seq<int>): (store: map<int, int>)
    requires forall k :: 0 <= k < |order| ==> 1 <= order[k] <= |ids|
  {
    if order == [] then map[] else
      var n := |order| - 1;
      Replay(ids, order[..n])[ids[order[n] - 1] := order[n]]
  }

  /** The leader's words for these submissions. */
  ghost predicate AreWords(ids: seq<int>, lookBack: nat, words: seq<Word>) {
    |words| == |ids| && forall n :: 0 <= n < |ids| ==> IsWordOf(words[n], ids, lookBack, n)
  }

  /** A new entry passes the test and lies at most `lookBack + 1` beyond the contiguous log. */
  ghost predicate Accepts(word: Word, lookBack: nat, received: set<int>, last: int, max: int, index: int) {
    && Bounds(last, max, received) && index !in received && 1 <= index <= last + lookBack + 1
    && Passes(word, index, max, lookBack, received)
  }

  ghost predicate AcceptedAt(words: seq<Word>, lookBack: nat, order: seq<int>, k: nat)
    requires k < |order| && 1 <= order[k] <= |words|
  {
    var word, received, index := words[order[k] - 1], Elements(order[..k]), order[k];
    exists last, max :: Accepts(word, lookBack, received, last, max, index)
  }

  /** An order in which a follower may accept entries. */
  ghost predicate IsAcceptance(words: seq<Word>, lookBack: nat, order: seq<int>) {
    && (forall k :: 0 <= k < |order| ==> 1 <= order[k] <= |words|)
    && (forall k :: 0 <= k < |order| ==> AcceptedAt(words, lookBack, order, k))
  }

  /** No entry is ever accepted further ahead of the contiguous log than the look-back allows. */
  lemma SpreadIsSmall(words: seq<Word>, lookBack: nat, order: seq<int>, k: nat, last: int, max: int)
    requires IsAcceptance(words, lookBack, order) && k <= |order| && Bounds(last, max, Elements(order[..k]))
    ensures max <= last + lookBack + 1
  {
    if max > 0 {
      var q := Position(order[..k], max);
      assert AcceptedAt(words, lookBack, order, q);
      var last', max' :|
        Accepts(words[order[q] - 1], lookBack, Elements(order[..q]), last', max', order[q]);
      ContiguousGrows(order, q, k, last', max', last, max);
    }
  }

  lemma Position(s: seq<int>, x: int) returns (q: nat)
    requires x in Elements(s)
    ensures q < |s| && s[q] == x
  {
    q :| q < |s| && s[q] == x;
  }

  lemma ContiguousGrows(order: seq<int>, q: nat, k: nat, last': int, max': int, last: int, max: int)
    requires q <= k <= |order| && Bounds(last', max', Elements(order[..q])) && Bounds(last, max, Elements(order[..k]))
    ensures last' <= last
  {
    forall x | x in Elements(order[..q]) ensures x in Elements(order[..k]) {
      var p := Position(order[..q], x);
      assert order[..k][p] == x;
    }
    var before := Elements(order[..q]);
    assert last' > last ==> last + 1 in before;
  }

  /** The test never lets an entry pass unseen. */
  lemma ShortcutUnreached(words: seq<Word>, lookBack: nat, order: seq<int>, k: nat, last: int, max: int)
    requires lookBack <= 63 && IsAcceptance(words, lookBack, order) && k < |order|
    requires Bounds(last, max, Elements(order[..k])) && order[k] !in Elements(order[..k])
    ensures max - order[k] + lookBack <= 2 * lookBack < WINDOW_BITS
  {
    SpreadIsSmall(words, lookBack, order, k, last, max);
    var index, received := order[k], Elements(order[..k]);
    assert index <= last ==> index in received;
  }

  /** Of two entries for one cell the earlier one is accepted first. */
  lemma SameCellInOrder(ids: seq<int>, words: seq<Word>, lookBack: nat, order: seq<int>, k: nat, i: int)
    requires lookBack <= 63 && AreWords(ids, lookBack, words) && IsAcceptance(words, lookBack, order)
    requires k < |order| && 1 <= i < order[k] && ids[i - 1] == ids[order[k] - 1]
    ensures i in Elements(order[..k])
  {
    var j, received := order[k], Elements(order[..k]);
    assert AcceptedAt(words, lookBack, order, k);
    var last, max :| Accepts(words[j - 1], lookBack, received, last, max, j);
    ShortcutUnreached(words, lookBack, order, k, last, max);
    if i > last {
      var b := j - i;
      assert IsWordOf(words[j - 1], ids, lookBack, j - 1);
      assert SameCell(ids, lookBack, j - 1, b);
      assert words[j - 1][b];
    }
  }

  /** `x` is the greatest of the entries in `order` that write `cell`, if there are any. */
  ghost predicate LastWriter(ids: seq<int>, order: seq<int>, cell: int, x: Option<int>)
    requires forall k :: 0 <= k < |order| ==> 1 <= order[k] <= |ids|
  {
    && (x.Some? ==> x.value in order && ids[x.value - 1] == cell)
    && (forall k :: 0 <= k < |order| && ids[order[k] - 1] == cell ==> x.Some? && order[k] <= x.value)
  }

  ghost function At(store: map<int, int>, cell: int): (r: Option<int>) {
    if cell in store then Some(store[cell]) else None
  }

  /** Entries that write one cell come in index order. */
  ghost predicate CellsInOrder(ids: seq<int>, order: seq<int>)
    requires forall k :: 0 <= k < |order| ==> 1 <= order[k] <= |ids|
  {
    forall p, k :: 0 <= p < k < |order| && ids[order[p] - 1] == ids[order[k] - 1] ==> order[p] < order[k]
  }

  /** One more write: it is the greatest for its own cell and changes no other. */
  lemma OneMoreWrite(ids: seq<int>, front: seq<int>, index: int, cell: int, x: Option<int>)
    requires (forall k :: 0 <= k < |front| ==> 1 <= front[k] <= |ids|) && 1 <= index <= |ids|
    requires forall k :: 0 <= k < |front| && ids[front[k] - 1] == ids[index - 1] ==> front[k] < index
    requires LastWriter(ids, front, cell, x)
    ensures LastWriter(ids, front + [index], cell, if ids[index - 1] == cell then Some(index) else x)
  {
  }

  lemma {:induction false} ReplayKeepsGreatest(ids: seq<int>, order: seq<int>, cell: int)
    requires (forall k :: 0 <= k < |order| ==> 1 <= order[k] <= |ids|) && CellsInOrder(ids, order)
    ensures LastWriter(ids, order, cell, At(Replay(ids, order), cell))
  {
    if order == [] {
    } else {
      var n := |order| - 1;
      var front, index := order[..n], order[n];
      CellsSplit(ids, order);
      ReplayKeepsGreatest(ids, front, cell);
      OneMoreWrite(ids, front, index, cell, At(Replay(ids, front), cell));
      assert front + [index] == order;
    }
  }

  lemma CellsSplit(ids: seq<int>, order: seq<int>)
    requires (forall k :: 0 <= k < |order| ==> 1 <= order[k] <= |ids|) && CellsInOrder(ids, order) && order != []
    ensures var front, index := order[..|order| - 1], order[|order| - 1];
            && CellsInOrder(ids, front)
            && forall k :: 0 <= k < |front| && ids[front[k] - 1] == ids[index - 1] ==> front[k] < index
  {
  }

  lemma AcceptanceInOrder(ids: seq<int>, words: seq<Word>, lookBack: nat, order: seq<int>)
    requires lookBack <= 63 && AreWords(ids, lookBack, words) && IsAcceptance(words, lookBack, order)
    ensures CellsInOrder(ids, order)
  {
    forall p, k | 0 <= p < k < |order| && ids[order[p] - 1] == ids[order[k] - 1] ensures order[p] < order[k] {
      NotYet(words, lookBack, order, p, k);
      if order[k] < order[p] {
        SameCellInOrder(ids, words, lookBack, order, p, order[k]);
        assert false by {
          var q := Position(order[..p], order[k]);
          NotYet(words, lookBack, order, q, k);
        }
      }
    }
  }

  lemma NotYet(words: seq<Word>, lookBack: nat, order: seq<int>, p: nat, k: nat)
    requires IsAcceptance(words, lookBack, order) && p < k < |order|
    ensures order[p] != order[k]
  {
    assert AcceptedAt(words, lookBack, order, k);
    assert order[..k][p] == order[p];
  }

  /**
   * Dependency words are sufficient: whatever order entries are accepted in, replaying it gives the store of
   * replaying the same entries in index order.
   */
  lemma WordsSuffice(ids: seq<int>, words: seq<Word>, lookBack: nat, order: seq<int>, sorted: seq<int>)
    requires lookBack <= 63 && AreWords(ids, lookBack, words) && IsAcceptance(words, lookBack, order)
    requires StrictlyAscending(sorted) && Elements(sorted) == Elements(order)
    ensures (forall k :: 0 <= k < |sorted| ==> 1 <= sorted[k] <= |ids|) && Replay(ids, order) == Replay(ids, sorted)
  {
    forall k | 0 <= k < |sorted| ensures 1 <= sorted[k] <= |ids| {
      assert sorted[k] in Elements(order);
    }
    AcceptanceInOrder(ids, words, lookBack, order);
    var a, b := Replay(ids, order), Replay(ids, sorted);
    forall cell ensures At(a, cell) == At(b, cell) {
      ReplayKeepsGreatest(ids, order, cell);
      ReplayKeepsGreatest(ids, sorted, cell);
      SameLastWriter(ids, order, sorted, cell, At(a, cell), At(b, cell));
    }
    SameStore(a, b);
  }

  lemma SameLastWriter(ids: seq<int>, order: seq<int>, sorted: seq<int>, cell: int, x: Option<int>, y: Option<int>)
    requires (forall k :: 0 <= k < |order| ==> 1 <= order[k] <= |ids|)
    requires (forall k :: 0 <= k < |sorted| ==> 1 <= sorted[k] <= |ids|)
    requires Elements(sorted) == Elements(order) && LastWriter(ids, order, cell, x) && LastWriter(ids, sorted, cell, y)
    ensures x == y
  {
    if x.Some? {
      assert x.value in Elements(sorted);
    }
    if y.Some? {
      assert y.value in Elements(order);
    }
  }

  lemma SameStore(a: map<int, int>, b: map<int, int>)
    requires forall cell :: At(a, cell) == At(b, cell)
    ensures a == b
  {
    forall c ensures c in a <==> c in b {
      assert At(a, c) == At(b, c);
    }
    assert a.Keys == b.Keys;
    forall c | c in a ensures a[c] == b[c] {
      assert At(a, c) == At(b, c);
    }
  }

  /** Every acceptance order gives the store of index order. */
  ghost predicate Sufficient(lookBack: nat) {
    forall ids, words, order, sorted ::
      AreWords(ids, lookBack, words) && IsAcceptance(words, lookBack, order) &&
      StrictlyAscending(sorted) && Elements(sorted) == Elements(order) ==>
        (forall k :: 0 <= k < |sorted| ==> 1 <= sorted[k] <= |ids|) && Replay(ids, order) == Replay(ids, sorted)
  }

  /** 65 submissions of which only the first and the last touch the same cell. */
  ghost function FarApart(): (ids: seq<int>)
    ensures |ids| == 65 && ids[64] == 0 && forall i :: 0 <= i < 64 ==> ids[i] == i
  {
    seq(65, i requires 0 <= i < 65 => if i == 64 then 0 else i)
  }

  ghost function EmptyWords(n: nat): (words: seq<Word>)
    ensures |words| == n && forall k :: 0 <= k < n ==> words[k] == Zeros(WORD_BITS)
  {
    seq(n, _ => Zeros(WORD_BITS))
  }

  lemma FarApartWords(lookBack: nat)
    ensures AreWords(FarApart(), lookBack, EmptyWords(65))
  {
    var ids := FarApart();
    forall n, b | 0 <= n < 65 && 0 <= b < WORD_BITS ensures !SameCell(ids, lookBack, n, b) {
      assert 1 <= b <= n ==> ids[n - b] == n - b;
    }
  }

  lemma OvertakingAccepted(lookBack: nat)
    requires lookBack > 63
    ensures IsAcceptance(EmptyWords(65), lookBack, [65, 1])
  {
    var words, order := EmptyWords(65), [65, 1];
    var none, one := Elements(order[..0]), Elements(order[..1]);
    assert order[..0] == [] && order[..1] == [65];
    assert none == {} && one == {65};
    assert Bounds(0, 0, none) && Bounds(0, 65, one);
    assert Accepts(words[64], lookBack, none, 0, 0, 65);
    assert Accepts(words[0], lookBack, one, 0, 65, 1);
    assert AcceptedAt(words, lookBack, order, 0) && AcceptedAt(words, lookBack, order, 1);
  }

  lemma OvertakingShows()
    ensures Replay(FarApart(), [65, 1]) != Replay(FarApart(), [1, 65])
  {
    var ids, order, sorted := FarApart(), [65, 1], [1, 65];
    assert order[..1] == [65] && sorted[..1] == [1];
    assert Replay(ids, order)[0] == 1;
    assert Replay(ids, sorted)[0] == 65;
  }

  /** With a longer look-back the bit for 64 places back is lost: entry 65 overtakes entry 1 on the same cell. */
  lemma LostBitReorders(lookBack: nat)
    requires lookBack > 63
    ensures !Sufficient(lookBack)
  {
    FarApartWords(lookBack);
    OvertakingAccepted(lookBack);
    OvertakingShows();
    var sorted := [1, 65];
    assert StrictlyAscending(sorted) && Elements(sorted) == Elements([65, 1]);
  }

  /** The words suffice exactly up to a look-back of 63. */
  lemma SufficientIff(lookBack: nat)
    ensures Sufficient(lookBack) <==> lookBack <= 63
  {
    if lookBack > 63 {
      LostBitReorders(lookBack);
    } else {
      forall ids, words, order, sorted |
        AreWords(ids, lookBack, words) && IsAcceptance(words, lookBack, order) &&
        StrictlyAscending(sorted) && Elements(sorted) == Elements(order)
        ensures (forall k :: 0 <= k < |sorted| ==> 1 <= sorted[k] <= |ids|) && Replay(ids, order) == Replay(ids, sorted)
      {
        WordsSuffice(ids, words, lookBack, order, sorted);
      }
    }
  }

  /** The leader's own words are released from the cache for good. */
  lemma LeaderWordsStable(word: Word, ids: seq<int>, lookBack: nat, n: nat)
    requires lookBack < WINDOW_BITS && n < |ids| && IsWordOf(word, ids, lookBack, n)
    ensures ReleaseIsStable(word, lookBack)
  {
    assert forall b :: 0 <= b < WORD_BITS && word[b] ==> SameCell(ids, lookBack, n, b);
    ReleaseIsStableIff(word, lookBack);
  }
}
