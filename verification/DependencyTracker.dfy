/** The leader's side of dependency tracking: which of the last submissions touch the same cell. */
module DependencyTrackers {
  import opened Bits

  /** Submission `n` touches the same cell as the one `b` places before it, at most `lookBack` away. */
  ghost predicate SameCell(ids: seq<int>, lookBack: nat, n: nat, b: int)
    requires n < |ids|
  {
    1 <= b <= n && b <= lookBack && ids[n - b] == ids[n]
  }

  /** The word of submission `n`: one bit per earlier submission that touches its cell. */
  ghost predicate IsWordOf(word: Word, ids: seq<int>, lookBack: nat, n: nat)
    requires n < |ids|
  {
    |word| == WORD_BITS && forall b :: 0 <= b < WORD_BITS ==> (word[b] <==> SameCell(ids, lookBack, n, b))
  }

  /** The last `lookBack + 1` submissions stay in the queue. */
  ghost predicate QueueInv(queue: seq<int>, lookBack: nat, ids: seq<int>) {
    && |queue| == (if |ids| <= lookBack then |ids| else lookBack + 1)
    && queue == ids[|ids| - |queue|..]
  }

  /** Oldest first: each round pushes the bits found so far one place further back. */
  method WordFrom(queue: seq<int>, id: int) returns (word: Word)
    ensures |word| == WORD_BITS
    ensures forall b :: 0 <= b < WORD_BITS ==> (word[b] <==> 1 <= b <= |queue| && queue[|queue| - b] == id)
  {
    word := Zeros(WORD_BITS);
    for k := 0 to |queue|
      invariant |word| == WORD_BITS
      invariant forall b :: 0 <= b < WORD_BITS ==> (word[b] <==> 1 <= b <= k && queue[k - b] == id)
    {
      if queue[k] == id {
        word := word[0 := true];
      }
      word := ShiftLeft(word, 1);
    }
  }

  class DependencyTracker {
    const lookBack: nat
    var queue: seq<int>
    ghost var ids: seq<int>

    ghost predicate Valid()
      reads this
    {
      QueueInv(queue, lookBack, ids)
    }

    constructor (lookBack: nat)
      ensures Valid() && ids == [] && this.lookBack == lookBack
    {
      this.lookBack := lookBack;
      queue, ids := [], [];
    }

    method CheckDependency(id: int) returns (word: Word)
      requires Valid()
      modifies this
      ensures Valid() && ids == old(ids) + [id]
      ensures IsWordOf(word, ids, lookBack, |old(ids)|)
    {
      if |queue| > lookBack {
        queue := queue[1..];
      }
      word := WordFrom(queue, id);
      queue := queue + [id];
      ids := ids + [id];
    }
  }

  ghost predicate NothingLost(lookBack: nat) {
    forall ids: seq<int>, n: nat, b :: n < |ids| && SameCell(ids, lookBack, n, b) ==> b < WORD_BITS
  }

  /** The width of the word costs nothing exactly up to a look-back of 63. */
  lemma NothingLostIff(lookBack: nat)
    ensures NothingLost(lookBack) <==> lookBack <= 63
  {
    if lookBack > 63 {
      var ids := seq(65, _ => 7);
      assert SameCell(ids, lookBack, 64, 64);
    }
  }
}
