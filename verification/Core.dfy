/** Values shared by every component. */
module Core {

  datatype Option<+T> = None | Some(value: T)

  /** A peer's address. An unset PeerId is modelled as Option.None. */
  type PeerId = nat

  ghost predicate Ascending(s: seq<int>) {
    forall i, j :: 0 <= i < j < |s| ==> s[i] <= s[j]
  }

  ghost predicate StrictlyAscending(s: seq<int>) {
    forall i, j :: 0 <= i < j < |s| ==> s[i] < s[j]
  }

  /** The elements of a sequence, forgetting order and repetition. */
  ghost function Elements<T>(s: seq<T>): (r: set<T>) {
    set x | x in s
  }

  /** The indexes 1 to `n`. */
  ghost function UpTo(n: nat): (r: set<int>)
    ensures forall i :: i in r <==> 1 <= i <= n
  {
    if n == 0 then {} else UpTo(n - 1) + {n}
  }
}
