/**
 * The permutation utilities the generator uses on its base row: exchanging
 * two entries, rotating an array to the right, and shuffling an array by a
 * sequence of random index pairs.
 */
module Permutation {

  /** `d * n >= n` for a positive multiplier. */
  lemma MulAtLeast(d: int, n: int)
    requires d >= 1 && n > 0
    ensures d * n >= n
  {
  }

  /** Euclidean remainder is determined by any quotient-remainder split. */
  lemma ModUnique(a: int, n: int, q: int, r: int)
    requires n > 0 && a == q * n + r && 0 <= r < n
    ensures a % n == r
  {
    var q', r' := a / n, a % n;
    assert a == q' * n + r';
    assert (q - q') * n == r' - r;
    if q > q' {
      MulAtLeast(q - q', n);
    } else if q < q' {
      MulAtLeast(q' - q, n);
    }
  }

  /** Adding the modulus does not change the remainder. */
  lemma ModAddModulus(x: int, n: int)
    requires n > 0
    ensures (x + n) % n == x % n
  {
    ModUnique(x + n, n, x / n + 1, x % n);
  }

  /** No value occurs twice. */
  predicate Distinct<T(==)>(s: seq<T>)
  {
    forall i, j :: 0 <= i < j < |s| ==> s[i] != s[j]
  }

  /** `s` with the entries at `i` and `j` exchanged. */
  function SwapAt<T>(s: seq<T>, i: int, j: int): (r: seq<T>)
    requires 0 <= i < |s| && 0 <= j < |s|
    ensures |r| == |s|
  {
    s[i := s[j]][j := s[i]]
  }

  /** Exchanging two entries twice gives back the original sequence. */
  lemma SwapAtTwice<T>(s: seq<T>, i: int, j: int)
    requires 0 <= i < |s| && 0 <= j < |s|
    ensures SwapAt(SwapAt(s, i, j), i, j) == s
  {
  }

  /** Exchanging two entries keeps the multiset of entries. */
  lemma {:induction false} SwapAtIsPermutation<T>(s: seq<T>, i: int, j: int)
    requires 0 <= i < |s| && 0 <= j < |s|
    ensures multiset(SwapAt(s, i, j)) == multiset(s)
  {
    var t := s[i := s[j]];
    assert multiset(t) == multiset(s) - multiset{s[i]} + multiset{s[j]};
    assert multiset(t[j := s[i]]) == multiset(t) - multiset{t[j]} + multiset{s[i]};
  }

  /**
   * swap: exchanges the two ints the pointers address; here the two
   * addresses are two slots of one array.
   */
  method Swap(a: array<int>, i: int, j: int)
    requires 0 <= i < a.Length && 0 <= j < a.Length
    modifies a
    ensures a[..] == SwapAt(old(a[..]), i, j)
  {
    var temp := a[i];
    a[i] := a[j];
    a[j] := temp;
  }

  /** One step to the right: the last entry moves to the front. */
  function RotateOnce<T>(s: seq<T>): (r: seq<T>)
    ensures |r| == |s|
  {
    if s == [] then [] else [s[|s| - 1]] + s[..|s| - 1]
  }

  /** `k` steps to the right. */
  function RotateRight<T>(s: seq<T>, k: nat): (r: seq<T>)
    ensures |r| == |s|
  {
    if k == 0 then s else RotateOnce(RotateRight(s, k - 1))
  }

  /** After rotating right by `k`, position `i` holds the old entry at `(i - k) mod |s|`. */
  lemma {:induction false} RotateRightAt<T>(s: seq<T>, k: nat, i: int)
    requires 0 <= i < |s|
    ensures RotateRight(s, k)[i] == s[(i - k) % |s|]
  {
    if k > 0 {
      var n := |s|;
      if i == 0 {
        RotateRightAt(s, k - 1, n - 1);
        ModAddModulus(0 - k, n);
      } else {
        RotateRightAt(s, k - 1, i - 1);
      }
    }
  }

  /** Rotating by the length of the sequence restores it. */
  lemma RotateRightBySize<T>(s: seq<T>)
    ensures RotateRight(s, |s|) == s
  {
    forall i | 0 <= i < |s|
      ensures RotateRight(s, |s|)[i] == s[i]
    {
      RotateRightAt(s, |s|, i);
      ModUnique(i - |s|, |s|, -1, i);
    }
  }

  /** Rotation only rearranges the entries. */
  lemma {:induction false} RotateRightIsPermutation<T>(s: seq<T>, k: nat)
    ensures multiset(RotateRight(s, k)) == multiset(s)
  {
    if k > 0 {
      RotateRightIsPermutation(s, k - 1);
      var t := RotateRight(s, k - 1);
      if t != [] {
        var n := |t|;
        assert t == t[..n - 1] + [t[n - 1]];
        assert RotateOnce(t) == [t[n - 1]] + t[..n - 1];
        assert multiset(RotateOnce(t)) == multiset([t[n - 1]]) + multiset(t[..n - 1]);
      }
    }
  }

  /** Two rotations add up. */
  lemma {:induction false} RotateRightAdd<T>(s: seq<T>, a: nat, b: nat)
    ensures RotateRight(RotateRight(s, a), b) == RotateRight(s, a + b)
  {
    if b > 0 {
      RotateRightAdd(s, a, b - 1);
    }
  }

  /** A sequence whose entries each moved one place right, the last one to the front, is the rotation by one. */
  lemma OneStepRight<T>(before: seq<T>, after: seq<T>)
    requires |after| == |before|
    requires |before| > 0 ==> after[0] == before[|before| - 1]
    requires forall k :: 0 < k < |after| ==> after[k] == before[k - 1]
    ensures after == RotateOnce(before)
  {
    if |before| > 0 {
      assert forall k :: 0 <= k < |after| ==> after[k] == RotateOnce(before)[k];
    }
  }

  /**
   * The inner loop of shiftRight: neighbour swaps from the back to the front
   * carry the last entry to position 0, moving every other entry one place right.
   */
  method MoveLastToFront(a: array<int>)
    modifies a
    ensures a[..] == RotateOnce(old(a[..]))
  {
    ghost var before := a[..];
    var i := a.Length - 1;
    while i > 0
      invariant if a.Length == 0 then i == -1 else 0 <= i < a.Length
      invariant forall k :: i < k < a.Length ==> a[k] == before[k - 1]
      invariant 0 <= i ==> a[i] == before[a.Length - 1]
      invariant forall k :: 0 <= k < i ==> a[k] == before[k]
    {
      Swap(a, i, i - 1);
      i := i - 1;
    }
    OneStepRight(before, a[..]);
  }

  /**
   * shiftRight: `steps` times, the last entry is swapped down to the front,
   * one neighbour pair at a time. `size` is the array's length.
   */
  method ShiftRight(a: array<int>, steps: int)
    modifies a
    ensures a[..] == RotateRight(old(a[..]), if steps > 0 then steps else 0)
  {
    var step := 0;
    while step < steps
      invariant 0 <= step && (steps > 0 ==> step <= steps) && (steps <= 0 ==> step == 0)
      invariant a[..] == RotateRight(old(a[..]), step)
    {
      MoveLastToFront(a);
      step := step + 1;
    }
  }

  /**
   * The effect of shuffle on `s`: round i swaps the entries at positions
   * draws[i].0 mod |s| and draws[i].1 mod |s| (the two rand() results of
   * that round).
   */
  function Shuffled(s: seq<int>, draws: seq<(nat, nat)>): (r: seq<int>)
    requires draws != [] ==> s != []
    ensures |r| == |s|
  {
    if draws == [] then s
    else
      var n := |draws|;
      SwapAt(Shuffled(s, draws[..n - 1]), draws[n - 1].0 % |s|, draws[n - 1].1 % |s|)
  }

  /** Whatever the draws, shuffling only rearranges the entries. */
  lemma {:induction false} ShuffledIsPermutation(s: seq<int>, draws: seq<(nat, nat)>)
    requires draws != [] ==> s != []
    ensures multiset(Shuffled(s, draws)) == multiset(s)
  {
    if draws != [] {
      var n := |draws|;
      ShuffledIsPermutation(s, draws[..n - 1]);
      SwapAtIsPermutation(Shuffled(s, draws[..n - 1]), draws[n - 1].0 % |s|, draws[n - 1].1 % |s|);
    }
  }

  /** One more round of the shuffle swaps the two positions the next draw names. */
  lemma ShuffledStep(s: seq<int>, draws: seq<(nat, nat)>, i: int)
    requires 0 <= i < |draws| && s != []
    ensures Shuffled(s, draws[..i + 1]) == SwapAt(Shuffled(s, draws[..i]), draws[i].0 % |s|, draws[i].1 % |s|)
  {
    assert draws[..i + 1][..i] == draws[..i];
  }

  /** shuffle: `size` rounds, each swapping two randomly drawn positions. */
  method Shuffle(a: array<int>, draws: seq<(nat, nat)>)
    requires |draws| == a.Length
    modifies a
    ensures a[..] == Shuffled(old(a[..]), draws)
    ensures multiset(a[..]) == multiset(old(a[..]))
  {
    var i := 0;
    while i < a.Length
      invariant 0 <= i <= a.Length
      invariant a[..] == Shuffled(old(a[..]), draws[..i])
    {
      var x := draws[i].0 % a.Length;
      var y := draws[i].1 % a.Length;
      ShuffledStep(old(a[..]), draws, i);
      Swap(a, x, y);
      i := i + 1;
    }
    assert draws[..a.Length] == draws;
    ShuffledIsPermutation(old(a[..]), draws);
  }

  /** A value occurs at most once in a sequence without repeats. */
  lemma {:induction false} DistinctMultiplicity<T>(s: seq<T>, v: T)
    requires Distinct(s)
    ensures multiset(s)[v] <= 1
  {
    if s != [] {
      var n := |s|;
      assert s == s[..n - 1] + [s[n - 1]];
      DistinctMultiplicity(s[..n - 1], v);
      if s[n - 1] == v {
        assert v !in s[..n - 1];
      }
    }
  }

  /** A permutation of a sequence without repeats has no repeats. */
  lemma PermutationKeepsDistinct<T>(s: seq<T>, t: seq<T>)
    requires multiset(s) == multiset(t) && Distinct(t)
    ensures Distinct(s)
  {
    forall i, j | 0 <= i < j < |s|
      ensures s[i] != s[j]
    {
      if s[i] == s[j] {
        assert s == s[..i] + [s[i]] + s[i + 1..j] + [s[j]] + s[j + 1..];
        assert multiset(s)[s[i]] >= 2;
        DistinctMultiplicity(t, s[i]);
      }
    }
  }
}
