/**
 * `shuffle_indices` (main.c:176-181): a Fisher–Yates shuffle that walks `i`
 * from `n - 1` down to 1 and swaps `idx[i]` with `idx[rand() % (i + 1)]`.
 * The values `rand()` returns are an input: `rolls[0]` is the first call,
 * made for `i = n - 1`.
 */
module Shuffle {

  /** `indices[i] = i` for `i < n` (main.c:216-217). */
  function Iota(n: nat): (r: seq<int>)
    ensures |r| == n && forall k :: 0 <= k < n ==> r[k] == k
  {
    if n == 0 then [] else Iota(n - 1) + [n - 1]
  }

  /** `tmp = idx[i]; idx[i] = idx[j]; idx[j] = tmp;` */
  function Swap(s: seq<int>, i: nat, j: nat): (r: seq<int>)
    requires i < |s| && j < |s|
    ensures |r| == |s| && r[i] == s[j] && r[j] == s[i]
    ensures forall k :: 0 <= k < |s| && k != i && k != j ==> r[k] == s[k]
  {
    s[i := s[j]][j := s[i]]
  }

  /** `rand() % (i + 1)`: the slot that iteration `i` swaps with. */
  function Pick(roll: nat, i: nat): (j: nat)
    ensures j <= i
  {
    roll % (i + 1)
  }

  /**
   * The iterations `i, i - 1, ..., 1` of the loop; iteration `i` uses
   * `rolls[t]`, the next one `rolls[t + 1]`, and so on.
   */
  function ShuffleFrom(s: seq<int>, rolls: seq<nat>, t: nat, i: int): (r: seq<int>)
    requires i < |s| && t + i <= |rolls|
    ensures |r| == |s|
    decreases i
  {
    if i <= 0 then s
    else ShuffleFrom(Swap(s, i, Pick(rolls[t], i)), rolls, t + 1, i - 1)
  }

  /** `shuffle_indices(idx, n)` with `n == |s|`; it calls `rand()` `n - 1` times. */
  function Shuffled(s: seq<int>, rolls: seq<nat>): (r: seq<int>)
    requires |s| <= |rolls| + 1
    ensures |r| == |s|
    ensures |s| <= 1 ==> r == s
  {
    ShuffleFrom(s, rolls, 0, |s| - 1)
  }

  /** Each iteration swaps two entries, so the iterations only rearrange. */
  lemma {:induction false} ShuffleFromPermutes(s: seq<int>, rolls: seq<nat>, t: nat, i: int)
    requires i < |s| && t + i <= |rolls|
    ensures multiset(ShuffleFrom(s, rolls, t, i)) == multiset(s)
    decreases i
  {
    if i > 0 {
      var j := Pick(rolls[t], i);
      var r := Swap(s, i, j);
      assert multiset(r) == multiset(s);
      ShuffleFromPermutes(r, rolls, t + 1, i - 1);
    }
  }

  /** `shuffle_indices` leaves a permutation of its input: the same multiset. */
  lemma ShufflePermutes(s: seq<int>, rolls: seq<nat>)
    requires |s| <= |rolls| + 1
    ensures multiset(Shuffled(s, rolls)) == multiset(s)
  {
    ShuffleFromPermutes(s, rolls, 0, |s| - 1);
  }

  /** `s` holds each of `0 .. n-1` exactly once. */
  predicate IsIndexBijection(s: seq<int>, n: nat) {
    && |s| == n
    && (forall k :: 0 <= k < n ==> 0 <= s[k] < n)
    && (forall a, b :: 0 <= a < b < n ==> s[a] != s[b])
  }

  lemma IotaBijection(n: nat)
    ensures IsIndexBijection(Iota(n), n)
  {
  }

  lemma SwapBijection(s: seq<int>, n: nat, i: nat, j: nat)
    requires IsIndexBijection(s, n) && i < n && j < n
    ensures IsIndexBijection(Swap(s, i, j), n)
  {
    var r := Swap(s, i, j);
    forall a, b | 0 <= a < b < n ensures r[a] != r[b] {
      var a' := if a == i then j else if a == j then i else a;
      var b' := if b == i then j else if b == j then i else b;
      assert r[a] == s[a'] && r[b] == s[b'];
      assert a' != b';
      if a' < b' {
        assert s[a'] != s[b'];
      } else {
        assert s[b'] != s[a'];
      }
    }
  }

  /** Every swap keeps a bijection on `0 .. n-1` a bijection. */
  lemma {:induction false} ShuffleFromBijection(s: seq<int>, rolls: seq<nat>, t: nat, i: int)
    requires i < |s| && t + i <= |rolls| && IsIndexBijection(s, |s|)
    ensures IsIndexBijection(ShuffleFrom(s, rolls, t, i), |s|)
    decreases i
  {
    if i > 0 {
      var j := Pick(rolls[t], i);
      SwapBijection(s, |s|, i, j);
      ShuffleFromBijection(Swap(s, i, j), rolls, t + 1, i - 1);
    }
  }

  lemma ShuffleBijection(s: seq<int>, rolls: seq<nat>)
    requires |s| <= |rolls| + 1 && IsIndexBijection(s, |s|)
    ensures IsIndexBijection(Shuffled(s, rolls), |s|)
  {
    ShuffleFromBijection(s, rolls, 0, |s| - 1);
  }

  /** A rearrangement of `0 .. n-1` contains exactly the indices below `n`. */
  lemma PermutationOfIotaRange(s: seq<int>, n: nat)
    requires multiset(s) == multiset(Iota(n))
    ensures forall v :: v in s <==> 0 <= v < n
  {
    forall v ensures v in s <==> 0 <= v < n {
      calc {
        v in s;
        v in multiset(s);
        v in multiset(Iota(n));
        v in Iota(n);
      }
      if 0 <= v < n {
        assert Iota(n)[v] == v;
      }
    }
  }

  /**
   * `shuffle_indices` on an array, in place. Every swap index is within
   * `0 <= j <= i < n`, which the array accesses check.
   */
  method ShuffleIndices(idx: array<int>, rolls: seq<nat>)
    requires idx.Length <= |rolls| + 1
    modifies idx
    ensures idx[..] == Shuffled(old(idx[..]), rolls)
    ensures multiset(idx[..]) == multiset(old(idx[..]))
  {
    var n := idx.Length;
    var i := n - 1;
    while i > 0
      invariant -1 <= i < n
      invariant ShuffleFrom(idx[..], rolls, n - 1 - i, i) == Shuffled(old(idx[..]), rolls)
      decreases i
    {
      var j := Pick(rolls[n - 1 - i], i);
      ghost var before := idx[..];
      var tmp := idx[i];
      idx[i] := idx[j];
      idx[j] := tmp;
      assert idx[..] == Swap(before, i, j);
      i := i - 1;
    }
    ShufflePermutes(old(idx[..]), rolls);
  }
}
