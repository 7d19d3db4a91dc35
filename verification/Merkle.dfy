/**
 Merkle roots and Merkle branches.  The double SHA-256 of two concatenated digests is a parameter `hash`,
 so everything here holds for every pair hash.
 */
module Merkle {

  // The next level of the tree: pair up, the last one with itself when the number is odd.
  function NextLevel<T>(hash: (T, T) -> T, leaves: seq<T>): (up: seq<T>)
    ensures |up| == (|leaves| + 1) / 2
  {
    seq((|leaves| + 1) / 2, i requires 0 <= i < (|leaves| + 1) / 2 =>
      hash(leaves[2 * i], leaves[if 2 * i + 1 < |leaves| then 2 * i + 1 else 2 * i]))
  }

  function Root<T>(hash: (T, T) -> T, leaves: seq<T>): T
    requires leaves != []
    decreases |leaves|
  {
    if |leaves| == 1 then leaves[0] else Root(hash, NextLevel(hash, leaves))
  }

  // Combine a leaf with the siblings on its way up.
  function Fold<T>(hash: (T, T) -> T, leaf: T, branch: seq<T>): T
    decreases |branch|
  {
    if branch == [] then leaf else Fold(hash, hash(leaf, branch[0]), branch[1..])
  }

  // The leaves to the right of the first one, one level up.
  function TailLevel<T>(hash: (T, T) -> T, tail: seq<T>): (up: seq<T>)
    requires tail != []
    ensures |up| == |tail| / 2
  {
    seq(|tail| / 2, i requires 0 <= i < |tail| / 2 =>
      hash(tail[2 * i + 1], tail[if 2 * i + 2 < |tail| then 2 * i + 2 else 2 * i + 1]))
  }

  // The siblings of the first leaf when `tail` holds all the others.
  function Branch<T>(hash: (T, T) -> T, tail: seq<T>): seq<T>
    decreases |tail|
  {
    if tail == [] then [] else [tail[0]] + Branch(hash, TailLevel(hash, tail))
  }

  // Whatever the first leaf is, folding it through the branch of the others gives the root of all.
  lemma {:induction false} FoldGivesRoot<T>(hash: (T, T) -> T, leaf: T, tail: seq<T>)
    ensures Fold(hash, leaf, Branch(hash, tail)) == Root(hash, [leaf] + tail)
    decreases |tail|
  {
    if tail != [] {
      var up := TailLevel(hash, tail);
      assert NextLevel(hash, [leaf] + tail) == [hash(leaf, tail[0])] + up;
      FoldGivesRoot(hash, hash(leaf, tail[0]), up);
    }
  }

  function Pow2(k: nat): (p: nat)
    ensures p >= 1
  {
    if k == 0 then 1 else 2 * Pow2(k - 1)
  }

  lemma Pow2Grows(j: nat, k: nat)
    requires j <= k
    ensures Pow2(j) <= Pow2(k)
  {
    if j < k {
      Pow2Grows(j, k - 1);
    }
  }

  lemma RootOfNext<T>(hash: (T, T) -> T, leaves: seq<T>)
    requires |leaves| > 1
    ensures Root(hash, NextLevel(hash, leaves)) == Root(hash, leaves)
  {
  }

  lemma NextLevelConcat<T>(hash: (T, T) -> T, l: seq<T>, r: seq<T>)
    requires |l| % 2 == 0
    ensures NextLevel(hash, l + r) == NextLevel(hash, l) + NextLevel(hash, r)
  {
  }

  // Two trees of the same power of two of leaves make one: the left root is hashed before the right one.
  lemma {:induction false} RootOfHalves<T>(hash: (T, T) -> T, l: seq<T>, r: seq<T>, k: nat)
    requires |l| == |r| == Pow2(k)
    ensures Root(hash, l + r) == hash(Root(hash, l), Root(hash, r))
    decreases k
  {
    if k == 0 {
      assert NextLevel(hash, l + r) == [hash(l[0], r[0])];
    } else {
      NextLevelConcat(hash, l, r);
      RootOfHalves(hash, NextLevel(hash, l), NextLevel(hash, r), k - 1);
    }
  }

  lemma LastTwice<T>(hash: (T, T) -> T, front: seq<T>, last: seq<T>)
    requires |front| % 2 == 0 && |front| > 0 && |last| == 1
    ensures Root(hash, front + last) == Root(hash, front + last + last)
  {
    assert NextLevel(hash, front + last) == NextLevel(hash, front + last + last);
  }

  lemma RootsAgree<T>(hash: (T, T) -> T, x: seq<T>, y: seq<T>)
    requires |x| > 1 && |y| > 1 && Root(hash, NextLevel(hash, x)) == Root(hash, NextLevel(hash, y))
    ensures Root(hash, x) == Root(hash, y)
  {
  }

  lemma NextLevelTwice<T>(hash: (T, T) -> T, front: seq<T>, last: seq<T>, all: seq<T>)
    requires |front| % 2 == 0 && |last| % 2 == 0 && all == front + last
    ensures |all| % 2 == 0 && NextLevel(hash, all) == NextLevel(hash, front) + NextLevel(hash, last)
    ensures NextLevel(hash, all + last) == NextLevel(hash, all) + NextLevel(hash, last)
  {
    hide NextLevel;
    assert |all| == |front| + |last|;
    NextLevelConcat(hash, front, last);
    NextLevelConcat(hash, all, last);
  }

  lemma BlockSizes(h: nat, k: nat)
    requires h > 0
    ensures h * Pow2(k) > 0 && (k == 0 ==> Pow2(k) == 1)
    ensures k > 0 ==> Pow2(k) == 2 * Pow2(k - 1) && h * Pow2(k) == 2 * (h * Pow2(k - 1))
  {
  }

  // An odd number of blocks, each of the same power of two of leaves, has the root of the list in which the
  // last block stands twice. This, the halves and the single leaf fix the root of every list.
  lemma {:induction false} RootOfOddBlocks<T>(hash: (T, T) -> T, front: seq<T>, last: seq<T>, k: nat, h: nat)
    requires h > 0 && |front| == 2 * (h * Pow2(k)) && |last| == Pow2(k)
    ensures Root(hash, front + last) == Root(hash, front + last + last)
    decreases k
  {
    hide NextLevel, Pow2, Root;
    BlockSizes(h, k);
    if k == 0 {
      LastTwice(hash, front, last);
    } else {
      NextLevelTwice(hash, front, last, front + last);
      RootOfOddBlocks(hash, NextLevel(hash, front), NextLevel(hash, last), k - 1, h);
      RootsAgree(hash, front + last, front + last + last);
    }
  }

  // How many times the number of other leaves can be halved.
  function Levels(n: nat): nat { if n == 0 then 0 else 1 + Levels(n / 2) }

  lemma {:induction false} LevelsBound(n: nat)
    ensures n + 1 <= Pow2(Levels(n)) && (n > 0 ==> Levels(n) > 0 && Pow2(Levels(n) - 1) <= n)
  {
    if n > 0 {
      var h := Levels(n / 2);
      LevelsBound(n / 2);
      assert Levels(n) == 1 + h && Pow2(1 + h) == 2 * Pow2(h);
      assert h > 0 ==> Pow2(h) == 2 * Pow2(h - 1);
    }
  }

  lemma {:induction false} BranchHasLevels<T>(hash: (T, T) -> T, tail: seq<T>)
    ensures |Branch(hash, tail)| == Levels(|tail|)
    decreases |tail|
  {
    if tail != [] {
      BranchHasLevels(hash, TailLevel(hash, tail));
    }
  }

  // The branch has the least k with 2^k >= number of leaves.
  lemma BranchLength<T>(hash: (T, T) -> T, tail: seq<T>, k: nat)
    ensures Pow2(k) >= |tail| + 1 <==> k >= |Branch(hash, tail)|
  {
    hide Branch;
    BranchHasLevels(hash, tail);
    LevelsBound(|tail|);
    var b := Levels(|tail|);
    if k >= b {
      Pow2Grows(b, k);
    } else {
      Pow2Grows(k, b - 1);
    }
  }
}
