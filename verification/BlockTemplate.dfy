/**
 The template code of cgminer.c: `GbtMerkleBins` is gbt_merkle_bins, `MerkleRoot` the folding loop shared by
 __gbt_merkleroot, gen_stratum_work and gen_solo_work, `GbtWitnessData` is gbt_witness_data.
 A 32-byte digest is one array slot; byte offset 32 * i of the source is slot i here.
 */
module BlockTemplate {
  import opened Merkle

  // A member of a JSON transaction that should hold a digest in hex.
  datatype HexField<+T> = Absent | Malformed | Digest(value: T)

  datatype Txn<+T> = Txn(hasData: bool, txid: HexField<T>, hash: HexField<T>)

  const MERKLE_SLOTS := 16

  class GbtPool<T(0)> {
    var transactions: nat
    var merkles: nat
    const merklebin: array<T>
    // The transaction ids the stored branch stands for.
    ghost var txids: seq<T>

    constructor ()
      ensures merkles == 0 && txids == [] && fresh(merklebin) && Valid()
    {
      transactions, merkles, txids := 0, 0, [];
      merklebin := new T[MERKLE_SLOTS];
    }

    ghost predicate Valid()
      reads this
    {
      merklebin.Length == MERKLE_SLOTS && merkles <= MERKLE_SLOTS
    }

    ghost predicate Stores(hash: (T, T) -> T)
      reads this, merklebin
    {
      Valid() && merklebin[..merkles] == Branch(hash, txids)
    }

    // Collapses the transaction ids level by level, keeping the first slot of each level.
    method GbtMerkleBins(hash: (T, T) -> T, zero: T, txns: seq<Txn<T>>)
      requires Valid() && |txns| < 65536
      modifies this, merklebin
      ensures transactions == |txns|
      ensures |txids| == |txns| || txids == []
      ensures |txids| == |txns| <==> forall i | 0 <= i < |txns| ::
        txns[i].hasData && (txns[i].txid.Digest? || (txns[i].txid.Absent? && txns[i].hash.Digest?))
      ensures forall i | 0 <= i < |txids| && txns[i].txid.Digest? :: txids[i] == txns[i].txid.value
      ensures forall i | 0 <= i < |txids| && txns[i].txid.Absent? :: txns[i].hash == Digest(txids[i])
      ensures Stores(hash)
    {
      transactions, merkles, txids := |txns|, 0, [];
      var hashbin := new T[|txns| + 2];
      hashbin[0] := zero;
      var ok := LoadIds(txns, hashbin);
      if !ok {
        return;
      }
      txids := hashbin[1..|txns| + 1];
      SixteenSlotsExactly(hash, txids);
      CollapseIds(hash, hashbin);
    }

    // The loop over the levels; slot 0 is left for the coinbase.
    method CollapseIds(hash: (T, T) -> T, hashbin: array<T>)
      requires Valid() && merkles == 0 && hashbin != merklebin
      requires hashbin.Length == |txids| + 2 && hashbin[1..|txids| + 1] == txids
      requires |Branch(hash, txids)| <= MERKLE_SLOTS
      modifies this`merkles, merklebin, hashbin
      ensures Stores(hash)
    {
      var binleft := hashbin.Length - 1;
      ghost var tail := hashbin[1..binleft];
      assert merklebin[..0] + Branch(hash, tail) == Branch(hash, tail);
      hide Branch, TailLevel;
      while binleft != 1
        invariant 1 <= binleft < hashbin.Length && tail == hashbin[1..binleft]
        invariant Valid() && merklebin[..merkles] + Branch(hash, tail) == Branch(hash, txids)
        decreases binleft
      {
        BranchUnfolds(hash, merklebin[..merkles], tail);
        ghost var done := merklebin[..merkles];
        merklebin[merkles] := hashbin[1];
        merkles := merkles + 1;
        assert merklebin[..merkles] == done + [tail[0]];
        tail := TailLevel(hash, tail);
        binleft := CollapseLevel(hash, hashbin, binleft);
      }
      BranchOfNone(hash, tail);
      assert merklebin[..merkles] + [] == merklebin[..merkles];
    }

    // Folds the hash of the coinbase through the stored branch.
    method MerkleRoot(hash: (T, T) -> T, coinbaseHash: T) returns (merkleRoot: T)
      requires Valid()
      ensures merkleRoot == Fold(hash, coinbaseHash, merklebin[..merkles])
      ensures Stores(hash) ==> merkleRoot == Root(hash, [coinbaseHash] + txids)
    {
      merkleRoot := coinbaseHash;
      var i := 0;
      while i < merkles
        invariant 0 <= i <= merkles
        invariant Fold(hash, merkleRoot, merklebin[i..merkles]) == Fold(hash, coinbaseHash, merklebin[..merkles])
      {
        assert merklebin[i..merkles][1..] == merklebin[i + 1..merkles];
        merkleRoot := hash(merkleRoot, merklebin[i]);
        i := i + 1;
      }
      FoldGivesRoot(hash, coinbaseHash, txids);
    }
  }

  lemma Pow2Values()
    ensures Pow2(16) == 65536
  {
    assert Pow2(8) == 256;
  }

  // Copies the ids into slots 1, 2, ...; false when a transaction has no data or no decodable id. The id is the
  // txid; the hash stands in only for a txid that is missing.
  method LoadIds<T>(txns: seq<Txn<T>>, hashbin: array<T>) returns (ok: bool)
    requires hashbin.Length == |txns| + 2
    modifies hashbin
    ensures ok <==> forall i | 0 <= i < |txns| ::
      txns[i].hasData && (txns[i].txid.Digest? || (txns[i].txid.Absent? && txns[i].hash.Digest?))
    ensures ok ==> forall i | 0 <= i < |txns| && txns[i].txid.Digest? :: hashbin[i + 1] == txns[i].txid.value
    ensures ok ==> forall i | 0 <= i < |txns| && txns[i].txid.Absent? :: txns[i].hash == Digest(hashbin[i + 1])
    ensures hashbin[0] == old(hashbin[0])
  {
    for i := 0 to |txns|
      invariant forall k | 0 <= k < i :: txns[k].hasData
    {
      if !txns[i].hasData {
        return false;
      }
    }
    for i := 0 to |txns|
      invariant forall k | 0 <= k < i ::
        Digest(hashbin[k + 1]) == if txns[k].txid.Absent? then txns[k].hash else txns[k].txid
      invariant hashbin[0] == old(hashbin[0])
    {
      var txid := txns[i].txid;
      if txid.Absent? {
        txid := txns[i].hash;
      }
      if !txid.Digest? {
        return false;
      }
      hashbin[1 + i] := txid.value;
    }
    return true;
  }

  lemma BranchUnfolds<T>(hash: (T, T) -> T, done: seq<T>, tail: seq<T>)
    requires tail != []
    ensures |Branch(hash, tail)| > 0
    ensures done + Branch(hash, tail) == done + [tail[0]] + Branch(hash, TailLevel(hash, tail))
  {
    assert Branch(hash, tail) == [tail[0]] + Branch(hash, TailLevel(hash, tail));
  }

  // A level with its last digest repeated when it needs one more to pair up.
  ghost predicate Padded<T>(level: seq<T>, padded: seq<T>) {
    && level != [] && level <= padded && |padded| % 2 == 0
    && (padded == level || padded == level + [level[|level| - 1]])
  }

  lemma PaddedPair<T>(hash: (T, T) -> T, level: seq<T>, padded: seq<T>, p: nat)
    requires Padded(level, padded) && 2 * p < |padded|
    ensures |NextLevel(hash, level)| == |padded| / 2
    ensures NextLevel(hash, level)[p] == hash(padded[2 * p], padded[2 * p + 1])
  {
  }

  // The same for a level whose first slot is kept free.
  lemma PaddedTailPair<T>(hash: (T, T) -> T, leaf: T, tail: seq<T>, padded: seq<T>, p: nat)
    requires Padded([leaf] + tail, padded) && tail != [] && 1 <= p && 2 * p < |padded|
    ensures |TailLevel(hash, tail)| == |padded| / 2 - 1
    ensures TailLevel(hash, tail)[p - 1] == hash(padded[2 * p], padded[2 * p + 1])
  {
  }

  // Hashes slots (2,3), (4,5), ... into slots 1, 2, ... in place.
  method HashTail<T>(hash: (T, T) -> T, hashbin: array<T>, binlen: nat, ghost tail: seq<T>)
    requires tail != [] && 2 <= binlen <= hashbin.Length
    requires Padded([hashbin[0]] + tail, hashbin[..binlen])
    modifies hashbin
    ensures hashbin[1..binlen / 2] == TailLevel(hash, tail)
  {
    ghost var leaf, padded, up := hashbin[0], hashbin[..binlen], TailLevel(hash, tail);
    var i, j := 1, 2;
    while j < binlen
      invariant j == 2 * i <= binlen
      invariant hashbin[j..binlen] == padded[j..]
      invariant i <= |up| + 1 && hashbin[1..i] == up[..i - 1]
    {
      PaddedTailPair(hash, leaf, tail, padded, i);
      hashbin[i] := PairAt(hash, hashbin, j, binlen, padded);
      assert hashbin[1..i + 1] == hashbin[1..i] + [hashbin[i]];
      i, j := i + 1, j + 2;
    }
    if i > 1 { PaddedTailPair(hash, leaf, tail, padded, 1); }
  }

  // One level up; an odd level repeats its last digest first.
  method CollapseLevel<T>(hash: (T, T) -> T, hashbin: array<T>, binleft: nat) returns (half: nat)
    requires 1 < binleft < hashbin.Length
    modifies hashbin
    ensures half == (binleft + 1) / 2 && hashbin[1..half] == TailLevel(hash, old(hashbin[1..binleft]))
  {
    hide TailLevel;
    ghost var tail, level := hashbin[1..binleft], hashbin[..binleft];
    assert level == [hashbin[0]] + tail;
    var binlen := binleft;
    if binlen % 2 == 1 {
      hashbin[binlen] := hashbin[binlen - 1];
      binlen := binlen + 1;
      assert hashbin[..binlen] == level + [level[|level| - 1]];
    }
    HashTail(hash, hashbin, binlen, tail);
    half := binlen / 2;
  }

  lemma BranchOfNone<T>(hash: (T, T) -> T, tail: seq<T>)
    requires tail == []
    ensures Branch(hash, tail) == []
  {
  }

  // One more transaction than the slots allow for really needs a seventeenth.
  lemma SixteenSlotsExactly<T>(hash: (T, T) -> T, ids: seq<T>)
    ensures |Branch(hash, ids)| <= MERKLE_SLOTS <==> |ids| < 65536
  {
    BranchLength(hash, ids, MERKLE_SLOTS);
    Pow2Values();
  }

  const WITNESS_HEADER: seq<bv8> := [0xaa, 0x21, 0xa9, 0xed]

  datatype Witness<+T> = NoWitness | Witness(header: seq<bv8>, commitment: T)

  predicate AllHashed<T>(txns: seq<Txn<T>>) {
    forall i | 0 <= i < |txns| :: txns[i].hash.Digest?
  }

  function HashesOf<T>(txns: seq<Txn<T>>): (hs: seq<T>)
    requires AllHashed(txns)
    ensures |hs| == |txns| && forall i | 0 <= i < |txns| :: txns[i].hash == Digest(hs[i])
  {
    seq(|txns|, i requires 0 <= i < |txns| => txns[i].hash.value)
  }

  // The commitment structure of BIP 141: the header, then the hash of the witness root and the reserved value.
  method GbtWitnessData<T(0)>(hash: (T, T) -> T, zero: T, txns: seq<Txn<T>>, availSize: int) returns (w: Witness<T>)
    ensures w.Witness? <==> availSize >= 36 && forall i | 0 <= i < |txns| :: txns[i].hash.Digest?
    ensures w.Witness? ==> w.header == [0xaa, 0x21, 0xa9, 0xed]
    ensures w.Witness? ==> w.commitment == hash(Root(hash, [zero] + HashesOf(txns)), zero)
  {
    var hashbin := new T[|txns| + 2];
    hashbin[0] := zero;
    if availSize < |WITNESS_HEADER| + 32 {
      return NoWitness;
    }
    var ok := LoadHashes(txns, hashbin);
    if !ok {
      return NoWitness;
    }
    ghost var hashes := HashesOf(txns);
    assert forall i | 0 <= i < |txns| :: Digest(hashbin[i + 1]) == Digest(hashes[i]);
    assert hashbin[..|txns| + 1] == [zero] + hashes;
    CollapseAll(hash, hashbin);
    hashbin[1] := zero;
    return Witness(WITNESS_HEADER, hash(hashbin[0], hashbin[1]));
  }

  method LoadHashes<T>(txns: seq<Txn<T>>, hashbin: array<T>) returns (ok: bool)
    requires hashbin.Length == |txns| + 2
    modifies hashbin
    ensures ok <==> forall i | 0 <= i < |txns| :: txns[i].hash.Digest?
    ensures ok ==> forall i | 0 <= i < |txns| :: txns[i].hash == Digest(hashbin[i + 1])
    ensures hashbin[0] == old(hashbin[0])
  {
    for i := 0 to |txns|
      invariant forall k | 0 <= k < i :: txns[k].hash == Digest(hashbin[k + 1])
      invariant hashbin[0] == old(hashbin[0])
    {
      if !txns[i].hash.Digest? {
        return false;
      }
      hashbin[1 + i] := txns[i].hash.value;
    }
    return true;
  }

  // Halves the level until one slot is left; every pass overwrites the slots it reads from.
  method CollapseAll<T>(hash: (T, T) -> T, hashbin: array<T>)
    requires hashbin.Length >= 2
    modifies hashbin
    ensures hashbin[0] == Root(hash, old(hashbin[..hashbin.Length - 1]))
  {
    hide NextLevel, Root;
    var txncount := hashbin.Length - 1;
    ghost var leaves := hashbin[..txncount];
    while txncount > 1
      invariant 1 <= txncount < hashbin.Length
      invariant Root(hash, hashbin[..txncount]) == Root(hash, leaves)
      decreases txncount
    {
      RootOfNext(hash, hashbin[..txncount]);
      txncount := CollapseWhole(hash, hashbin, txncount);
    }
    RootOfOne(hash, hashbin[..txncount]);
  }

  lemma RootOfOne<T>(hash: (T, T) -> T, leaves: seq<T>)
    requires |leaves| == 1
    ensures Root(hash, leaves) == leaves[0]
  {
  }

  // One pass of the loop, in place from slot 0 on.
  method CollapseWhole<T>(hash: (T, T) -> T, hashbin: array<T>, txncount: nat) returns (half: nat)
    requires 1 < txncount < hashbin.Length
    modifies hashbin
    ensures half == (txncount + 1) / 2 && hashbin[..half] == NextLevel(hash, old(hashbin[..txncount]))
  {
    hide NextLevel;
    ghost var level := hashbin[..txncount];
    var n := txncount;
    if n % 2 == 1 {
      hashbin[n] := hashbin[n - 1];
      n := n + 1;
      assert hashbin[..n] == level + [level[|level| - 1]];
    }
    HashPairs(hash, hashbin, n, level);
    half := n / 2;
  }

  method HashPairs<T>(hash: (T, T) -> T, hashbin: array<T>, txncount: nat, ghost level: seq<T>)
    requires txncount <= hashbin.Length && Padded(level, hashbin[..txncount])
    modifies hashbin
    ensures hashbin[..txncount / 2] == NextLevel(hash, level)
  {
    ghost var padded, up := hashbin[..txncount], NextLevel(hash, level);
    assert |padded| == txncount && txncount % 2 == 0 && txncount > 0;
    PaddedPair(hash, level, padded, 0);
    hide NextLevel, Padded;
    var i := 0;
    ghost var p := 0;
    while i < txncount
      invariant i == 2 * p <= txncount
      invariant hashbin[i..txncount] == padded[i..]
      invariant hashbin[..p] == up[..p]
    {
      PaddedPair(hash, level, padded, p);
      var h := PairAt(hash, hashbin, i, txncount, padded);
      assert i / 2 == p < |up| && h == up[p];
      hashbin[i / 2] := h;
      assert hashbin[..p + 1] == hashbin[..p] + [h];
      i, p := i + 2, p + 1;
    }
  }

  // The hash of two neighbouring slots.
  method PairAt<T>(hash: (T, T) -> T, hashbin: array<T>, i: nat, n: nat, ghost padded: seq<T>) returns (h: T)
    requires i + 1 < n <= hashbin.Length && |padded| == n && hashbin[i..n] == padded[i..]
    ensures h == hash(padded[i], padded[i + 1])
  {
    assert hashbin[i] == hashbin[i..n][0] && hashbin[i + 1] == hashbin[i..n][1];
    h := hash(hashbin[i], hashbin[i + 1]);
  }

  // The witness root is what folding the zero coinbase entry through the same branch would give.
  lemma WitnessRootIsFold<T>(hash: (T, T) -> T, zero: T, hashes: seq<T>)
    ensures Root(hash, [zero] + hashes) == Fold(hash, zero, Branch(hash, hashes))
  {
    FoldGivesRoot(hash, zero, hashes);
  }
}
