/**
 The epoch of a seed hash: a search over the iterated hash of zero, short-cut by the epoch found last.
 The hash function is a parameter; only the first 32-bit word of a hash is compared.
 */
module EpochSearch {

  type Hash = h: seq<bv32> | |h| == 8 witness seq(8, _ => 0)

  type HashFunction = Hash -> Hash

  const MAX_INT32: nat := 0x7FFF_FFFF
  const MAX_UINT32: nat := 0xFFFF_FFFF

  /** A number cut to 32 bits and read as signed. */
  function Signed(x: nat): (n: int)
    ensures -0x8000_0000 <= n < 0x8000_0000 && n % 0x1_0000_0000 == x % 0x1_0000_0000
  {
    var low := x % 0x1_0000_0000;
    if low <= MAX_INT32 then low else low - 0x1_0000_0000
  }

  /** Below the largest signed number the successor is the number of the next epoch. */
  lemma NextSigned(x: nat)
    requires Signed(x) < MAX_INT32
    ensures Signed(x + 1) == Signed(x) + 1
  {
  }

  /** The seed of an epoch. */
  function Seed(keccak: HashFunction, epoch: nat): Hash {
    if epoch == 0 then seq(8, _ => 0) else keccak(Seed(keccak, epoch - 1))
  }

  function First(keccak: HashFunction, epoch: nat): bv32 {
    Seed(keccak, epoch)[0]
  }

  /** The least epoch in [from, maxEpoch] whose seed starts with the word, or -1. */
  function Linear(keccak: HashFunction, word: bv32, from: nat, maxEpoch: nat): (e: int)
    ensures e == -1 ==> forall i | from <= i <= maxEpoch :: First(keccak, i) != word
    ensures e != -1 ==> from <= e <= maxEpoch && First(keccak, e) == word
    ensures e != -1 ==> forall i | from <= i < e :: First(keccak, i) != word
    decreases maxEpoch + 1 - from
  {
    if from > maxEpoch then -1
    else if First(keccak, from) == word then from
    else Linear(keccak, word, from + 1, maxEpoch)
  }

  /** The shortcut: the cached epoch or its successor, or -1. */
  function Probe(keccak: HashFunction, cached: nat, word: bv32): int {
    if word == First(keccak, cached) then cached
    else if First(keccak, cached + 1) == word then cached + 1
    else -1
  }

  /** The answer of a call made with this cached epoch. */
  function Find(keccak: HashFunction, cached: nat, word: bv32, maxEpoch: nat): int {
    var hit := Probe(keccak, cached, word);
    if hit != -1 then hit else Linear(keccak, word, 0, maxEpoch)
  }

  function CachedAfter(cached: nat, answer: int): nat {
    if answer < 0 then cached else answer
  }

  class ContextGenerator {
    const keccak: HashFunction
    var cachedEpochNumber: int
    var cachedSeed: Hash
    ghost var cachedEpoch: nat

    /** The cached seed belongs to the cached epoch, whose number is kept as a signed 32-bit one. */
    ghost predicate Valid()
      reads this
    {
      cachedEpochNumber == Signed(cachedEpoch) && cachedSeed == Seed(keccak, cachedEpoch)
    }

    constructor (keccak: HashFunction)
      ensures Valid() && this.keccak == keccak && cachedEpoch == 0
    {
      this.keccak := keccak;
      cachedEpochNumber := 0;
      cachedSeed := seq(8, _ => 0);
      cachedEpoch := 0;
    }

    method FindEpoch(seedHash: Hash, maxEpoch: nat) returns (epoch: int)
      requires Valid() && maxEpoch < MAX_UINT32 && cachedEpochNumber < MAX_INT32
      modifies this
      ensures Valid()
      ensures var e := Find(keccak, old(cachedEpoch), seedHash[0], maxEpoch);
              epoch == (if e == -1 then -1 else Signed(e)) && cachedEpoch == CachedAfter(old(cachedEpoch), e)
    {
      hide Signed;
      NextSigned(cachedEpoch);
      var epochNumber, seedPart, seed := cachedEpochNumber, seedHash[0], cachedSeed;
      if seedPart == seed[0] {
        return epochNumber;
      }
      seed := keccak(seed);
      if seed[0] == seedPart {
        cachedSeed := seed;
        cachedEpochNumber := epochNumber + 1;
        cachedEpoch := cachedEpoch + 1;
        return epochNumber + 1;
      }
      var hash: Hash := seq(8, _ => 0);
      var i := 0;
      while i <= maxEpoch
        invariant 0 <= i <= maxEpoch + 1 && hash == Seed(keccak, i)
        invariant Linear(keccak, seedPart, 0, maxEpoch) == Linear(keccak, seedPart, i, maxEpoch)
      {
        if hash[0] == seedPart {
          cachedSeed := hash;
          cachedEpochNumber := Signed(i);
          cachedEpoch := i;
          return Signed(i);
        }
        hash := keccak(hash);
        i := i + 1;
      }
      return -1;
    }
  }

  /** The number answered is the epoch found exactly when that fits a signed number. */
  lemma NarrowingExact(e: nat)
    ensures Signed(e) == e <==> e < 0x8000_0000
  {
  }

  /** An answer names an epoch whose seed starts with the word; no answer means none up to the limit does. */
  lemma FindSound(keccak: HashFunction, cached: nat, word: bv32, maxEpoch: nat)
    ensures var e := Find(keccak, cached, word, maxEpoch);
            && -1 <= e <= (if cached + 1 > maxEpoch then cached + 1 else maxEpoch)
            && (e >= 0 ==> First(keccak, e) == word)
            && (e == -1 ==> forall i | 0 <= i <= maxEpoch :: First(keccak, i) != word)
  {
  }

  // ----- Histories -------------------------------------------------------------------------------

  datatype Call = Call(word: bv32, maxEpoch: nat)

  /** The cached epoch after a history of calls, the last call being the last element. */
  function CachedBy(keccak: HashFunction, calls: seq<Call>): nat {
    if calls == [] then 0
    else
      var c, last := CachedBy(keccak, calls[..|calls| - 1]), calls[|calls| - 1];
      CachedAfter(c, Find(keccak, c, last.word, last.maxEpoch))
  }

  /** Each call moves the cached epoch beyond the limits in play by at most one. */
  lemma {:induction false} CachedBound(keccak: HashFunction, calls: seq<Call>, limit: nat)
    requires forall i | 0 <= i < |calls| :: calls[i].maxEpoch <= limit
    ensures CachedBy(keccak, calls) <= limit + |calls|
  {
    if calls != [] {
      var c, last := CachedBy(keccak, calls[..|calls| - 1]), calls[|calls| - 1];
      CachedBound(keccak, calls[..|calls| - 1], limit);
      FindSound(keccak, c, last.word, last.maxEpoch);
    }
  }

  ghost predicate DistinctUpTo(keccak: HashFunction, n: nat) {
    forall i, j | 0 <= i < j <= n :: First(keccak, i) != First(keccak, j)
  }

  /** With distinct first words the answer for the seed of an epoch in range is that epoch, after any calls. */
  lemma HistoryIrrelevant(keccak: HashFunction, calls: seq<Call>, limit: nat, epoch: nat, maxEpoch: nat)
    requires forall i | 0 <= i < |calls| :: calls[i].maxEpoch <= limit
    requires epoch <= maxEpoch <= limit && DistinctUpTo(keccak, limit + |calls| + 1)
    ensures Find(keccak, CachedBy(keccak, calls), First(keccak, epoch), maxEpoch) == epoch
    ensures Linear(keccak, First(keccak, epoch), 0, maxEpoch) == epoch
  {
    CachedBound(keccak, calls, limit);
  }

  /** A call answers like the plain search exactly when the shortcut misses or hits the first match in range. */
  lemma AgreesWithLinear(keccak: HashFunction, cached: nat, word: bv32, maxEpoch: nat)
    ensures var hit := Probe(keccak, cached, word);
            Find(keccak, cached, word, maxEpoch) == Linear(keccak, word, 0, maxEpoch) <==>
            hit == -1 || (hit <= maxEpoch && forall i | 0 <= i < hit :: First(keccak, i) != word)
  {
    var e := Linear(keccak, word, 0, maxEpoch);
  }

  /** The shortcut ignores the limit: an epoch just beyond it is found after its predecessor, and only then. */
  lemma LimitNotEnforced(keccak: HashFunction, limit: nat)
    requires limit > 0 && DistinctUpTo(keccak, limit + 1)
    ensures Find(keccak, 0, First(keccak, limit + 1), limit) == -1
    ensures var calls := [Call(First(keccak, limit), limit)];
            Find(keccak, CachedBy(keccak, calls), First(keccak, limit + 1), limit) == limit + 1
  {
    var calls := [Call(First(keccak, limit), limit)];
    assert calls[..0] == [];
    assert CachedBy(keccak, calls[..0]) == 0;
  }
}
