/**
 The streaming sponge: absorbs a message block by block, pads its tail in place, and truncates. The reference is
 KECCAK[c] of sections 4, 5.1 and 5.2 of FIPS 202, without a suffix for SHA-3.
 */
module KeccakSponge {
  import opened Arithmetic
  import opened KeccakSpec
  import opened KeccakF1600
  import opened Sequences

  // ----- The reference: pad the whole message, absorb its blocks, truncate ---------------------------

  function Joined(b0: bv8, b1: bv8, b2: bv8, b3: bv8, b4: bv8, b5: bv8, b6: bv8, b7: bv8): bv64 {
    (b0 as bv64) | ((b1 as bv64) << 8) | ((b2 as bv64) << 16) | ((b3 as bv64) << 24)
    | ((b4 as bv64) << 32) | ((b5 as bv64) << 40) | ((b6 as bv64) << 48) | ((b7 as bv64) << 56)
  }

  /** A word from its bytes, least significant first. */
  function Word(b: seq<bv8>): Lane
    requires |b| == 8
  {
    Lane(Joined(b[0], b[1], b[2], b[3], b[4], b[5], b[6], b[7]))
  }

  /** Word j of a block, or zero past its end. */
  function BlockWord(p: seq<bv8>, j: nat): Lane {
    if 8 * j + 8 <= |p| then Word(p[8 * j..8 * j + 8]) else Lane(0)
  }

  /** The state with a block added to its first lanes. */
  function AddBlock(a: seq<Lane>, p: seq<bv8>): (b: seq<Lane>)
    requires |a| == 25
    ensures |b| == 25
  {
    seq(25, j requires 0 <= j < 25 => Xor(a[j], BlockWord(p, j)))
  }

  function Permuted(a: seq<Lane>): (b: seq<Lane>)
    requires |a| == 25
    ensures |b| == 25
  {
    Rounds(Lanes64(), a, RoundConstants(), 24)
  }

  function ZeroState(): (a: seq<Lane>)
    ensures |a| == 25
  {
    seq(25, j => Lane(0))
  }

  /** The state after absorbing p, a whole number of blocks. */
  function Absorb(p: seq<bv8>, rate: nat): (a: seq<Lane>)
    requires rate > 0
    ensures |a| == 25
  {
    if |p| < rate then ZeroState() else
      var rest := |p| - rate;
      Permuted(AddBlock(Absorb(p[..rest], rate), p[rest..]))
  }

  /** The padding that brings a message to a whole number of blocks: n bytes, at least one. */
  function PadBytes(n: nat): (p: seq<bv8>)
    requires n > 0
    ensures |p| == n
  {
    if n == 1 then [0x81] else [0x01] + Repeat<bv8>(0, n - 2) + [0x80]
  }

  lemma WholeBlocks(size: nat, rate: nat)
    requires rate > 0
    ensures (size + (rate - size % rate)) % rate == 0
  {
    Euclid(size, rate);
    DivModUnique(size + (rate - size % rate), size / rate + 1, 0, rate);
  }

  function Pad(m: seq<bv8>, rate: nat): (p: seq<bv8>)
    requires rate > 0
    ensures |p| % rate == 0
  {
    WholeBlocks(|m|, rate);
    m + PadBytes(rate - |m| % rate)
  }

  function Rate(bits: nat): nat
    requires bits <= 512
  {
    (1600 - bits * 2) / 8
  }

  function Keccak(bits: nat, m: seq<bv8>): (hash: seq<Lane>)
    requires bits <= 512
    ensures |hash| == bits / 64
  {
    Absorb(Pad(m, Rate(bits)), Rate(bits))[..bits / 64]
  }

  // ----- Padding on bits -----------------------------------------------------------------------------

  /** Bit i of a byte, least significant first. */
  predicate Bit(b: bv8, i: nat)
    requires i < 8
  {
    BitOf(b as bv64, At(i))
  }

  function Bits(b: seq<bv8>): (s: seq<bool>)
    ensures |s| == 8 * |b|
  {
    seq(8 * |b|, i requires 0 <= i < 8 * |b| => Bit(b[i / 8], i % 8))
  }

  /** pad10*1(x, m): a one, the least number of zeros, and a one, to reach a multiple of x. */
  function Pad10Star1(x: nat, m: nat): (p: seq<bool>)
    requires x > 0
  {
    [true] + seq((-(m + 2)) % x, i => false) + [true]
  }

  lemma FirstAmounts(k: nat)
    requires k < 8
    ensures At(k) == [0, 1, 2, 3, 4, 5, 6, 7][k]
  {
    AtNext(0);
    AtNext(1);
    AtNext(2);
    AtNext(3);
    AtNext(4);
    AtNext(5);
    AtNext(6);
    assert At(0) == 0;
    hide At;
  }

  lemma SmallAmount(k: nat)
    requires k < 8
    ensures At(k) < 8
  {
    FirstAmounts(k);
    hide At;
  }

  lemma BitsOfConstants(k: nat)
    requires k < 8
    ensures Bit(0x81, k) == (k == 0 || k == 7)
    ensures Bit(0x01, k) == (k == 0)
    ensures Bit(0x80, k) == (k == 7)
    ensures !Bit(0, k)
  {
    hide At;
    FirstAmounts(k);
  }

  lemma BitsOfWord(b0: bv8, b1: bv8, b2: bv8, b3: bv8, b4: bv8, b5: bv8, b6: bv8, b7: bv8, k: bv6)
    requires k < 8
    ensures var w := Joined(b0, b1, b2, b3, b4, b5, b6, b7);
            && BitOf(w, k) == BitOf(b0 as bv64, k) && BitOf(w, 8 + k) == BitOf(b1 as bv64, k)
            && BitOf(w, 16 + k) == BitOf(b2 as bv64, k) && BitOf(w, 24 + k) == BitOf(b3 as bv64, k)
            && BitOf(w, 32 + k) == BitOf(b4 as bv64, k) && BitOf(w, 40 + k) == BitOf(b5 as bv64, k)
            && BitOf(w, 48 + k) == BitOf(b6 as bv64, k) && BitOf(w, 56 + k) == BitOf(b7 as bv64, k)
  {
  }

  lemma EighthAmounts()
    ensures At(8) == 8 && At(16) == 16 && At(24) == 24 && At(32) == 32 && At(40) == 40 && At(48) == 48 && At(56) == 56
  {
    FirstAmounts(7);
    AtNext(7);
    hide At;
    AtSum(8, 8);
    AtSum(16, 8);
    AtSum(24, 8);
    AtSum(32, 8);
    AtSum(40, 8);
    AtSum(48, 8);
  }

  lemma ShiftedAmounts(k: nat)
    ensures At(8 + k) == 8 + At(k) && At(16 + k) == 16 + At(k) && At(24 + k) == 24 + At(k) && At(32 + k) == 32 + At(k)
    ensures At(40 + k) == 40 + At(k) && At(48 + k) == 48 + At(k) && At(56 + k) == 56 + At(k)
  {
    hide At;
    EighthAmounts();
    AtSum(8, k);
    AtSum(16, k);
    AtSum(24, k);
    AtSum(32, k);
    AtSum(40, k);
    AtSum(48, k);
    AtSum(56, k);
  }

  lemma JoinedBits(b0: bv8, b1: bv8, b2: bv8, b3: bv8, b4: bv8, b5: bv8, b6: bv8, b7: bv8, k: nat)
    requires k < 8
    ensures var w := Lane(Joined(b0, b1, b2, b3, b4, b5, b6, b7));
            && LaneBit(w, k) == Bit(b0, k) && LaneBit(w, 8 + k) == Bit(b1, k)
            && LaneBit(w, 16 + k) == Bit(b2, k) && LaneBit(w, 24 + k) == Bit(b3, k)
            && LaneBit(w, 32 + k) == Bit(b4, k) && LaneBit(w, 40 + k) == Bit(b5, k)
            && LaneBit(w, 48 + k) == Bit(b6, k) && LaneBit(w, 56 + k) == Bit(b7, k)
  {
    hide At, BitOf, Joined;
    SmallAmount(k);
    ShiftedAmounts(k);
    BitsOfWord(b0, b1, b2, b3, b4, b5, b6, b7, At(k));
  }

  /** Bit k of byte j of a word is its bit 8j + k. */
  lemma WordBit(b: seq<bv8>, j: nat, k: nat)
    requires |b| == 8 && j < 8 && k < 8
    ensures LaneBit(Word(b), 8 * j + k) == Bit(b[j], k)
  {
    hide LaneBit, Joined, Bit;
    JoinedBits(b[0], b[1], b[2], b[3], b[4], b[5], b[6], b[7], k);
  }

  lemma ZeroLaneBit(z: nat)
    ensures !LaneBit(Lane(0), z)
  {
    hide At;
  }

  /** Adding a block adds its bits to the first bits of the state, 64 to a lane, and leaves the others. */
  lemma AddBlockOnBits(a: seq<Lane>, p: seq<bv8>, j: nat, z: nat)
    requires |a| == 25 && |p| % 8 == 0 && j < 25 && z < 64
    ensures LaneBit(AddBlock(a, p)[j], z) ==
            (LaneBit(a[j], z) != (64 * j + z < 8 * |p| && Bits(p)[64 * j + z]))
  {
    hide LaneBit, Xor, Word, Bit;
    XorLaneBit(a[j], BlockWord(p, j), z);
    if 8 * j + 8 <= |p| {
      WordBit(p[8 * j..8 * j + 8], z / 8, z % 8);
    } else {
      ZeroLaneBit(z);
    }
  }

  lemma PadByteBit(n: nat, j: nat, k: nat)
    requires n > 0 && j < n && k < 8
    ensures Bit(PadBytes(n)[j], k) == (8 * j + k == 0 || 8 * j + k == 8 * n - 1)
  {
    BitsOfConstants(k);
    hide Bit;
  }

  lemma PadBytesBits(n: nat, i: nat)
    requires n > 0 && i < 8 * n
    ensures Bits(PadBytes(n))[i] == (i == 0 || i == 8 * n - 1)
  {
    var j, k := i / 8, i % 8;
    assert k < 8 && i == 8 * j + k;
    PadByteBit(n, j, k);
  }

  lemma BitsOfTwo(b: seq<bv8>, c: seq<bv8>)
    ensures Bits(b + c) == Bits(b) + Bits(c)
  {
    hide Bit;
    forall i | 0 <= i < |Bits(b + c)|
      ensures Bits(b + c)[i] == (Bits(b) + Bits(c))[i]
    {
      if i >= 8 * |b| {
        assert i / 8 - |b| == (i - 8 * |b|) / 8;
      }
    }
  }

  lemma BitsOfPad(n: nat)
    requires n > 0
    ensures Bits(PadBytes(n)) == [true] + seq(8 * n - 2, i => false) + [true]
  {
    forall i | 0 <= i < 8 * n
      ensures Bits(PadBytes(n))[i] == (i == 0 || i == 8 * n - 1)
    {
      PadBytesBits(n, i);
    }
    hide Bits, PadBytes;
  }

  lemma PadQuotient(q: int, rate: int, r: int)
    ensures -(8 * (q * rate + r) + 2) == (-q - 1) * (8 * rate) + (8 * (rate - r) - 2)
  {
  }

  lemma PadLength(size: nat, rate: nat)
    requires rate > 0
    ensures (-(8 * size + 2)) % (8 * rate) == 8 * (rate - size % rate) - 2
  {
    var q, r := size / rate, size % rate;
    Euclid(size, rate);
    PadQuotient(q, rate, r);
    DivModUnique(-(8 * size + 2), -q - 1, 8 * (rate - r) - 2, 8 * rate);
  }

  /** The padding bytes are pad10*1 on the bits of the message. */
  lemma PadIsPad10Star1(m: seq<bv8>, rate: nat)
    requires rate > 0
    ensures Bits(Pad(m, rate)) == Bits(m) + Pad10Star1(8 * rate, 8 * |m|)
  {
    var n := rate - |m| % rate;
    PadLength(|m|, rate);
    hide Bits, PadBytes;
    BitsOfTwo(m, PadBytes(n));
    BitsOfPad(n);
  }

  // ----- The tail of the message ---------------------------------------------------------------------

  /** The bytes of the last partial word, followed by the first byte of padding. */
  function LastWord(tail: seq<bv8>): (w: seq<bv8>)
    requires |tail| < 8
    ensures |w| == 8
  {
    tail + [0x01] + Repeat<bv8>(0, 7 - |tail|)
  }

  const TOP := Lane(0x8000000000000000)

  lemma XorZero(x: Lane)
    ensures Xor(x, Lane(0)) == x
  {
  }

  lemma WordsAssociate(x: bv64, y: bv64, z: bv64)
    ensures (x ^ y) ^ z == x ^ (y ^ z)
  {
  }

  lemma LeftFirst(x: bv64, y: bv64, z: bv64)
    ensures XorBits(XorBits(x, y), z) == (x ^ y) ^ z
  {
  }

  lemma RightFirst(x: bv64, y: bv64, z: bv64)
    ensures XorBits(x, XorBits(y, z)) == x ^ (y ^ z)
  {
  }

  lemma BitsAssociate(x: bv64, y: bv64, z: bv64)
    ensures XorBits(XorBits(x, y), z) == XorBits(x, XorBits(y, z))
  {
    hide XorBits;
    LeftFirst(x, y, z);
    WordsAssociate(x, y, z);
    RightFirst(x, y, z);
  }

  lemma XorAssociates(x: Lane, y: Lane, z: Lane)
    ensures Xor(Xor(x, y), z) == Xor(x, Xor(y, z))
  {
    hide XorBits;
    BitsAssociate(x.bits, y.bits, z.bits);
  }

  lemma TopBitOfBytes(b0: bv8, b1: bv8, b2: bv8, b3: bv8, b4: bv8, b5: bv8, b6: bv8, b7: bv8)
    ensures Joined(b0, b1, b2, b3, b4, b5, b6, b7 ^ 0x80) == Joined(b0, b1, b2, b3, b4, b5, b6, b7) ^ 0x8000000000000000
  {
  }

  /** Flipping the top bit of a word is flipping the top bit of its last byte. */
  lemma TopBit(b: seq<bv8>, c: seq<bv8>)
    requires |b| == |c| == 8 && b[..7] == c[..7] && c[7] == b[7] ^ 0x80
    ensures Word(c) == Xor(Word(b), TOP)
  {
    assert forall i | 0 <= i < 7 :: b[i] == b[..7][i] == c[..7][i] == c[i];
    TopBitOfBytes(b[0], b[1], b[2], b[3], b[4], b[5], b[6], b[7]);
  }

  lemma ZeroWord()
    ensures Word(Repeat<bv8>(0, 8)) == Lane(0)
  {
  }

  /** The padding without its last bit. */
  function OpenPad(n: nat): (p: seq<bv8>)
    requires n > 0
    ensures |p| == n
  {
    [0x01] + Repeat<bv8>(0, n - 1)
  }

  lemma LastByteOfPad(n: nat)
    requires n > 0
    ensures PadBytes(n) == OpenPad(n)[n - 1 := OpenPad(n)[n - 1] ^ 0x80]
  {
    assert (0x01 as bv8) ^ 0x80 == 0x81 && (0 as bv8) ^ 0x80 == 0x80;
  }

  /** A word of the last block before its top bit is set: whole words of the tail, the last word, then zeros. */
  lemma OpenBlockWord(tail: seq<bv8>, rate: nat, j: nat)
    requires |tail| < rate && rate % 8 == 0 && 8 * j + 8 <= rate
    ensures BlockWord(tail + OpenPad(rate - |tail|), j) ==
            if 8 * j + 8 <= |tail| then Word(tail[8 * j..8 * j + 8])
            else if 8 * j <= |tail| then Word(LastWord(tail[8 * j..]))
            else Lane(0)
  {
    var p := tail + OpenPad(rate - |tail|);
    var w := p[8 * j..8 * j + 8];
    if 8 * j + 8 <= |tail| {
      assert w == tail[8 * j..8 * j + 8];
    } else if 8 * j <= |tail| {
      assert w == LastWord(tail[8 * j..]);
    } else {
      assert w == Repeat<bv8>(0, 8);
      ZeroWord();
    }
    hide Word;
  }

  /** The top bit of the last byte of the block. */
  lemma ClosedBlockWord(tail: seq<bv8>, rate: nat, j: nat)
    requires |tail| < rate && rate % 8 == 0 && 8 * j + 8 <= rate
    ensures BlockWord(tail + PadBytes(rate - |tail|), j) ==
            var w := BlockWord(tail + OpenPad(rate - |tail|), j);
            if 8 * j + 8 == rate then Xor(w, TOP) else w
  {
    var n := rate - |tail|;
    var p, q := tail + OpenPad(n), tail + PadBytes(n);
    LastByteOfPad(n);
    assert q == p[rate - 1 := p[rate - 1] ^ 0x80];
    var b, c := p[8 * j..8 * j + 8], q[8 * j..8 * j + 8];
    hide Word, Xor, PadBytes, OpenPad;
    if 8 * j + 8 == rate {
      assert b[..7] == c[..7];
      TopBit(b, c);
    } else {
      assert b == c;
    }
  }

  /** The last block, as the method adds it to the state a in steps. */
  function FinalLane(a: seq<Lane>, tail: seq<bv8>, rate: nat, j: nat): Lane
    requires |a| == 25 && |tail| < rate && j < 25
  {
    var k := |tail| / 8;
    var open := if j < k then Xor(a[j], Word(tail[8 * j..8 * j + 8]))
                else if j == k then Xor(a[j], Word(LastWord(tail[8 * k..])))
                else a[j];
    if j == rate / 8 - 1 then Xor(open, TOP) else open
  }

  lemma BeyondBlock(p: seq<bv8>, j: nat)
    requires 8 * j + 8 > |p|
    ensures BlockWord(p, j) == Lane(0)
  {
  }

  lemma FinalLaneIsPadded(a: seq<Lane>, tail: seq<bv8>, rate: nat, j: nat)
    requires |a| == 25 && |tail| < rate && rate % 8 == 0 && rate <= 200 && j < 25
    ensures FinalLane(a, tail, rate, j) == Xor(a[j], BlockWord(tail + PadBytes(rate - |tail|), j))
  {
    XorZero(a[j]);
    hide Word, Xor, LastWord, PadBytes, OpenPad, BlockWord;
    if 8 * j + 8 <= rate {
      OpenBlockWord(tail, rate, j);
      ClosedBlockWord(tail, rate, j);
      XorAssociates(a[j], BlockWord(tail + OpenPad(rate - |tail|), j), TOP);
    } else {
      BeyondBlock(tail + PadBytes(rate - |tail|), j);
    }
  }

  // ----- The method ----------------------------------------------------------------------------------

  lemma AbsorbBlock(p: seq<bv8>, b: seq<bv8>, rate: nat)
    requires |b| == rate > 0
    ensures Absorb(p + b, rate) == Permuted(AddBlock(Absorb(p, rate), b))
  {
    hide Permuted, AddBlock;
    assert (p + b)[..|p|] == p && (p + b)[|p|..] == b;
  }

  lemma PadWhole(data: seq<bv8>, offset: nat, rate: nat)
    requires rate > 0 && offset % rate == 0 && offset <= |data| < offset + rate
    ensures Pad(data, rate) == data[..offset] + (data[offset..] + PadBytes(rate - (|data| - offset)))
  {
    hide PadBytes;
    var rest := |data| - offset;
    Euclid(offset, rate);
    DivModUnique(|data|, offset / rate, rest, rate);
    assert data == data[..offset] + data[offset..];
    assert Pad(data, rate) == data + PadBytes(rate - rest);
  }

  lemma NextBlock(offset: nat, rate: nat)
    requires rate > 0 && offset % rate == 0
    ensures (offset + rate) % rate == 0
  {
    Euclid(offset, rate);
    DivModUnique(offset + rate, offset / rate + 1, 0, rate);
  }

  lemma SliceOfSlice(data: seq<bv8>, offset: nat, size: nat, i: nat)
    requires offset + size <= |data| && i + 8 <= size
    ensures data[offset + i..offset + i + 8] == data[offset..offset + size][i..i + 8]
  {
    var b := data[offset..offset + size];
    assert data[offset + i..offset + i + 8] == data[offset..][i..][..8] == b[i..][..8];
  }

  /** Adds a whole block to the state. */
  method AddWholeBlock(state: array<Lane>, data: seq<bv8>, offset: nat, blockSize: nat)
    requires state.Length == 25 && blockSize % 8 == 0 && blockSize <= 200 && offset + blockSize <= |data|
    modifies state
    ensures state[..] == AddBlock(old(state[..]), data[offset..offset + blockSize])
  {
    hide Xor, Word;
    ghost var a := state[..];
    ghost var block := data[offset..offset + blockSize];
    for i := 0 to blockSize / 8
      invariant forall j | 0 <= j < 25 :: state[j] == if j < i then Xor(a[j], BlockWord(block, j)) else a[j]
    {
      SliceOfSlice(data, offset, blockSize, 8 * i);
      state[i] := Xor(state[i], Word(data[offset + 8 * i..offset + 8 * i + 8]));
    }
    forall j | 0 <= j < 25
      ensures state[j] == Xor(a[j], BlockWord(block, j))
    {
      XorZero(a[j]);
    }
  }

  /** Adds the whole words of the tail. */
  method AddTailWords(state: array<Lane>, tail: seq<bv8>) returns (iter: nat)
    requires state.Length == 25 && |tail| < 200
    modifies state
    ensures iter == |tail| / 8
    ensures forall j | 0 <= j < 25 ::
              state[j] == if j < iter then Xor(old(state[j]), Word(tail[8 * j..8 * j + 8])) else old(state[j])
  {
    hide Xor, Word;
    ghost var a := state[..];
    var size, offset := |tail|, 0;
    iter := 0;
    while size >= 8
      invariant 0 <= offset == 8 * iter && 0 <= size && offset + size == |tail|
      invariant forall j | 0 <= j < 25 :: state[j] == if j < iter then Xor(a[j], Word(tail[8 * j..8 * j + 8])) else a[j]
    {
      state[iter] := Xor(state[iter], Word(tail[offset..offset + 8]));
      iter, offset, size := iter + 1, offset + 8, size - 8;
    }
  }

  /** Copies the remaining bytes and puts the first byte of padding behind them. */
  method PadLastWord(rest: seq<bv8>) returns (word: seq<bv8>)
    requires |rest| < 8
    ensures word == LastWord(rest)
  {
    var lastWord := new bv8[8](_ => 0);
    var at, size := 0, |rest|;
    while size > 0
      invariant 0 <= at && 0 <= size && at + size == |rest| && lastWord[..] == rest[..at] + Repeat<bv8>(0, 8 - at)
    {
      lastWord[at] := rest[at];
      at, size := at + 1, size - 1;
    }
    lastWord[at] := 0x01;
    word := lastWord[..];
  }

  /** Adds the tail of the message, its padding included. */
  method AddTail(state: array<Lane>, tail: seq<bv8>, blockSize: nat)
    requires state.Length == 25 && 0 < blockSize <= 200 && blockSize % 8 == 0 && |tail| < blockSize
    modifies state
    ensures state[..] == AddBlock(old(state[..]), tail + PadBytes(blockSize - |tail|))
  {
    hide Xor, Word, LastWord, PadBytes, BlockWord;
    ghost var a := state[..];
    var iter := AddTailWords(state, tail);
    assert iter < blockSize / 8;
    var lastWord := PadLastWord(tail[8 * iter..]);
    state[iter] := Xor(state[iter], Word(lastWord));
    state[blockSize / 8 - 1] := Xor(state[blockSize / 8 - 1], TOP);
    forall j | 0 <= j < 25
      ensures state[j] == Xor(a[j], BlockWord(tail + PadBytes(blockSize - |tail|), j))
    {
      FinalLaneIsPadded(a, tail, blockSize, j);
    }
  }

  method PermuteState(state: array<Lane>)
    requires state.Length == 25
    modifies state
    ensures state[..] == Permuted(old(state[..]))
  {
    hide Rounds, RoundConstants;
    Permute(state);
  }

  lemma AbsorbNothing(rate: nat)
    requires rate > 0
    ensures Absorb([], rate) == ZeroState()
  {
  }

  /** Absorbs the whole blocks of the message. */
  method AbsorbBlocks(state: array<Lane>, data: seq<bv8>, blockSize: nat) returns (offset: nat)
    requires state.Length == 25 && state[..] == ZeroState() && 0 < blockSize <= 200 && blockSize % 8 == 0
    modifies state
    ensures offset % blockSize == 0 && offset <= |data| < offset + blockSize
    ensures state[..] == Absorb(data[..offset], blockSize)
  {
    hide Permuted, AddBlock, Absorb;
    var size := |data|;
    offset := 0;
    AbsorbNothing(blockSize);
    assert data[..0] == [];
    while size >= blockSize
      invariant 0 <= size && offset + size == |data| && offset % blockSize == 0
      invariant state[..] == Absorb(data[..offset], blockSize)
    {
      AddWholeBlock(state, data, offset, blockSize);
      PermuteState(state);
      AbsorbBlock(data[..offset], data[offset..offset + blockSize], blockSize);
      assert data[..offset] + data[offset..offset + blockSize] == data[..offset + blockSize];
      NextBlock(offset, blockSize);
      offset, size := offset + blockSize, size - blockSize;
    }
  }

  method Digest(out: array<Lane>, bits: nat, data: seq<bv8>)
    requires bits % 64 == 0 && 0 < bits <= 512 && out.Length >= bits / 64
    modifies out
    ensures out[..bits / 64] == Keccak(bits, data)
    ensures out[bits / 64..] == old(out[bits / 64..])
  {
    hide Permuted, AddBlock, Pad, PadBytes, Absorb;
    var blockSize := (1600 - bits * 2) / 8;
    var state := new Lane[25](_ => Lane(0));
    assert state[..] == ZeroState();
    var offset := AbsorbBlocks(state, data, blockSize);
    AddTail(state, data[offset..], blockSize);
    PermuteState(state);
    AbsorbBlock(data[..offset], data[offset..] + PadBytes(blockSize - (|data| - offset)), blockSize);
    PadWhole(data, offset, blockSize);
    ghost var final := Absorb(Pad(data, blockSize), blockSize);
    assert state[..] == final;

    for i := 0 to bits / 64
      invariant out[..i] == final[..i] && out[bits / 64..] == old(out[bits / 64..])
      invariant state[..] == final
    {
      out[i] := state[i];
    }
  }
}
