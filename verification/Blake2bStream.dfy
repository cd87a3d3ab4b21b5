/**
 BLAKE2b-256 byte by byte, as macros over a context: a buffer that is flushed only when another byte arrives, a
 counter of two words, and 12 unrolled rounds. The digest is written reversed, printed, and parsed back.
 */
module Blake2bStream {
  import opened Arithmetic
  import Blake2bBlocks
  import opened Blake2bSpec
  import opened LittleEndian
  import opened Sequences
  import opened Words

  // ----- G -------------------------------------------------------------------------------------------

  /** The rotation of the macro: shifts joined by an exclusive or. */
  function RotrByXor(x: Word, n: nat): Word
    requires 0 < n < 64
  {
    var right := x / Pow2(n);
    XorWord(right % U64, (x * Pow2(64 - n)) % U64)
  }

  lemma HalvesOfWord(n: nat)
    requires 0 < n < 64
    ensures Pow2(n) * Pow2(64 - n) == U64
  {
    Pow2Words();
    PowAdd(2, n, 64 - n);
  }

  lemma HighPart(hi: int, p: int, q: int)
    ensures (hi * q) * p == hi * (p * q)
  {
  }

  lemma Below(hi: nat, p: nat)
    requires p > 0
    ensures hi <= hi * p
  {
  }

  lemma ShiftedOut(x: Word, hi: nat, lo: nat, p: nat, q: nat)
    requires p * q == U64 && x == hi * p + lo && lo < p && q > 0 && p > 0
    ensures (x * q) % U64 == lo * q && hi < U64
  {
    Distribute(hi, p, lo, q);
    MulAssoc(hi, q, p);
    MulMono(lo + 1, p, q);
    MulDifference(lo, -1, q);
    assert x * q == hi * U64 + lo * q by {
      Distribute(hi, p, lo, q);
      HighPart(hi, p, q);
    }
    DivModUnique(x * q, hi, lo * q, U64);
    MulMono(1, p, hi);
    assert hi <= x by {
      Below(hi, p);
    }
  }

  lemma RotrByXorIsRor(x: Word, n: nat)
    requires 0 < n < 64
    ensures RotrByXor(x, n) == Ror(x, n)
  {
    hide Xor, Pow, Pow2, Rotr64;
    var p, q := Pow2(n), Pow2(64 - n);
    RotrMovesBits(x, n);
    HalvesOfWord(n);
    Euclid(x, p);
    ShiftedOut(x, x / p, x % p, p, q);
    XorIsSum(x / p, x % p, 64 - n);
  }

  /** Half of G as the macro orders its sums and rotates. */
  function HalfInPlace(q: Quad, x: Word, r1: nat, r2: nat): Quad
    requires 0 < r1 < 64 && 0 < r2 < 64
  {
    var a := Add(q.a, Add(q.b, x));
    var d := RotrByXor(XorWord(q.d, a), r1);
    var c := Add(q.c, d);
    var b := RotrByXor(XorWord(q.b, c), r2);
    Quad(a, b, c, d)
  }

  lemma AddAssociates(a: Word, b: Word, x: Word)
    ensures Add(a, Add(b, x)) == Add(Add(a, b), x)
  {
    AddThree(a, b, x);
    AddThree(b, x, a);
    assert Add(a, Add(b, x)) == Add(Add(b, x), a);
    hide Add;
  }

  lemma HalfInPlaceAgrees(q: Quad, x: Word, r1: nat, r2: nat)
    requires 0 < r1 < 64 && 0 < r2 < 64
    ensures HalfInPlace(q, x, r1, r2) == HalfMix(q, x, r1, r2)
  {
    AddAssociates(q.a, q.b, x);
    hide XorWord, Ror, RotrByXor, Add;
    var a := Add(Add(q.a, q.b), x);
    RotrByXorIsRor(XorWord(q.d, a), r1);
    var d := Ror(XorWord(q.d, a), r1);
    RotrByXorIsRor(XorWord(q.b, Add(q.c, d)), r2);
  }

  lemma MixInPlace(q: Quad, x: Word, y: Word)
    ensures Mix(q, x, y) == HalfInPlace(HalfInPlace(q, x, 32, 24), y, 16, 63)
  {
    hide HalfInPlace, HalfMix;
    HalfInPlaceAgrees(q, x, 32, 24);
    HalfInPlaceAgrees(HalfInPlace(q, x, 32, 24), y, 16, 63);
  }

  /** One use of the macro for G: eight assignments to four places. */
  method B2bG(aux: array<Word>, a: nat, b: nat, c: nat, d: nat, x: Word, y: Word)
    requires aux.Length == 32 && Distinct(a, b, c, d)
    modifies aux
    ensures aux[..16] == G(old(aux[..16]), a, b, c, d, x, y) && aux[16..] == old(aux[16..])
  {
    hide RotrByXor, XorWord, Add, Mix;
    ghost var q := Quad(aux[a], aux[b], aux[c], aux[d]);
    MixInPlace(q, x, y);
    aux[a] := Add(aux[a], Add(aux[b], x));
    aux[d] := RotrByXor(XorWord(aux[d], aux[a]), 32);
    aux[c] := Add(aux[c], aux[d]);
    aux[b] := RotrByXor(XorWord(aux[b], aux[c]), 24);
    aux[a] := Add(aux[a], Add(aux[b], y));
    aux[d] := RotrByXor(XorWord(aux[d], aux[a]), 16);
    aux[c] := Add(aux[c], aux[d]);
    aux[b] := RotrByXor(XorWord(aux[b], aux[c]), 63);
  }

  // ----- The 12 rounds -------------------------------------------------------------------------------

  /** Eight uses of G; the 16 message words are those the macro names. */
  method MixRow(aux: array<Word>,
                i0: Index, i1: Index, i2: Index, i3: Index, i4: Index, i5: Index, i6: Index, i7: Index,
                i8: Index, i9: Index, i10: Index, i11: Index, i12: Index, i13: Index, i14: Index, i15: Index)
    requires aux.Length == 32
    modifies aux
    ensures aux[16..] == old(aux[16..])
    ensures aux[..16] == Round(old(aux[..16]), old(aux[16..]),
                               [i0, i1, i2, i3, i4, i5, i6, i7, i8, i9, i10, i11, i12, i13, i14, i15])
  {
    hide G;
    ghost var m := aux[16..];
    B2bG(aux, 0, 4, 8, 12, aux[16 + i0], aux[16 + i1]);
    B2bG(aux, 1, 5, 9, 13, aux[16 + i2], aux[16 + i3]);
    B2bG(aux, 2, 6, 10, 14, aux[16 + i4], aux[16 + i5]);
    B2bG(aux, 3, 7, 11, 15, aux[16 + i6], aux[16 + i7]);
    B2bG(aux, 0, 5, 10, 15, aux[16 + i8], aux[16 + i9]);
    B2bG(aux, 1, 6, 11, 12, aux[16 + i10], aux[16 + i11]);
    B2bG(aux, 2, 7, 8, 13, aux[16 + i12], aux[16 + i13]);
    B2bG(aux, 3, 4, 9, 14, aux[16 + i14], aux[16 + i15]);
  }

  lemma NextRound(v: seq<Word>, m: seq<Word>, n: nat, s: seq<Index>)
    requires |v| == |m| == 16 && n < 12 && s == Sigma(n % 10)
    ensures Rounds(v, m, n + 1) == Round(Rounds(v, m, n), m, s)
  {
    hide Round;
  }

  lemma NoRounds(v: seq<Word>, m: seq<Word>)
    requires |v| == |m| == 16
    ensures Rounds(v, m, 0) == v
  {
  }

  method B2bMix(aux: array<Word>)
    requires aux.Length == 32
    modifies aux
    ensures aux[..16] == Rounds(old(aux[..16]), old(aux[16..]), 12) && aux[16..] == old(aux[16..])
  {
    hide Round, Rounds;
    ghost var v, m := aux[..16], aux[16..];
    NoRounds(v, m);
    MixRow(aux, 0, 1, 2, 3, 4, 5, 6, 7, 8, 9, 10, 11, 12, 13, 14, 15);
    NextRound(v, m, 0, [0, 1, 2, 3, 4, 5, 6, 7, 8, 9, 10, 11, 12, 13, 14, 15]);
    MixRow(aux, 14, 10, 4, 8, 9, 15, 13, 6, 1, 12, 0, 2, 11, 7, 5, 3);
    NextRound(v, m, 1, [14, 10, 4, 8, 9, 15, 13, 6, 1, 12, 0, 2, 11, 7, 5, 3]);
    MixRow(aux, 11, 8, 12, 0, 5, 2, 15, 13, 10, 14, 3, 6, 7, 1, 9, 4);
    NextRound(v, m, 2, [11, 8, 12, 0, 5, 2, 15, 13, 10, 14, 3, 6, 7, 1, 9, 4]);
    MixRow(aux, 7, 9, 3, 1, 13, 12, 11, 14, 2, 6, 5, 10, 4, 0, 15, 8);
    NextRound(v, m, 3, [7, 9, 3, 1, 13, 12, 11, 14, 2, 6, 5, 10, 4, 0, 15, 8]);
    MixRow(aux, 9, 0, 5, 7, 2, 4, 10, 15, 14, 1, 11, 12, 6, 8, 3, 13);
    NextRound(v, m, 4, [9, 0, 5, 7, 2, 4, 10, 15, 14, 1, 11, 12, 6, 8, 3, 13]);
    MixRow(aux, 2, 12, 6, 10, 0, 11, 8, 3, 4, 13, 7, 5, 15, 14, 1, 9);
    NextRound(v, m, 5, [2, 12, 6, 10, 0, 11, 8, 3, 4, 13, 7, 5, 15, 14, 1, 9]);
    MixRow(aux, 12, 5, 1, 15, 14, 13, 4, 10, 0, 7, 6, 3, 9, 2, 8, 11);
    NextRound(v, m, 6, [12, 5, 1, 15, 14, 13, 4, 10, 0, 7, 6, 3, 9, 2, 8, 11]);
    MixRow(aux, 13, 11, 7, 14, 12, 1, 3, 9, 5, 0, 15, 4, 8, 6, 2, 10);
    NextRound(v, m, 7, [13, 11, 7, 14, 12, 1, 3, 9, 5, 0, 15, 4, 8, 6, 2, 10]);
    MixRow(aux, 6, 15, 14, 9, 11, 3, 0, 8, 12, 2, 13, 7, 1, 4, 10, 5);
    NextRound(v, m, 8, [6, 15, 14, 9, 11, 3, 0, 8, 12, 2, 13, 7, 1, 4, 10, 5]);
    MixRow(aux, 10, 2, 8, 4, 7, 6, 1, 5, 15, 11, 9, 14, 3, 12, 13, 0);
    NextRound(v, m, 9, [10, 2, 8, 4, 7, 6, 1, 5, 15, 11, 9, 14, 3, 12, 13, 0]);
    MixRow(aux, 0, 1, 2, 3, 4, 5, 6, 7, 8, 9, 10, 11, 12, 13, 14, 15);
    NextRound(v, m, 10, [0, 1, 2, 3, 4, 5, 6, 7, 8, 9, 10, 11, 12, 13, 14, 15]);
    MixRow(aux, 14, 10, 4, 8, 9, 15, 13, 6, 1, 12, 0, 2, 11, 7, 5, 3);
    NextRound(v, m, 11, [14, 10, 4, 8, 9, 15, 13, 6, 1, 12, 0, 2, 11, 7, 5, 3]);
  }

  // ----- The context ---------------------------------------------------------------------------------

  /** Two words hold a count modulo 2^128. */
  predicate Counts(t0: Word, t1: Word, total: nat) {
    t0 == total % U64 && t1 == (total / U64) % U64
  }

  /** The carry of the counter is taken from the wrap-around of its low word. */
  lemma CounterAdds(t0: Word, t1: Word, total: nat, n: nat)
    requires Counts(t0, t1, total) && n < U64
    ensures
      var low := (t0 + n) % U64;
      Counts(low, (t1 + (if low < n then 1 else 0)) % U64, total + n)
  {
    var q := total / U64;
    Euclid(total, U64);
    var carry := if t0 + n >= U64 then 1 else 0;
    DivModUnique(t0 + n, carry, t0 + n - carry * U64, U64);
    DivModUnique(total + n, q + carry, t0 + n - carry * U64, U64);
    Euclid(q, U64);
    ModDifference(q + carry, q % U64 + carry, q / U64, U64);
  }

  /** The macro adds the two halves of the vector first. */
  lemma FoldAt(h: seq<Word>, v: seq<Word>, i: nat)
    requires |h| == 8 && |v| == 16 && i < 8
    ensures Fold(h, v)[i] == XorWord(h[i], XorWord(v[i], v[i + 8]))
  {
    XorAssociates(h[i], v[i], v[i + 8]);
  }

  /** The bitwise complement of a word. */
  lemma Complement(x: Word)
    ensures XorWord(x, U64 - 1) == U64 - 1 - x
  {
    Pow2Words();
    XorOnes(x, 64);
  }

  class Context {
    const b: array<Byte>
    const h: array<Word>
    var t0: Word
    var t1: Word
    var c: nat
    ghost var total: nat

    ghost predicate Valid()
      reads this
    {
      b.Length == 128 && h.Length == 8 && c <= 128 && Counts(t0, t1, total)
    }

    constructor ()
      ensures Valid() && fresh(b) && fresh(h)
      ensures c == 0 && total == 0 && h[..] == Start(32, 0)
    {
      b := new Byte[128](_ => 0);
      h := new Word[8](i requires 0 <= i < 8 => IV()[i]);
      t0, t1, c, total := 0, 0, 0, 0;
      new;
      assert h[..] == IV();
      h[0] := XorWord(h[0], XorWord(0x01010000, 32));
      XorZero(0x01010000);
      assert XorWord(0x01010000, 256 * 0) == 0x01010000;
      hide XorWord;
    }

    /** The working vector in the first half of aux. */
    method Init(aux: array<Word>)
      requires Valid() && aux.Length == 32 && aux != h
      modifies aux
      ensures aux[..16] == Working(h[..], total, false)
    {
      hide XorWord;
      aux[0], aux[1], aux[2], aux[3] := h[0], h[1], h[2], h[3];
      aux[4], aux[5], aux[6], aux[7] := h[4], h[5], h[6], h[7];
      for i := 0 to 8
        invariant forall k | 0 <= k < 8 :: aux[k] == h[k]
        invariant forall k | 0 <= k < i :: aux[k + 8] == IV()[k]
      {
        aux[8 + i] := IV()[i];
      }
      assert aux[..16] == h[..] + IV();
      aux[12] := XorWord(aux[12], t0);
      aux[13] := XorWord(aux[13], t1);
    }

    method AddHalves(aux: array<Word>)
      requires Valid() && aux.Length == 32 && aux != h
      modifies h
      ensures h[..] == Fold(old(h[..]), aux[..16])
      ensures b[..] == old(b[..])
    {
      hide XorWord, Fold;
      ghost var a, w := h[..], aux[..16];
      for i := 0 to 8
        invariant aux[..16] == w && b[..] == old(b[..])
        invariant forall k | 0 <= k < 8 :: h[k] == if k < i then Fold(a, w)[k] else a[k]
      {
        assert aux[i] == w[i] && aux[i + 8] == w[i + 8];
        FoldAt(a, w, i);
        h[i] := XorWord(h[i], XorWord(aux[i], aux[i + 8]));
      }
    }

    method LoadBlock(aux: array<Word>)
      requires Valid() && aux.Length == 32 && aux != h
      modifies aux
      ensures aux[..16] == old(aux[..16]) && aux[16..] == BlockWords(b[..])
      ensures b[..] == old(b[..])
    {
      hide WordOf;
      for k := 0 to 16
        invariant aux[..16] == old(aux[..16]) && b[..] == old(b[..])
        invariant aux[16..16 + k] == BlockWords(b[..])[..k]
      {
        assert b[8 * k..8 * k + 8] == b[..][8 * k..8 * k + 8];
        aux[16 + k] := WordOf(b[8 * k..8 * k + 8]);
      }
      assert aux[16..] == aux[16..32];
    }

    /** Loads the buffer as 16 words, mixes, and adds both halves to the state. */
    method Final(aux: array<Word>)
      requires Valid() && aux.Length == 32 && aux != h
      modifies aux, h
      ensures h[..] == Fold(old(h[..]), Rounds(old(aux[..16]), BlockWords(b[..]), 12))
      ensures b[..] == old(b[..])
    {
      hide Fold, BlockWords, Rounds;
      LoadBlock(aux);
      B2bMix(aux);
      AddHalves(aux);
    }

    /** A full buffer that is not the last block. */
    method HostB2bH(aux: array<Word>)
      requires Valid() && aux.Length == 32 && aux != h
      modifies this, aux, h
      ensures Valid() && c == 0 && total == old(total) + 128
      ensures h[..] == F(old(h[..]), BlockWords(old(b[..])), total, false)
      ensures b[..] == old(b[..])
    {
      hide Working, Rounds, Fold, BlockWords, Counts;
      CounterAdds(t0, t1, total, 128);
      t0 := (t0 + 128) % U64;
      t1 := (t1 + (if t0 < 128 then 1 else 0)) % U64;
      total := total + 128;
      Init(aux);
      Final(aux);
      c := 0;
    }

    /** One more byte: a full buffer is flushed first. */
    method Put(x: Byte, aux: array<Word>)
      requires Valid() && aux.Length == 32 && aux != h
      modifies this, aux, h, b
      ensures Valid()
      ensures old(c) < 128 ==>
                && c == old(c) + 1 && total == old(total) && h[..] == old(h[..])
                && b[..c] == old(b[..c]) + [x]
      ensures old(c) == 128 ==>
                && c == 1 && total == old(total) + 128 && b[..c] == [x]
                && h[..] == F(old(h[..]), BlockWords(old(b[..])), total, false)
    {
      hide F, BlockWords, Counts;
      if c == 128 {
        HostB2bH(aux);
      }
      b[c] := x;
      c := c + 1;
    }

    /** The last block: the rest of the buffer is zero, and one word of the working vector is complemented. */
    method HostB2bHLast(aux: array<Word>)
      requires Valid() && aux.Length == 32 && aux != h
      modifies this, aux, h, b
      ensures Valid() && total == old(total) + old(c)
      ensures h[..] == F(old(h[..]), BlockWords(Padded(old(b[..c]))), total, true)
    {
      hide Rounds, Fold, BlockWords, Counts, XorWord;
      ghost var start, n := h[..], c;
      ghost var message := b[..c];
      CounterAdds(t0, t1, total, c);
      t0 := (t0 + c) % U64;
      t1 := (t1 + (if t0 < c then 1 else 0)) % U64;
      total := total + c;
      while c < 128
        invariant Valid() && n <= c && total == old(total) + n && h[..] == start
        invariant b[..c] == message + Repeat<Byte>(0, c - n)
      {
        b[c] := 0;
        c := c + 1;
      }
      assert b[..] == b[..c] == Padded(message);
      Init(aux);
      Complement(aux[14]);
      aux[14] := U64 - 1 - aux[14];
      assert aux[..16] == Working(h[..], total, true);
      Final(aux);
    }
  }

  // ----- The hash ------------------------------------------------------------------------------------

  function Reversed<T>(s: seq<T>): (r: seq<T>)
    ensures |r| == |s|
  {
    seq(|s|, i requires 0 <= i < |s| => s[|s| - 1 - i])
  }

  /** The digest, in order. */
  function Digest(message: seq<Byte>): (d: seq<Byte>)
    ensures |d| == 32
  {
    Hash(32, [], message)
  }

  /** Feeds the message to a new context. */
  method Stream(message: seq<Byte>) returns (ctx: Context)
    ensures fresh(ctx) && fresh(ctx.h) && ctx.h.Length == 8
    ensures ctx.h[..] == FinalState(Start(32, 0), message)
  {
    hide F, BlockWords, Absorbed, Start, FinalState, Counts;
    ctx := new Context();
    var aux := new Word[32](_ => 0);
    ghost var start, n := ctx.h[..], 0;
    AbsorbedNone(start, message);
    for i := 0 to |message|
      invariant ctx.Valid() && fresh(ctx.b) && fresh(ctx.h) && fresh(aux) && aux != ctx.h
      invariant ctx.total == 128 * n <= i == 128 * n + ctx.c && (i > 0 ==> ctx.c > 0)
      invariant ctx.b[..ctx.c] == message[128 * n..i]
      invariant ctx.h[..] == Absorbed(start, message, n)
    {
      assert message[128 * n..i + 1] == message[128 * n..i] + [message[i]];
      if ctx.c == 128 {
        assert ctx.b[..] == ctx.b[..128] == message[128 * n..128 * (n + 1)];
        AbsorbedStep(start, message, n);
        n := n + 1;
      }
      ctx.Put(message[i], aux);
    }
    if |message| == 0 {
      EmptyMessage(start, message);
      assert Padded([]) == Repeat<Byte>(0, 128);
    } else {
      LastBlock(start, message, n);
    }
    assert ctx.b[..ctx.c] == message[128 * n..];
    ctx.HostB2bHLast(aux);
  }

  lemma {:induction false} BytesOfWordsAt(h: seq<Word>, i: nat)
    requires i < 8 * |h|
    ensures BytesOfWords(h)[i] == WordBytes(h[i / 8])[i % 8]
  {
    hide WordBytes;
    if i >= 8 {
      BytesOfWordsAt(h[1..], i - 8);
      assert (i - 8) / 8 == i / 8 - 1 && (i - 8) % 8 == i % 8;
    }
  }

  // ----- Hexadecimal ---------------------------------------------------------------------------------

  function HexChar(dig: nat): char
    requires dig < 16
  {
    HexCode(dig) as char
  }

  /** Two digits per byte, the high one first. */
  function Hex(bytes: seq<Byte>): (s: seq<char>)
    ensures |s| == 2 * |bytes|
  {
    seq(2 * |bytes|, i requires 0 <= i < 2 * |bytes| =>
      HexChar(if i % 2 == 0 then bytes[i / 2] / 16 else bytes[i / 2] % 16))
  }

  /** The value the parser gives to a character. */
  function Unhex(ch: char): (d: nat)
    ensures d < 16
  {
    Nibble(ch as int)
  }

  lemma UnhexHexChar(dig: nat)
    requires dig < 16
    ensures Unhex(HexChar(dig)) == dig
  {
    NibbleOfHexCode(dig);
  }

  /** Position p of the print-out, counted from the other end. */
  lemma MirroredDigit(i: nat, inlen: nat)
    requires i < 2 * inlen
    ensures
      var p := 2 * inlen - i - 1;
      p / 2 == inlen - 1 - i / 2 && p % 2 == 1 - i % 2
  {
  }

  /** Prints the bytes from the last to the first. */
  method LittleEndianToHexStr(input: array<Byte>, inlen: nat, out: array<char>)
    requires input.Length >= inlen && out.Length > 2 * inlen
    modifies out
    ensures out[..2 * inlen] == Hex(Reversed(input[..inlen])) && out[2 * inlen] == '\0'
  {
    hide HexChar;
    ghost var printed := Hex(Reversed(input[..inlen]));
    var i := 2 * inlen - 1;
    while i >= 0
      invariant -1 <= i < 2 * inlen
      invariant forall k | 0 <= k < 2 * inlen - i - 1 :: out[k] == printed[k]
    {
      var dig := (input[i / 2] / (if i % 2 == 1 then 16 else 1)) % 16;
      MirroredDigit(i, inlen);
      out[2 * inlen - i - 1] := HexChar(dig);
      i := i - 1;
    }
    out[2 * inlen] := '\0';
  }

  /** Byte j of what the parser makes of the digits from position first on. */
  function ParsedByte(s: seq<char>, first: nat, j: nat): Byte
    requires 2 * j + 1 < |s|
  {
    16 * (if 2 * j >= first then Unhex(s[2 * j]) else 0) + (if 2 * j + 1 >= first then Unhex(s[2 * j + 1]) else 0)
  }

  /** The same while only the digits before position i are read. */
  function ParsedSoFar(s: seq<char>, first: nat, j: nat, i: nat): Byte
    requires 2 * j + 1 < |s|
  {
    16 * (if first <= 2 * j < i then Unhex(s[2 * j]) else 0)
    + (if first <= 2 * j + 1 < i then Unhex(s[2 * j + 1]) else 0)
  }

  lemma OrDigits(hi: nat, lo: nat)
    requires hi < 16 && lo < 16
    ensures Or(hi * 16, lo) == 16 * hi + lo && Or(0, hi * 16) == hi * 16 && Or(0, lo) == lo
  {
    assert Pow2(4) == 16;
    OrIsSum(lo, hi, 4);
    OrCommutes(lo, hi * 16);
    OrZero(hi * 16);
    OrZero(lo);
  }

  /** Reading one more digit. */
  lemma ParsedDigit(s: seq<char>, first: nat, i: nat)
    requires first <= i < |s| && |s| % 2 == 0
    ensures ParsedSoFar(s, first, i / 2, i + 1) ==
            Or(ParsedSoFar(s, first, i / 2, i), Unhex(s[i]) * (if i % 2 == 0 then 16 else 1)) < 256
    ensures forall j | 0 <= 2 * j < |s| && j != i / 2 :: ParsedSoFar(s, first, j, i + 1) == ParsedSoFar(s, first, j, i)
  {
    hide Unhex, Or;
    OrDigits(Unhex(s[i - i % 2]), Unhex(s[i]));
    OrDigits(Unhex(s[i]), 0);
  }

  lemma NothingParsed(s: seq<char>, first: nat)
    requires |s| % 2 == 0
    ensures forall j | 0 <= 2 * j < |s| :: ParsedSoFar(s, first, j, first) == 0
  {
  }

  lemma AllParsed(s: seq<char>, first: nat)
    requires |s| % 2 == 0
    ensures forall j | 0 <= 2 * j < |s| :: ParsedSoFar(s, first, j, |s|) == ParsedByte(s, first, j)
  {
    hide Unhex;
  }

  /** The parser: it reads the last inlen of 2 * outlen digits, the others count as zero. */
  method HexStrToBigEndian(input: array<char>, inlen: nat, out: array<Byte>, outlen: nat)
    requires inlen <= 2 * outlen <= input.Length && outlen <= out.Length && 2 * outlen < 256
    modifies out
    ensures forall j | 0 <= j < outlen :: out[j] == ParsedByte(input[..2 * outlen], 2 * outlen - inlen, j)
    ensures out[outlen..] == old(out[outlen..])
  {
    hide Or, Unhex, ParsedSoFar, ParsedByte;
    ghost var s := input[..2 * outlen];
    for j := 0 to outlen
      invariant forall k | 0 <= k < j :: out[k] == 0
      invariant out[outlen..] == old(out[outlen..])
      invariant input[..2 * outlen] == s
    {
      out[j] := 0;
    }
    var first := 2 * outlen - inlen;
    NothingParsed(s, first);
    for i := first to 2 * outlen
      invariant out[outlen..] == old(out[outlen..])
      invariant input[..2 * outlen] == s
      invariant forall j | 0 <= j < outlen :: out[j] == ParsedSoFar(s, first, j, i)
    {
      ParsedDigit(s, first, i);
      assert input[i] == s[i];
      var d := Unhex(input[i]) * (if i % 2 == 0 then 16 else 1);
      out[i / 2] := Or(out[i / 2], d) % 256;
    }
    AllParsed(s, first);
  }

  /** Printing and parsing gives the bytes back. */
  lemma PrintParse(bytes: seq<Byte>, j: nat)
    requires j < |bytes|
    ensures ParsedByte(Hex(bytes), 0, j) == bytes[j]
  {
    hide HexChar, Unhex;
    UnhexHexChar(bytes[j] / 16);
    UnhexHexChar(bytes[j] % 16);
    assert (2 * j) / 2 == j && (2 * j + 1) / 2 == j;
  }

  // ----- The hash functions --------------------------------------------------------------------------

  lemma ReversedTwice<T>(s: seq<T>)
    ensures Reversed(Reversed(s)) == s
  {
  }

  /** Byte i of the digest, as the code takes it out of the state. */
  lemma DigestByte(message: seq<Byte>, h: seq<Word>, i: nat)
    requires |h| == 8 && h == FinalState(Start(32, 0), message) && i < 32
    ensures Digest(message)[i] == (h[i / 8] / Pow(256, i % 8)) % 256
  {
    hide FinalState, Start, Pow;
    BytesOfWordsAt(h, i);
    assert Keyed([], message) == message;
  }

  lemma ReversedBytes(s: seq<Byte>, d: seq<Byte>)
    requires |s| == |d| == 32 && forall k | 0 <= k < 32 :: s[31 - k] == d[k]
    ensures s == Reversed(d)
  {
    forall k | 0 <= k < 32
      ensures s[k] == d[31 - k]
    {
      assert s[31 - (31 - k)] == d[31 - k];
    }
  }

  /** Leaves the digest reversed, and prints it in order. */
  method Blake2b256(message: seq<Byte>, output: array<Byte>, outstr: array<char>)
    requires output.Length >= 32 && outstr.Length >= 65
    modifies output, outstr
    ensures output[..32] == Reversed(Digest(message)) && output[32..] == old(output[32..])
    ensures outstr[..64] == Hex(Digest(message))
  {
    hide FinalState, Start, Digest, Hex, Pow, Reversed;
    var ctx := Stream(message);
    ghost var digest := Digest(message);
    ghost var h := ctx.h[..];
    for i := 0 to 32
      invariant ctx.h[..] == h && output[32..] == old(output[32..])
      invariant forall k | 0 <= k < i :: output[31 - k] == digest[k]
    {
      DigestByte(message, h, i);
      output[32 - i - 1] := (ctx.h[i / 8] / Pow(256, i % 8)) % 256;
    }
    ReversedBytes(output[..32], digest);
    LittleEndianToHexStr(output, 32, outstr);
    ReversedTwice(digest);
  }

  /** The digest in order: printed and parsed. The scratch string holds three characters per byte of the message. */
  method HashFn(message: seq<Byte>, output: array<Byte>)
    requires output.Length >= 32 && |message| * 3 > 64
    modifies output
    ensures output[..32] == Hash(32, [], message) && output[32..] == old(output[32..])
  {
    hide Hash, Hex, Reversed, ParsedByte;
    var skstr := new char[|message| * 3];
    Blake2b256(message, output, skstr);
    var beHash := new Byte[33];
    HexStrToBigEndian(skstr, 64, beHash, 32);
    ghost var digest := Digest(message);
    forall j | 0 <= j < 32
      ensures beHash[j] == digest[j]
    {
      PrintParse(digest, j);
    }
    for j := 0 to 32
      invariant forall k | 0 <= k < j :: output[k] == digest[k]
      invariant forall k | 0 <= k < 32 :: beHash[k] == digest[k]
      invariant output[32..] == old(output[32..])
    {
      output[j] := beHash[j];
    }
  }

  /** The streamed digest, printed and parsed with a string of its own. */
  method DigestInOrder(message: seq<Byte>) returns (digest: seq<Byte>)
    ensures digest == Hash(32, [], message)
  {
    hide Hash, Hex, Reversed, ParsedByte;
    var output, outstr := new Byte[32], new char[65];
    Blake2b256(message, output, outstr);
    var beHash := new Byte[33];
    HexStrToBigEndian(outstr, 64, beHash, 32);
    forall j | 0 <= j < 32
      ensures beHash[j] == Digest(message)[j]
    {
      PrintParse(Digest(message), j);
    }
    digest := beHash[..32];
  }

  /** The two implementations agree on every message. */
  method HashBothWays(message: seq<Byte>) returns (streamed: seq<Byte>, split: seq<Byte>)
    ensures streamed == split == Hash(32, [], message)
  {
    hide Hash;
    streamed := DigestInOrder(message);
    split := Blake2bBlocks.Blake2b(message, 32, []);
  }

  function BigEndian32(b: seq<Byte>): (x: nat)
    requires |b| == 4
    ensures x < U32
  {
    var b0: int, b1: int, b2: int, b3: int := b[0], b[1], b[2], b[3];
    ((b0 * 256 + b1) * 256 + b2) * 256 + b3
  }

  /** A little-endian load of the reversed bytes. */
  lemma LittleEndianOfReversed(b: seq<Byte>, r: seq<Byte>)
    requires |b| == 4 && r == [b[3], b[2], b[1], b[0]]
    ensures Value(r, 256) == BigEndian32(b)
  {
    assert r == [b[3]] + ([b[2]] + ([b[1]] + ([b[0]] + [])));
    ValueCons(b[0], [], 256);
    ValueCons(b[1], [b[0]] + [], 256);
    ValueCons(b[2], [b[1]] + ([b[0]] + []), 256);
    ValueCons(b[3], [b[2]] + ([b[1]] + ([b[0]] + [])), 256);
    assert Value([], 256) == 0;
    hide Value;
  }

  method Slices(sk: seq<Byte>, index: array<nat>, nLen: nat)
    requires |sk| == 64 && index.Length >= 32 && 0 < nLen < U64
    modifies index
    ensures forall k | 0 <= k < 32 :: index[k] == BigEndian32(sk[k..k + 4]) % nLen
  {
    hide BigEndian32, Value;
    for k := 0 to 32
      invariant forall i | 0 <= i < k :: index[i] == BigEndian32(sk[i..i + 4]) % nLen
    {
      var tmp := sk[k..k + 4];
      var tmp2 := [tmp[3], tmp[2], tmp[1], tmp[0]];
      LittleEndianOfReversed(tmp, tmp2);
      index[k] := Value(tmp2, 256) % nLen;
    }
  }

  /** The 32 indices: the digest is read four bytes at a time from each of its bytes, cyclically. */
  method GenIndex(message: seq<Byte>, index: array<nat>, nLen: nat)
    requires index.Length >= 32 && 0 < nLen < U64
    modifies index
    ensures
      var digest := Hash(32, [], message);
      forall k | 0 <= k < 32 :: index[k] == BigEndian32((digest + digest)[k..k + 4]) % nLen
  {
    hide Hash, Hex, Reversed, ParsedByte, BigEndian32;
    var sk := new Byte[64](_ => 0);
    var skstr := new char[74];
    Blake2b256(message, sk, skstr);
    var beH := new Byte[33];
    HexStrToBigEndian(skstr, 64, beH, 32);
    ghost var digest := Digest(message);
    forall j | 0 <= j < 32
      ensures beH[j] == digest[j]
    {
      PrintParse(digest, j);
    }
    for j := 0 to 32
      invariant forall k | 0 <= k < j :: sk[k] == digest[k] && sk[32 + k] == digest[k]
      invariant forall k | 0 <= k < 32 :: beH[k] == digest[k]
    {
      sk[j] := beH[j];
      sk[32 + j] := beH[j];
    }
    assert sk[..] == digest + digest;
    Slices(sk[..], index, nLen);
  }
}
