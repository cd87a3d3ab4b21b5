/** BLAKE2b by splitting the message into blocks, on integers kept below 2^64 by a mask. */
module Blake2bBlocks {
  import opened Arithmetic
  import opened Blake2bSpec
  import opened LittleEndian
  import opened Sequences
  import opened Words

  // ----- Encoding ------------------------------------------------------------------------------------

  lemma PowBytes(n: nat)
    ensures Pow(256, n) == Pow2(8 * n)
  {
    assert Pow(2, 8) == 256;
    PowOfPow(2, 8, n);
    hide Pow;
  }

  lemma EmptyValue()
    ensures Value([], 256) == 0
  {
  }

  lemma WholeWord(bytes: seq<Byte>)
    requires |bytes| == 8
    ensures WordOf(bytes) == Value(bytes, 256) < U64
  {
    WordBound(bytes);
  }

  /** Setting the next byte by a shift and an or. */
  lemma AppendByte(bytes: seq<Byte>, byte: Byte)
    ensures Or(Value(bytes, 256), byte * Pow2(|bytes| * 8)) == Value(bytes + [byte], 256)
  {
    hide Or, Value, Pow, Pow2;
    ValueBound(bytes, 256);
    PowBytes(|bytes|);
    OrIsSum(Value(bytes, 256), byte, 8 * |bytes|);
    ValueAppend(bytes, byte, 256);
    Commute(Pow2(8 * |bytes|), byte);
  }

  method BytesToWords16(block: seq<Byte>) returns (words: seq<Word>)
    requires |block| == 128
    ensures words == BlockWords(block)
  {
    hide WordOf, Value, Pow, Or, Pow2;
    words := [];
    for i := 0 to 16
      invariant words == BlockWords(block)[..i]
    {
      var word: nat := 0;
      ghost var bytes := block[8 * i..8 * i + 8];
      EmptyValue();
      for at := 0 to 8
        invariant word == Value(bytes[..at], 256)
      {
        var byte := block[i * 8 + at];
        AppendByte(bytes[..at], byte);
        assert bytes[..at + 1] == bytes[..at] + [byte];
        word := Or(word, byte * Pow2(at * 8));
      }
      assert bytes[..8] == bytes;
      WholeWord(bytes);
      words := words + [word];
    }
  }

  lemma ByteOfWord(x: Word, i: nat)
    requires i < 8
    ensures WordBytes(x)[i] == (x / Pow2(i * 8)) % 256
  {
    PowBytes(i);
    hide Pow, Pow2;
  }

  lemma {:induction false} AppendWord(h: seq<Word>, x: Word)
    ensures BytesOfWords(h + [x]) == BytesOfWords(h) + WordBytes(x)
  {
    hide WordBytes;
    if h == [] {
      assert h + [x] == [x];
      assert BytesOfWords([x]) == WordBytes(x) + BytesOfWords([]);
    } else {
      assert (h + [x])[0] == h[0] && (h + [x])[1..] == h[1..] + [x];
      AppendWord(h[1..], x);
    }
  }

  method StateToBytes(h: array<Word>) returns (result: seq<Byte>)
    ensures result == BytesOfWords(h[..])
  {
    hide Pow, Pow2, WordBytes;
    result := [];
    assert BytesOfWords([]) == [];
    for i := 0 to h.Length
      invariant result == BytesOfWords(h[..i])
    {
      ghost var before := result;
      for at := 0 to 8
        invariant result == before + WordBytes(h[i])[..at]
      {
        ByteOfWord(h[i], at);
        result := result + [(h[i] / Pow2(at * 8)) % 256];
      }
      AppendWord(h[..i], h[i]);
      assert h[..i + 1] == h[..i] + [h[i]];
    }
    assert h[..] == h[..h.Length];
  }

  // ----- G -------------------------------------------------------------------------------------------

  function MixWords(a: Word, b: Word, c: Word, d: Word, x: Word, y: Word): Quad {
    var a := (a + b + x) % U64;
    var d := Rotr64(XorWord(d, a), 32);
    var c := (c + d) % U64;
    var b := Rotr64(XorWord(b, c), 24);
    var a := (a + b + y) % U64;
    var d := Rotr64(XorWord(d, a), 16);
    var c := (c + d) % U64;
    var b := Rotr64(XorWord(b, c), 63);
    Quad(a, b, c, d)
  }

  lemma RotrIsRor(x: Word, n: nat)
    requires 0 < n < 64
    ensures Rotr64(x, n) == Ror(x, n)
  {
    RotrMovesBits(x, n);
    hide Rotr64, Pow2;
  }

  function HalfMixWords(q: Quad, x: Word, r1: nat, r2: nat): Quad
    requires 0 < r1 < 64 && 0 < r2 < 64
  {
    var a := (q.a + q.b + x) % U64;
    var d := Rotr64(XorWord(q.d, a), r1);
    var c := (q.c + d) % U64;
    var b := Rotr64(XorWord(q.b, c), r2);
    Quad(a, b, c, d)
  }

  lemma HalfMixAgrees(q: Quad, x: Word, r1: nat, r2: nat)
    requires 0 < r1 < 64 && 0 < r2 < 64
    ensures HalfMixWords(q, x, r1, r2) == HalfMix(q, x, r1, r2)
  {
    hide XorWord, Rotr64, Ror;
    AddThree(q.a, q.b, x);
    var a := Add(Add(q.a, q.b), x);
    RotrIsRor(XorWord(q.d, a), r1);
    var d := Ror(XorWord(q.d, a), r1);
    RotrIsRor(XorWord(q.b, Add(q.c, d)), r2);
  }

  lemma TwoHalves(a: Word, b: Word, c: Word, d: Word, x: Word, y: Word)
    ensures MixWords(a, b, c, d, x, y) == HalfMixWords(HalfMixWords(Quad(a, b, c, d), x, 32, 24), y, 16, 63)
  {
    hide XorWord, Rotr64;
  }

  /** The scalar form of G is the reference's. */
  lemma MixWordsIsMix(a: Word, b: Word, c: Word, d: Word, x: Word, y: Word)
    ensures MixWords(a, b, c, d, x, y) == Mix(Quad(a, b, c, d), x, y)
  {
    hide MixWords, HalfMixWords, HalfMix;
    TwoHalves(a, b, c, d, x, y);
    HalfMixAgrees(Quad(a, b, c, d), x, 32, 24);
    HalfMixAgrees(HalfMixWords(Quad(a, b, c, d), x, 32, 24), y, 16, 63);
  }

  /** The tuple assignment around a call of G. */
  method MixInto(v: array<Word>, a: nat, b: nat, c: nat, d: nat, x: Word, y: Word)
    requires v.Length == 16 && Distinct(a, b, c, d)
    modifies v
    ensures v[..] == G(old(v[..]), a, b, c, d, x, y)
  {
    hide MixWords, Mix;
    MixWordsIsMix(v[a], v[b], v[c], v[d], x, y);
    var q := MixWords(v[a], v[b], v[c], v[d], x, y);
    v[a], v[b], v[c], v[d] := q.a, q.b, q.c, q.d;
  }

  // ----- F -------------------------------------------------------------------------------------------

  /** The 12 rounds. */
  method MixRounds(v: array<Word>, m: seq<Word>)
    requires v.Length == |m| == 16
    modifies v
    ensures v[..] == Rounds(old(v[..]), m, 12)
  {
    hide G, Sigma;
    for r := 0 to 12
      invariant v[..] == Rounds(old(v[..]), m, r)
    {
      var s := Sigma(r % 10);
      MixInto(v, 0, 4, 8, 12, m[s[0]], m[s[1]]);
      MixInto(v, 1, 5, 9, 13, m[s[2]], m[s[3]]);
      MixInto(v, 2, 6, 10, 14, m[s[4]], m[s[5]]);
      MixInto(v, 3, 7, 11, 15, m[s[6]], m[s[7]]);
      MixInto(v, 0, 5, 10, 15, m[s[8]], m[s[9]]);
      MixInto(v, 1, 6, 11, 12, m[s[10]], m[s[11]]);
      MixInto(v, 2, 7, 8, 13, m[s[12]], m[s[13]]);
      MixInto(v, 3, 4, 9, 14, m[s[14]], m[s[15]]);
    }
  }

  /** The working vector. */
  method WorkingVector(h: array<Word>, t: nat, last: bool) returns (v: array<Word>)
    requires h.Length == 8
    ensures fresh(v) && v.Length == 16 && v[..] == Working(h[..], t, last)
  {
    hide XorWord, IV;
    v := new Word[16](_ => 0);
    for i := 0 to 8
      invariant forall k | 0 <= k < i :: v[k] == h[k]
    {
      v[i] := h[i];
    }
    for i := 0 to 8
      invariant forall k | 0 <= k < 8 :: v[k] == h[k]
      invariant forall k | 0 <= k < i :: v[k + 8] == IV()[k]
    {
      v[i + 8] := IV()[i];
    }
    assert v[..] == h[..] + IV();
    v[12] := XorWord(v[12], t % U64);
    v[13] := XorWord(v[13], (t / U64) % U64);
    if last {
      v[14] := XorWord(v[14], U64 - 1);
    }
  }

  lemma FoldsAt(h: seq<Word>, v: seq<Word>, i: nat)
    requires |h| == 8 && |v| == 16 && i < 8
    ensures Fold(h, v)[i] == XorWord(XorWord(h[i], v[i]), v[i + 8])
  {
    hide XorWord;
  }

  /** Adds both halves of the working vector to the state. */
  method AddHalves(h: array<Word>, v: array<Word>)
    requires h.Length == 8 && v.Length == 16 && h != v
    modifies h
    ensures h[..] == Fold(old(h[..]), v[..])
  {
    hide XorWord, Fold;
    ghost var a, w := h[..], v[..];
    for i := 0 to 8
      invariant v[..] == w
      invariant forall k | 0 <= k < 8 :: h[k] == if k < i then Fold(a, w)[k] else a[k]
    {
      FoldsAt(a, w, i);
      h[i] := XorWord(XorWord(h[i], v[i]), v[i + 8]);
    }
  }

  method Compress(h: array<Word>, block: seq<Byte>, t: nat, last: bool)
    requires h.Length == 8 && |block| == 128
    modifies h
    ensures h[..] == F(old(h[..]), BlockWords(block), t, last)
  {
    hide Working, Fold, Rounds, BlockWords;
    var m := BytesToWords16(block);
    var v := WorkingVector(h, t, last);
    MixRounds(v, m);
    AddHalves(h, v);
  }

  // ----- The hash ------------------------------------------------------------------------------------

  method Blake2b(data: seq<Byte>, digestSize: nat, key: seq<Byte>) returns (digest: seq<Byte>)
    requires 1 <= digestSize <= 64 && |key| <= 64
    ensures digest == Hash(digestSize, key, data)
  {
    hide F, BlockWords, XorWord, Absorbed, BytesOfWords;
    var h := new Word[8](_ => 0);
    for i := 0 to 8
      invariant forall k | 0 <= k < i :: h[k] == IV()[k]
    {
      h[i] := IV()[i];
    }
    h[0] := XorWord(h[0], XorWord(XorWord(0x01010000, 256 * |key|), digestSize));
    ghost var start := Start(digestSize, |key|);
    assert h[..] == start;

    var input := data;
    if |key| > 0 {
      input := key + Repeat<Byte>(0, 128 - |key|) + input;
    }
    assert input == Keyed(key, data);

    ghost var n := 0;
    AbsorbedNone(start, input);
    if |input| == 0 {
      EmptyMessage(start, input);
      Compress(h, Repeat<Byte>(0, 128), 0, true);
    } else {
      var dataLen, offset := |input|, 0;
      while offset + 128 < dataLen
        invariant offset == 128 * n < dataLen
        invariant h[..] == Absorbed(start, input, n)
      {
        Compress(h, input[offset..offset + 128], offset + 128, false);
        AbsorbedStep(start, input, n);
        offset, n := offset + 128, n + 1;
      }
      var lastBlock := input[offset..];
      LastBlock(start, input, n);
      Compress(h, lastBlock + Repeat<Byte>(0, 128 - |lastBlock|), dataLen, true);
    }

    var raw := StateToBytes(h);
    digest := raw[..digestSize];
  }
}
