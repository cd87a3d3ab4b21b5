/** BLAKE2b as sections 2.7 and 3.1 to 3.3 of RFC 7693 define it: G, F, and the hash of a keyed message. */
module Blake2bSpec {
  import opened Arithmetic
  import opened LittleEndian
  import opened Sequences
  import opened Words

  function IV(): (iv: seq<Word>)
    ensures |iv| == 8
  {
    [
      0x6A09E667F3BCC908, 0xBB67AE8584CAA73B, 0x3C6EF372FE94F82B, 0xA54FF53A5F1D36F1,
      0x510E527FADE682D1, 0x9B05688C2B3E6C1F, 0x1F83D9ABFB41BD6B, 0x5BE0CD19137E2179
    ]
  }

  /** Word i is the first 64 bits of the fraction of the square root of the i-th prime, section 2.6 of RFC 7693. */
  lemma IVIsSquareRoots(i: nat)
    requires i < 8
    ensures var p := [2, 3, 5, 7, 11, 13, 17, 19][i];
            var n := [1, 1, 2, 2, 3, 3, 4, 4][i] * U64 + IV()[i];
            n * n <= p * U64 * U64 < (n + 1) * (n + 1)
  {
    match i
    case 0 =>
    case 1 =>
    case 2 =>
    case 3 =>
    case 4 =>
    case 5 =>
    case 6 =>
    case _ =>
  }

  type Index = i: nat | i < 16

  function Sigma(r: nat): (s: seq<Index>)
    requires r < 10
    ensures |s| == 16
  {
    match r
    case 0 => [0, 1, 2, 3, 4, 5, 6, 7, 8, 9, 10, 11, 12, 13, 14, 15]
    case 1 => [14, 10, 4, 8, 9, 15, 13, 6, 1, 12, 0, 2, 11, 7, 5, 3]
    case 2 => [11, 8, 12, 0, 5, 2, 15, 13, 10, 14, 3, 6, 7, 1, 9, 4]
    case 3 => [7, 9, 3, 1, 13, 12, 11, 14, 2, 6, 5, 10, 4, 0, 15, 8]
    case 4 => [9, 0, 5, 7, 2, 4, 10, 15, 14, 1, 11, 12, 6, 8, 3, 13]
    case 5 => [2, 12, 6, 10, 0, 11, 8, 3, 4, 13, 7, 5, 15, 14, 1, 9]
    case 6 => [12, 5, 1, 15, 14, 13, 4, 10, 0, 7, 6, 3, 9, 2, 8, 11]
    case 7 => [13, 11, 7, 14, 12, 1, 3, 9, 5, 0, 15, 4, 8, 6, 2, 10]
    case 8 => [6, 15, 14, 9, 11, 3, 0, 8, 12, 2, 13, 7, 1, 4, 10, 5]
    case 9 => [10, 2, 8, 4, 7, 6, 1, 5, 15, 11, 9, 14, 3, 12, 13, 0]
  }

  function Add(x: Word, y: Word): Word {
    (x + y) % U64
  }

  lemma AddThree(a: Word, b: Word, x: Word)
    ensures (a + b + x) % U64 == Add(Add(a, b), x)
  {
    Euclid(a + b, U64);
    ModDifference(a + b + x, (a + b) % U64 + x, (a + b) / U64, U64);
  }

  /** x >>> n: the low n bits move to the top. */
  function Ror(x: Word, n: nat): Word
    requires 0 < n < 64
  {
    RotrMovesBits(x, n);
    x / Pow2(n) + (x % Pow2(n)) * Pow2(64 - n)
  }

  // ----- The mixing function G -----------------------------------------------------------------------

  function HalfMix(q: Quad, x: Word, r1: nat, r2: nat): Quad
    requires 0 < r1 < 64 && 0 < r2 < 64
  {
    var a := Add(Add(q.a, q.b), x);
    var d := Ror(XorWord(q.d, a), r1);
    var c := Add(q.c, d);
    var b := Ror(XorWord(q.b, c), r2);
    Quad(a, b, c, d)
  }

  function Mix(q: Quad, x: Word, y: Word): Quad {
    HalfMix(HalfMix(q, x, 32, 24), y, 16, 63)
  }

  predicate Distinct(a: nat, b: nat, c: nat, d: nat) {
    a < 16 && b < 16 && c < 16 && d < 16 && a != b && a != c && a != d && b != c && b != d && c != d
  }

  function G(v: seq<Word>, a: nat, b: nat, c: nat, d: nat, x: Word, y: Word): (r: seq<Word>)
    requires |v| == 16 && Distinct(a, b, c, d)
    ensures |r| == 16
  {
    var q := Mix(Quad(v[a], v[b], v[c], v[d]), x, y);
    v[a := q.a][b := q.b][c := q.c][d := q.d]
  }

  // ----- The compression function F ------------------------------------------------------------------

  function Columns(v: seq<Word>, m: seq<Word>, s: seq<Index>): (r: seq<Word>)
    requires |v| == |m| == |s| == 16
    ensures |r| == 16
  {
    var v := G(v, 0, 4, 8, 12, m[s[0]], m[s[1]]);
    var v := G(v, 1, 5, 9, 13, m[s[2]], m[s[3]]);
    var v := G(v, 2, 6, 10, 14, m[s[4]], m[s[5]]);
    G(v, 3, 7, 11, 15, m[s[6]], m[s[7]])
  }

  function Diagonals(v: seq<Word>, m: seq<Word>, s: seq<Index>): (r: seq<Word>)
    requires |v| == |m| == |s| == 16
    ensures |r| == 16
  {
    var v := G(v, 0, 5, 10, 15, m[s[8]], m[s[9]]);
    var v := G(v, 1, 6, 11, 12, m[s[10]], m[s[11]]);
    var v := G(v, 2, 7, 8, 13, m[s[12]], m[s[13]]);
    G(v, 3, 4, 9, 14, m[s[14]], m[s[15]])
  }

  /** One round with the message schedule s: four columns, then four diagonals. */
  function Round(v: seq<Word>, m: seq<Word>, s: seq<Index>): (r: seq<Word>)
    requires |v| == |m| == |s| == 16
    ensures |r| == 16
  {
    Diagonals(Columns(v, m, s), m, s)
  }

  function Rounds(v: seq<Word>, m: seq<Word>, n: nat): (r: seq<Word>)
    requires |v| == |m| == 16
    ensures |r| == 16
  {
    if n == 0 then v else Round(Rounds(v, m, n - 1), m, Sigma((n - 1) % 10))
  }

  /** The working vector: the state, then the initialization vector with the counter and the flag. */
  function Working(h: seq<Word>, t: nat, last: bool): (v: seq<Word>)
    requires |h| == 8
    ensures |v| == 16
  {
    var v := h + IV();
    var v := v[12 := XorWord(v[12], t % U64)];
    var v := v[13 := XorWord(v[13], (t / U64) % U64)];
    if last then v[14 := XorWord(v[14], U64 - 1)] else v
  }

  /** The state with both halves of the mixed vector added. */
  function Fold(h: seq<Word>, v: seq<Word>): (r: seq<Word>)
    requires |h| == 8 && |v| == 16
    ensures |r| == 8
  {
    seq(8, i requires 0 <= i < 8 => XorWord(XorWord(h[i], v[i]), v[i + 8]))
  }

  function F(h: seq<Word>, m: seq<Word>, t: nat, last: bool): (r: seq<Word>)
    requires |h| == 8 && |m| == 16
    ensures |r| == 8
  {
    Fold(h, Rounds(Working(h, t, last), m, 12))
  }

  // ----- The hash ------------------------------------------------------------------------------------

  lemma WordBound(b: seq<Byte>)
    requires |b| == 8
    ensures Value(b, 256) < U64
  {
    ValueBound(b, 256);
    assert Pow(256, 4) == U32;
    PowSquare(256, 4, U32);
    hide Pow, Value;
  }

  /** A little-endian word. */
  function WordOf(b: seq<Byte>): Word
    requires |b| == 8
  {
    WordBound(b);
    Value(b, 256)
  }

  function BlockWords(b: seq<Byte>): (m: seq<Word>)
    requires |b| == 128
    ensures |m| == 16
  {
    seq(16, i requires 0 <= i < 16 => WordOf(b[8 * i..8 * i + 8]))
  }

  function Padded(b: seq<Byte>): (p: seq<Byte>)
    requires |b| <= 128
    ensures |p| == 128
  {
    b + Repeat<Byte>(0, 128 - |b|)
  }

  /** The blocks of a message: at least one, the last one not empty unless the message is. */
  function NumBlocks(size: nat): (n: nat)
    ensures n > 0
  {
    if size == 0 then 1 else (size + 127) / 128
  }

  /** The state after the first n blocks, none of them the last. */
  function Absorbed(h: seq<Word>, data: seq<Byte>, n: nat): (r: seq<Word>)
    requires |h| == 8 && 128 * n <= |data|
    ensures |r| == 8
  {
    if n == 0 then h
    else F(Absorbed(h, data, n - 1), BlockWords(data[128 * (n - 1)..128 * n]), 128 * n, false)
  }

  function Parameters(size: nat, keySize: nat): Word
    requires size <= 64 && keySize <= 64
  {
    XorWord(XorWord(0x01010000, 256 * keySize), size)
  }

  function Start(size: nat, keySize: nat): (h: seq<Word>)
    requires size <= 64 && keySize <= 64
    ensures |h| == 8
  {
    IV()[0 := XorWord(IV()[0], Parameters(size, keySize))]
  }

  /** A key goes first, in a block of its own. */
  function Keyed(key: seq<Byte>, message: seq<Byte>): seq<Byte>
    requires |key| <= 64
  {
    if key == [] then message else Padded(key) + message
  }

  lemma BlocksFit(size: nat)
    ensures 128 * (NumBlocks(size) - 1) <= size <= 128 * NumBlocks(size)
    ensures size > 0 ==> 128 * (NumBlocks(size) - 1) < size
  {
  }

  function FinalState(h: seq<Word>, data: seq<Byte>): (r: seq<Word>)
    requires |h| == 8
    ensures |r| == 8
  {
    BlocksFit(|data|);
    var n := NumBlocks(|data|) - 1;
    F(Absorbed(h, data, n), BlockWords(Padded(data[128 * n..])), |data|, true)
  }

  lemma AbsorbedNone(h: seq<Word>, data: seq<Byte>)
    requires |h| == 8
    ensures Absorbed(h, data, 0) == h
  {
  }

  lemma AbsorbedStep(h: seq<Word>, data: seq<Byte>, n: nat)
    requires |h| == 8 && 128 * (n + 1) <= |data|
    ensures Absorbed(h, data, n + 1) ==
            F(Absorbed(h, data, n), BlockWords(data[128 * n..128 * (n + 1)]), 128 * (n + 1), false)
  {
    hide F, BlockWords;
  }

  lemma EmptyMessage(h: seq<Word>, data: seq<Byte>)
    requires |h| == 8 && data == []
    ensures FinalState(h, data) == F(h, BlockWords(Repeat<Byte>(0, 128)), 0, true)
  {
    hide F, BlockWords;
    assert Padded([]) == Repeat<Byte>(0, 128);
  }

  lemma LastBlock(h: seq<Word>, data: seq<Byte>, n: nat)
    requires |h| == 8 && 128 * n < |data| <= 128 * (n + 1)
    ensures FinalState(h, data) == F(Absorbed(h, data, n), BlockWords(Padded(data[128 * n..])), |data|, true)
  {
    hide F, BlockWords, Absorbed, Padded;
  }

  function WordBytes(x: Word): (b: seq<Byte>)
    ensures |b| == 8
  {
    seq(8, i requires 0 <= i < 8 => (x / Pow(256, i)) % 256)
  }

  /** The bytes of a sequence of words. */
  function BytesOfWords(h: seq<Word>): (b: seq<Byte>)
    ensures |b| == 8 * |h|
  {
    if h == [] then [] else WordBytes(h[0]) + BytesOfWords(h[1..])
  }

  function Hash(size: nat, key: seq<Byte>, message: seq<Byte>): (digest: seq<Byte>)
    requires 1 <= size <= 64 && |key| <= 64
    ensures |digest| == size
  {
    BytesOfWords(FinalState(Start(size, |key|), Keyed(key, message)))[..size]
  }
}
