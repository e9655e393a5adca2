/** RIPEMD-160 around its compression: the block loop and the padding of the last blocks. */
module Ripemd {
  import opened CommonData

  const UINT32 := 0x1_0000_0000

  type Word = w: int | 0 <= w < UINT32

  /** The five words of the buffer. */
  type State = s: seq<Word> | |s| == 5
    witness [0, 0, 0, 0, 0]

  /** MDcompress, of which nothing is assumed. */
  type Compressor = (State, seq<Word>) -> State

  const INITIAL: State := [0x67452301, 0xefcdab89, 0x98badcfe, 0x10325476, 0xc3d2e1f0]

  // ------------------------------------------------------------------ Bits

  function Xor(a: nat, b: nat): nat
    decreases a + b
  {
    if a == 0 && b == 0 then 0 else (a + b) % 2 + 2 * Xor(a / 2, b / 2)
  }

  function Pow2(k: nat): (p: nat)
    ensures p > 0
  {
    if k == 0 then 1 else 2 * Pow2(k - 1)
  }

  lemma {:induction false} XorZero(b: nat)
    ensures Xor(0, b) == b
  {
    if b > 0 {
      XorZero(b / 2);
    }
  }

  lemma XorEven(a: nat, h: nat)
    ensures Xor(a, 2 * h) == a % 2 + 2 * Xor(a / 2, h)
  {
    if a > 0 || h > 0 {
      assert (a + 2 * h) % 2 == a % 2 && 2 * h / 2 == h;
    }
  }

  /** Where no bit is set in both, exclusive or is addition. */
  lemma {:induction false} XorDisjoint(a: nat, k: nat, c: nat)
    requires a < Pow2(k)
    ensures Xor(a, c * Pow2(k)) == a + c * Pow2(k)
    decreases k
  {
    hide Xor;
    if k == 0 {
      XorZero(c);
    } else {
      var h := c * Pow2(k - 1);
      Doubled(c, Pow2(k - 1));
      XorEven(a, h);
      XorDisjoint(a / 2, k - 1, c);
    }
  }

  lemma Doubled(c: nat, p: nat)
    ensures c * (2 * p) == 2 * (c * p)
  {
  }

  // ------------------------------------------------------------------ Bytes as words

  function WordOf(b: Bytes): (w: Word)
    requires |b| == 4
  {
    b[0] as int + 0x100 * (b[1] as int) + 0x1_0000 * (b[2] as int) + 0x100_0000 * (b[3] as int)
  }

  function WordsOf(b: Bytes): (ws: seq<Word>)
    requires |b| % 4 == 0
    ensures |ws| == |b| / 4
  {
    if b == [] then [] else [WordOf(b[..4])] + WordsOf(b[4..])
  }

  lemma {:induction false} WordsAt(b: Bytes, i: nat)
    requires |b| % 4 == 0 && i < |b| / 4
    ensures WordsOf(b)[i] == WordOf(b[4 * i..4 * i + 4])
  {
    if i > 0 {
      WordsAt(b[4..], i - 1);
      assert b[4..][4 * (i - 1)..4 * (i - 1) + 4] == b[4 * i..4 * i + 4];
    }
  }

  lemma {:induction false} WordsConcat(a: Bytes, b: Bytes)
    requires |a| % 4 == 0 && |b| % 4 == 0
    ensures WordsOf(a + b) == WordsOf(a) + WordsOf(b)
  {
    if a == [] {
      assert a + b == b;
    } else {
      WordsConcat(a[4..], b);
      assert (a + b)[..4] == a[..4] && (a + b)[4..] == a[4..] + b;
    }
  }

  /** Folding the compression over whole blocks. */
  function Fold(compress: Compressor, state: State, b: Bytes): State
    requires |b| % 64 == 0
    decreases |b|
  {
    if b == [] then state else Fold(compress, compress(state, WordsOf(b[..64])), b[64..])
  }

  // ------------------------------------------------------------------ Padding

  function LittleEndian(n: nat, k: nat): (b: Bytes)
    ensures |b| == k
  {
    if k == 0 then [] else [n % 256] + LittleEndian(n / 256, k - 1)
  }

  /** What is missing to a multiple of 64 besides the byte with the one bit and the length. */
  function ZerosNeeded(n: nat): (z: nat)
    ensures z < 64 && (n + 9 + z) % 64 == 0
  {
    var r := n % 64;
    assert n == 64 * (n / 64) + r;
    if r <= 55 then 55 - r else 119 - r
  }

  /** A one bit, zeros, and the length in bits as eight bytes. */
  function Padding(n: nat): (p: Bytes)
    ensures (n + |p|) % 64 == 0
  {
    [0x80] + Zeros(ZerosNeeded(n)) + LittleEndian(8 * n, 8)
  }

  function Padded(m: Bytes): (p: Bytes)
    ensures |p| % 64 == 0
  {
    m + Padding(|m|)
  }

  /** LittleEndian of different numbers that fit are different. */
  lemma {:induction false} LittleEndianInjective(m: nat, n: nat, k: nat)
    requires m < Pow256(k) && n < Pow256(k) && LittleEndian(m, k) == LittleEndian(n, k)
    ensures m == n
  {
    if k > 0 {
      assert LittleEndian(m, k)[1..] == LittleEndian(m / 256, k - 1) && LittleEndian(n, k)[1..] == LittleEndian(n / 256, k - 1);
      assert LittleEndian(m, k)[0] == LittleEndian(n, k)[0];
      LittleEndianInjective(m / 256, n / 256, k - 1);
    }
  }

  /** Different messages have different paddings to whole blocks. */
  lemma PaddedInjective(a: Bytes, b: Bytes)
    requires |a| < UINT32 && |b| < UINT32 && Padded(a) == Padded(b)
    ensures a == b
  {
    LastEight(a);
    LastEight(b);
    EightBytesHold(8 * |a|);
    EightBytesHold(8 * |b|);
    LittleEndianInjective(8 * |a|, 8 * |b|, 8);
    assert Padded(a)[..|a|] == a && Padded(b)[..|b|] == b;
  }

  lemma LastEight(m: Bytes)
    ensures Padded(m)[|Padded(m)| - 8..] == LittleEndian(8 * |m|, 8)
  {
  }

  lemma EightBytesHold(n: nat)
    requires n < 8 * UINT32
    ensures n < Pow256(8)
  {
    assert Pow256(4) == UINT32;
    assert Pow256(5) == 256 * Pow256(4) && Pow256(6) == 256 * Pow256(5);
    assert Pow256(7) == 256 * Pow256(6) && Pow256(8) == 256 * Pow256(7);
  }

  // ------------------------------------------------------------------ In numbers

  /** The bytes of the five initial words count up and then down again. */
  lemma InitialBytes()
    ensures WordsOf([0x01, 0x23, 0x45, 0x67, 0x89, 0xab, 0xcd, 0xef, 0xfe, 0xdc, 0xba, 0x98, 0x76, 0x54, 0x32, 0x10,
                     0xf0, 0xe1, 0xd2, 0xc3]) == INITIAL
  {
    hide *;
    var b: Bytes := [0x01, 0x23, 0x45, 0x67, 0x89, 0xab, 0xcd, 0xef, 0xfe, 0xdc, 0xba, 0x98, 0x76, 0x54, 0x32, 0x10,
                     0xf0, 0xe1, 0xd2, 0xc3];
    WordNumbers(b, 0);
    WordNumbers(b, 1);
    WordNumbers(b, 2);
    WordNumbers(b, 3);
    WordNumbers(b, 4);
    InitialIs();
  }

  lemma InitialIs()
    ensures INITIAL == [0x67452301, 0xefcdab89, 0x98badcfe, 0x10325476, 0xc3d2e1f0]
  {
  }

  /** Every word is made of its four bytes, lowest first. */
  lemma WordNumbers(b: Bytes, i: nat)
    requires |b| % 4 == 0 && i < |b| / 4
    ensures WordsOf(b)[i] as int
            == b[4 * i] as int + 0x100 * (b[4 * i + 1] as int) + 0x1_0000 * (b[4 * i + 2] as int) + 0x100_0000 * (b[4 * i + 3] as int)
  {
    WordsAt(b, i);
    hide WordsOf;
    var c := b[4 * i..4 * i + 4];
    assert c[0] == b[4 * i] && c[1] == b[4 * i + 1] && c[2] == b[4 * i + 2] && c[3] == b[4 * i + 3];
  }

  lemma {:induction false} LittleEndianAt(n: nat, k: nat, i: nat)
    requires i < k
    ensures LittleEndian(n, k)[i] == n / Pow256(i) % 256
  {
    if i == 0 {
      assert n / 1 == n;
    } else {
      LittleEndianAt(n / 256, k - 1, i - 1);
      DividedTwice(n, Pow256(i - 1));
    }
  }

  lemma DividedTwice(n: nat, p: nat)
    requires p > 0
    ensures n / (256 * p) == n / 256 / p
  {
    var q, r := n / (256 * p), n % (256 * p);
    assert n == 256 * (p * q) + r && r / 256 < p;
    assert n / 256 == p * q + r / 256;
    QuotientIs(n / 256, p, q, r / 256);
  }

  /** The input, a one bit, as few zeros as make whole blocks, and the number of bits in eight bytes, lowest first. */
  lemma PaddedBytes(m: Bytes)
    ensures var p := Padded(m);
            && |p| % 64 == 0 && |m| + 9 <= |p| < |m| + 73
            && p[..|m|] == m && p[|m|] == 0x80
            && (forall i | |m| < i < |p| - 8 :: p[i] == 0)
            && forall i | 0 <= i < 8 :: p[|p| - 8 + i] == 8 * |m| / Pow256(i) % 256
  {
    var p, l := Padded(m), LittleEndian(8 * |m|, 8);
    LastEight(m);
    hide Pow256, LittleEndian;
    forall i | 0 <= i < 8 ensures p[|p| - 8 + i] == 8 * |m| / Pow256(i) % 256 {
      LittleEndianAt(8 * |m|, 8, i);
      assert p[|p| - 8..][i] == l[i];
    }
  }

  /** Blocks are compressed one after the other, from the front. */
  lemma {:induction false} FoldBlocks(compress: Compressor, state: State, a: Bytes, b: Bytes)
    requires |a| % 64 == 0 && |b| % 64 == 0
    ensures Fold(compress, state, a + b) == Fold(compress, Fold(compress, state, a), b)
    ensures |a| == 64 ==> Fold(compress, state, a) == compress(state, WordsOf(a))
    decreases |a|
  {
    hide WordsOf;
    if a == [] {
      assert a + b == b;
    } else {
      var head, rest := a[..64], a[64..];
      FoldBlocks(compress, compress(state, WordsOf(head)), rest, b);
      assert (a + b)[..64] == head && (a + b)[64..] == rest + b;
      if |a| == 64 {
        assert head == a && rest == [];
      }
    }
  }

  // ------------------------------------------------------------------ Setting bytes of a block of words

  /** Putting a byte where there was a zero. */
  lemma {:induction false} WordsSet(b: Bytes, i: nat, x: Byte)
    requires |b| % 4 == 0 && i < |b| && b[i] == 0
    ensures var w := WordsOf(b)[i / 4];
            var w': int := w + x * Pow2(8 * (i % 4));
            0 <= w' < UINT32 && WordsOf(b[i := x]) == WordsOf(b)[i / 4 := w']
  {
    if i < 4 {
      WordSet(b[..4], i, x);
      assert b[i := x][4..] == b[4..];
      assert b[i := x][..4] == b[..4][i := x];
    } else {
      WordsSet(b[4..], i - 4, x);
      assert b[i := x][..4] == b[..4] && b[i := x][4..] == b[4..][i - 4 := x];
      assert (i - 4) / 4 == i / 4 - 1 && (i - 4) % 4 == i % 4;
    }
  }

  lemma WordSet(b: Bytes, i: nat, x: Byte)
    requires |b| == 4 && i < 4 && b[i] == 0
    ensures WordOf(b[i := x]) == WordOf(b) + x * Pow2(8 * i)
  {
    hide Pow2;
    Powers();
    var c := b[i := x];
    if i == 0 {
      assert c == [x, b[1], b[2], b[3]];
    } else if i == 1 {
      assert c == [b[0], x, b[2], b[3]];
    } else if i == 2 {
      assert c == [b[0], b[1], x, b[3]];
    } else {
      assert c == [b[0], b[1], b[2], x];
    }
  }

  lemma Powers()
    ensures Pow2(0) == 1 && Pow2(8) == 0x100 && Pow2(16) == 0x1_0000 && Pow2(24) == 0x100_0000
    ensures Pow2(7) == 0x80
  {
    assert Pow2(4) == 16 && Pow2(8) == 16 * Pow2(4);
    assert Pow2(12) == 16 * Pow2(8) && Pow2(16) == 16 * Pow2(12);
    assert Pow2(20) == 16 * Pow2(16) && Pow2(24) == 16 * Pow2(20);
  }

  /** A word whose bytes from k on are zero is below 256 to the k. */
  lemma {:induction false} WordsBelow(b: Bytes, i: nat)
    requires |b| % 4 == 0 && i < |b| && forall j | i <= j < |b| :: b[j] == 0
    ensures WordsOf(b)[i / 4] < Pow2(8 * (i % 4))
  {
    WordsAt(b, i / 4);
    Powers();
    var c := b[4 * (i / 4)..4 * (i / 4) + 4];
    assert forall j | i % 4 <= j < 4 :: c[j] == b[4 * (i / 4) + j] == 0;
  }

  lemma {:induction false} ZeroWords(n: nat)
    ensures |WordsOf(Zeros(4 * n))| == n && forall i | 0 <= i < n :: WordsOf(Zeros(4 * n))[i] == 0
  {
    hide WordsOf, Zeros;
    forall i | 0 <= i < n ensures WordsOf(Zeros(4 * n))[i] == 0 {
      WordsAt(Zeros(4 * n), i);
    }
  }

  // ------------------------------------------------------------------ The buffers

  /** One compression, with its result left in the buffer. */
  method MDcompress(compress: Compressor, MDbuf: array<Word>, X: array<Word>)
    requires MDbuf.Length == 5 && X.Length == 16 && MDbuf != X
    modifies MDbuf
    ensures MDbuf[..] == compress(old(MDbuf[..]), X[..])
  {
    var r := compress(MDbuf[..], X[..]);
    for i := 0 to 5
      invariant forall j | 0 <= j < i :: MDbuf[j] == r[j]
    {
      MDbuf[i] := r[i];
    }
  }

  /** All words zero. */
  method Clear(X: array<Word>)
    requires X.Length == 16
    modifies X
    ensures X[..] == WordsOf(Zeros(64))
  {
    hide WordsOf, Zeros;
    for i := 0 to 16
      invariant forall j | 0 <= j < i :: X[j] == 0
    {
      X[i] := 0;
    }
    ZeroWords(16);
  }

  /** Byte i goes into its word by exclusive or, where the block is zero from byte i on. */
  method SetByte(X: array<Word>, i: nat, x: Byte, ghost b: Bytes)
    requires X.Length == 16 && |b| == 64 && X[..] == WordsOf(b) && i < 64 && forall j | i <= j < 64 :: b[j] == 0
    modifies X
    ensures X[..] == WordsOf(b[i := x])
  {
    hide WordsOf, Pow2, Xor;
    WordsBelow(b, i);
    XorDisjoint(X[..][i / 4], 8 * (i % 4), x);
    WordsSet(b, i, x);
    X[i / 4] := Xor(X[i / 4], x * Pow2(8 * (i % 4)));
  }

  /** The bytes of the tail, and the one bit after them. */
  method PutTail(X: array<Word>, tail: Bytes)
    requires X.Length == 16 && |tail| < 64 && X[..] == WordsOf(Zeros(64))
    modifies X
    ensures X[..] == WordsOf(tail + [0x80] + Zeros(63 - |tail|))
  {
    hide WordsOf, Zeros;
    ZerosFront(64);
    var i := 0;
    while i < |tail|
      invariant i <= |tail| && X[..] == WordsOf(tail[..i] + Zeros(64 - i))
    {
      ZerosShift(tail[..i], 64 - i, tail[i]);
      SetByte(X, i, tail[i], tail[..i] + Zeros(64 - i));
      assert tail[..i + 1] == tail[..i] + [tail[i]];
      i := i + 1;
    }
    assert tail[..i] == tail;
    ZerosShift(tail, 64 - i, 0x80);
    SetByte(X, i, 0x80, tail + Zeros(64 - i));
  }

  lemma ZerosFront(n: nat)
    ensures [] + Zeros(n) == Zeros(n)
  {
  }

  lemma ZerosShift(a: Bytes, n: nat, x: Byte)
    requires n > 0
    ensures |a + Zeros(n)| == |a| + n && (forall j | |a| <= j < |a| + n :: (a + Zeros(n))[j] == 0)
    ensures (a + Zeros(n))[|a| := x] == a + [x] + Zeros(n - 1)
  {
  }

  /** The last two words: the length in bits. */
  method PutLength(X: array<Word>, n: Word, ghost front: Bytes)
    requires X.Length == 16 && |front| == 56 && X[..] == WordsOf(front + Zeros(8))
    modifies X
    ensures X[..] == WordsOf(front + LittleEndian(8 * n, 8))
  {
    hide WordsOf;
    WordsConcat(front, Zeros(8));
    WordsConcat(front, LittleEndian(8 * n, 8));
    LengthWords(n);
    X[14] := 8 * n % UINT32;
    X[15] := n / 0x2000_0000;
    assert X[..] == WordsOf(front) + [X[14], X[15]];
  }

  lemma LengthWords(n: Word)
    ensures WordsOf(LittleEndian(8 * n, 8)) == [8 * n % UINT32, n / 0x2000_0000]
  {
    var l: nat := 8 * n;
    EightTimes(n);
    LittleWord(l);
    LittleWord(l / UINT32);
    LittleFour(l);
    hide LittleEndian, WordsOf, WordOf;
    WordsConcat(LittleEndian(l, 4), LittleEndian(l / UINT32, 4));
    OneWord(LittleEndian(l, 4));
    OneWord(LittleEndian(l / UINT32, 4));
  }

  lemma EightTimes(n: Word)
    ensures 8 * n / UINT32 == n / 0x2000_0000 && 8 * n / UINT32 % UINT32 == n / 0x2000_0000
  {
    var q, r := n / 0x2000_0000, n % 0x2000_0000;
    assert n == 0x2000_0000 * q + r;
    assert 8 * n == UINT32 * q + 8 * r;
  }

  /** Four bytes, and what is left of the number after them. */
  lemma LittleFront(n: nat, k: nat)
    ensures var a, b, c := n / 256, n / 256 / 256, n / 256 / 256 / 256;
            && LittleEndian(n, k + 4) == [n % 256, a % 256, b % 256, c % 256] + LittleEndian(c / 256, k)
            && n / UINT32 == c / 256
            && n % UINT32 == n % 256 + 0x100 * (a % 256) + 0x1_0000 * (b % 256) + 0x100_0000 * (c % 256)
  {
    var a, b, c := n / 256, n / 256 / 256, n / 256 / 256 / 256;
    assert LittleEndian(n, k + 4) == [n % 256] + LittleEndian(a, k + 3);
    assert LittleEndian(a, k + 3) == [a % 256] + LittleEndian(b, k + 2);
    assert LittleEndian(b, k + 2) == [b % 256] + LittleEndian(c, k + 1);
    assert LittleEndian(c, k + 1) == [c % 256] + LittleEndian(c / 256, k);
    assert n == 256 * a + n % 256 && a == 256 * b + a % 256 && b == 256 * c + b % 256 && c == 256 * (c / 256) + c % 256;
  }

  lemma LittleWord(n: nat)
    ensures WordOf(LittleEndian(n, 4)) == n % UINT32
  {
    LittleFront(n, 0);
    assert LittleEndian(n / UINT32, 0) == [];
  }

  lemma LittleFour(n: nat)
    ensures LittleEndian(n, 8) == LittleEndian(n, 4) + LittleEndian(n / UINT32, 4)
  {
    LittleFront(n, 4);
    LittleFront(n, 0);
    assert LittleEndian(n / UINT32, 0) == [];
  }

  // ------------------------------------------------------------------ The whole

  /** MDfinish: one last block, or two if the length no longer fits the first. */
  method MDfinish(compress: Compressor, MDbuf: array<Word>, tail: Bytes, lswlen: Word)
    requires MDbuf.Length == 5 && |tail| == lswlen % 64
    modifies MDbuf
    ensures (|tail| + |Padding(lswlen)|) % 64 == 0
    ensures MDbuf[..] == Fold(compress, old(MDbuf[..]), tail + Padding(lswlen))
  {
    hide WordsOf, LittleEndian;
    var X := new Word[16];
    Clear(X);
    PutTail(X, tail);
    LastBlocks(compress, MDbuf[..], tail, lswlen);
    if lswlen % 64 > 55 {
      MDcompress(compress, MDbuf, X);
      Clear(X);
      ZerosJoin(56, 8);
      PutLength(X, lswlen, Zeros(56));
    } else {
      ZerosJoin(55 - |tail|, 8);
      assert tail + [0x80] + Zeros(63 - |tail|) == tail + [0x80] + Zeros(55 - |tail|) + Zeros(8);
      PutLength(X, lswlen, tail + [0x80] + Zeros(55 - |tail|));
    }
    MDcompress(compress, MDbuf, X);
  }

  lemma {:induction false} ZerosJoin(m: nat, n: nat)
    ensures Zeros(m) + Zeros(n) == Zeros(m + n)
  {
    if n > 0 {
      ZerosJoin(m, n - 1);
      assert Zeros(m) + (Zeros(n - 1) + [0]) == Zeros(m) + Zeros(n - 1) + [0];
    }
  }

  /** What the padded tail folds to. */
  lemma LastBlocks(compress: Compressor, state: State, tail: Bytes, n: nat)
    requires |tail| == n % 64
    ensures (|tail| + |Padding(n)|) % 64 == 0
    ensures Fold(compress, state, tail + Padding(n)) ==
            if |tail| > 55 then
              compress(compress(state, WordsOf(tail + [0x80] + Zeros(63 - |tail|))), WordsOf(Zeros(56) + LittleEndian(8 * n, 8)))
            else compress(state, WordsOf(tail + [0x80] + Zeros(55 - |tail|) + LittleEndian(8 * n, 8)))
  {
    hide WordsOf, LittleEndian;
    var b, length := tail + Padding(n), LittleEndian(8 * n, 8);
    assert Fold(compress, state, []) == state;
    if |tail| > 55 {
      ZerosJoin(63 - |tail|, 56);
      var first, second := tail + [0x80] + Zeros(63 - |tail|), Zeros(56) + length;
      assert b == first + second;
      assert b[..64] == first && b[64..] == second;
      assert second[..64] == second && second[64..] == [];
      var s1 := compress(state, WordsOf(first));
      var s2 := compress(s1, WordsOf(second));
      assert Fold(compress, s2, []) == s2;
      assert Fold(compress, s1, second) == s2;
    } else {
      assert b == tail + [0x80] + Zeros(55 - |tail|) + length;
      assert b[..64] == b && b[64..] == [];
    }
  }

  /** The inner loop over the words of one block. */
  method ReadBlock(current: array<Word>, message: Bytes)
    requires current.Length == 16 && |message| == 64
    modifies current
    ensures current[..] == WordsOf(message)
  {
    for i := 0 to 16
      invariant forall j | 0 <= j < i :: current[j] == WordsOf(message)[j]
    {
      WordsAt(message, i);
      current[i] := WordOf(message[4 * i..4 * i + 4]);
    }
  }

  /** What 32 bits count of an input: all of it below 2^32 bytes, else a beginning of it. */
  function Counted(input: Bytes): (r: Bytes)
    ensures r <= input && (r == input <==> |input| < UINT32)
  {
    input[..|input| % UINT32]
  }

  lemma CountedIs(input: Bytes)
    ensures Counted(input) == input[..|input| % UINT32] && |Counted(input)| == |input| % UINT32
  {
  }

  lemma PaddedIs(m: Bytes)
    ensures Padded(m) == m + Padding(|m|) && |Padded(m)| % 64 == 0
  {
    hide Padding;
  }

  lemma WholeBlocks(at: nat, more: nat)
    requires at % 64 == 0 && more <= 64
    ensures (at + more) % 64 == if more == 64 then 0 else more
  {
  }

  lemma FoldStep(compress: Compressor, state: State, b: Bytes, at: nat)
    requires |b| % 64 == 0 && at % 64 == 0 && at + 64 <= |b|
    ensures Fold(compress, state, b[at..]) == Fold(compress, compress(state, WordsOf(b[at..at + 64])), b[at + 64..])
  {
    hide WordsOf;
    assert b[at..][..64] == b[at..at + 64] && b[at..][64..] == b[at + 64..];
  }

  /** ripemd160: the bytes of the buffer after all blocks of the padded input, as far as 32 bits count it. */
  method Ripemd160(compress: Compressor, input: Bytes) returns (hashcode: Bytes)
    ensures |hashcode| == 20
    ensures WordsOf(hashcode)
            == Fold(compress, [0x67452301, 0xefcdab89, 0x98badcfe, 0x10325476, 0xc3d2e1f0], Padded(Counted(input)))
  {
    hide WordsOf, Fold, Padding, Padded, Counted, Pow256, Zeros;
    var buffer := new Word[5] [0x67452301, 0xefcdab89, 0x98badcfe, 0x10325476, 0xc3d2e1f0];
    var current := new Word[16];
    var remaining: nat, at: nat := |input| % UINT32, 0;
    ghost var m := Counted(input);
    ghost var padded := Padded(m);
    PaddedIs(m);
    CountedIs(input);
    assert padded[0..] == padded && buffer[..] == INITIAL;
    while remaining >= 64
      invariant at + remaining == |m| && at % 64 == 0
      invariant Fold(compress, buffer[..], padded[at..]) == Fold(compress, INITIAL, padded)
    {
      FoldStep(compress, buffer[..], padded, at);
      WholeBlocks(at, 64);
      assert padded[at..at + 64] == input[at..at + 64];
      ReadBlock(current, input[at..at + 64]);
      MDcompress(compress, buffer, current);
      remaining, at := remaining - 64, at + 64;
    }
    WholeBlocks(at, remaining);
    assert padded[at..] == m[at..] + Padding(|m|) && m[at..] == input[at..at + remaining];
    MDfinish(compress, buffer, input[at..at + remaining], |input| % UINT32);
    hashcode := WordBytes(buffer);
  }

  /** The bytes of the five words, lowest first. */
  method WordBytes(buffer: array<Word>) returns (hashcode: Bytes)
    requires buffer.Length == 5
    ensures |hashcode| == 20 && WordsOf(hashcode) == buffer[..]
  {
    hashcode := [];
    for i := 0 to 5
      invariant |hashcode| == 4 * i && WordsOf(hashcode) == buffer[..i]
    {
      var w := buffer[i];
      var four: Bytes := [w % 256, w / 0x100 % 256, w / 0x1_0000 % 256, w / 0x100_0000];
      WordBytesBack(w);
      WordsConcat(hashcode, four);
      OneWord(four);
      hashcode := hashcode + four;
    }
  }

  lemma OneWord(b: Bytes)
    requires |b| == 4
    ensures WordsOf(b) == [WordOf(b)]
  {
    assert b[..4] == b && b[4..] == [];
    assert WordsOf([]) == [];
  }

  lemma WordBytesBack(w: Word)
    ensures WordOf([w % 256, w / 0x100 % 256, w / 0x1_0000 % 256, w / 0x100_0000]) == w
  {
    var a, b, c := w / 256, w / 0x1_0000, w / 0x100_0000;
    assert w == 256 * a + w % 256 && a == 256 * b + a % 256 && b == 256 * c + b % 256;
  }
}
