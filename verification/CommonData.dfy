/** Bytes and the big-endian conversions of CommonData.h. */
module CommonData {

  type Byte = b: int | 0 <= b < 256

  type Bytes = seq<Byte>

  datatype Option<+T> = None | Some(value: T)

  function Min(a: nat, b: nat): nat { if a < b then a else b }

  function Zeros(n: nat): (z: Bytes)
    ensures |z| == n && forall i | 0 <= i < n :: z[i] == 0
  {
    if n == 0 then [] else Zeros(n - 1) + [0]
  }

  lemma QuotientIs(n: nat, p: nat, q: nat, r: nat)
    requires p > 0 && n == p * q + r && r < p
    ensures n / p == q
  {
    var d := n / p - q;
    assert p * d == r - n % p;
    assert d >= 1 ==> p * d >= p;
    assert d <= -1 ==> p * d + p <= 0;
  }

  /** The compact big-endian form of a number: no leading zero, empty for zero. */
  function ToBigEndian(n: nat): Bytes {
    if n == 0 then [] else ToBigEndian(n / 256) + [n % 256]
  }

  function FromBigEndian(b: Bytes): nat {
    if b == [] then 0 else FromBigEndian(b[..|b| - 1]) * 256 + b[|b| - 1]
  }

  function Pow256(k: nat): (p: nat)
    ensures p >= 1
  {
    if k == 0 then 1 else 256 * Pow256(k - 1)
  }

  predicate Compact(b: Bytes) {
    b != [] ==> b[0] != 0
  }

  lemma {:induction false} BigEndianRoundTrip(n: nat)
    ensures FromBigEndian(ToBigEndian(n)) == n
    ensures Compact(ToBigEndian(n))
  {
    if n != 0 {
      BigEndianRoundTrip(n / 256);
      assert ToBigEndian(n)[..|ToBigEndian(n)| - 1] == ToBigEndian(n / 256);
    }
  }

  lemma {:induction false} CompactRoundTrip(b: Bytes)
    requires Compact(b)
    ensures ToBigEndian(FromBigEndian(b)) == b
  {
    if |b| == 1 {
      assert FromBigEndian(b[..0]) == 0;
      assert b == [b[0]];
    } else if b != [] {
      var front := b[..|b| - 1];
      CompactRoundTrip(front);
      assert FromBigEndian(front) != 0;
      assert b == front + [b[|b| - 1]];
    }
  }

  lemma BigEndianLast(b: Bytes)
    ensures FromBigEndian(b) == if b == [] then 0 else FromBigEndian(b[..|b| - 1]) * 256 + b[|b| - 1]
  {
  }

  lemma PowStep(k: nat)
    ensures Pow256(0) == 1 && Pow256(k + 1) == 256 * Pow256(k)
  {
  }

  lemma Scaled(x: nat, p: nat)
    ensures x * (256 * p) == 256 * (x * p)
  {
  }

  /** The first byte weighs most. */
  lemma {:induction false} BigEndianFirst(b: Bytes)
    requires b != []
    ensures FromBigEndian(b) == b[0] * Pow256(|b| - 1) + FromBigEndian(b[1..])
  {
    hide *;
    BigEndianLast(b);
    BigEndianLast(b[1..]);
    if |b| == 1 {
      PowStep(0);
      BigEndianLast([]);
      assert b[..0] == [] && b[1..] == [];
    } else {
      var front := b[..|b| - 1];
      BigEndianFirst(front);
      PowStep(|b| - 2);
      Scaled(b[0], Pow256(|b| - 2));
      assert front[1..] == b[1..][..|b| - 2];
    }
  }

  lemma {:induction false} BigEndianSize(n: nat, k: nat)
    ensures |ToBigEndian(n)| <= k <==> n < Pow256(k)
  {
    if n == 0 {
    } else if k > 0 {
      BigEndianSize(n / 256, k - 1);
    }
  }

  lemma {:induction false} EightBytes(n: nat)
    requires 0 < n < 0x1_0000_0000_0000_0000
    ensures 1 <= |ToBigEndian(n)| <= 8
  {
    assert Pow256(4) == 0x1_0000_0000;
    assert Pow256(5) == 256 * Pow256(4) && Pow256(6) == 256 * Pow256(5);
    assert Pow256(7) == 256 * Pow256(6) && Pow256(8) == 256 * Pow256(7);
    BigEndianSize(n, 8);
  }

  lemma {:induction false} FromBigEndianBound(b: Bytes)
    ensures FromBigEndian(b) < Pow256(|b|)
  {
    if b != [] {
      FromBigEndianBound(b[..|b| - 1]);
    }
  }

  lemma {:induction false} FromBigEndianPadded(zeros: nat, b: Bytes)
    ensures FromBigEndian(Zeros(zeros) + b) == FromBigEndian(b)
    decreases |b| + zeros
  {
    var z := Zeros(zeros);
    if b != [] {
      FromBigEndianPadded(zeros, b[..|b| - 1]);
      assert (z + b)[..|z + b| - 1] == z + b[..|b| - 1];
    } else if zeros > 0 {
      FromBigEndianPadded(zeros - 1, []);
      assert z + b == z;
      assert z[..zeros - 1] == Zeros(zeros - 1) + [];
    } else {
      assert z + b == b;
    }
  }

  /** bytesRequired: counts shifts until nothing is left. */
  method BytesRequired(n: nat) returns (i: nat)
    ensures i == |ToBigEndian(n)|
  {
    i := 0;
    var rest := n;
    while rest != 0
      invariant i + |ToBigEndian(rest)| == |ToBigEndian(n)|
    {
      i, rest := i + 1, rest / 256;
    }
  }

  /** fromBigEndian over an unbounded integer type. */
  method ReadBigEndian(b: Bytes) returns (n: nat)
    ensures n == FromBigEndian(b)
  {
    n := 0;
    for i := 0 to |b|
      invariant n == FromBigEndian(b[..i])
    {
      assert b[..i + 1][..i] == b[..i];
      n := n * 256 + b[i];
    }
    assert b[..|b|] == b;
  }
}
