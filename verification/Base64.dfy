/** Base64 with the standard alphabet and padding (section 4 of RFC 4648). */
module Base64 {
  import opened CommonData

  type Sextet = n: int | 0 <= n < 64

  /** The standard alphabet: capitals, small letters, digits, plus and slash. */
  function CharOf(n: Sextet): char {
    if n < 26 then ('A' as int + n) as char
    else if n < 52 then ('a' as int + n - 26) as char
    else if n < 62 then ('0' as int + n - 52) as char
    else if n == 62 then '+'
    else '/'
  }

  /** is_base64. */
  predicate IsBase64(c: char) {
    'A' <= c <= 'Z' || 'a' <= c <= 'z' || '0' <= c <= '9' || c == '+' || c == '/'
  }

  /** find_base64_char_index, of a character of the alphabet. */
  function IndexOf(c: char): (n: Sextet)
    requires IsBase64(c)
    ensures CharOf(n) == c
  {
    if 'A' <= c <= 'Z' then c as int - 'A' as int
    else if 'a' <= c <= 'z' then c as int - 'a' as int + 26
    else if '0' <= c <= '9' then c as int - '0' as int + 52
    else if c == '+' then 62
    else 63
  }

  lemma IndexOfChar(n: Sextet)
    ensures IsBase64(CharOf(n)) && IndexOf(CharOf(n)) == n
  {
  }

  lemma Letters(n: nat)
    requires n < 26
    ensures "ABCDEFGHIJKLMNOPQRSTUVWXYZ"[n] as int == 'A' as int + n && "abcdefghijklmnopqrstuvwxyz"[n] as int == 'a' as int + n
  {
    assert n == 0 || n == 1 || n == 2 || n == 3 || n == 4 || n == 5 || n == 6 || n == 7 || n == 8 || n == 9 || n == 10 ||
        n == 11 || n == 12 || n == 13 || n == 14 || n == 15 || n == 16 || n == 17 || n == 18 || n == 19 || n == 20 ||
        n == 21 || n == 22 || n == 23 || n == 24 || n == 25;
  }

  lemma Others(n: nat)
    requires n < 12
    ensures "0123456789+/"[n] == if n < 10 then ('0' as int + n) as char else if n == 10 then '+' else '/'
  {
    assert n == 0 || n == 1 || n == 2 || n == 3 || n == 4 || n == 5 || n == 6 || n == 7 || n == 8 || n == 9 || n == 10 ||
        n == 11;
  }

  /** The alphabet, written out. */
  lemma Alphabet(n: Sextet)
    ensures CharOf(n) == ("ABCDEFGHIJKLMNOPQRSTUVWXYZ" + "abcdefghijklmnopqrstuvwxyz" + "0123456789+/")[n]
  {
    if n < 26 {
      Letters(n);
    } else if n < 52 {
      Letters(n - 26);
    } else {
      Others(n - 52);
    }
  }

  // ------------------------------------------------------------------ Groups of 24 bits

  /** Three bytes, read as one number of 24 bits, are four digits to the base 64. */
  function Group(a: Byte, b: Byte, c: Byte): (s: string)
    ensures |s| == 4
  {
    var n := (a * 256 + b) * 256 + c;
    [CharOf(n / 64 / 64 / 64), CharOf(n / 64 / 64 % 64), CharOf(n / 64 % 64), CharOf(n % 64)]
  }

  function Encoded(b: Bytes): string {
    if b == [] then ""
    else if |b| == 1 then Group(b[0], 0, 0)[..2] + "=="
    else if |b| == 2 then Group(b[0], b[1], 0)[..3] + "="
    else Group(b[0], b[1], b[2]) + Encoded(b[3..])
  }

  /** Four digits to the base 64, as three bytes. */
  function Ungroup(w: Sextet, x: Sextet, y: Sextet, z: Sextet): (b: Bytes)
    ensures |b| == 3
  {
    var n := ((w * 64 + x) * 64 + y) * 64 + z;
    [n / 256 / 256, n / 256 % 256, n % 256]
  }

  /** The characters up to the first that is not in the alphabet. */
  function Plain(s: string): (p: string)
    ensures forall c <- p :: IsBase64(c)
  {
    if s == "" || !IsBase64(s[0]) then "" else [s[0]] + Plain(s[1..])
  }

  function DecodedPlain(p: string): Bytes
    requires forall c <- p :: IsBase64(c)
  {
    if |p| < 2 then []
    else if |p| == 2 then Ungroup(IndexOf(p[0]), IndexOf(p[1]), 0, 0)[..1]
    else if |p| == 3 then Ungroup(IndexOf(p[0]), IndexOf(p[1]), IndexOf(p[2]), 0)[..2]
    else Ungroup(IndexOf(p[0]), IndexOf(p[1]), IndexOf(p[2]), IndexOf(p[3])) + DecodedPlain(p[4..])
  }

  function Decoded(s: string): Bytes { DecodedPlain(Plain(s)) }

  // ------------------------------------------------------------------ By shifting and masking

  /** The four indices of three bytes. */
  function Shifted(a: Byte, b: Byte, c: Byte): (s: seq<Sextet>)
    ensures |s| == 4
  {
    [a / 4, a % 4 * 16 + b / 16, b % 16 * 4 + c / 64, c % 64]
  }

  lemma ShiftedIsGroup(a: Byte, b: Byte, c: Byte)
    ensures var s := Shifted(a, b, c); Group(a, b, c) == [CharOf(s[0]), CharOf(s[1]), CharOf(s[2]), CharOf(s[3])]
  {
    var s := Shifted(a, b, c);
    NumberOfShifted(a, b, c);
    hide Shifted, CharOf;
    GroupIs(a, b, c, s[0], s[1], s[2], s[3]);
  }

  lemma GroupIs(a: Byte, b: Byte, c: Byte, w: Sextet, x: Sextet, y: Sextet, z: Sextet)
    requires (a * 256 + b) * 256 + c == 64 * (64 * (64 * (w as int) + x as int) + y as int) + z as int
    ensures Group(a, b, c) == [CharOf(w), CharOf(x), CharOf(y), CharOf(z)]
  {
    hide CharOf;
    FourDigits(w, x, y, z);
  }

  lemma NumberOfShifted(a: Byte, b: Byte, c: Byte)
    ensures var s := Shifted(a, b, c);
            (a * 256 + b) * 256 + c == 64 * (64 * (64 * (s[0] as int) + s[1] as int) + s[2] as int) + s[3] as int
  {
    SixParts(a / 4, a % 4, b / 16, b % 16, c / 64, c % 64);
    Parts(a, 4);
    Parts(b, 16);
    Parts(c, 64);
  }

  lemma Parts(n: int, base: nat)
    requires base > 0
    ensures n == base * (n / base) + n % base
  {
  }

  lemma SixParts(p: int, q: int, r: int, t: int, u: int, v: int)
    ensures ((4 * p + q) * 256 + (16 * r + t)) * 256 + (64 * u + v) == 64 * (64 * (64 * p + (q * 16 + r)) + (t * 4 + u)) + v
  {
  }

  lemma FourDigits(w: Sextet, x: Sextet, y: Sextet, z: Sextet)
    ensures var n: nat := 64 * (64 * (64 * w + x) + y) + z;
            n / 64 / 64 / 64 == w && n / 64 / 64 % 64 == x && n / 64 % 64 == y && n % 64 == z
  {
    Digits(64, 64 * (64 * w + x) + y, z);
    Digits(64, 64 * w + x, y);
    Digits(64, w, x);
  }

  /** The three bytes of four indices. */
  function Joined(w: Sextet, x: Sextet, y: Sextet, z: Sextet): (b: Bytes)
    ensures |b| == 3
  {
    [w * 4 + x / 16, x % 16 * 16 + y / 4, y % 4 * 64 + z]
  }

  lemma JoinedIsUngroup(w: Sextet, x: Sextet, y: Sextet, z: Sextet)
    ensures Joined(w, x, y, z) == Ungroup(w, x, y, z)
  {
    var b := Joined(w, x, y, z);
    NumberOfJoined(w, x, y, z);
    hide Joined;
    UngroupIs(w, x, y, z, b[0], b[1], b[2]);
  }

  lemma UngroupIs(w: Sextet, x: Sextet, y: Sextet, z: Sextet, a: Byte, b: Byte, c: Byte)
    requires ((w * 64 + x) * 64 + y) * 64 + z == 256 * (256 * (a as int) + b as int) + c as int
    ensures Ungroup(w, x, y, z) == [a, b, c]
  {
    ThreeDigits(a, b, c);
  }

  lemma NumberOfJoined(w: Sextet, x: Sextet, y: Sextet, z: Sextet)
    ensures var b := Joined(w, x, y, z);
            ((w * 64 + x) * 64 + y) * 64 + z == 256 * (256 * (b[0] as int) + b[1] as int) + b[2] as int
  {
    FourParts(w, x / 16, x % 16, y / 4, y % 4, z);
    Parts(x, 16);
    Parts(y, 4);
  }

  lemma FourParts(w: int, p: int, q: int, r: int, s: int, z: int)
    ensures ((w * 64 + (16 * p + q)) * 64 + (4 * r + s)) * 64 + z == 256 * (256 * (w * 4 + p) + (q * 16 + r)) + (s * 64 + z)
  {
  }

  lemma ThreeDigits(a: Byte, b: Byte, c: Byte)
    ensures var n: nat := 256 * (256 * (a as int) + b as int) + c as int;
            n / 256 / 256 == a && n / 256 % 256 == b && n % 256 == c
  {
    var high: int := a;
    Digits(256, 256 * high + b, c);
    Digits(256, high, b);
  }

  lemma JoinedShifted(a: Byte, b: Byte, c: Byte)
    ensures var s := Shifted(a, b, c);
            && Joined(s[0], s[1], s[2], s[3]) == [a, b, c]
            && (c == 0 ==> s[3] == 0) && (b == c == 0 ==> s[2] == 0)
  {
    Digits(16, a % 4, b / 16);
    Digits(4, b % 16, c / 64);
  }

  lemma Digits(base: nat, high: nat, low: nat)
    requires low < base
    ensures base * high + low >= 0 && (base * high + low) / base == high && (base * high + low) % base == low
  {
    var n := base * high + low;
    var q := n / base;
    assert n == base * q + n % base;
    assert q > high ==> base * q >= base * (high + 1);
    assert q < high ==> base * (q + 1) <= base * high;
  }

  // ------------------------------------------------------------------ Round trip

  lemma GroupBack(a: Byte, b: Byte, c: Byte)
    ensures var s := Group(a, b, c);
            && (forall i | 0 <= i < 4 :: IsBase64(s[i]))
            && Ungroup(IndexOf(s[0]), IndexOf(s[1]), IndexOf(s[2]), IndexOf(s[3])) == [a, b, c]
            && (c == 0 ==> Ungroup(IndexOf(s[0]), IndexOf(s[1]), IndexOf(s[2]), 0) == [a, b, c])
            && (b == c == 0 ==> Ungroup(IndexOf(s[0]), IndexOf(s[1]), 0, 0) == [a, b, c])
  {
    hide IndexOf, IsBase64, CharOf, Group, Ungroup, Shifted, Joined;
    ShiftedIsGroup(a, b, c);
    JoinedShifted(a, b, c);
    var s := Shifted(a, b, c);
    IndexOfChar(s[0]);
    IndexOfChar(s[1]);
    IndexOfChar(s[2]);
    IndexOfChar(s[3]);
    JoinedIsUngroup(s[0], s[1], s[2], s[3]);
  }

  lemma {:induction false} PlainConcat(p: string, s: string)
    requires forall c <- p :: IsBase64(c)
    ensures Plain(p + s) == p + Plain(s)
  {
    hide *;
    if p == "" {
      assert p + s == s && p + Plain(s) == Plain(s);
    } else {
      PlainConcat(p[1..], s);
      PlainCons(p[0], p[1..] + s);
      assert p + s == [p[0]] + (p[1..] + s);
      assert [p[0]] + (p[1..] + Plain(s)) == p + Plain(s);
    }
  }

  lemma PlainCons(c: char, s: string)
    requires IsBase64(c)
    ensures Plain([c] + s) == [c] + Plain(s)
  {
    hide IsBase64;
    assert ([c] + s)[1..] == s;
  }

  /** fromBase64 undoes toBase64 on every byte sequence. */
  lemma {:induction false} Base64RoundTrip(b: Bytes)
    ensures Decoded(Encoded(b)) == b
    ensures |Encoded(b)| == 4 * ((|b| + 2) / 3)
  {
    hide *;
    EncodedEnd(b);
    DecodedIs(Encoded(b));
    if |b| == 0 {
      NothingBack();
    } else if |b| == 1 {
      GroupBack(b[0], 0, 0);
      EndBack(Group(b[0], 0, 0), 2, "==");
      assert [b[0], 0, 0][..1] == b;
    } else if |b| == 2 {
      GroupBack(b[0], b[1], 0);
      EndBack(Group(b[0], b[1], 0), 3, "=");
      assert [b[0], b[1], 0][..2] == b;
    } else {
      EncodedGroup(b);
      GroupBack(b[0], b[1], b[2]);
      Base64RoundTrip(b[3..]);
      DecodedIs(Encoded(b[3..]));
      GroupThenRest(Group(b[0], b[1], b[2]), Encoded(b[3..]));
      assert [b[0], b[1], b[2]] + b[3..] == b;
      OneGroupMore(|b|);
    }
  }

  lemma DecodedIs(s: string)
    ensures Decoded(s) == DecodedPlain(Plain(s))
  {
  }

  lemma OneGroupMore(n: nat)
    requires n >= 3
    ensures 4 * ((n + 2) / 3) == 4 + 4 * ((n - 3 + 2) / 3)
  {
  }

  lemma NothingBack()
    ensures DecodedPlain(Plain("")) == []
  {
  }

  lemma EndBack(s: string, n: nat, padding: string)
    requires |s| == 4 && (forall i | 0 <= i < 4 :: IsBase64(s[i])) && 2 <= n <= 3 && (padding == "=" || padding == "==")
    ensures var p := Plain(s[..n] + padding);
            p == s[..n] &&
            DecodedPlain(p) == Ungroup(IndexOf(s[0]), IndexOf(s[1]), if n == 2 then 0 else IndexOf(s[2]), 0)[..n - 1]
  {
    PaddingIsNot();
    PlainConcat(s[..n], padding);
    hide Plain, IsBase64, IndexOf, Ungroup;
    assert s[..n] + "" == s[..n];
  }

  lemma GroupThenRest(s: string, rest: string)
    requires |s| == 4 && forall i | 0 <= i < 4 :: IsBase64(s[i])
    ensures DecodedPlain(Plain(s + rest)) ==
            Ungroup(IndexOf(s[0]), IndexOf(s[1]), IndexOf(s[2]), IndexOf(s[3])) + DecodedPlain(Plain(rest))
  {
    PlainConcat(s, rest);
    hide Plain, IsBase64, IndexOf, Ungroup;
    assert (s + Plain(rest))[4..] == Plain(rest);
  }

  lemma PaddingIsNot()
    ensures Plain("=") == Plain("==") == ""
  {
  }

  // ------------------------------------------------------------------ Bit by bit

  /** Bit j of a row of bytes, the highest of each byte first, and zeros behind the end. */
  function Bit(b: Bytes, j: nat): (r: nat)
    ensures r <= 1
  {
    if j / 8 < |b| then b[j / 8] / [128, 64, 32, 16, 8, 4, 2, 1][j % 8] % 2 else 0
  }

  /** The six bits at place i. */
  function SixBits(b: Bytes, i: nat): (k: nat)
    ensures k < 64
  {
    32 * Bit(b, 6 * i) + 16 * Bit(b, 6 * i + 1) + 8 * Bit(b, 6 * i + 2) + 4 * Bit(b, 6 * i + 3) + 2 * Bit(b, 6 * i + 4)
    + Bit(b, 6 * i + 5)
  }

  lemma FourBits(y: nat) returns (a: nat, b: nat, c: nat, d: nat)
    requires y < 16
    ensures a <= 1 && b <= 1 && c <= 1 && d <= 1 && y == 8 * a + 4 * b + 2 * c + d
  {
    var r := y;
    a, r := if r >= 8 then 1 else 0, if r >= 8 then r - 8 else r;
    b, r := if r >= 4 then 1 else 0, if r >= 4 then r - 4 else r;
    c, r := if r >= 2 then 1 else 0, if r >= 2 then r - 2 else r;
    d := r;
  }

  lemma EightBits(x: Byte) returns (a: nat, b: nat, c: nat, d: nat, e: nat, f: nat, g: nat, h: nat)
    ensures a <= 1 && b <= 1 && c <= 1 && d <= 1 && e <= 1 && f <= 1 && g <= 1 && h <= 1
    ensures x as int == 128 * a + 64 * b + 32 * c + 16 * d + 8 * e + 4 * f + 2 * g + h
  {
    a, b, c, d := FourBits(x / 16);
    e, f, g, h := FourBits(x % 16);
  }

  /** The number made of some high bits, one bit and some low ones. */
  lemma BitOf(x: nat, base: nat, high: nat, bit: nat, low: nat)
    requires x == base * (2 * high + bit) + low && low < base && bit <= 1
    ensures x / base == 2 * high + bit && x / base % 2 == bit && x % base == low
  {
    Digits(base, 2 * high + bit, low);
    Digits(2, high, bit);
  }

  lemma HighBits(x: Byte)
    ensures x / 4 == 32 * (x / 128 % 2) + 16 * (x / 64 % 2) + 8 * (x / 32 % 2) + 4 * (x / 16 % 2) + 2 * (x / 8 % 2) + x / 4 % 2
    ensures x / 16 == 8 * (x / 128 % 2) + 4 * (x / 64 % 2) + 2 * (x / 32 % 2) + x / 16 % 2
    ensures x / 64 == 2 * (x / 128 % 2) + x / 64 % 2
  {
    var a, b, c, d, e, f, g, h := EightBits(x);
    hide *;
    BitOf(x, 128, 0, a, 64 * b + 32 * c + 16 * d + 8 * e + 4 * f + 2 * g + h);
    BitOf(x, 64, a, b, 32 * c + 16 * d + 8 * e + 4 * f + 2 * g + h);
    BitOf(x, 32, 2 * a + b, c, 16 * d + 8 * e + 4 * f + 2 * g + h);
    BitOf(x, 16, 4 * a + 2 * b + c, d, 8 * e + 4 * f + 2 * g + h);
    BitOf(x, 8, 8 * a + 4 * b + 2 * c + d, e, 4 * f + 2 * g + h);
    BitOf(x, 4, 16 * a + 8 * b + 4 * c + 2 * d + e, f, 2 * g + h);
  }

  lemma LowBits(x: Byte)
    ensures x % 4 == 2 * (x / 2 % 2) + x % 2
    ensures x % 16 == 8 * (x / 8 % 2) + 4 * (x / 4 % 2) + 2 * (x / 2 % 2) + x % 2
    ensures x % 64 == 32 * (x / 32 % 2) + 16 * (x / 16 % 2) + 8 * (x / 8 % 2) + 4 * (x / 4 % 2) + 2 * (x / 2 % 2) + x % 2
  {
    var a, b, c, d, e, f, g, h := EightBits(x);
    hide *;
    BitOf(x, 64, a, b, 32 * c + 16 * d + 8 * e + 4 * f + 2 * g + h);
    BitOf(x, 32, 2 * a + b, c, 16 * d + 8 * e + 4 * f + 2 * g + h);
    BitOf(x, 16, 4 * a + 2 * b + c, d, 8 * e + 4 * f + 2 * g + h);
    BitOf(x, 8, 8 * a + 4 * b + 2 * c + d, e, 4 * f + 2 * g + h);
    BitOf(x, 4, 16 * a + 8 * b + 4 * c + 2 * d + e, f, 2 * g + h);
    BitOf(x, 2, 32 * a + 16 * b + 8 * c + 4 * d + 2 * e + f, g, h);
    BitOf(x, 1, 64 * a + 32 * b + 16 * c + 8 * d + 4 * e + 2 * f + g, h, 0);
  }

  lemma BitAt(b: Bytes, m: nat, r: nat)
    requires r < 8
    ensures Bit(b, 8 * m + r) == (if m < |b| then b[m] else 0) / [128, 64, 32, 16, 8, 4, 2, 1][r] % 2
  {
    Digits(8, m, r);
  }

  /** The bits of one byte, by number. */
  lemma BitsAt(b: Bytes, m: nat, x: Byte)
    requires x == if m < |b| then b[m] else 0
    ensures Bit(b, 8 * m) == x / 128 % 2 && Bit(b, 8 * m + 1) == x / 64 % 2
    ensures Bit(b, 8 * m + 2) == x / 32 % 2 && Bit(b, 8 * m + 3) == x / 16 % 2
    ensures Bit(b, 8 * m + 4) == x / 8 % 2 && Bit(b, 8 * m + 5) == x / 4 % 2
    ensures Bit(b, 8 * m + 6) == x / 2 % 2 && Bit(b, 8 * m + 7) == x % 2
  {
    hide *;
    BitAt(b, m, 0);
    BitAt(b, m, 1);
    BitAt(b, m, 2);
    BitAt(b, m, 3);
    BitAt(b, m, 4);
    BitAt(b, m, 5);
    BitAt(b, m, 6);
    BitAt(b, m, 7);
  }

  lemma ByteBits(b: Bytes, m: nat, x: Byte)
    requires x == if m < |b| then b[m] else 0
    ensures x / 4 == 32 * Bit(b, 8 * m) + 16 * Bit(b, 8 * m + 1) + 8 * Bit(b, 8 * m + 2) + 4 * Bit(b, 8 * m + 3)
                     + 2 * Bit(b, 8 * m + 4) + Bit(b, 8 * m + 5)
    ensures x / 16 == 8 * Bit(b, 8 * m) + 4 * Bit(b, 8 * m + 1) + 2 * Bit(b, 8 * m + 2) + Bit(b, 8 * m + 3)
    ensures x / 64 == 2 * Bit(b, 8 * m) + Bit(b, 8 * m + 1)
    ensures x % 4 == 2 * Bit(b, 8 * m + 6) + Bit(b, 8 * m + 7)
    ensures x % 16 == 8 * Bit(b, 8 * m + 4) + 4 * Bit(b, 8 * m + 5) + 2 * Bit(b, 8 * m + 6) + Bit(b, 8 * m + 7)
    ensures x % 64 == 32 * Bit(b, 8 * m + 2) + 16 * Bit(b, 8 * m + 3) + 8 * Bit(b, 8 * m + 4) + 4 * Bit(b, 8 * m + 5)
                      + 2 * Bit(b, 8 * m + 6) + Bit(b, 8 * m + 7)
  {
    hide *;
    BitsAt(b, m, x);
    HighBits(x);
    LowBits(x);
  }

  /** The four indices of the first three bytes, with zeros for missing ones. */
  lemma GroupBits(b: Bytes, x: Byte, y: Byte, z: Byte)
    requires x == (if |b| > 0 then b[0] else 0) && y == (if |b| > 1 then b[1] else 0) && z == if |b| > 2 then b[2] else 0
    ensures var s := Shifted(x, y, z);
            s[0] == SixBits(b, 0) && s[1] == SixBits(b, 1) && s[2] == SixBits(b, 2) && s[3] == SixBits(b, 3)
  {
    hide *;
    ByteBits(b, 0, x);
    ByteBits(b, 1, y);
    ByteBits(b, 2, z);
    ShiftedIs(x, y, z);
    FirstSixBits(b);
  }

  lemma ShiftedIs(a: Byte, b: Byte, c: Byte)
    ensures var s := Shifted(a, b, c);
            s[0] == a / 4 && s[1] == a % 4 * 16 + b / 16 && s[2] == b % 16 * 4 + c / 64 && s[3] == c % 64
  {
  }

  lemma FirstSixBits(b: Bytes)
    ensures SixBits(b, 0) == 32 * Bit(b, 0) + 16 * Bit(b, 1) + 8 * Bit(b, 2) + 4 * Bit(b, 3) + 2 * Bit(b, 4) + Bit(b, 5)
    ensures SixBits(b, 1) == 32 * Bit(b, 6) + 16 * Bit(b, 7) + 8 * Bit(b, 8) + 4 * Bit(b, 9) + 2 * Bit(b, 10) + Bit(b, 11)
    ensures SixBits(b, 2) == 32 * Bit(b, 12) + 16 * Bit(b, 13) + 8 * Bit(b, 14) + 4 * Bit(b, 15) + 2 * Bit(b, 16) + Bit(b, 17)
    ensures SixBits(b, 3) == 32 * Bit(b, 18) + 16 * Bit(b, 19) + 8 * Bit(b, 20) + 4 * Bit(b, 21) + 2 * Bit(b, 22) + Bit(b, 23)
  {
    hide Bit;
  }

  lemma BitOfRest(b: Bytes, j: nat)
    requires |b| >= 3 && j >= 24
    ensures Bit(b, j) == Bit(b[3..], j - 24)
  {
    assert j / 8 == (j - 24) / 8 + 3 && j % 8 == (j - 24) % 8;
  }

  lemma SixBitsOfRest(b: Bytes, i: nat)
    requires |b| >= 3 && i >= 4
    ensures SixBits(b, i) == SixBits(b[3..], i - 4)
  {
    hide Bit;
    BitOfRest(b, 6 * i);
    BitOfRest(b, 6 * i + 1);
    BitOfRest(b, 6 * i + 2);
    BitOfRest(b, 6 * i + 3);
    BitOfRest(b, 6 * i + 4);
    BitOfRest(b, 6 * i + 5);
  }

  lemma GroupCharacters(b: Bytes, x: Byte, y: Byte, z: Byte, i: nat)
    requires x == (if |b| > 0 then b[0] else 0) && y == (if |b| > 1 then b[1] else 0) && z == if |b| > 2 then b[2] else 0
    requires i < 4
    ensures Group(x, y, z)[i] == ("ABCDEFGHIJKLMNOPQRSTUVWXYZ" + "abcdefghijklmnopqrstuvwxyz" + "0123456789+/")[SixBits(b, i)]
  {
    hide *;
    GroupBits(b, x, y, z);
    ShiftedIsGroup(x, y, z);
    Alphabet(SixBits(b, i));
  }

  lemma Rounded(n: nat)
    ensures n >= 3 ==> 4 * ((n + 2) / 3) == 4 + 4 * ((n - 3 + 2) / 3) && (8 * n + 5) / 6 == 4 + (8 * (n - 3) + 5) / 6
    ensures n == 0 ==> 4 * ((n + 2) / 3) == 0
    ensures 1 <= n <= 2 ==> 4 * ((n + 2) / 3) == 4 && (8 * n + 5) / 6 == n + 1
  {
  }

  /** Character by character: the letter for six bits as long as there are bits, and then the padding. */
  lemma {:induction false} Base64Characters(b: Bytes, i: nat)
    requires i < 4 * ((|b| + 2) / 3)
    ensures |Encoded(b)| == 4 * ((|b| + 2) / 3)
    ensures i < (8 * |b| + 5) / 6 ==>
              Encoded(b)[i] == ("ABCDEFGHIJKLMNOPQRSTUVWXYZ" + "abcdefghijklmnopqrstuvwxyz" + "0123456789+/")[SixBits(b, i)]
    ensures i >= (8 * |b| + 5) / 6 ==> Encoded(b)[i] == '='
    decreases |b|
  {
    hide *;
    Base64RoundTrip(b);
    Rounded(|b|);
    if i < 4 {
      FirstCharacters(b, i);
    } else {
      EncodedGroup(b);
      SixBitsOfRest(b, i);
      Base64Characters(b[3..], i - 4);
    }
  }

  lemma FirstCharacters(b: Bytes, i: nat)
    requires b != [] && i < 4 && |Encoded(b)| >= 4
    ensures i < (8 * |b| + 5) / 6 ==>
              Encoded(b)[i] == ("ABCDEFGHIJKLMNOPQRSTUVWXYZ" + "abcdefghijklmnopqrstuvwxyz" + "0123456789+/")[SixBits(b, i)]
    ensures i >= (8 * |b| + 5) / 6 ==> Encoded(b)[i] == '='
  {
    hide *;
    Rounded(|b|);
    var x, y, z := b[0], if |b| > 1 then b[1] else 0, if |b| > 2 then b[2] else 0;
    GroupCharacters(b, x, y, z, i);
    if |b| >= 3 {
      EncodedGroup(b);
    } else {
      EncodedEnd(b);
    }
  }

  lemma AllCharacters(b: Bytes)
    ensures |Encoded(b)| == 4 * ((|b| + 2) / 3) && (8 * |b| + 5) / 6 <= 4 * ((|b| + 2) / 3)
    ensures forall i | 0 <= i < (8 * |b| + 5) / 6 ::
              Encoded(b)[i] == ("ABCDEFGHIJKLMNOPQRSTUVWXYZ" + "abcdefghijklmnopqrstuvwxyz" + "0123456789+/")[SixBits(b, i)]
    ensures forall i | (8 * |b| + 5) / 6 <= i < |Encoded(b)| :: Encoded(b)[i] == '='
  {
    hide *;
    Base64RoundTrip(b);
    forall i | 0 <= i < |Encoded(b)|
      ensures i < (8 * |b| + 5) / 6 ==>
                Encoded(b)[i] == ("ABCDEFGHIJKLMNOPQRSTUVWXYZ" + "abcdefghijklmnopqrstuvwxyz" + "0123456789+/")[SixBits(b, i)]
      ensures i >= (8 * |b| + 5) / 6 ==> Encoded(b)[i] == '='
    {
      Base64Characters(b, i);
    }
  }

  // ------------------------------------------------------------------ Decoding, bit by bit

  /** Bit j of a row of sextets, and zeros behind the end. */
  function SextetBit(ks: seq<Sextet>, j: nat): (r: nat)
    ensures r <= 1
  {
    if j / 6 < |ks| then ks[j / 6] / [32, 16, 8, 4, 2, 1][j % 6] % 2 else 0
  }

  /** The eight bits at place m. */
  function EightOf(ks: seq<Sextet>, m: nat): (x: nat)
    ensures x < 256
  {
    128 * SextetBit(ks, 8 * m) + 64 * SextetBit(ks, 8 * m + 1) + 32 * SextetBit(ks, 8 * m + 2) + 16 * SextetBit(ks, 8 * m + 3)
    + 8 * SextetBit(ks, 8 * m + 4) + 4 * SextetBit(ks, 8 * m + 5) + 2 * SextetBit(ks, 8 * m + 6) + SextetBit(ks, 8 * m + 7)
  }

  lemma SextetBitAt(ks: seq<Sextet>, m: nat, r: nat)
    requires r < 6
    ensures SextetBit(ks, 6 * m + r) == (if m < |ks| then ks[m] else 0) / [32, 16, 8, 4, 2, 1][r] % 2
  {
    Digits(6, m, r);
  }

  /** The bits of one sextet, by number. */
  lemma SextetBitsAt(ks: seq<Sextet>, m: nat, x: Sextet)
    requires x == if m < |ks| then ks[m] else 0
    ensures SextetBit(ks, 6 * m) == x / 32 % 2 && SextetBit(ks, 6 * m + 1) == x / 16 % 2
    ensures SextetBit(ks, 6 * m + 2) == x / 8 % 2 && SextetBit(ks, 6 * m + 3) == x / 4 % 2
    ensures SextetBit(ks, 6 * m + 4) == x / 2 % 2 && SextetBit(ks, 6 * m + 5) == x % 2
  {
    hide *;
    SextetBitAt(ks, m, 0);
    SextetBitAt(ks, m, 1);
    SextetBitAt(ks, m, 2);
    SextetBitAt(ks, m, 3);
    SextetBitAt(ks, m, 4);
    SextetBitAt(ks, m, 5);
  }

  lemma SextetBits(ks: seq<Sextet>, m: nat, x: Sextet)
    requires x == if m < |ks| then ks[m] else 0
    ensures x as int == 32 * SextetBit(ks, 6 * m) + 16 * SextetBit(ks, 6 * m + 1) + 8 * SextetBit(ks, 6 * m + 2)
                 + 4 * SextetBit(ks, 6 * m + 3) + 2 * SextetBit(ks, 6 * m + 4) + SextetBit(ks, 6 * m + 5)
    ensures x / 16 == 2 * SextetBit(ks, 6 * m) + SextetBit(ks, 6 * m + 1)
    ensures x % 16 == 8 * SextetBit(ks, 6 * m + 2) + 4 * SextetBit(ks, 6 * m + 3) + 2 * SextetBit(ks, 6 * m + 4) + SextetBit(ks, 6 * m + 5)
    ensures x / 4 == 8 * SextetBit(ks, 6 * m) + 4 * SextetBit(ks, 6 * m + 1) + 2 * SextetBit(ks, 6 * m + 2) + SextetBit(ks, 6 * m + 3)
    ensures x % 4 == 2 * SextetBit(ks, 6 * m + 4) + SextetBit(ks, 6 * m + 5)
  {
    hide *;
    SextetBitsAt(ks, m, x);
    SextetParts(x);
  }

  lemma SextetParts(x: Sextet)
    ensures x as int == 32 * (x / 32 % 2) + 16 * (x / 16 % 2) + 8 * (x / 8 % 2) + 4 * (x / 4 % 2) + 2 * (x / 2 % 2) + x % 2
    ensures x / 16 == 2 * (x / 32 % 2) + x / 16 % 2
    ensures x % 16 == 8 * (x / 8 % 2) + 4 * (x / 4 % 2) + 2 * (x / 2 % 2) + x % 2
    ensures x / 4 == 8 * (x / 32 % 2) + 4 * (x / 16 % 2) + 2 * (x / 8 % 2) + x / 4 % 2
    ensures x % 4 == 2 * (x / 2 % 2) + x % 2
  {
    hide *;
    NoHighBits(x);
    HighBits(x);
    LowBits(x);
  }

  lemma NoHighBits(x: Sextet)
    ensures x / 128 % 2 == 0 && x / 64 % 2 == 0 && x % 64 == x
  {
  }

  lemma JoinedIs(w: Sextet, x: Sextet, y: Sextet, z: Sextet)
    ensures var b := Joined(w, x, y, z); b[0] == w * 4 + x / 16 && b[1] == x % 16 * 16 + y / 4 && b[2] == y % 4 * 64 + z
  {
  }

  lemma EightIs(ks: seq<Sextet>, m: nat)
    ensures EightOf(ks, m) == 128 * SextetBit(ks, 8 * m) + 64 * SextetBit(ks, 8 * m + 1) + 32 * SextetBit(ks, 8 * m + 2)
                              + 16 * SextetBit(ks, 8 * m + 3) + 8 * SextetBit(ks, 8 * m + 4) + 4 * SextetBit(ks, 8 * m + 5)
                              + 2 * SextetBit(ks, 8 * m + 6) + SextetBit(ks, 8 * m + 7)
  {
    hide SextetBit;
  }

  lemma FirstEight(ks: seq<Sextet>, w: Sextet, x: Sextet)
    requires w == (if |ks| > 0 then ks[0] else 0) && x == (if |ks| > 1 then ks[1] else 0)
    ensures w * 4 + x / 16 == EightOf(ks, 0)
  {
    hide *;
    EightIs(ks, 0);
    SextetBits(ks, 0, w);
    SextetBits(ks, 1, x);
  }

  lemma SecondEight(ks: seq<Sextet>, x: Sextet, y: Sextet)
    requires x == (if |ks| > 1 then ks[1] else 0) && y == (if |ks| > 2 then ks[2] else 0)
    ensures x % 16 * 16 + y / 4 == EightOf(ks, 1)
  {
    hide *;
    EightIs(ks, 1);
    SextetBits(ks, 1, x);
    SextetBits(ks, 2, y);
  }

  lemma ThirdEight(ks: seq<Sextet>, y: Sextet, z: Sextet)
    requires y == (if |ks| > 2 then ks[2] else 0) && z == (if |ks| > 3 then ks[3] else 0)
    ensures y % 4 * 64 + z == EightOf(ks, 2)
  {
    hide *;
    EightIs(ks, 2);
    SextetBits(ks, 2, y);
    SextetBits(ks, 3, z);
  }

  /** The three bytes of the first four sextets, with zeros for missing ones. */
  lemma JoinedBits(ks: seq<Sextet>, w: Sextet, x: Sextet, y: Sextet, z: Sextet)
    requires w == (if |ks| > 0 then ks[0] else 0) && x == (if |ks| > 1 then ks[1] else 0)
    requires y == (if |ks| > 2 then ks[2] else 0) && z == (if |ks| > 3 then ks[3] else 0)
    ensures Ungroup(w, x, y, z) == [EightOf(ks, 0), EightOf(ks, 1), EightOf(ks, 2)]
  {
    hide *;
    JoinedIsUngroup(w, x, y, z);
    JoinedIs(w, x, y, z);
    FirstEight(ks, w, x);
    SecondEight(ks, x, y);
    ThirdEight(ks, y, z);
  }

  lemma BitOfRestSextets(ks: seq<Sextet>, j: nat)
    requires |ks| >= 4 && j >= 24
    ensures SextetBit(ks, j) == SextetBit(ks[4..], j - 24)
  {
    assert j / 6 == (j - 24) / 6 + 4 && j % 6 == (j - 24) % 6;
  }

  lemma EightOfRest(ks: seq<Sextet>, m: nat)
    requires |ks| >= 4 && m >= 3
    ensures EightOf(ks, m) == EightOf(ks[4..], m - 3)
  {
    hide SextetBit;
    BitOfRestSextets(ks, 8 * m);
    BitOfRestSextets(ks, 8 * m + 1);
    BitOfRestSextets(ks, 8 * m + 2);
    BitOfRestSextets(ks, 8 * m + 3);
    BitOfRestSextets(ks, 8 * m + 4);
    BitOfRestSextets(ks, 8 * m + 5);
    BitOfRestSextets(ks, 8 * m + 6);
    BitOfRestSextets(ks, 8 * m + 7);
  }

  /** The characters stand for the sextets. */
  predicate Spells(p: string, ks: seq<Sextet>) {
    |p| == |ks| && forall i | 0 <= i < |p| :: p[i] == CharOf(ks[i])
  }

  lemma SpellsIndices(p: string, ks: seq<Sextet>)
    requires Spells(p, ks)
    ensures forall c <- p :: IsBase64(c)
    ensures forall i | 0 <= i < |p| :: IndexOf(p[i]) == ks[i]
  {
    hide IndexOf, IsBase64, CharOf;
    forall i | 0 <= i < |p| ensures IsBase64(p[i]) && IndexOf(p[i]) == ks[i] {
      IndexOfChar(ks[i]);
    }
  }

  lemma PlainGroup(p: string)
    requires |p| >= 4 && forall c <- p :: IsBase64(c)
    ensures DecodedPlain(p) == Ungroup(IndexOf(p[0]), IndexOf(p[1]), IndexOf(p[2]), IndexOf(p[3])) + DecodedPlain(p[4..])
  {
    hide Ungroup, IndexOf, IsBase64;
  }

  lemma PlainEnd(p: string)
    requires |p| < 4 && forall c <- p :: IsBase64(c)
    ensures |p| < 2 ==> DecodedPlain(p) == []
    ensures |p| == 2 ==> DecodedPlain(p) == Ungroup(IndexOf(p[0]), IndexOf(p[1]), 0, 0)[..1]
    ensures |p| == 3 ==> DecodedPlain(p) == Ungroup(IndexOf(p[0]), IndexOf(p[1]), IndexOf(p[2]), 0)[..2]
  {
    hide Ungroup, IndexOf, IsBase64;
  }

  lemma BytesIn(n: nat)
    ensures n >= 4 ==> 6 * n / 8 == 3 + 6 * (n - 4) / 8
    ensures n < 2 ==> 6 * n / 8 == 0
    ensures n == 2 ==> 6 * n / 8 == 1
    ensures n == 3 ==> 6 * n / 8 == 2
  {
  }

  lemma {:induction false} PlainBits(p: string, ks: seq<Sextet>)
    requires Spells(p, ks) && forall c <- p :: IsBase64(c)
    ensures |DecodedPlain(p)| == 6 * |ks| / 8
    ensures forall m | 0 <= m < |DecodedPlain(p)| :: DecodedPlain(p)[m] == EightOf(ks, m)
    decreases |p|
  {
    hide IndexOf, IsBase64, CharOf, DecodedPlain, Ungroup, EightOf, SextetBit;
    SpellsIndices(p, ks);
    BytesIn(|ks|);
    var w, x := if |p| > 0 then ks[0] else 0, if |p| > 1 then ks[1] else 0;
    var y, z := if |p| > 2 then ks[2] else 0, if |p| > 3 then ks[3] else 0;
    JoinedBits(ks, w, x, y, z);
    if |p| < 4 {
      PlainEnd(p);
    } else {
      PlainGroup(p);
      PlainBits(p[4..], ks[4..]);
      forall m | 3 <= m < |DecodedPlain(p)| ensures DecodedPlain(p)[m] == EightOf(ks, m) {
        EightOfRest(ks, m);
      }
    }
  }

  /** Decoding reads the letters up to the first character that is none, and takes their bits eight at a time. */
  lemma Base64Bytes(s: string, ks: seq<Sextet>)
    requires |ks| <= |s|
    requires forall i | 0 <= i < |ks| :: s[i] == ("ABCDEFGHIJKLMNOPQRSTUVWXYZ" + "abcdefghijklmnopqrstuvwxyz" + "0123456789+/")[ks[i]]
    requires |ks| < |s| ==> s[|ks|] !in ("ABCDEFGHIJKLMNOPQRSTUVWXYZ" + "abcdefghijklmnopqrstuvwxyz" + "0123456789+/")
    ensures |Decoded(s)| == 6 * |ks| / 8
    ensures forall m | 0 <= m < |Decoded(s)| :: Decoded(s)[m] == EightOf(ks, m)
  {
    hide *;
    var p := s[..|ks|];
    SpelledOut(p, ks);
    SpellsIndices(p, ks);
    PlainConcat(p, s[|ks|..]);
    assert p + s[|ks|..] == s;
    if |ks| < |s| && IsBase64(s[|ks|]) {
      Alphabet(IndexOf(s[|ks|]));
    }
    PlainEnds(s, |ks|);
    assert p + "" == p;
    DecodedIs(s);
    PlainBits(p, ks);
  }

  lemma SpelledOut(p: string, ks: seq<Sextet>)
    requires |p| == |ks|
    requires forall i | 0 <= i < |ks| :: p[i] == ("ABCDEFGHIJKLMNOPQRSTUVWXYZ" + "abcdefghijklmnopqrstuvwxyz" + "0123456789+/")[ks[i]]
    ensures Spells(p, ks)
  {
    hide CharOf;
    forall i | 0 <= i < |p| ensures p[i] == CharOf(ks[i]) {
      Alphabet(ks[i]);
    }
  }

  // ------------------------------------------------------------------ The loops

  /** The first n characters of a group, appended one by one. */
  method PutGroup(written: string, a: Byte, b: Byte, c: Byte, n: nat) returns (ret: string)
    requires n <= 4
    ensures ret == written + Group(a, b, c)[..n]
  {
    hide Group, Shifted, CharOf;
    ShiftedIsGroup(a, b, c);
    var char4 := Shifted(a, b, c);
    ret := written;
    for j := 0 to n
      invariant ret == written + Group(a, b, c)[..j]
    {
      ret := ret + [CharOf(char4[j])];
    }
  }

  lemma EncodedGroup(b: Bytes)
    requires |b| >= 3
    ensures Encoded(b) == Group(b[0], b[1], b[2]) + Encoded(b[3..])
  {
  }

  lemma EncodedEnd(b: Bytes)
    ensures b == [] ==> Encoded(b) == ""
    ensures |b| == 1 ==> Encoded(b) == Group(b[0], 0, 0)[..2] + "=="
    ensures |b| == 2 ==> Encoded(b) == Group(b[0], b[1], 0)[..3] + "="
  {
  }

  /** toBase64Encoding, with padding. */
  method ToBase64Encoding(input: Bytes) returns (ret: string)
    ensures ret == Encoded(input)
  {
    hide *;
    ret := "";
    var char3: Bytes := [];
    assert input[0..] == input && "" + Encoded(input) == Encoded(input);
    for k := 0 to |input|
      invariant |char3| < 3 && |char3| <= k && char3 == input[k - |char3|..k]
      invariant Encoded(input) == ret + Encoded(input[k - |char3|..])
    {
      ghost var rest := input[k - |char3|..];
      char3 := char3 + [input[k]];
      if |char3| == 3 {
        EncodedGroup(rest);
        assert rest[3..] == input[k + 1..];
        ret := PutGroup(ret, char3[0], char3[1], char3[2], 4);
        char3 := [];
      }
    }
    assert input[|input| - |char3|..] == char3;
    EncodedEnd(char3);
    var i := |char3|;
    if i != 0 {
      var padded := if i == 1 then char3 + [0, 0] else char3 + [0];
      ret := PutGroup(ret, padded[0], padded[1], padded[2], i + 1);
      ret := Padded(ret, i);
    }
  }

  /** toBase64. */
  method ToBase64(input: Bytes) returns (ret: string)
    ensures ret == Encoded(input)
    ensures |ret| == 4 * ((|input| + 2) / 3) && (8 * |input| + 5) / 6 <= |ret|
    ensures forall i | 0 <= i < (8 * |input| + 5) / 6 ::
              ret[i] == ("ABCDEFGHIJKLMNOPQRSTUVWXYZ" + "abcdefghijklmnopqrstuvwxyz" + "0123456789+/")[SixBits(input, i)]
    ensures forall i | (8 * |input| + 5) / 6 <= i < |ret| :: ret[i] == '='
  {
    hide *;
    ret := ToBase64Encoding(input);
    AllCharacters(input);
  }

  /** The padding: one character for each byte missing from the group. */
  method Padded(written: string, used: nat) returns (ret: string)
    requires 1 <= used <= 2
    ensures ret == written + if used == 1 then "==" else "="
  {
    ret := written;
    var i := used;
    while i < 3
      invariant used <= i <= 3
      invariant ret == written + if i == used then "" else if i == used + 1 then "=" else "=="
    {
      ret := ret + "=";
      i := i + 1;
    }
  }

  /** fromBase64. */
  method FromBase64(encoded: string) returns (ret: Bytes)
    ensures ret == Decoded(encoded)
  {
    hide *;
    ret := [];
    DecodingStarts(encoded);
    var char4: string := "";
    var k := 0;
    while k < |encoded| && encoded[k] != '=' && IsBase64(encoded[k])
      invariant k <= |encoded| && |char4| < 4 && forall c <- char4 :: IsBase64(c)
      invariant Decoded(encoded) == ret + DecodedPlain(char4 + Plain(encoded[k..]))
    {
      PlainStep(encoded, k);
      ghost var rest := Plain(encoded[k + 1..]);
      assert char4 + Plain(encoded[k..]) == char4 + [encoded[k]] + rest;
      char4 := char4 + [encoded[k]];
      k := k + 1;
      if |char4| == 4 {
        GroupDecoded(char4, rest);
        ret := ret + Joined(IndexOf(char4[0]), IndexOf(char4[1]), IndexOf(char4[2]), IndexOf(char4[3]));
        char4 := "";
      }
    }
    PlainEnds(encoded, k);
    EndDecoded(char4);
    if |char4| == 2 {
      ret := ret + Joined(IndexOf(char4[0]), IndexOf(char4[1]), 0, 0)[..1];
    } else if |char4| == 3 {
      ret := ret + Joined(IndexOf(char4[0]), IndexOf(char4[1]), IndexOf(char4[2]), 0)[..2];
    }
  }

  lemma DecodingStarts(encoded: string)
    ensures encoded[0..] == encoded && Decoded(encoded) == [] + DecodedPlain("" + Plain(encoded))
  {
    hide DecodedPlain, Plain;
    assert "" + Plain(encoded) == Plain(encoded);
  }

  lemma PlainStep(s: string, k: nat)
    requires k < |s| && IsBase64(s[k])
    ensures Plain(s[k..]) == [s[k]] + Plain(s[k + 1..])
  {
    hide IsBase64;
    assert s[k..][1..] == s[k + 1..];
  }

  lemma PlainEnds(s: string, k: nat)
    requires k <= |s| && (k < |s| ==> s[k] == '=' || !IsBase64(s[k]))
    ensures Plain(s[k..]) == ""
  {
  }

  lemma GroupDecoded(s: string, rest: string)
    requires |s| == 4 && (forall c <- s :: IsBase64(c)) && forall c <- rest :: IsBase64(c)
    ensures DecodedPlain(s + rest) ==
            Joined(IndexOf(s[0]), IndexOf(s[1]), IndexOf(s[2]), IndexOf(s[3])) + DecodedPlain("" + rest)
  {
    hide Ungroup, Joined, IndexOf, IsBase64;
    JoinedIsUngroup(IndexOf(s[0]), IndexOf(s[1]), IndexOf(s[2]), IndexOf(s[3]));
    assert (s + rest)[4..] == rest && "" + rest == rest;
  }

  /** The characters after the last whole group. */
  lemma EndDecoded(s: string)
    requires |s| < 4 && forall c <- s :: IsBase64(c)
    ensures s + "" == s
    ensures DecodedPlain(s) ==
            if |s| < 2 then [] else if |s| == 2 then Joined(IndexOf(s[0]), IndexOf(s[1]), 0, 0)[..1]
            else Joined(IndexOf(s[0]), IndexOf(s[1]), IndexOf(s[2]), 0)[..2]
  {
    hide Ungroup, Joined, IndexOf, IsBase64;
    if |s| >= 2 {
      JoinedIsUngroup(IndexOf(s[0]), IndexOf(s[1]), if |s| == 2 then 0 else IndexOf(s[2]), 0);
    }
  }
}
