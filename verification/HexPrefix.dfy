/** Nibbles and the hex-prefix notation (TrieCommon.h, TrieCommon.cpp; Yellow Paper, Appendix C). */
module HexPrefix {
  import opened CommonData

  type Nibble = n: int | 0 <= n < 16

  type Nibbles = seq<Nibble>

  function Join(high: Nibble, low: Nibble): Byte {
    16 * (high as int) + low as int
  }

  /** Two nibbles to a byte, high one first; a last odd nibble leaves the low half zero. */
  function Pack(s: Nibbles): (b: Bytes)
    ensures |b| == (|s| + 1) / 2
  {
    if s == [] then [] else if |s| == 1 then [Join(s[0], 0)] else [Join(s[0], s[1])] + Pack(s[2..])
  }

  /** asNibbles. */
  function Unpack(b: Bytes): (s: Nibbles)
    ensures |s| == 2 * |b|
  {
    if b == [] then [] else [b[0] / 16, b[0] % 16] + Unpack(b[1..])
  }

  function Flag(odd: bool, leaf: bool): Nibble {
    (if leaf then 2 else 0) + (if odd then 1 else 0)
  }

  /** The nibbles put in front of a key: the flag, and a zero if that is needed to fill the byte. */
  function Front(odd: bool, leaf: bool): Nibbles {
    if odd then [Flag(true, leaf)] else [Flag(false, leaf), 0]
  }

  function HexPrefixOf(key: Nibbles, leaf: bool): Bytes {
    Pack(Front(|key| % 2 == 1, leaf) + key)
  }

  // ------------------------------------------------------------------ Facts about packing

  lemma {:induction false} UnpackPack(s: Nibbles)
    requires |s| % 2 == 0
    ensures Unpack(Pack(s)) == s
  {
    if s != [] {
      UnpackPack(s[2..]);
      assert s == [s[0], s[1]] + s[2..];
    }
  }

  lemma {:induction false} PackUnpack(b: Bytes)
    ensures Pack(Unpack(b)) == b
  {
    if b != [] {
      PackUnpack(b[1..]);
      assert Unpack(b)[2..] == Unpack(b[1..]);
    }
  }

  lemma UnpackInjective(a: Bytes, b: Bytes)
    requires Unpack(a) == Unpack(b)
    ensures a == b
  {
    PackUnpack(a);
    PackUnpack(b);
  }

  lemma PackFirst(a: Nibble, b: Nibble, s: Nibbles)
    ensures Pack([a, b] + s) == [Join(a, b)] + Pack(s)
  {
    assert ([a, b] + s)[2..] == s;
  }

  lemma PackOne(a: Nibble, b: Nibble)
    ensures Pack([]) == [] && Pack([a]) == [Join(a, 0)] && Pack([a, b]) == [Join(a, b)]
    ensures Join(a, 0) % 16 == 0 && Join(a, b) == Join(a, 0) + b
  {
    assert [a, b][2..] == [];
  }

  /** One more nibble: it fills the half byte at the end, or starts a new one. */
  lemma {:induction false} PackSnoc(s: Nibbles, n: Nibble)
    ensures |s| % 2 == 0 ==> Pack(s + [n]) == Pack(s) + [Join(n, 0)]
    ensures |s| % 2 == 1 ==>
              var b := Pack(s);
              b[|b| - 1] % 16 == 0 && Pack(s + [n]) == b[|b| - 1 := b[|b| - 1] + n]
  {
    hide *;
    if |s| == 0 {
      PackOne(n, 0);
      assert s + [n] == [n] && [] + [Join(n, 0)] == [Join(n, 0)];
    } else if |s| == 1 {
      PackOne(s[0], n);
      assert s == [s[0]] && s + [n] == [s[0], n];
    } else {
      var rest := s[2..];
      PackSnoc(rest, n);
      PackFirst(s[0], s[1], rest);
      PackFirst(s[0], s[1], rest + [n]);
      assert s == [s[0], s[1]] + rest && s + [n] == [s[0], s[1]] + (rest + [n]);
    }
  }

  lemma {:induction false} UnpackAt(b: Bytes, i: nat)
    requires i < 2 * |b|
    ensures Unpack(b)[i] == NibbleAt(b, i)
  {
    if i >= 2 {
      UnpackAt(b[1..], i - 2);
    }
  }

  // ------------------------------------------------------------------ The notation, byte by byte

  lemma {:induction false} PackAt(s: Nibbles, i: nat)
    requires |s| % 2 == 0 && 2 * i < |s|
    ensures Pack(s)[i] == 16 * (s[2 * i] as int) + s[2 * i + 1]
  {
    if i > 0 {
      PackAt(s[2..], i - 1);
    }
  }

  lemma HexPrefixByte(key: Nibbles, leaf: bool, i: nat)
    requires i < |key| / 2
    ensures |HexPrefixOf(key, leaf)| == |key| / 2 + 1
    ensures HexPrefixOf(key, leaf)[i + 1] == 16 * (key[2 * i + |key| % 2] as int) + key[2 * i + 1 + |key| % 2]
  {
    hide Pack;
    PackAt(Front(|key| % 2 == 1, leaf) + key, i + 1);
  }

  /** Every byte of a prefixed key: 0x20 marks a leaf, 0x10 an odd nibble, which stands in the same byte. */
  lemma HexPrefixBytes(key: Nibbles, leaf: bool)
    ensures |HexPrefixOf(key, leaf)| == |key| / 2 + 1
    ensures |key| % 2 == 0 ==> HexPrefixOf(key, leaf)[0] == if leaf then 0x20 else 0x00
    ensures |key| % 2 == 1 ==> HexPrefixOf(key, leaf)[0] == if leaf then 0x30 + key[0] as int else 0x10 + key[0] as int
    ensures forall i | 0 <= i < |key| / 2 ::
              HexPrefixOf(key, leaf)[i + 1]
              == 16 * (key[2 * i + |key| % 2] as int) + key[2 * i + 1 + |key| % 2]
  {
    hide Pack;
    PackAt(Front(|key| % 2 == 1, leaf) + key, 0);
    forall i | 0 <= i < |key| / 2
      ensures HexPrefixOf(key, leaf)[i + 1]
              == 16 * (key[2 * i + |key| % 2] as int) + key[2 * i + 1 + |key| % 2]
    {
      HexPrefixByte(key, leaf, i);
    }
  }

  lemma FourNibbles(a: Nibble, b: Nibble, c: Nibble, d: Nibble, leaf: bool)
    ensures HexPrefixOf([a, b, c, d], leaf) == [if leaf then 0x20 else 0x00, 16 * (a as int) + b, 16 * (c as int) + d]
  {
    hide *;
    var key: Nibbles := [a, b, c, d];
    HexPrefixBytes(key, leaf);
    HexPrefixByte(key, leaf, 0);
    HexPrefixByte(key, leaf, 1);
  }

  lemma FiveNibbles(a: Nibble, b: Nibble, c: Nibble, d: Nibble, e: Nibble, leaf: bool)
    ensures HexPrefixOf([a, b, c, d, e], leaf)
            == [(if leaf then 0x30 else 0x10) + a as int, 16 * (b as int) + c, 16 * (d as int) + e]
  {
    hide *;
    var key: Nibbles := [a, b, c, d, e];
    HexPrefixBytes(key, leaf);
    HexPrefixByte(key, leaf, 0);
    HexPrefixByte(key, leaf, 1);
  }

  /** Examples of the source. */
  lemma HexPrefixExamples()
    ensures HexPrefixOf([1, 2, 3, 4, 5], false) == [0x11, 0x23, 0x45] && HexPrefixOf([1, 2, 3, 4], false) == [0x00, 0x12, 0x34]
    ensures HexPrefixOf([1, 2, 3, 4, 5], true) == [0x31, 0x23, 0x45] && HexPrefixOf([1, 2, 3, 4], true) == [0x20, 0x12, 0x34]
  {
    hide *;
    FiveNibbles(1, 2, 3, 4, 5, false);
    FourNibbles(1, 2, 3, 4, false);
    FiveNibbles(1, 2, 3, 4, 5, true);
    FourNibbles(1, 2, 3, 4, true);
  }

  /** asNibbles puts the high half of every byte before its low half. */
  lemma {:induction false} UnpackHalves(b: Bytes, i: nat)
    requires i < |b|
    ensures b[i] == 16 * (Unpack(b)[2 * i] as int) + Unpack(b)[2 * i + 1]
  {
    if i > 0 {
      UnpackHalves(b[1..], i - 1);
    }
  }

  lemma LeafBit(x: Byte)
    ensures x / 32 % 2 == 1 <==> x % 64 >= 32
  {
    var q := x / 64;
    assert x / 32 == 2 * q + (if x % 64 >= 32 then 1 else 0);
  }

  lemma OddBit(x: Byte)
    ensures x / 16 % 2 == 1 <==> x % 32 >= 16
  {
    var q := x / 32;
    assert x / 16 == 2 * q + (if x % 32 >= 16 then 1 else 0);
  }

  /** isLeaf and keyOf look at one bit of the first byte each. */
  lemma HexPrefixBits(b: Bytes)
    requires b != []
    ensures IsLeaf(b) <==> b[0] % 64 >= 32
    ensures KeyOf(b).Key() == if b[0] % 32 >= 16 then Unpack(b)[1..] else Unpack(b)[2..]
  {
    hide Unpack;
    LeafBit(b[0]);
    OddBit(b[0]);
  }

  // ------------------------------------------------------------------ Slices of nibbles

  /** nibble(data, i). */
  function NibbleAt(data: Bytes, i: nat): Nibble
    requires i < 2 * |data|
  {
    if i % 2 == 1 then data[i / 2] % 16 else data[i / 2] / 16
  }

  /** How many nibbles two sequences share at their beginning. */
  function Shared(a: Nibbles, b: Nibbles): (n: nat)
    ensures n <= |a| && n <= |b| && a[..n] == b[..n]
    ensures n < |a| && n < |b| ==> a[n] != b[n]
  {
    if a != [] && b != [] && a[0] == b[0] then
      var n := Shared(a[1..], b[1..]);
      assert a[..n + 1] == [a[0]] + a[1..][..n] && b[..n + 1] == [b[0]] + b[1..][..n];
      n + 1
    else 0
  }

  /** Lexicographic order, a proper prefix being smaller. */
  predicate Less(a: Nibbles, b: Nibbles) {
    b != [] && (a == [] || a[0] < b[0] || (a[0] == b[0] && Less(a[1..], b[1..])))
  }

  datatype NibbleSlice = NibbleSlice(data: Bytes, offset: nat) {
    predicate Valid() { offset <= 2 * |data| }

    function Key(): Nibbles
      requires Valid()
    { Unpack(data)[offset..] }

    function Size(): nat
      requires Valid()
    { 2 * |data| - offset }

    function At(i: nat): (n: Nibble)
      requires Valid() && i < Size()
      ensures n == Key()[i]
    { UnpackAt(data, offset + i); NibbleAt(data, offset + i) }

    function Mid(i: nat): (s: NibbleSlice)
      requires Valid() && i <= Size()
      ensures s.Valid() && s.Key() == Key()[i..]
    { NibbleSlice(data, offset + i) }
  }

  /** sharedNibbles over two whole slices. */
  method SharedNibbles(a: NibbleSlice, b: NibbleSlice) returns (n: nat)
    requires a.Valid() && b.Valid()
    ensures n == Shared(a.Key(), b.Key())
  {
    hide Shared, Unpack;
    n := 0;
    ghost var x, y := a.Key(), b.Key();
    assert x[0..] == x && y[0..] == y;
    while n < a.Size() && n < b.Size() && a.At(n) == b.At(n)
      invariant n <= a.Size() && n <= b.Size()
      invariant Shared(x, y) == n + Shared(x[n..], y[n..])
    {
      SharedFrom(x, y, n);
      n := n + 1;
    }
    SharedFrom(x, y, n);
  }

  lemma SharedFrom(a: Nibbles, b: Nibbles, n: nat)
    requires n <= |a| && n <= |b|
    ensures Shared(a[n..], b[n..]) ==
            if n < |a| && n < |b| && a[n] == b[n] then 1 + Shared(a[n + 1..], b[n + 1..]) else 0
  {
    if n < |a| && n < |b| {
      assert a[n..][1..] == a[n + 1..] && b[n..][1..] == b[n + 1..];
    }
  }

  /** contains: k is a prefix of s. */
  method Contains(s: NibbleSlice, k: NibbleSlice) returns (r: bool)
    requires s.Valid() && k.Valid()
    ensures r <==> k.Key() <= s.Key()
  {
    var n := SharedNibbles(s, k);
    r := n == k.Size();
    assert k.Key()[..k.Size()] == k.Key();
  }

  method Equal(s: NibbleSlice, k: NibbleSlice) returns (r: bool)
    requires s.Valid() && k.Valid()
    ensures r <==> s.Key() == k.Key()
  {
    var n := SharedNibbles(s, k);
    r := k.Size() == s.Size() && n == k.Size();
    assert k.Key()[..k.Size()] == k.Key() && s.Key()[..s.Size()] == s.Key();
  }

  /** isEarlierThan: a full key lies before everything that starts with a prefix. */
  method IsEarlierThan(s: NibbleSlice, k: NibbleSlice) returns (r: bool)
    requires s.Valid() && k.Valid()
    ensures r <==> Less(s.Key(), k.Key()) 
  {
    var i := 0;
    while i < k.Size() && i < s.Size()
      invariant i <= k.Size() && i <= s.Size()
      invariant Less(s.Key(), k.Key()) <==> Less(s.Key()[i..], k.Key()[i..])
    {
      assert s.Key()[i..][1..] == s.Key()[i + 1..] && k.Key()[i..][1..] == k.Key()[i + 1..];
      if s.At(i) < k.At(i) {
        return true;
      } else if s.At(i) > k.At(i) {
        return false;
      }
      i := i + 1;
    }
    return i < k.Size();
  }

  // ------------------------------------------------------------------ Reading a prefixed key back

  /** keyOf. */
  function KeyOf(hpe: Bytes): (s: NibbleSlice)
    ensures s.Valid()
  {
    NibbleSlice(hpe, if hpe == [] then 0 else if hpe[0] / 16 % 2 == 1 then 1 else 2)
  }

  /** isLeaf, on the payload of the first of two items. */
  predicate IsLeaf(hpe: Bytes)
    requires hpe != []
  {
    hpe[0] / 32 % 2 == 1
  }

  /** keyOf and isLeaf undo the encoding, for keys of either parity. */
  lemma HexPrefixRoundTrip(key: Nibbles, leaf: bool)
    ensures HexPrefixOf(key, leaf) != []
    ensures KeyOf(HexPrefixOf(key, leaf)).Key() == key
    ensures IsLeaf(HexPrefixOf(key, leaf)) == leaf
    ensures |HexPrefixOf(key, leaf)| == |key| / 2 + 1
  {
    var odd := |key| % 2 == 1;
    var s := Front(odd, leaf) + key;
    UnpackPack(s);
    var b := Pack(s);
    assert Unpack(b)[0] == Flag(odd, leaf) == b[0] / 16;
    assert s[|Front(odd, leaf)|..] == key;
  }

  lemma HexPrefixInjective(k1: Nibbles, leaf1: bool, k2: Nibbles, leaf2: bool)
    requires HexPrefixOf(k1, leaf1) == HexPrefixOf(k2, leaf2)
    ensures k1 == k2 && leaf1 == leaf2
  {
    HexPrefixRoundTrip(k1, leaf1);
    HexPrefixRoundTrip(k2, leaf2);
  }

  // ------------------------------------------------------------------ The three encoders

  lemma FrontByte(odd: bool, leaf: bool)
    ensures Pack(Front(odd, leaf)) == [Join(Flag(odd, leaf), 0)] && |Front(odd, leaf)| == if odd then 1 else 2
  {
  }

  lemma PrefixIs(key: Nibbles, leaf: bool)
    ensures HexPrefixOf(key, leaf) == Pack(Front(|key| % 2 == 1, leaf) + key)
  {
    hide Pack;
  }


  /** From a vector holding one nibble in each byte. */
  method EncodeHexVector(hexVector: Nibbles, leaf: bool, begin: nat, end: int) returns (ret: Bytes)
    requires begin <= (if end < 0 then |hexVector| + 1 + end else end) <= |hexVector|
    ensures ret == HexPrefixOf(hexVector[begin..if end < 0 then |hexVector| + 1 + end else end], leaf)
    ensures var key := hexVector[begin..if end < 0 then |hexVector| + 1 + end else end];
            ret[0] as int == (if leaf then 0x20 else 0x00) + if |key| % 2 == 1 then 0x10 + key[0] as int else 0
  {
    hide *;
    var last := if end < 0 then |hexVector| + 1 + end else end;
    ghost var key := hexVector[begin..last];
    var odd := (last - begin) % 2 == 1;
    ghost var s := Front(odd, leaf);
    FrontByte(odd, leaf);
    ret := [Join(Flag(odd, leaf), 0)];
    var i: nat := begin;
    if odd {
      PackSnoc(s, hexVector[i]);
      ret := [ret[0] + hexVector[i]];
      s := s + [hexVector[i]];
      i := i + 1;
    }
    ret := PushPairs(ret, hexVector[i..last], s);
    assert s + hexVector[i..last] == Front(odd, leaf) + key;
    PrefixIs(key, leaf);
    HexPrefixBytes(key, leaf);
  }

  /** The loop that takes two nibbles at a time. */
  method PushPairs(written: Bytes, hexVector: Nibbles, ghost s: Nibbles) returns (ret: Bytes)
    requires written == Pack(s) && |s| % 2 == 0 && |hexVector| % 2 == 0
    ensures ret == Pack(s + hexVector)
  {
    hide Pack;
    ret := written;
    assert s + hexVector[..0] == s;
    var i := 0;
    while i < |hexVector|
      invariant i <= |hexVector| && i % 2 == 0
      invariant ret == Pack(s + hexVector[..i])
    {
      PackPair(s + hexVector[..i], hexVector[i], hexVector[i + 1]);
      assert s + hexVector[..i + 2] == s + hexVector[..i] + [hexVector[i], hexVector[i + 1]];
      ret := ret + [Join(hexVector[i], hexVector[i + 1])];
      i := i + 2;
    }
    assert hexVector[..i] == hexVector;
  }

  lemma {:induction false} PackPair(s: Nibbles, a: Nibble, b: Nibble)
    requires |s| % 2 == 0
    ensures Pack(s + [a, b]) == Pack(s) + [Join(a, b)]
  {
    if s == [] {
      assert Pack([a, b]) == [Join(a, b)] + Pack([a, b][2..]);
    } else {
      PackPair(s[2..], a, b);
      assert (s + [a, b])[2..] == s[2..] + [a, b];
    }
  }

  /** The loop of both encoders below: d counts the nibbles written so far, the front included. */
  method PushNibbles(written: Bytes, count: nat, data: Bytes, begin: nat, end: nat, ghost s: Nibbles)
    returns (ret: Bytes, d: nat)
    requires begin <= end <= 2 * |data|
    requires written == Pack(s) && |s| == count > 0
    ensures d == count + end - begin
    ensures ret == Pack(s + Unpack(data)[begin..end])
  {
    hide Pack, Unpack;
    ret, d := written, count;
    assert s + Unpack(data)[begin..begin] == s;
    for i := begin to end
      invariant d == count + i - begin
      invariant ret == Pack(s + Unpack(data)[begin..i])
    {
      UnpackAt(data, i);
      var n := NibbleAt(data, i);
      PackSnoc(s + Unpack(data)[begin..i], n);
      assert s + Unpack(data)[begin..i + 1] == s + Unpack(data)[begin..i] + [n];
      if d % 2 == 1 {
        ret := ret[|ret| - 1 := ret[|ret| - 1] + n];
      } else {
        ret := ret + [Join(n, 0)];
      }
      d := d + 1;
    }
  }

  /** From the nibbles begin .. end of some bytes, counted from an offset. */
  method EncodeData(data: Bytes, leaf: bool, beginNibble: nat, endNibble: int, offset: nat) returns (ret: Bytes)
    requires offset <= 2 * |data|
    requires beginNibble <= (if endNibble < 0 then 2 * |data| - offset + 1 + endNibble else endNibble)
                         <= 2 * |data| - offset
    ensures var end := (if endNibble < 0 then 2 * |data| - offset + 1 + endNibble else endNibble) + offset;
            ret == HexPrefixOf(Unpack(data)[beginNibble + offset..end], leaf)
    ensures var end := (if endNibble < 0 then 2 * |data| - offset + 1 + endNibble else endNibble) + offset;
            var key := Unpack(data)[beginNibble + offset..end];
            ret[0] as int == (if leaf then 0x20 else 0x00) + if |key| % 2 == 1 then 0x10 + key[0] as int else 0
  {
    hide *;
    var begin := beginNibble + offset;
    var end := (if endNibble < 0 then 2 * |data| - offset + 1 + endNibble else endNibble) + offset;
    var odd := (end - begin) % 2 == 1;
    ghost var key := Unpack(data)[begin..end];
    FrontByte(odd, leaf);
    var d;
    ret, d := PushNibbles([Join(Flag(odd, leaf), 0)], if odd then 1 else 2, data, begin, end, Front(odd, leaf));
    PrefixIs(key, leaf);
    HexPrefixBytes(key, leaf);
  }

  /** From two slices, one after the other. */
  method EncodeTwo(d1: Bytes, o1: nat, d2: Bytes, o2: nat, leaf: bool) returns (ret: Bytes)
    requires o1 <= 2 * |d1| && o2 <= 2 * |d2|
    ensures ret == HexPrefixOf(Unpack(d1)[o1..] + Unpack(d2)[o2..], leaf)
    ensures var key := Unpack(d1)[o1..] + Unpack(d2)[o2..];
            ret[0] as int == (if leaf then 0x20 else 0x00) + if |key| % 2 == 1 then 0x10 + key[0] as int else 0
  {
    hide *;
    var odd := (2 * |d1| - o1 + 2 * |d2| - o2) % 2 == 1;
    ghost var front := Front(odd, leaf);
    FrontByte(odd, leaf);
    ghost var key1, key2 := Unpack(d1)[o1..], Unpack(d2)[o2..];
    var d;
    ret, d := PushNibbles([Join(Flag(odd, leaf), 0)], if odd then 1 else 2, d1, o1, 2 * |d1|, front);
    assert Unpack(d1)[o1..2 * |d1|] == key1;
    ret, d := PushNibbles(ret, d, d2, o2, 2 * |d2|, front + key1);
    assert Unpack(d2)[o2..2 * |d2|] == key2;
    assert front + key1 + key2 == front + (key1 + key2);
    PrefixIs(key1 + key2, leaf);
    HexPrefixBytes(key1 + key2, leaf);
  }
}
