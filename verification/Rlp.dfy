/** Items, their recursive encoding (Yellow Paper, Appendix B), and what a full walk of the strict reader returns. */
module Rlp {
  import opened CommonData

  const DATA_START := 0x80
  const DATA_LONG := 0xb7
  const LIST_START := 0xc0
  const LIST_LONG := 0xf7
  const IMMEDIATE := 56

  /** The reader refuses lengths from here on: a payload offset added to them could overflow a 64-bit size. */
  const SIZE_LIMIT := 0x1_0000_0000_0000_0000 - 1 - 0x100

  datatype Item = Str(data: Bytes) | List(items: seq<Item>)

  const EMPTY := Str([])

  // ------------------------------------------------------------------ Encoding

  /** The bytes before a payload of length n. */
  function Header(start: Byte, n: nat): Bytes
    requires start <= LIST_START
  {
    if n < IMMEDIATE then [start + n]
    else [(start + IMMEDIATE - 1 + |ToBigEndian(n)|) % 256] + ToBigEndian(n)
  }

  function Encode(x: Item): (b: Bytes)
    ensures b != []
    decreases x
  {
    match x
    case Str(d) => if |d| == 1 && d[0] < DATA_START then d else Header(DATA_START, |d|) + d
    case List(xs) => var payload := EncodeAll(xs); Header(LIST_START, |payload|) + payload
  }

  function EncodeAll(xs: seq<Item>): Bytes
    decreases xs
  {
    if xs == [] then [] else Encode(xs[0]) + EncodeAll(xs[1..])
  }

  function PayloadOf(x: Item): Bytes {
    match x
    case Str(d) => d
    case List(xs) => EncodeAll(xs)
  }

  predicate Fits(x: Item) {
    |PayloadOf(x)| < SIZE_LIMIT
  }

  lemma HeaderForms(start: Byte, n: nat)
    requires start in {0x80, 0xc0}
    ensures n <= 55 ==> Header(start, n) == [start + n]
    ensures 56 <= n < 0x1_0000_0000_0000_0000 ==>
              1 <= |ToBigEndian(n)| <= 8 && Header(start, n) == [start + 55 + |ToBigEndian(n)|] + ToBigEndian(n)
  {
    if 56 <= n < 0x1_0000_0000_0000_0000 {
      EightBytes(n);
    }
    hide ToBigEndian;
  }

  /** The forms the encoding of a string takes (Yellow Paper, Appendix B). */
  lemma StringForms(d: Bytes)
    ensures |d| == 1 && d[0] < 0x80 ==> Encode(Str(d)) == d
    ensures |d| <= 55 && (|d| == 1 ==> d[0] >= 0x80) ==> Encode(Str(d)) == [0x80 + |d|] + d
    ensures 56 <= |d| < 0x1_0000_0000_0000_0000 ==>
              && 1 <= |ToBigEndian(|d|)| <= 8
              && Encode(Str(d)) == [0xb7 + |ToBigEndian(|d|)|] + ToBigEndian(|d|) + d
  {
    HeaderForms(0x80, |d|);
    hide Header, ToBigEndian;
  }

  /** The forms the encoding of a list takes. */
  lemma ListForms(xs: seq<Item>)
    ensures EncodeAll(xs) == if xs == [] then [] else Encode(xs[0]) + EncodeAll(xs[1..])
    ensures |EncodeAll(xs)| <= 55 ==> Encode(List(xs)) == [0xc0 + |EncodeAll(xs)|] + EncodeAll(xs)
    ensures 56 <= |EncodeAll(xs)| < 0x1_0000_0000_0000_0000 ==>
              && 1 <= |ToBigEndian(|EncodeAll(xs)|)| <= 8
              && Encode(List(xs)) == [0xf7 + |ToBigEndian(|EncodeAll(xs)|)|] + ToBigEndian(|EncodeAll(xs)|) + EncodeAll(xs)
  {
    HeaderForms(0xc0, |EncodeAll(xs)|);
    hide Header, ToBigEndian;
  }

  lemma EncodeAllFirst(x: Item, xs: seq<Item>)
    ensures EncodeAll([]) == [] && EncodeAll([x] + xs) == Encode(x) + EncodeAll(xs)
  {
    hide Encode;
    assert ([x] + xs)[1..] == xs;
  }

  lemma {:induction false} EncodeAllConcat(xs: seq<Item>, ys: seq<Item>)
    ensures EncodeAll(xs + ys) == EncodeAll(xs) + EncodeAll(ys)
  {
    hide *;
    if xs == [] {
      EncodeAllFirst(EMPTY, []);
      assert xs + ys == ys;
    } else {
      EncodeAllConcat(xs[1..], ys);
      EncodeAllFirst(xs[0], xs[1..]);
      EncodeAllFirst(xs[0], xs[1..] + ys);
      assert xs == [xs[0]] + xs[1..] && xs + ys == [xs[0]] + (xs[1..] + ys);
    }
  }

  lemma EncodeAllOne(x: Item)
    ensures EncodeAll([x]) == Encode(x)
  {
    assert [x][1..] == [];
    assert EncodeAll([x]) == Encode(x) + EncodeAll([]);
  }

  // ------------------------------------------------------------------ The reader on a view of bytes; None is a throw

  /** requireGood, on non-null data. */
  predicate Good(d: Bytes) {
    d != [] && (d[0] == DATA_START + 1 ==> |d| >= 2 && d[1] >= DATA_START)
  }

  function LengthSize(d: Bytes): nat {
    if d == [] then 0
    else if d[0] > LIST_LONG then d[0] - LIST_LONG
    else if DATA_LONG < d[0] < LIST_START then d[0] - DATA_LONG
    else 0
  }

  function LongLength(d: Bytes, lengthSize: nat): Option<nat>
    requires d != [] && lengthSize > 0
  {
    if |d| <= lengthSize || d[1] == 0 then None
    else
      var n := FromBigEndian(d[1..lengthSize + 1]);
      if n < IMMEDIATE || n >= SIZE_LIMIT then None else Some(n)
  }

  function Length(d: Bytes): Option<nat> {
    if d == [] then Some(0)
    else if !Good(d) then None
    else if d[0] < DATA_START then Some(1)
    else if LengthSize(d) > 0 then LongLength(d, LengthSize(d))
    else if d[0] < LIST_START then Some(d[0] - DATA_START)
    else Some(d[0] - LIST_START)
  }

  function PayloadOffset(d: Bytes): nat {
    if d != [] && d[0] < DATA_START then 0 else 1 + LengthSize(d)
  }

  function ActualSize(d: Bytes): (n: Option<nat>)
    ensures n.Some? && d != [] ==> n.value > 0
  {
    if d == [] then Some(0)
    else if d[0] < DATA_START then Some(1)
    else match Length(d)
      case None => None
      case Some(n) => Some(PayloadOffset(d) + n)
  }

  /** The size of the item at the front of d, throwing if d is too short for it. */
  function SizeAsEncoded(d: Bytes): (n: Option<nat>)
    ensures n.Some? ==> n.value <= |d| && (d != [] ==> n.value > 0)
  {
    match ActualSize(d)
    case None => None
    case Some(n) => if n <= |d| then Some(n) else None
  }

  /** cropped(begin, count): out of bounds gives the empty view. */
  function Cropped(d: Bytes, begin: nat, count: nat): Bytes {
    if begin + count <= |d| then d[begin..begin + count] else []
  }

  function Payload(d: Bytes): (p: Option<Bytes>)
    ensures p.Some? && d != [] && d[0] >= DATA_START ==> |p.value| < |d|
  {
    match Length(d)
    case None => None
    case Some(n) => if n > |d| then None else Some(Cropped(d, PayloadOffset(d), n))
  }

  /** Reading d with the strict constructor and then everything below it. */
  function Walk(d: Bytes): Option<Item>
    decreases |d|, 0
  {
    if d == [] || ActualSize(d) != Some(|d|) then None
    else match Payload(d)
      case None => None
      case Some(p) =>
        if d[0] < LIST_START then Some(Str(p))
        else match WalkItems(p)
          case None => None
          case Some(xs) => Some(List(xs))
  }

  function WalkItems(p: Bytes): Option<seq<Item>>
    decreases |p|, 1
  {
    if p == [] then Some([])
    else match SizeAsEncoded(p)
      case None => None
      case Some(n) =>
        match Walk(p[..n])
        case None => None
        case Some(x) =>
          match WalkItems(p[n..])
          case None => None
          case Some(xs) => Some([x] + xs)
  }

  /** The lengths the reader takes from the first bytes, case by case. */
  lemma LengthsTaken(d: Bytes)
    requires d != []
    ensures d[0] <= 0x7f ==> Length(d) == Some(1)
    ensures 0x80 <= d[0] <= 0xb7 ==>
              Length(d) == if d[0] == 0x81 && (|d| == 1 || d[1] <= 0x7f) then None else Some(d[0] - 0x80)
    ensures 0xc0 <= d[0] <= 0xf7 ==> Length(d) == Some(d[0] - 0xc0)
    ensures 0xb8 <= d[0] <= 0xbf || 0xf8 <= d[0] ==>
              var k := if d[0] <= 0xbf then d[0] - 0xb7 else d[0] - 0xf7;
              Length(d) == if |d| > k && d[1] != 0 && 56 <= FromBigEndian(d[1..k + 1]) <= 0xffff_ffff_ffff_fefe
                           then Some(FromBigEndian(d[1..k + 1])) else None
  {
    hide FromBigEndian;
  }

  // ------------------------------------------------------------------ Round trip, both ways

  lemma LongHeader(start: Byte, n: nat)
    requires start in {DATA_START, LIST_START} && IMMEDIATE <= n < SIZE_LIMIT
    ensures 1 <= |ToBigEndian(n)| <= 8
    ensures Header(start, n) == [start + IMMEDIATE - 1 + |ToBigEndian(n)|] + ToBigEndian(n)
  {
    hide ToBigEndian;
    EightBytes(n);
  }

  lemma LongLengthRead(first: Byte, n: nat, rest: Bytes)
    requires IMMEDIATE <= n < SIZE_LIMIT
    ensures |ToBigEndian(n)| > 0
    ensures LongLength([first] + ToBigEndian(n) + rest, |ToBigEndian(n)|) == Some(n)
  {
    var length := ToBigEndian(n);
    EightBytes(n);
    BigEndianRoundTrip(n);
    hide ToBigEndian, FromBigEndian;
    var d := [first] + length + rest;
    assert d[1..|length| + 1] == length;
    assert d[1] == length[0];
  }

  /** A header in front of at least n bytes is read back as n, whatever follows. */
  lemma HeaderRead(start: Byte, n: nat, rest: Bytes)
    requires start in {DATA_START, LIST_START} && n < SIZE_LIMIT && n <= |rest|
    requires start == DATA_START && n == 1 ==> rest[0] >= DATA_START
    ensures var h, d := Header(start, n), Header(start, n) + rest;
            && Length(d) == Some(n)
            && PayloadOffset(d) == |h|
            && (d[0] >= LIST_START <==> start == LIST_START)
            && d[0] >= DATA_START
  {
    if n >= IMMEDIATE {
      LongHeader(start, n);
      var k := |ToBigEndian(n)|;
      LongLengthRead(start + IMMEDIATE - 1 + k, n, rest);
      hide LongLength, ToBigEndian, Header;
      var d := Header(start, n) + rest;
      assert d[0] == start + IMMEDIATE - 1 + k;
      assert LengthSize(d) == k;
      assert d == [start + IMMEDIATE - 1 + k] + ToBigEndian(n) + rest;
    } else {
      hide LongLength, ToBigEndian;
      var d := Header(start, n) + rest;
      assert d[0] == start + n && d[1..] == rest;
    }
  }

  /** What the reader makes of a measured item. */
  lemma Measured(d: Bytes, k: nat, n: nat)
    requires d != [] && d[0] >= DATA_START && Length(d) == Some(n) && PayloadOffset(d) == k && k + n <= |d|
    ensures SizeAsEncoded(d) == Some(k + n) && Payload(d) == Some(d[k..k + n])
  {
    hide Length, PayloadOffset;
  }

  lemma HeaderNotEmpty(start: Byte, n: nat)
    requires start <= LIST_START
    ensures Header(start, n) != []
  {
  }

  lemma Glued(h: Bytes, p: Bytes, rest: Bytes)
    ensures (h + p) + rest == h + (p + rest) && (h + p)[|h|..|h| + |p|] == p
  {
  }

  lemma HeadedSize(start: Byte, p: Bytes, rest: Bytes)
    requires start in {DATA_START, LIST_START} && |p| < SIZE_LIMIT
    requires start == DATA_START && |p| == 1 ==> p[0] >= DATA_START
    ensures var d := Header(start, |p|) + p;
            && SizeAsEncoded(d + rest) == Some(|d|)
            && Payload(d) == Some(p)
            && (d[0] >= LIST_START <==> start == LIST_START)
  {
    hide Length, PayloadOffset, Header, SizeAsEncoded, Payload, ActualSize;
    var h := Header(start, |p|);
    HeaderNotEmpty(start, |p|);
    HeaderRead(start, |p|, p);
    HeaderRead(start, |p|, p + rest);
    Glued(h, p, rest);
    Measured(h + p, |h|, |p|);
    Measured(h + (p + rest), |h|, |p|);
  }

  lemma EncodedSize(x: Item, rest: Bytes)
    requires Fits(x)
    ensures SizeAsEncoded(Encode(x) + rest) == Some(|Encode(x)|)
    ensures Payload(Encode(x)) == Some(PayloadOf(x))
    ensures Encode(x)[0] < LIST_START <==> x.Str?
  {
    var p := PayloadOf(x);
    if x.Str? && |p| == 1 && p[0] < DATA_START {
      assert Encode(x) == p;
      assert p[0..1] == p;
    } else {
      HeadedSize(if x.Str? then DATA_START else LIST_START, p, rest);
      hide Length, SizeAsEncoded, Payload, Header;
    }
  }

  lemma {:induction false} EncodeThenWalk(x: Item)
    requires Fits(x)
    ensures Walk(Encode(x)) == Some(x)
    decreases x
  {
    EncodedSize(x, []);
    hide Payload, ActualSize;
    assert Encode(x) + [] == Encode(x);
    if x.List? {
      EncodeThenWalkItems(x.items);
    }
  }

  lemma {:induction false} EncodeThenWalkItems(xs: seq<Item>)
    requires |EncodeAll(xs)| < SIZE_LIMIT
    ensures WalkItems(EncodeAll(xs)) == Some(xs)
    decreases xs
  {
    if xs != [] {
      EncodedAtLeastPayload(xs[0]);
      hide Encode, PayloadOf, SizeAsEncoded;
      var e, rest := Encode(xs[0]), EncodeAll(xs[1..]);
      EncodedSize(xs[0], rest);
      EncodeThenWalk(xs[0]);
      EncodeThenWalkItems(xs[1..]);
      assert (e + rest)[..|e|] == e && (e + rest)[|e|..] == rest;
      assert [xs[0]] + xs[1..] == xs;
    }
  }

  lemma EncodedAtLeastPayload(x: Item)
    ensures |PayloadOf(x)| <= |Encode(x)|
  {
  }

  lemma ReadLongHeader(d: Bytes, start: Byte, k: nat)
    requires d != [] && k == LengthSize(d) > 0 && LongLength(d, k).Some?
    requires start in {DATA_START, LIST_START} && d[0] == start + IMMEDIATE - 1 + k
    ensures var n := LongLength(d, k).value;
            IMMEDIATE <= n < SIZE_LIMIT && Header(start, n) == d[..k + 1]
  {
    var length := d[1..k + 1];
    CompactRoundTrip(length);
    hide FromBigEndian, ToBigEndian;
    var n := FromBigEndian(length);
    assert ToBigEndian(n) == length;
    assert d[..k + 1] == [d[0]] + length;
  }

  /** What the reader measured is exactly the header the writer would have put there. */
  lemma ReadHeader(d: Bytes)
    requires d != [] && d[0] >= DATA_START && ActualSize(d) == Some(|d|)
    ensures Payload(d).Some?
    ensures var p := Payload(d).value;
            var start: Byte := if d[0] < LIST_START then DATA_START else LIST_START;
            && |p| < SIZE_LIMIT
            && d == Header(start, |p|) + p
            && !(d[0] < LIST_START && |p| == 1 && p[0] < DATA_START)
  {
    var start: Byte := if d[0] < LIST_START then DATA_START else LIST_START;
    var k := LengthSize(d);
    HeaderParts(d);
    if k > 0 {
      ReadLongHeader(d, start, k);
    } else {
      ReadShortHeader(d, start);
    }
    hide *;
    var p := d[1 + k..];
    assert d == d[..1 + k] + p;
  }

  /** How a header and its payload make up what was measured. */
  lemma HeaderParts(d: Bytes)
    requires d != [] && d[0] >= DATA_START && ActualSize(d) == Some(|d|)
    ensures Good(d) && Length(d).Some?
    ensures var k, n := LengthSize(d), Length(d).value;
            && |d| == 1 + k + n && Payload(d) == Some(d[1 + k..])
            && (k > 0 ==> LongLength(d, k) == Some(n) && n != 1)
            && !(d[0] < LIST_START && n == 1 && d[1] < DATA_START)
            && (k > 0 ==> d[0] == (if d[0] < LIST_START then DATA_START else LIST_START) + IMMEDIATE - 1 + k)
  {
    hide FromBigEndian;
    var k, n := LengthSize(d), Length(d).value;
    assert d[1 + k..1 + k + n] == d[1 + k..];
  }

  lemma ReadShortHeader(d: Bytes, start: Byte)
    requires d != [] && d[0] >= DATA_START && LengthSize(d) == 0 && Length(d).Some?
    requires start == if d[0] < LIST_START then DATA_START else LIST_START
    ensures var n := Length(d).value; n < SIZE_LIMIT && Header(start, n) == d[..1]
  {
    assert d[..1] == [d[0]];
  }

  lemma {:induction false} WalkThenEncode(d: Bytes)
    requires Walk(d).Some?
    ensures Encode(Walk(d).value) == d && Fits(Walk(d).value)
    decreases |d|, 0
  {
    if d[0] < DATA_START {
      assert Payload(d).value == d[0..1] == d;
    } else {
      ReadHeader(d);
      hide Length, Header, Payload, ActualSize;
      if d[0] >= LIST_START {
        WalkThenEncodeItems(Payload(d).value);
      }
    }
  }

  lemma {:induction false} WalkThenEncodeItems(p: Bytes)
    requires WalkItems(p).Some?
    ensures EncodeAll(WalkItems(p).value) == p
    decreases |p|, 1
  {
    hide Encode, Walk, SizeAsEncoded;
    if p != [] {
      var n := SizeAsEncoded(p).value;
      WalkThenEncode(p[..n]);
      WalkThenEncodeItems(p[n..]);
      var xs := WalkItems(p).value;
      assert xs[1..] == WalkItems(p[n..]).value;
      assert p == p[..n] + p[n..];
    }
  }

  /** The strict reader accepts exactly the encodings, and reads from each the one item it encodes. */
  lemma WalkInvertsEncode(d: Bytes, x: Item)
    ensures Walk(d) == Some(x) <==> d == Encode(x) && Fits(x)
  {
    if Walk(d).Some? {
      WalkThenEncode(d);
    }
    if Fits(x) {
      EncodeThenWalk(x);
    }
  }

  lemma EncodeInjective(x: Item, y: Item)
    requires Fits(x) && Fits(y) && Encode(x) == Encode(y)
    ensures x == y
  {
    hide Encode;
    EncodeThenWalk(x);
    EncodeThenWalk(y);
  }
}
