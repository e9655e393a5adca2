/** Transactions as RLP, with the chain id folded into v (EIP-155). */
module Transaction {
  import opened CommonData
  import opened Rlp
  import opened RlpReader
  import opened RlpStream
  import opened RlpWriting

  // ------------------------------------------------------------------ Fixed widths

  /** One past the largest u256. */
  const U256 := Pow256(32)
  const U64 := 0x1_0000_0000_0000_0000
  const U32 := 0x1_0000_0000

  /** Conversion to a 32-bit int, in two's complement. */
  function Int32(x: int): (r: int)
    ensures -0x8000_0000 <= r < 0x8000_0000
    ensures -0x8000_0000 <= x < 0x8000_0000 ==> r == x
  {
    (x + 0x8000_0000) % U32 - 0x8000_0000
  }

  lemma {:induction false} Pow256More(a: nat, b: nat)
    requires a <= b
    ensures Pow256(a) <= Pow256(b)
    decreases b
  {
    if a < b {
      Pow256More(a, b - 1);
    }
  }

  /** Twice any u64 is far below the top of u256. */
  lemma Wide()
    ensures U256 > 0x100 * U64
  {
    assert Pow256(4) == U32;
    assert Pow256(5) == 256 * Pow256(4) && Pow256(6) == 256 * Pow256(5);
    assert Pow256(7) == 256 * Pow256(6) && Pow256(8) == 256 * Pow256(7);
    assert Pow256(9) == 256 * Pow256(8) && Pow256(10) == 256 * Pow256(9);
    Pow256More(10, 32);
  }

  // ------------------------------------------------------------------ Transactions

  type Address = a: Bytes | |a| == 20
    witness [0, 0, 0, 0, 0, 0, 0, 0, 0, 0, 0, 0, 0, 0, 0, 0, 0, 0, 0, 0]

  const ZERO_ADDRESS: Address := [0, 0, 0, 0, 0, 0, 0, 0, 0, 0, 0, 0, 0, 0, 0, 0, 0, 0, 0, 0]

  lemma Widths()
    ensures U256 == Pow256(32) && U64 == 0x1_0000_0000_0000_0000 && U32 == 0x1_0000_0000
    ensures ZERO_ADDRESS == Zeros(20)
  {
    hide Pow256;
  }

  /** The order of the group of secp256k1: r and s lie below it. */
  const GROUP_ORDER := 0xfffffffffffffffffffffffffffffffebaaedce6af48a03bbfd25e8cd0364141

  datatype Signature = Signature(r: nat, s: nat, v: Byte) {
    predicate IsZero() { r == 0 && s == 0 }
    predicate IsValid() { v <= 1 && 0 < r < GROUP_ORDER && 0 < s < GROUP_ORDER }
  }

  datatype Tx = Tx(creation: bool, nonce: nat, gasPrice: nat, gas: nat, to: Address, value: nat, data: Bytes,
                   vrs: Option<Signature>, chainId: Option<nat>)
  {
    /** Every field is within its type. */
    predicate InRange() {
      && nonce < U256 && gasPrice < U256 && gas < U256 && value < U256 && |data| < 0x4000_0000_0000_0000
      && (vrs.Some? ==> vrs.value.r < U256 && vrs.value.s < U256)
      && (chainId.Some? ==> chainId.value < U64)
    }
  }

  /** rawV: the offset is computed in 64 bits and narrowed to an int; the sum is widened to u256. */
  function RawVOf(v: Byte, chainId: Option<nat>): nat {
    var offset := match chainId
      case None => 27
      case Some(c) => Int32((c * 2 + 35) % U64);
    Int32(v + offset) % U256
  }

  function Int(n: nat): Item { Str(ToBigEndian(n)) }

  /** What stands for v: the chain id itself under a zero signature, appended as a 32-bit unsigned. */
  function StreamedV(t: Tx): nat
    requires t.vrs.Some? && (t.vrs.value.IsZero() ==> t.chainId.Some?)
  {
    if t.vrs.value.IsZero() then t.chainId.value % U32 else RawVOf(t.vrs.value.v, t.chainId)
  }

  function Unsigned(t: Tx): seq<Item> {
    [Int(t.nonce), Int(t.gasPrice), Int(t.gas), Str(if t.creation then [] else t.to), Int(t.value), Str(t.data)]
  }

  /** The nine items with some v. */
  function ItemsWithV(t: Tx, v: nat): seq<Item>
    requires t.vrs.Some?
  {
    Unsigned(t) + [Int(v), Int(t.vrs.value.r), Int(t.vrs.value.s)]
  }

  function Signed(t: Tx): seq<Item>
    requires t.vrs.Some? && (t.vrs.value.IsZero() ==> t.chainId.Some?)
  {
    ItemsWithV(t, StreamedV(t))
  }

  /** What EIP-155 has signed. */
  function ForSigning(t: Tx): seq<Item>
    requires t.chainId.Some?
  {
    Unsigned(t) + [Int(t.chainId.value % U32), Int(0), Int(0)]
  }

  // ------------------------------------------------------------------ Reading single fields; None is a throw

  predicate IsData(d: Bytes) { d != [] && d[0] < LIST_START }

  /** isEmpty, of a view. */
  predicate IsEmpty(d: Bytes) { d != [] && (d[0] == DATA_START || d[0] == LIST_START) }

  /** isInt: no leading zero byte. */
  predicate IsInt(d: Bytes) {
    d != [] &&
    if d[0] < DATA_START then d[0] != 0
    else if d[0] == DATA_START then true
    else if d[0] <= DATA_LONG then |d| > 1 && d[1] != 0
    else if d[0] < LIST_START then |d| > 1 + d[0] - DATA_LONG && d[1 + d[0] - DATA_LONG] != 0
    else false
  }

  /** toInt<u256>. */
  function ToInt(d: Bytes): Option<nat> {
    if !Good(d) || !IsInt(d) then None
    else match Payload(d)
      case None => None
      case Some(p) => if |p| > 32 then None else Some(FromBigEndian(p))
  }

  /** toHash<Address>, of exactly twenty bytes. */
  function ToAddress(d: Bytes): Option<Address> {
    if !Good(d) || !IsData(d) then None
    else match Payload(d)
      case None => None
      case Some(p) => if |p| == 20 then Some(p) else None
  }

  lemma IntRead(n: nat)
    requires n < U256
    ensures ToInt(Encode(Int(n))) == Some(n) && |Encode(Int(n))| <= 41
  {
    BigEndianRoundTrip(n);
    BigEndianSize(n, 32);
    var b := ToBigEndian(n);
    EncodedSize(Str(b), []);
    hide ToBigEndian, FromBigEndian, Payload;
    SmallString(b);
  }

  lemma SmallString(b: Bytes)
    requires |b| <= 32
    ensures var d := Encode(Str(b)); Good(d) && IsData(d) && |d| <= 41 && (IsEmpty(d) <==> b == [])
    ensures Compact(b) ==> IsInt(Encode(Str(b)))
  {
  }

  lemma AddressRead(a: Address)
    ensures var d := Encode(Str(a)); ToAddress(d) == Some(a) && IsData(d) && !IsEmpty(d) && |d| <= 41
  {
    EncodedSize(Str(a), []);
    hide Payload;
    SmallString(a);
  }

  lemma DataRead(b: Bytes)
    requires |b| < 0x4000_0000_0000_0000
    ensures var d := Encode(Str(b)); IsData(d) && Payload(d) == Some(b) && |d| <= |b| + 9
  {
    EncodedSize(Str(b), []);
    hide Payload;
    if |b| >= IMMEDIATE {
      LongHeader(DATA_START, |b|);
    }
  }

  // ------------------------------------------------------------------ Reading a transaction

  /** Chain id and recovery id from v, under a signature that is not zero. */
  function DecodedV(v: nat): Option<(Option<nat>, nat)> {
    if v > 36 then
      var c := (v - 35) / 2;
      if c >= U64 then None else Some((Some(c), v - (c * 2 + 35)))
    else if v == 27 || v == 28 then Some((None, v - 27))
    else None
  }

  /** Signature and chain id from v, r and s; None where the constructor throws. */
  function SignatureOf(v: nat, r: nat, s: nat, check: bool): Option<(Signature, Option<nat>)> {
    if r == 0 && s == 0 then Some((Signature(r, s, 0), Some(v % U64)))
    else match DecodedV(v)
      case None => None
      case Some((chainId, id)) =>
        if check && !Signature(r, s, id % 256).IsValid() then None else Some((Signature(r, s, id % 256), chainId))
  }

  /** The transaction the constructor makes of its fields. */
  function FromFields(nonce: nat, gasPrice: nat, gas: nat, to: Option<Address>, value: nat, data: Bytes, v: nat, r: nat, s: nat,
                      check: bool): Option<Tx>
  {
    var address := match to case None => ZERO_ADDRESS case Some(a) => a;
    match SignatureOf(v, r, s, check)
    case None => None
    case Some((vrs, chainId)) => Some(Tx(to.None?, nonce, gasPrice, gas, address, value, data, Some(vrs), chainId))
  }

  function ViewAt(views: seq<Bytes>, i: nat): Bytes {
    if i < |views| then views[i] else []
  }

  /** The constructor on the views of the list's items. */
  function FromViews(views: seq<Bytes>, check: bool): Option<Tx> {
    var nonce, gasPrice, gas := ToInt(ViewAt(views, 0)), ToInt(ViewAt(views, 1)), ToInt(ViewAt(views, 2));
    var to, value, data := ViewAt(views, 3), ToInt(ViewAt(views, 4)), ViewAt(views, 5);
    var v, r, s := ToInt(ViewAt(views, 6)), ToInt(ViewAt(views, 7)), ToInt(ViewAt(views, 8));
    if nonce.None? || gasPrice.None? || gas.None? || value.None? || v.None? || r.None? || s.None? then None
    else if !IsData(to) || (!IsEmpty(to) && ToAddress(to).None?) then None
    else if !IsData(data) || Payload(data).None? || |views| > 9 then None
    else FromFields(nonce.value, gasPrice.value, gas.value, if IsEmpty(to) then None else ToAddress(to), value.value,
                    Payload(data).value, v.value, r.value, s.value, check)
  }

  /** The constructor on bytes: the strict view, a list, nine items and no more. */
  function FromBytes(d: Bytes, check: bool): Option<Tx> {
    if ActualSize(d) != Some(|d|) || !IsList(d) then None
    else match Views(d)
      case None => None
      case Some(views) => FromViews(views, check)
  }

  // ------------------------------------------------------------------ Round trip

  /** What comes back cannot carry the address of a creation. */
  function Normal(t: Tx): Tx {
    if t.creation then t.(to := ZERO_ADDRESS) else t
  }

  /** The transactions that come back from their own bytes. */
  predicate Survives(t: Tx, check: bool)
    requires t.vrs.Some?
  {
    var sig := t.vrs.value;
    if sig.IsZero() then sig.v == 0 && t.chainId.Some? && t.chainId.value < U32
    else
      && sig.v <= 1 && (check ==> sig.IsValid())
      && match t.chainId
         case None => true
         case Some(c) => c > 0 && 2 * c + 35 + sig.v < 0x8000_0000
  }

  lemma Int32Period(x: int, q: int)
    ensures Int32(x + 0x1_0000_0000 * q) == Int32(x)
  {
    var y := x + 0x8000_0000;
    var r := y % 0x1_0000_0000;
    assert y == 0x1_0000_0000 * (y / 0x1_0000_0000) + r;
    assert y + 0x1_0000_0000 * q == 0x1_0000_0000 * (y / 0x1_0000_0000 + q) + r;
  }

  lemma Int32Is(x: int) returns (q: int)
    ensures Int32(x) == x + 0x1_0000_0000 * q
  {
    q := -((x + 0x8000_0000) / 0x1_0000_0000);
  }

  lemma Int32Signed(x: int)
    ensures Int32(x) == var y := x % 0x1_0000_0000; if y < 0x8000_0000 then y else y - 0x1_0000_0000
  {
    var y, q := x % 0x1_0000_0000, x / 0x1_0000_0000;
    assert x == y + 0x1_0000_0000 * q;
    Int32Period(y, q);
    if y >= 0x8000_0000 {
      Int32Period(y - 0x1_0000_0000, 1);
    }
  }

  lemma Mod64(x: nat) returns (q: int)
    ensures x % U64 == x + 0x1_0000_0000 * q
  {
    q := -(x / U64) * 0x1_0000_0000;
  }

  /** Narrowing the offset and then the sum is narrowing the sum. */
  lemma NarrowedOnce(v: Byte, x: nat)
    ensures Int32(v + Int32(x % U64)) == Int32(v + x)
  {
    hide Int32;
    var a := Mod64(x);
    var b := Int32Is(x % U64);
    Int32Period(v + x, a + b);
    assert v + Int32(x % U64) == v + x + 0x1_0000_0000 * (a + b);
  }

  /** rawV adds 27 to the recovery id, or 35 and twice the chain id, of which the lower 32 bits count. */
  lemma RawVNumbers(v: Byte, chainId: Option<nat>)
    ensures chainId == None ==> RawVOf(v, chainId) == 27 + v as int
    ensures chainId.Some? ==>
              var x := (2 * chainId.value + 35 + v) % 0x1_0000_0000;
              RawVOf(v, chainId) == if x < 0x8000_0000 then x else Pow256(32) - 0x1_0000_0000 + x
    ensures chainId.Some? && 2 * chainId.value + 35 + v < 0x8000_0000 ==> RawVOf(v, chainId) == 2 * chainId.value + 35 + v
  {
    Wide();
    hide Pow256, Int32;
    if chainId == None {
      SmallInt32(27 + v);
      WideMod(27 + v);
    } else {
      var y := 2 * chainId.value + 35;
      NarrowedOnce(v, y);
      Int32Signed(v + y);
      WideMod(Int32(v + y));
    }
  }

  lemma DecodedPair(raw: nat, chainId: Option<nat>, id: nat)
    ensures DecodedV(raw) == Some((chainId, id)) <==>
              if chainId == None then id <= 1 && raw == 27 + id
              else id <= 1 && raw > 36 && chainId.value < U64 && raw == 2 * chainId.value + 35 + id
  {
  }

  lemma RawVBack(v: Byte, chainId: Option<nat>)
    requires chainId.Some? ==> chainId.value < U64
    ensures RawVOf(v, chainId) < U256
    ensures DecodedV(RawVOf(v, chainId)) == Some((chainId, v as nat)) <==>
              v <= 1 && (chainId.Some? ==> chainId.value > 0 && 2 * chainId.value + 35 + v < 0x8000_0000)
  {
    hide *;
    Widths();
    Wide();
    RawVNumbers(v, chainId);
    DecodedPair(RawVOf(v, chainId), chainId, v);
  }

  lemma WideMod(x: int)
    requires -0x8000_0000 <= x < 0x8000_0000
    ensures x % U256 == if x >= 0 then x else U256 + x
    ensures 0 <= x % U256 < U256
  {
    Wide();
    ModAround(x, U256);
  }

  lemma ModAround(x: int, m: int)
    requires m > 0 && -m <= x < m
    ensures x % m == if x >= 0 then x else m + x
  {
    var q := x / m;
    assert x == m * q + x % m;
    assert q >= 1 ==> m * q >= m;
    assert q <= -2 ==> m * q <= m * -2;
  }

  lemma ZeroBack(t: Tx, check: bool)
    requires t.InRange() && t.vrs.Some? && t.vrs.value.IsZero() && t.chainId.Some?
    ensures FromFields(t.nonce, t.gasPrice, t.gas, if t.creation then None else Some(t.to), t.value, t.data, t.chainId.value % U32,
                       0, 0, check) == Some(Normal(t))
       <==> Survives(t, check)
  {
    hide Pow256, DecodedV;
    assert t.chainId.value % U32 % U64 == t.chainId.value % U32;
  }

  lemma DecodedBack(t: Tx, v: nat, check: bool)
    requires t.vrs.Some? && !t.vrs.value.IsZero()
    ensures FromFields(t.nonce, t.gasPrice, t.gas, if t.creation then None else Some(t.to), t.value, t.data, v,
                       t.vrs.value.r, t.vrs.value.s, check) == Some(Normal(t))
       <==> DecodedV(v) == Some((t.chainId, t.vrs.value.v as nat)) && (check ==> t.vrs.value.IsValid())
  {
    hide Pow256, DecodedV;
    if DecodedV(v).Some? {
      DecodedSmall(v);
    }
  }

  lemma FieldsBack(t: Tx, check: bool)
    requires t.InRange() && t.vrs.Some? && (t.vrs.value.IsZero() ==> t.chainId.Some?)
    ensures FromFields(t.nonce, t.gasPrice, t.gas, if t.creation then None else Some(t.to), t.value, t.data, StreamedV(t),
                       t.vrs.value.r, t.vrs.value.s, check) == Some(Normal(t))
       <==> Survives(t, check)
  {
    hide RawVOf, DecodedV, Pow256, FromFields;
    if t.vrs.value.IsZero() {
      ZeroBack(t, check);
    } else {
      RawVBack(t.vrs.value.v, t.chainId);
      DecodedBack(t, RawVOf(t.vrs.value.v, t.chainId), check);
    }
  }

  lemma DecodedSmall(v: nat)
    requires DecodedV(v).Some?
    ensures DecodedV(v).value.1 <= 1
  {
  }

  lemma StreamedVFits(t: Tx)
    requires t.InRange() && t.vrs.Some? && (t.vrs.value.IsZero() ==> t.chainId.Some?)
    ensures StreamedV(t) < U256
  {
    Wide();
    RawVBack(t.vrs.value.v, t.chainId);
  }

  /** Reading the nine items gives the constructor the fields that were written. */
  lemma FieldsRead(t: Tx, v: nat, check: bool)
    requires t.InRange() && t.vrs.Some? && v < U256
    ensures FromBytes(Encode(List(ItemsWithV(t, v))), check)
         == FromFields(t.nonce, t.gasPrice, t.gas, if t.creation then None else Some(t.to), t.value, t.data, v,
                       t.vrs.value.r, t.vrs.value.s, check)
  {
    hide Encode, EncodeAll, ToInt, ToAddress, IsData, IsEmpty, Payload, FromFields, Int, ActualSize, Views, IsList, Pow256;
    var xs := ItemsWithV(t, v);
    ItemsWithVFit(t, v);
    var d := Encode(List(xs));
    ReadBack(xs);
    forall i | 0 <= i < 9 ensures EncodeEach(xs)[i] == Encode(xs[i]) {
      EncodeEachAt(xs, i);
    }
    IntRead(t.nonce);
    IntRead(t.gasPrice);
    IntRead(t.gas);
    IntRead(t.value);
    IntRead(v);
    IntRead(t.vrs.value.r);
    IntRead(t.vrs.value.s);
    AddressRead(t.to);
    NoAddress();
    DataRead(t.data);
  }

  lemma NoAddress()
    ensures IsData(Encode(Str([]))) && IsEmpty(Encode(Str([]))) && |Encode(Str([]))| <= 41
  {
  }

  lemma ReadBack(xs: seq<Item>)
    requires |EncodeAll(xs)| < SIZE_LIMIT
    ensures var d := Encode(List(xs));
            && ActualSize(d) == Some(|d|) && IsList(d) && Views(d) == Some(EncodeEach(xs)) && |EncodeEach(xs)| == |xs|
  {
    hide Encode;
    EncodeThenWalk(List(xs));
    ViewsOfWalked(Encode(List(xs)), xs);
    ListFront(xs);
  }

  lemma ListFront(xs: seq<Item>)
    requires |EncodeAll(xs)| < SIZE_LIMIT
    ensures Encode(List(xs))[0] >= LIST_START
  {
    EncodedSize(List(xs), []);
  }

  lemma ItemsWithVFit(t: Tx, v: nat)
    requires t.InRange() && t.vrs.Some? && v < U256
    ensures |EncodeAll(ItemsWithV(t, v))| < SIZE_LIMIT
  {
    hide Encode, Int, Pow256;
    UnsignedFits(t);
    IntRead(v);
    IntRead(t.vrs.value.r);
    IntRead(t.vrs.value.s);
    var more := [Int(v), Int(t.vrs.value.r), Int(t.vrs.value.s)];
    EncodeAllConcat(Unsigned(t), more);
    ThreeItems(more[0], more[1], more[2]);
  }

  lemma ThreeItems(a: Item, b: Item, c: Item)
    ensures |EncodeAll([a, b, c])| == |Encode(a)| + |Encode(b)| + |Encode(c)|
  {
    hide Encode;
    EncodeAllOne(c);
    assert [a, b, c][1..] == [b, c] && [b, c][1..] == [c];
  }

  lemma UnsignedFits(t: Tx)
    requires t.InRange()
    ensures |EncodeAll(Unsigned(t))| <= |t.data| + 300
  {
    hide Encode, Int, Pow256, IsData, IsEmpty, Payload;
    IntRead(t.nonce);
    IntRead(t.gasPrice);
    IntRead(t.gas);
    IntRead(t.value);
    AddressRead(t.to);
    NoAddress();
    DataRead(t.data);
    var xs := Unsigned(t);
    assert xs == [xs[0], xs[1], xs[2]] + [xs[3], xs[4], xs[5]];
    EncodeAllConcat([xs[0], xs[1], xs[2]], [xs[3], xs[4], xs[5]]);
    ThreeItems(xs[0], xs[1], xs[2]);
    ThreeItems(xs[3], xs[4], xs[5]);
  }

  lemma SignedIs(t: Tx)
    requires t.vrs.Some? && (t.vrs.value.IsZero() ==> t.chainId.Some?)
    ensures Signed(t) == ItemsWithV(t, StreamedV(t))
  {
  }

  /** A signed transaction comes back from its bytes exactly if its chain id survives the narrowing in rawV. */
  lemma SurvivesIff(t: Tx, check: bool)
    requires t.InRange() && t.vrs.Some? && (t.vrs.value.IsZero() ==> t.chainId.Some?)
    ensures FromBytes(Encode(List(Signed(t))), check) == Some(Normal(t)) <==> Survives(t, check)
  {
    hide FromBytes, FromFields, Encode, Signed, StreamedV, Survives, Pow256;
    StreamedVFits(t);
    SignedIs(t);
    FieldsRead(t, StreamedV(t), check);
    FieldsBack(t, check);
  }

  /** A chain id the narrowing loses: 2^30. */
  lemma LargeChainIdIsLost(check: bool)
    ensures var t := Tx(false, 0, 0, 0, ZERO_ADDRESS, 0, [], Some(Signature(1, 1, 0)), Some(0x4000_0000));
            FromBytes(Encode(List(Signed(t))), check) != Some(t)
  {
    var t := Tx(false, 0, 0, 0, ZERO_ADDRESS, 0, [], Some(Signature(1, 1, 0)), Some(0x4000_0000));
    Wide();
    hide FromBytes, Encode, Signed, Pow256;
    SurvivesIff(t, check);
  }

  /** What is signed says everything about the transaction but the upper half of its chain id. */
  lemma SigningDetermines(a: Tx, b: Tx)
    requires a.InRange() && b.InRange() && a.chainId.Some? && b.chainId.Some?
    ensures Encode(List(ForSigning(a))) == Encode(List(ForSigning(b))) <==>
              && Normal(a).(vrs := None, chainId := None) == Normal(b).(vrs := None, chainId := None)
              && a.chainId.value % U32 == b.chainId.value % U32
  {
    hide Encode, Int, Pow256;
    ForSigningFits(a);
    ForSigningFits(b);
    if Encode(List(ForSigning(a))) == Encode(List(ForSigning(b))) {
      EncodeInjective(List(ForSigning(a)), List(ForSigning(b)));
      var xs, ys := ForSigning(a), ForSigning(b);
      assert xs[0] == ys[0] && xs[1] == ys[1] && xs[2] == ys[2] && xs[3] == ys[3] && xs[4] == ys[4] && xs[5] == ys[5] && xs[6] == ys[6];
      IntInjective(a.nonce, b.nonce);
      IntInjective(a.gasPrice, b.gasPrice);
      IntInjective(a.gas, b.gas);
      IntInjective(a.value, b.value);
      IntInjective(a.chainId.value % U32, b.chainId.value % U32);
    }
  }

  lemma IntInjective(m: nat, n: nat)
    requires Int(m) == Int(n)
    ensures m == n
  {
    BigEndianRoundTrip(m);
    BigEndianRoundTrip(n);
  }

  lemma ForSigningFits(t: Tx)
    requires t.InRange() && t.chainId.Some?
    ensures |EncodeAll(ForSigning(t))| < SIZE_LIMIT
  {
    hide Encode, Int, Pow256;
    Wide();
    UnsignedFits(t);
    IntRead(t.chainId.value % U32);
    IntRead(0);
    var more := [Int(t.chainId.value % U32), Int(0), Int(0)];
    EncodeAllConcat(Unsigned(t), more);
    ThreeItems(more[0], more[1], more[2]);
  }

  // ------------------------------------------------------------------ Reading, then writing again

  /** An integer the reader accepts has the one encoding. */
  lemma IntWritten(d: Bytes)
    requires SizeAsEncoded(d) == Some(|d|) && ToInt(d).Some?
    ensures Walk(d) == Some(Int(ToInt(d).value)) && ToInt(d).value < U256
  {
    var p := Payload(d).value;
    IntIsCompact(d);
    CompactRoundTrip(p);
    FromBigEndianBound(p);
    Pow256More(|p|, 32);
    hide FromBigEndian, ToBigEndian, Pow256;
    DataWalked(d);
  }

  lemma IntIsCompact(d: Bytes)
    requires SizeAsEncoded(d) == Some(|d|) && ToInt(d).Some?
    ensures Payload(d).Some? && Compact(Payload(d).value) && |Payload(d).value| <= 32 && IsData(d)
  {
    hide FromBigEndian;
  }

  lemma DataWalked(d: Bytes)
    requires SizeAsEncoded(d) == Some(|d|) && IsData(d) && Payload(d).Some?
    ensures Walk(d) == Some(Str(Payload(d).value))
  {
  }

  lemma NoDataIsEmpty(d: Bytes)
    requires SizeAsEncoded(d) == Some(|d|) && IsData(d) && IsEmpty(d)
    ensures Payload(d) == Some([])
  {
  }

  /** Where every view is read as an item, the payload is read as those items. */
  lemma {:induction false} ViewsWalked(p: Bytes, xs: seq<Item>)
    requires Split(p).Some? && |Split(p).value| == |xs|
    requires forall i | 0 <= i < |xs| :: Walk(Split(p).value[i]) == Some(xs[i])
    ensures WalkItems(p) == Some(xs)
    decreases |p|
  {
    hide Walk, SizeAsEncoded;
    if p != [] {
      var n, views := SizeAsEncoded(p).value, Split(p).value;
      assert views == [p[..n]] + Split(p[n..]).value;
      assert Walk(views[0]) == Some(xs[0]);
      ViewsWalked(p[n..], xs[1..]);
      assert xs == [xs[0]] + xs[1..];
    }
  }

  lemma ViewSizes(d: Bytes, i: nat)
    requires Views(d).Some? && i < |Views(d).value|
    ensures SizeAsEncoded(Views(d).value[i]) == Some(|Views(d).value[i]|)
  {
    PayloadViews(d);
    hide SizeAsEncoded, Payload;
    SplitStep(Payload(d).value, i);
  }

  /** What an accepted transaction's views are. */
  lemma AcceptedViews(d: Bytes, check: bool)
    requires FromBytes(d, check).Some?
    ensures ActualSize(d) == Some(|d|) && IsList(d) && Views(d).Some? && |Views(d).value| == 9
    ensures var views := Views(d).value;
            && ToInt(views[0]).Some? && ToInt(views[1]).Some? && ToInt(views[2]).Some? && ToInt(views[4]).Some?
            && ToInt(views[6]).Some? && ToInt(views[7]).Some? && ToInt(views[8]).Some?
            && IsData(views[3]) && (IsEmpty(views[3]) || ToAddress(views[3]).Some?)
            && IsData(views[5]) && Payload(views[5]).Some?
            && FromBytes(d, check) == FromFields(ToInt(views[0]).value, ToInt(views[1]).value, ToInt(views[2]).value,
                 if IsEmpty(views[3]) then None else ToAddress(views[3]), ToInt(views[4]).value, Payload(views[5]).value,
                 ToInt(views[6]).value, ToInt(views[7]).value, ToInt(views[8]).value, check)
  {
    EnoughViews(Views(d).value, check);
    hide ToInt, ToAddress, IsData, IsEmpty, Payload, Views, FromFields, ActualSize;
  }

  /** The items the nine views are read as. */
  lemma ViewsAsItems(views: seq<Bytes>, xs: seq<Item>)
    requires |views| == 9 && forall i | 0 <= i < 9 :: SizeAsEncoded(views[i]) == Some(|views[i]|)
    requires ToInt(views[0]).Some? && ToInt(views[1]).Some? && ToInt(views[2]).Some? && ToInt(views[4]).Some?
    requires ToInt(views[6]).Some? && ToInt(views[7]).Some? && ToInt(views[8]).Some?
    requires IsData(views[3]) && (IsEmpty(views[3]) || ToAddress(views[3]).Some?) && IsData(views[5]) && Payload(views[5]).Some?
    requires xs == [Int(ToInt(views[0]).value), Int(ToInt(views[1]).value), Int(ToInt(views[2]).value),
                    Str(if IsEmpty(views[3]) then [] else ToAddress(views[3]).value), Int(ToInt(views[4]).value),
                    Str(Payload(views[5]).value), Int(ToInt(views[6]).value), Int(ToInt(views[7]).value), Int(ToInt(views[8]).value)]
    ensures forall i | 0 <= i < 9 :: Walk(views[i]) == Some(xs[i])
    ensures ToInt(views[6]).value < U256
  {
    hide ToInt, ToAddress, IsData, IsEmpty, Payload, SizeAsEncoded, Walk, Pow256, Int;
    IntWritten(views[0]);
    IntWritten(views[1]);
    IntWritten(views[2]);
    ToWalked(views[3]);
    IntWritten(views[4]);
    DataWalked(views[5]);
    IntWritten(views[6]);
    IntWritten(views[7]);
    IntWritten(views[8]);
  }

  /** Accepted bytes are the encoding of the fields that were read from them. */
  lemma ReadIsWritten(d: Bytes, check: bool) returns (v: nat)
    requires FromBytes(d, check).Some?
    ensures var t := FromBytes(d, check).value;
            && t.vrs.Some? && d == Encode(List(ItemsWithV(t, v))) && v < U256
            && SignatureOf(v, t.vrs.value.r, t.vrs.value.s, check) == Some((t.vrs.value, t.chainId))
  {
    hide *;
    AcceptedViews(d, check);
    var views, t := Views(d).value, FromBytes(d, check).value;
    forall i | 0 <= i < 9 ensures SizeAsEncoded(views[i]) == Some(|views[i]|) {
      ViewSizes(d, i);
    }
    v := ToInt(views[6]).value;
    FieldsAsItems(ToInt(views[0]).value, ToInt(views[1]).value, ToInt(views[2]).value,
                  if IsEmpty(views[3]) then None else ToAddress(views[3]), ToInt(views[4]).value, Payload(views[5]).value,
                  v, ToInt(views[7]).value, ToInt(views[8]).value, check);
    ViewsAsItems(views, ItemsWithV(t, v));
    PayloadViews(d);
    ViewsWalked(Payload(d).value, ItemsWithV(t, v));
    ListWalked(d, ItemsWithV(t, v));
    WalkThenEncode(d);
  }

  lemma FieldsAsItems(nonce: nat, gasPrice: nat, gas: nat, to: Option<Address>, value: nat, data: Bytes, v: nat, r: nat, s: nat,
                      check: bool)
    requires FromFields(nonce, gasPrice, gas, to, value, data, v, r, s, check).Some?
    ensures var t := FromFields(nonce, gasPrice, gas, to, value, data, v, r, s, check).value;
            && t.vrs.Some? && |ItemsWithV(t, v)| == 9 && SignatureOf(v, r, s, check) == Some((t.vrs.value, t.chainId))
            && t.vrs.value.r == r && t.vrs.value.s == s
            && ItemsWithV(t, v) == [Int(nonce), Int(gasPrice), Int(gas), Str(if to == None then [] else to.value), Int(value), Str(data),
                                    Int(v), Int(r), Int(s)]
  {
    hide Int;
  }

  lemma EnoughViews(views: seq<Bytes>, check: bool)
    requires FromViews(views, check).Some?
    ensures |views| == 9
  {
    assert ToInt([]) == None;
  }

  lemma ToWalked(d: Bytes)
    requires SizeAsEncoded(d) == Some(|d|) && IsData(d) && (IsEmpty(d) || ToAddress(d).Some?)
    ensures Walk(d) == Some(Str(if IsEmpty(d) then [] else ToAddress(d).value))
  {
    if IsEmpty(d) {
      NoDataIsEmpty(d);
    }
    hide Payload, SizeAsEncoded;
    DataWalked(d);
  }

  lemma ListWalked(d: Bytes, xs: seq<Item>)
    requires IsList(d) && ActualSize(d) == Some(|d|) && Payload(d).Some? && WalkItems(Payload(d).value) == Some(xs)
    ensures Walk(d) == Some(List(xs))
  {
  }

  /** The one v that can have stood for what was read. */
  lemma VIsForced(v: nat, chainId: Option<nat>, id: Byte)
    requires DecodedV(v) == Some((chainId, id as nat)) && (chainId.Some? ==> 2 * chainId.value + 35 + id < 0x8000_0000)
    ensures RawVOf(id, chainId) == v
  {
    hide Pow256, Int32;
    var offset := if chainId.Some? then chainId.value * 2 + 35 else 27;
    assert v == offset + id < 0x8000_0000;
    SmallInt32(offset);
    SmallInt32(v);
    WideMod(v);
  }

  lemma SmallInt32(x: nat)
    requires x < 0x8000_0000
    ensures Int32(x) == x && Int32(x % U64) == x
  {
  }

  /** Read with a signature that is not zero and a chain id that survives, bytes are written again as they were. */
  lemma NotMalleable(d: Bytes, check: bool)
    requires FromBytes(d, check).Some?
    ensures var t := FromBytes(d, check).value;
            t.vrs.Some? && (!t.vrs.value.IsZero() && Survives(t, check) ==> d == Encode(List(Signed(t))))
  {
    var v := ReadIsWritten(d, check);
    var t := FromBytes(d, check).value;
    hide FromBytes, Encode, RawVOf, Pow256, DecodedV;
    if !t.vrs.value.IsZero() && Survives(t, check) {
      IdIs(v, t, check);
      VIsForced(v, t.chainId, t.vrs.value.v);
    }
  }

  lemma IdIs(v: nat, t: Tx, check: bool)
    requires t.vrs.Some? && !t.vrs.value.IsZero()
    requires SignatureOf(v, t.vrs.value.r, t.vrs.value.s, check) == Some((t.vrs.value, t.chainId))
    ensures DecodedV(v) == Some((t.chainId, t.vrs.value.v as nat))
  {
    DecodedSmall(v);
  }

  /** Under a zero signature two different byte strings are read as one transaction: v counts only modulo 2^64. */
  lemma ZeroSignatureIsMalleable(t: Tx, check: bool)
    requires t.InRange() && t.vrs == Some(Signature(0, 0, 0)) && t.chainId.Some?
    ensures var a, b := Encode(List(ItemsWithV(t, t.chainId.value))), Encode(List(ItemsWithV(t, t.chainId.value + U64)));
            a != b && FromBytes(a, check) == FromBytes(b, check) == Some(Normal(t))
  {
    hide *;
    ZeroSignatureFacts(t);
    var v := t.chainId.value;
    FieldsRead(t, v, check);
    FieldsRead(t, v + U64, check);
    ZeroFields(t, v, check);
    ZeroFields(t, v + U64, check);
    ItemsWithVFit(t, v);
    ItemsWithVFit(t, v + U64);
    ItemsDiffer(t, v, v + U64);
    if Encode(List(ItemsWithV(t, v))) == Encode(List(ItemsWithV(t, v + U64))) {
      ListFits(ItemsWithV(t, v));
      ListFits(ItemsWithV(t, v + U64));
      EncodeInjective(List(ItemsWithV(t, v)), List(ItemsWithV(t, v + U64)));
    }
  }

  lemma ZeroSignatureFacts(t: Tx)
    requires t.InRange() && t.chainId.Some?
    ensures U64 > 0 && t.chainId.value + U64 < U256
    ensures t.chainId.value % U64 == t.chainId.value && (t.chainId.value + U64) % U64 == t.chainId.value
  {
    Wide();
    hide Pow256;
    assert (t.chainId.value + U64) % U64 == t.chainId.value;
  }

  lemma ZeroFields(t: Tx, v: nat, check: bool)
    requires t.vrs == Some(Signature(0, 0, 0)) && t.chainId == Some(v % U64)
    ensures FromFields(t.nonce, t.gasPrice, t.gas, if t.creation then None else Some(t.to), t.value, t.data, v, 0, 0, check)
         == Some(Normal(t))
  {
  }

  lemma ItemsDiffer(t: Tx, v: nat, w: nat)
    requires t.vrs.Some? && v != w
    ensures ItemsWithV(t, v) != ItemsWithV(t, w)
  {
    assert ItemsWithV(t, v)[6] == Int(v) && ItemsWithV(t, w)[6] == Int(w);
    if ItemsWithV(t, v) == ItemsWithV(t, w) {
      IntInjective(v, w);
    }
  }

  lemma ListFits(xs: seq<Item>)
    ensures |EncodeAll(xs)| < SIZE_LIMIT ==> Fits(List(xs))
  {
  }

  // ------------------------------------------------------------------ v in numbers

  /** Under a signature that is not zero v is 27 or 28 without a chain id, or holds one of 64 bits. */
  lemma SignatureNumbers(v: nat, r: nat, s: nat, check: bool)
    requires r != 0 || s != 0
    ensures SignatureOf(v, r, s, check).Some? <==>
              && (v == 27 || v == 28 || (v > 36 && (v - 35) / 2 < 0x1_0000_0000_0000_0000))
              && (check ==>
                    && 0 < r < 0xfffffffffffffffffffffffffffffffebaaedce6af48a03bbfd25e8cd0364141
                    && 0 < s < 0xfffffffffffffffffffffffffffffffebaaedce6af48a03bbfd25e8cd0364141)
    ensures SignatureOf(v, r, s, check).Some? && v <= 28 ==>
              SignatureOf(v, r, s, check).value == (Signature(r, s, v - 27), None)
    ensures SignatureOf(v, r, s, check).Some? && v > 28 ==>
              SignatureOf(v, r, s, check).value == (Signature(r, s, (v - 35) % 2), Some((v - 35) / 2))
  {
  }

  /** Which v the constructor takes under r and s that are not both zero, and what it makes of it. */
  lemma ReadV(t: Tx, v: nat, check: bool)
    requires t.InRange() && t.vrs.Some? && (t.vrs.value.r != 0 || t.vrs.value.s != 0) && v < Pow256(32)
    ensures var back := FromBytes(Encode(List(ItemsWithV(t, v))), check);
            && (back.Some? <==>
                  && (v == 27 || v == 28 || (v > 36 && (v - 35) / 2 < 0x1_0000_0000_0000_0000))
                  && (check ==>
                        && 0 < t.vrs.value.r < 0xfffffffffffffffffffffffffffffffebaaedce6af48a03bbfd25e8cd0364141
                        && 0 < t.vrs.value.s < 0xfffffffffffffffffffffffffffffffebaaedce6af48a03bbfd25e8cd0364141))
            && (back.Some? ==>
                  back.value == Tx(t.creation, t.nonce, t.gasPrice, t.gas, if t.creation then Zeros(20) else t.to, t.value, t.data,
                                   Some(Signature(t.vrs.value.r, t.vrs.value.s, if v <= 28 then v - 27 else (v - 35) % 2)),
                                   if v <= 28 then None else Some((v - 35) / 2)))
  {
    hide *;
    Widths();
    FieldsRead(t, v, check);
    FromFieldsIs(t.nonce, t.gasPrice, t.gas, if t.creation then None else Some(t.to), t.value, t.data, v,
                 t.vrs.value.r, t.vrs.value.s, check);
    SignatureNumbers(v, t.vrs.value.r, t.vrs.value.s, check);
  }

  // ------------------------------------------------------------------ Appending to an open list

  lemma IntFits(n: nat)
    requires n < U256
    ensures |ToBigEndian(n)| < PAYLOAD_LIMIT && Int(n) == Str(ToBigEndian(n))
  {
    BigEndianSize(n, 32);
  }

  /** A number, while the innermost list wants more than this. */
  method PutInt(s: RLPStream, n: nat, ghost f: Forest, ghost wanted: nat, ghost before: seq<Item>)
    requires s.Valid() && s.forest == Forest(f.done, f.open + [Open(wanted, before)]) && wanted > 1 && n < U256
    modifies s
    ensures s.Valid() && s.forest == Forest(f.done, f.open + [Open(wanted - 1, before + [Int(n)])])
  {
    hide *;
    IntFits(n);
    NotedMore(f, wanted, before, Int(n));
    var ok := s.AppendInt(n);
  }

  method PutString(s: RLPStream, d: Bytes, ghost f: Forest, ghost wanted: nat, ghost before: seq<Item>)
    requires s.Valid() && s.forest == Forest(f.done, f.open + [Open(wanted, before)]) && wanted > 1 && |d| < PAYLOAD_LIMIT
    modifies s
    ensures s.Valid() && s.forest == Forest(f.done, f.open + [Open(wanted - 1, before + [Str(d)])])
  {
    hide *;
    NotedMore(f, wanted, before, Str(d));
    var ok := s.Append(d);
  }

  /** The last item closes the list, and any list around it that this fills. */
  method PutLastInt(s: RLPStream, n: nat, ghost f: Forest, ghost before: seq<Item>) returns (ok: bool)
    requires s.Valid() && s.forest == Forest(f.done, f.open + [Open(1, before)]) && n < U256
    requires |EncodeAll(before + [Int(n)])| < PAYLOAD_LIMIT
    modifies s
    ensures ok <==> Noted(f, [List(before + [Int(n)])]).Some?
    ensures ok ==> s.Valid() && s.forest == Noted(f, [List(before + [Int(n)])]).value
  {
    hide *;
    IntFits(n);
    NotedLast(f, before, Int(n));
    ok := s.AppendInt(n);
  }

  method PutLastString(s: RLPStream, d: Bytes, ghost f: Forest, ghost before: seq<Item>) returns (ok: bool)
    requires s.Valid() && s.forest == Forest(f.done, f.open + [Open(1, before)]) && |d| < PAYLOAD_LIMIT
    requires |EncodeAll(before + [Str(d)])| < PAYLOAD_LIMIT
    modifies s
    ensures ok <==> Noted(f, [List(before + [Str(d)])]).Some?
    ensures ok ==> s.Valid() && s.forest == Noted(f, [List(before + [Str(d)])]).value
  {
    hide *;
    NotedLast(f, before, Str(d));
    ok := s.Append(d);
  }

  // ------------------------------------------------------------------ The class

  datatype Type = NullTransaction | ContractCreation | MessageCall

  class TransactionBase {
    var m_type: Type
    var m_nonce: nat
    var m_value: nat
    var m_receiveAddress: Address
    var m_gasPrice: nat
    var m_gas: nat
    var m_data: Bytes
    var m_vrs: Option<Signature>
    var m_chainId: Option<nat>

    /** The null transaction. */
    constructor ()
      ensures m_type == NullTransaction && m_vrs == None && m_chainId == None
    {
      m_type, m_nonce, m_value, m_receiveAddress, m_gasPrice, m_gas, m_data := NullTransaction, 0, 0, ZERO_ADDRESS, 0, 0, [];
      m_vrs, m_chainId := None, None;
    }

    function Value(): Tx
      reads this
    {
      Tx(m_type == ContractCreation, m_nonce, m_gasPrice, m_gas, m_receiveAddress, m_value, m_data, m_vrs, m_chainId)
    }

    /** The part of the constructor that tells chain id and recovery id apart. */
    static method ReadSignature(v: nat, r: nat, s: nat, check: bool) returns (sig: Option<(Signature, Option<nat>)>)
      ensures sig == SignatureOf(v, r, s, check)
      ensures r == 0 && s == 0 ==> sig == Some((Signature(0, 0, 0), Some(v % 0x1_0000_0000_0000_0000)))
      ensures (r != 0 || s != 0) && sig.Some? ==>
                if v == 27 || v == 28 then sig.value == (Signature(r, s, v - 27), None)
                else v > 36 && sig.value == (Signature(r, s, (v - 35) % 2), Some((v - 35) / 2))
    {
      if r == 0 && s == 0 {
        return Some((Signature(r, s, 0), Some(v % U64)));
      }
      var chainId: Option<nat> := None;
      if v > 36 {
        var c := (v - 35) / 2;
        if c > 0xffff_ffff_ffff_ffff {
          return None;
        }
        chainId := Some(c);
      } else if v != 27 && v != 28 {
        return None;
      }
      var recoveryId := match chainId case Some(c) => v - (c * 2 + 35) case None => v - 27;
      var vrs := Signature(r, s, recoveryId);
      if check && !vrs.IsValid() {
        return None;
      }
      return Some((vrs, chainId));
    }

    /** From RLP: null where the constructor throws. */
    static method FromRlp(d: Bytes, check: bool) returns (t: TransactionBase?)
      requires |d| < SIZE_MAX
      ensures t == null <==> FromBytes(d, check) == None
      ensures t != null ==> fresh(t) && t.m_type != NullTransaction && FromBytes(d, check) == Some(t.Value())
    {
      hide *;
      FromBytesIs(d, check);
      if ActualSize(d) != Some(|d|) || !RlpReader.IsList(d) {
        return null;
      }
      var rlp := new RLP(d);
      var views, ok := NineItems(rlp);
      if !ok {
        return null;
      }
      FromViewsIs(Views(d).value, views, check);
      var nonce, gasPrice, gas := ToInt(views[0]), ToInt(views[1]), ToInt(views[2]);
      if nonce == None || gasPrice == None || gas == None || !IsData(views[3]) {
        return null;
      }
      var to: Option<Address> := if IsEmpty(views[3]) then None else ToAddress(views[3]);
      if !IsEmpty(views[3]) && to == None {
        return null;
      }
      var value, data := ToInt(views[4]), Payload(views[5]);
      var v, r, s := ToInt(views[6]), ToInt(views[7]), ToInt(views[8]);
      if value == None || !IsData(views[5]) || data == None || v == None || r == None || s == None {
        return null;
      }
      t := FromParts(nonce.value, gasPrice.value, gas.value, to, value.value, data.value, v.value, r.value, s.value, check);
    }

    /** The rest of it, once all items have been read. */
    static method FromParts(nonce: nat, gasPrice: nat, gas: nat, to: Option<Address>, value: nat, data: Bytes, v: nat, r: nat, s: nat,
                            check: bool)
      returns (t: TransactionBase?)
      ensures t == null <==> FromFields(nonce, gasPrice, gas, to, value, data, v, r, s, check) == None
      ensures t != null ==>
                && fresh(t) && t.m_type != NullTransaction
                && FromFields(nonce, gasPrice, gas, to, value, data, v, r, s, check) == Some(t.Value())
    {
      hide *;
      FromFieldsIs(nonce, gasPrice, gas, to, value, data, v, r, s, check);
      var vrs := ReadSignature(v, r, s, check);
      if vrs == None {
        return null;
      }
      t := new TransactionBase();
      t.m_type := if to == None then ContractCreation else MessageCall;
      t.m_nonce, t.m_gasPrice, t.m_gas, t.m_value, t.m_data := nonce, gasPrice, gas, value, data;
      t.m_receiveAddress := if to == None then ZERO_ADDRESS else to.value;
      t.m_vrs, t.m_chainId := Some(vrs.value.0), vrs.value.1;
      t.ValueIs();
    }

    lemma ValueIs()
      ensures Value() == Tx(m_type == ContractCreation, m_nonce, m_gasPrice, m_gas, m_receiveAddress, m_value, m_data, m_vrs, m_chainId)
    {
    }

    /** rawV: none where it throws for want of a signature. */
    method RawV() returns (v: Option<nat>)
      ensures v == if m_vrs == None then None else Some(RawVOf(m_vrs.value.v, m_chainId))
      ensures v.Some? && m_chainId == None ==> v.value == 27 + m_vrs.value.v as int
      ensures v.Some? && m_chainId.Some? && 2 * m_chainId.value + 35 + m_vrs.value.v < 0x8000_0000 ==>
                v.value == 2 * m_chainId.value + 35 + m_vrs.value.v
    {
      hide Int32, Pow256;
      if m_vrs.Some? {
        RawVNumbers(m_vrs.value.v, m_chainId);
      }
      if m_vrs == None {
        return None;
      }
      var vOffset := if m_chainId.Some? then Int32((m_chainId.value * 2 + 35) % U64) else 27;
      return Some(Int32(m_vrs.value.v + vOffset) % U256);
    }

    /** The chain id is there wherever it is taken without a look. */
    predicate HasChainId(sig: bool, forEip155hash: bool)
      reads this
    {
      && (sig && m_vrs.Some? && m_vrs.value.IsZero() ==> m_chainId.Some?)
      && (!sig && forEip155hash ==> m_chainId.Some?)
    }

    /** What a transaction that is not null puts into one list: None where it throws for want of a signature. */
    function Listed(sig: bool, forEip155hash: bool): Option<seq<Item>>
      requires HasChainId(sig, forEip155hash)
      reads this
    {
      if sig then (if m_vrs == None then None else Some(Signed(Value())))
      else if forEip155hash then Some(ForSigning(Value()))
      else Some(Unsigned(Value()))
    }

    /** streamRLP: appends the transaction as one list, with its signature, for signing, or bare; a null one appends nothing. */
    method StreamRLP(s: RLPStream, sig: bool, forEip155hash: bool) returns (ok: bool)
      requires s.Valid() && (m_type != NullTransaction ==> Value().InRange() && HasChainId(sig, forEip155hash))
      modifies s
      ensures m_type == NullTransaction ==> ok && s.Valid() && s.forest == old(s.forest)
      ensures m_type != NullTransaction ==>
                var items := Listed(sig, forEip155hash);
                && (ok <==> items.Some? && Noted(old(s.forest), [List(items.value)]).Some?)
                && (ok ==> s.Valid() && s.forest == Noted(old(s.forest), [List(items.value)]).value)
    {
      hide *;
      if m_type == NullTransaction {
        return true;
      }
      ListedIs(sig, forEip155hash);
      ghost var f, t := s.forest, Value();
      ValueIs();
      StreamFacts(t);
      var more := if sig || forEip155hash then 3 else 0;
      ok := s.AppendList(more + 6);
      PutInt(s, m_nonce, f, more + 6, []);
      PutInt(s, m_gasPrice, f, more + 5, Unsigned(t)[..1]);
      PutInt(s, m_gas, f, more + 4, Unsigned(t)[..2]);
      if m_type == MessageCall {
        PutString(s, m_receiveAddress, f, more + 3, Unsigned(t)[..3]);
      } else {
        PutString(s, [], f, more + 3, Unsigned(t)[..3]);
      }
      PutInt(s, m_value, f, more + 2, Unsigned(t)[..4]);
      if more == 0 {
        ok := PutLastString(s, m_data, f, Unsigned(t)[..5]);
        return;
      }
      PutString(s, m_data, f, more + 1, Unsigned(t)[..5]);
      if sig {
        if m_vrs == None {
          return false;
        }
        ok := PutSignature(s, f);
      } else {
        ForSigningFacts(t);
        PutInt(s, m_chainId.value % U32, f, 3, Unsigned(t));
        PutInt(s, 0, f, 2, ForSigning(t)[..7]);
        ok := PutLastInt(s, 0, f, ForSigning(t)[..8]);
      }
    }

    /** The last three items, where there is a signature. */
    method PutSignature(s: RLPStream, ghost f: Forest) returns (ok: bool)
      requires s.Valid() && Value().InRange() && m_vrs.Some? && (m_vrs.value.IsZero() ==> m_chainId.Some?)
      requires s.forest == Forest(f.done, f.open + [Open(3, Unsigned(Value()))])
      modifies s
      ensures ok <==> Noted(f, [List(Signed(Value()))]).Some?
      ensures ok ==> s.Valid() && s.forest == Noted(f, [List(Signed(Value()))]).value
    {
      hide *;
      ghost var t := Value();
      ValueIs();
      SignedFacts(t);
      WordFits();
      if m_vrs.value.IsZero() {
        PutInt(s, m_chainId.value % U32, f, 3, Unsigned(t));
      } else {
        var v := RawV();
        PutInt(s, v.value, f, 3, Unsigned(t));
      }
      PutInt(s, m_vrs.value.r, f, 2, Signed(t)[..7]);
      ok := PutLastInt(s, m_vrs.value.s, f, Signed(t)[..8]);
    }

    lemma ChainIdThere()
      requires m_vrs.Some? && m_vrs.value.IsZero() ==> m_chainId.Some?
      ensures HasChainId(true, true)
    {
    }

    lemma ListedIs(sig: bool, forEip155hash: bool)
      requires HasChainId(sig, forEip155hash)
      ensures sig && m_vrs.Some? && m_vrs.value.IsZero() ==> m_chainId.Some?
      ensures !sig && forEip155hash ==> m_chainId.Some?
      ensures sig && m_vrs == None ==> Listed(sig, forEip155hash) == None
      ensures sig && m_vrs.Some? ==> Listed(sig, forEip155hash) == Some(Signed(Value()))
      ensures !sig && forEip155hash ==> Listed(sig, forEip155hash) == Some(ForSigning(Value()))
      ensures !sig && !forEip155hash ==> Listed(sig, forEip155hash) == Some(Unsigned(Value()))
    {
    }

    /** rlp(WithSignature), on a stream of its own: no bytes for a null transaction. */
    method Rlp() returns (r: Option<Bytes>)
      requires m_type != NullTransaction ==> Value().InRange() && HasChainId(true, true)
      ensures r == if m_type == NullTransaction then Some([])
                   else if m_vrs == None then None else Some(Encode(List(Signed(Value()))))
    {
      hide *;
      ValueIs();
      var s := new RLPStream();
      NothingNoted();
      var ok := StreamRLP(s, true, true);
      if m_type == NullTransaction {
        r := s.Out();
        return;
      }
      ListedIs(true, true);
      if m_vrs == None {
        return None;
      }
      NotedAtTop(List(Signed(Value())));
      EncodeAllOne(List(Signed(Value())));
      r := s.Out();
    }
  }

  lemma NothingNoted()
    ensures EMPTY_FOREST == Forest([], []) && EncodeAll([]) == []
  {
  }

  /** Writing a transaction and reading it back: the same transaction, or a condition on chain id and signature fails. */
  method ThereAndBack(t: TransactionBase, check: bool) returns (back: TransactionBase?)
    requires t.m_type != NullTransaction && t.Value().InRange() && t.m_vrs.Some?
    requires t.m_vrs.value.IsZero() ==> t.m_chainId.Some?
    ensures back != null && back.Value() == Normal(t.Value()) <==> Survives(t.Value(), check)
  {
    hide *;
    t.ValueIs();
    t.ChainIdThere();
    SurvivesIff(t.Value(), check);
    SignedSize(t.Value());
    var r := t.Rlp();
    back := TransactionBase.FromRlp(r.value, check);
  }

  // ------------------------------------------------------------------ Definitions restated, for methods that hide them

  lemma FromBytesIs(d: Bytes, check: bool)
    ensures ActualSize(d) != Some(|d|) || !IsList(d) ==> FromBytes(d, check) == None
    ensures ActualSize(d) == Some(|d|) && IsList(d) ==>
              FromBytes(d, check) == if Views(d).None? then None else FromViews(Views(d).value, check)
  {
  }

  /** The nine items by operator[], and no tenth. */
  method NineItems(rlp: RLP) returns (views: seq<Bytes>, ok: bool)
    requires rlp.CacheAgrees() && IsList(rlp.m_data)
    modifies rlp
    ensures ok <==> Views(rlp.m_data).Some? && |Views(rlp.m_data).value| <= 9
    ensures ok ==> |views| == 9 && forall i | 0 <= i < 9 :: views[i] == ViewAt(Views(rlp.m_data).value, i)
    ensures !ok && Views(rlp.m_data).Some? ==> forall check :: FromViews(Views(rlp.m_data).value, check) == None
  {
    hide *;
    views := [];
    ReaderLimit();
    for i := 0 to 9
      invariant rlp.CacheAgrees() && |views| == i
      invariant Views(rlp.m_data).Some? ==> forall j | 0 <= j < i :: views[j] == ViewAt(Views(rlp.m_data).value, j)
    {
      var item := rlp.Index(i);
      if item == None {
        return views, false;
      }
      if Views(rlp.m_data).Some? {
        ViewIs(Views(rlp.m_data).value, i);
      }
      views := views + [item.value];
    }
    var n := rlp.Items();
    ok := n != None && n.value <= 9;
    if n != None {
      MoreThanNine(Views(rlp.m_data).value);
    }
  }

  lemma ReaderLimit()
    ensures 9 <= SIZE_MAX
  {
  }

  lemma ViewIs(views: seq<Bytes>, i: nat)
    ensures ViewAt(views, i) == if i < |views| then views[i] else []
  {
  }

  lemma MoreThanNine(views: seq<Bytes>)
    ensures |views| > 9 ==> forall check :: FromViews(views, check) == None
  {
    hide ToInt, ToAddress, IsData, IsEmpty, Payload, FromFields, ViewAt;
  }

  lemma FromViewsIs(views: seq<Bytes>, nine: seq<Bytes>, check: bool)
    requires |views| <= 9 && |nine| == 9 && forall i | 0 <= i < 9 :: nine[i] == ViewAt(views, i)
    ensures FromViews(views, check) ==
            var nonce, gasPrice, gas, value := ToInt(nine[0]), ToInt(nine[1]), ToInt(nine[2]), ToInt(nine[4]);
            var v, r, s := ToInt(nine[6]), ToInt(nine[7]), ToInt(nine[8]);
            if nonce.None? || gasPrice.None? || gas.None? || value.None? || v.None? || r.None? || s.None? then None
            else if !IsData(nine[3]) || (!IsEmpty(nine[3]) && ToAddress(nine[3]).None?) then None
            else if !IsData(nine[5]) || Payload(nine[5]).None? then None
            else FromFields(nonce.value, gasPrice.value, gas.value, if IsEmpty(nine[3]) then None else ToAddress(nine[3]), value.value,
                            Payload(nine[5]).value, v.value, r.value, s.value, check)
  {
    hide ToInt, ToAddress, IsData, IsEmpty, Payload, FromFields, ViewAt;
  }

  lemma FromFieldsIs(nonce: nat, gasPrice: nat, gas: nat, to: Option<Address>, value: nat, data: Bytes, v: nat, r: nat, s: nat, check: bool)
    ensures var sig := SignatureOf(v, r, s, check);
            FromFields(nonce, gasPrice, gas, to, value, data, v, r, s, check) ==
            if sig == None then None
            else Some(Tx(to.None?, nonce, gasPrice, gas, if to == None then ZERO_ADDRESS else to.value, value, data,
                         Some(sig.value.0), sig.value.1))
  {
  }

  lemma StreamFacts(t: Tx)
    requires t.InRange()
    ensures U32 == 0x1_0000_0000
    ensures var xs := Unsigned(t);
            && |xs| == 6 && t.nonce < U256 && t.gasPrice < U256 && t.gas < U256 && t.value < U256 && 0 < U256
            && |t.to| < PAYLOAD_LIMIT && |t.data| < PAYLOAD_LIMIT && 0 < PAYLOAD_LIMIT
            && [] + [Int(t.nonce)] == xs[..1] && xs[..1] + [Int(t.gasPrice)] == xs[..2] && xs[..2] + [Int(t.gas)] == xs[..3]
            && xs[..3] + [Str(if t.creation then [] else t.to)] == xs[..4] && xs[..4] + [Int(t.value)] == xs[..5]
            && xs[..5] + [Str(t.data)] == xs && |EncodeAll(xs)| < PAYLOAD_LIMIT
  {
    hide Int, Pow256, EncodeAll;
    Wide();
    UnsignedFits(t);
  }

  lemma WordFits()
    ensures U32 == 0x1_0000_0000
  {
  }

  lemma SignedFacts(t: Tx)
    requires t.InRange() && t.vrs.Some? && (t.vrs.value.IsZero() ==> t.chainId.Some?)
    ensures var xs, sig := Signed(t), t.vrs.value;
            && |xs| == 9 && StreamedV(t) < U256 && sig.r < U256 && sig.s < U256
            && StreamedV(t) == (if sig.IsZero() then t.chainId.value % U32 else RawVOf(sig.v, t.chainId))
            && Unsigned(t) + [Int(StreamedV(t))] == xs[..7] && xs[..7] + [Int(sig.r)] == xs[..8] && xs[..8] + [Int(sig.s)] == xs
            && |EncodeAll(xs)| < PAYLOAD_LIMIT
  {
    hide Int, Pow256, EncodeAll, RawVOf;
    StreamedVFits(t);
    ItemsWithVFit(t, StreamedV(t));
  }

  lemma ForSigningFacts(t: Tx)
    requires t.InRange() && t.chainId.Some?
    ensures var xs := ForSigning(t);
            && |xs| == 9 && t.chainId.value % U32 < U256 && 0 < U256
            && Unsigned(t) + [Int(t.chainId.value % U32)] == xs[..7] && xs[..7] + [Int(0)] == xs[..8] && xs[..8] + [Int(0)] == xs
            && |EncodeAll(xs)| < PAYLOAD_LIMIT
  {
    hide Int, Pow256, EncodeAll;
    Wide();
    ForSigningFits(t);
  }

  lemma SignedSize(t: Tx)
    requires t.InRange() && t.vrs.Some? && (t.vrs.value.IsZero() ==> t.chainId.Some?)
    ensures |Encode(List(Signed(t)))| < SIZE_MAX
  {
    hide Int, Pow256, EncodeAll, Signed, Encode;
    StreamedVFits(t);
    SignedIs(t);
    ItemsWithVFit(t, StreamedV(t));
    HeadedList(Signed(t));
  }

  lemma HeadedList(xs: seq<Item>)
    requires |EncodeAll(xs)| < SIZE_LIMIT
    ensures |Encode(List(xs))| <= |EncodeAll(xs)| + 9
  {
    if |EncodeAll(xs)| >= IMMEDIATE {
      LongHeader(LIST_START, |EncodeAll(xs)|);
    }
  }
}
