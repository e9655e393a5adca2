/** Transactions item by item, and byte by byte in the example of EIP-155. */
module TransactionForms {
  import opened CommonData
  import opened Rlp
  import opened RlpReader
  import opened Transaction

  lemma OneByte(n: nat)
    ensures n == 0 ==> ToBigEndian(n) == []
    ensures 0 < n < 256 ==> ToBigEndian(n) == [n]
  {
    if 0 < n < 256 {
      assert n / 256 == 0 && n % 256 == n;
      assert ToBigEndian(0) == [];
    }
  }

  // ------------------------------------------------------------------ Items

  /** The six items every transaction has. */
  lemma UnsignedItems(t: Tx)
    ensures Unsigned(t) == [Str(ToBigEndian(t.nonce)), Str(ToBigEndian(t.gasPrice)), Str(ToBigEndian(t.gas)),
                            Str(if t.creation then [] else t.to), Str(ToBigEndian(t.value)), Str(t.data)]
  {
  }

  /** What is signed: chain id and two empty strings behind the six. */
  lemma SigningItems(t: Tx)
    requires t.chainId.Some?
    ensures ForSigning(t) == Unsigned(t) + [Str(ToBigEndian(t.chainId.value % 0x1_0000_0000)), Str([]), Str([])]
  {
    OneByte(0);
    hide ToBigEndian;
  }

  /** v, r and s behind the six: v is 27 more than the recovery id, or 35 and twice the chain id more, or the chain id itself. */
  lemma SignedItems(t: Tx)
    requires t.vrs.Some? && (t.vrs.value.r == 0 && t.vrs.value.s == 0 ==> t.chainId.Some?)
    ensures |Signed(t)| == 9 && Signed(t)[..6] == Unsigned(t)
    ensures Signed(t)[7] == Str(ToBigEndian(t.vrs.value.r)) && Signed(t)[8] == Str(ToBigEndian(t.vrs.value.s))
    ensures t.vrs.value.r == 0 && t.vrs.value.s == 0 ==>
              Signed(t)[6] == Str(ToBigEndian(t.chainId.value % 0x1_0000_0000))
    ensures (t.vrs.value.r != 0 || t.vrs.value.s != 0) && t.chainId == None && t.vrs.value.v <= 1 ==>
              Signed(t)[6] == Str([27 + t.vrs.value.v])
    ensures (t.vrs.value.r != 0 || t.vrs.value.s != 0) && t.chainId.Some? ==>
              var x := (2 * t.chainId.value + 35 + t.vrs.value.v) % 0x1_0000_0000;
              Signed(t)[6] == Str(ToBigEndian(if x < 0x8000_0000 then x else Pow256(32) - 0x1_0000_0000 + x))
    ensures (t.vrs.value.r != 0 || t.vrs.value.s != 0) && t.chainId.Some? && 2 * t.chainId.value + 35 + t.vrs.value.v < 0x8000_0000 ==>
              Signed(t)[6] == Str(ToBigEndian(2 * t.chainId.value + 35 + t.vrs.value.v))
  {
    hide *;
    IsZeroIs(t.vrs.value);
    SignedIs(t);
    StreamedIs(t);
    ItemsAre(t, StreamedV(t));
    RawVNumbers(t.vrs.value.v, t.chainId);
    if t.vrs.value.v <= 1 {
      OneByte(27 + t.vrs.value.v);
    }
  }

  lemma IsZeroIs(sig: Signature)
    ensures sig.IsZero() <==> sig.r == 0 && sig.s == 0
  {
  }

  lemma StreamedIs(t: Tx)
    requires t.vrs.Some? && (t.vrs.value.IsZero() ==> t.chainId.Some?)
    ensures StreamedV(t) == if t.vrs.value.IsZero() then t.chainId.value % 0x1_0000_0000 else RawVOf(t.vrs.value.v, t.chainId)
  {
    hide RawVOf;
  }

  lemma ItemsAre(t: Tx, v: nat)
    requires t.vrs.Some?
    ensures |ItemsWithV(t, v)| == 9 && ItemsWithV(t, v)[..6] == Unsigned(t)
    ensures ItemsWithV(t, v)[6] == Str(ToBigEndian(v))
    ensures ItemsWithV(t, v)[7] == Str(ToBigEndian(t.vrs.value.r)) && ItemsWithV(t, v)[8] == Str(ToBigEndian(t.vrs.value.s))
  {
    hide ToBigEndian;
  }

  // ------------------------------------------------------------------ Which strings are taken for numbers and addresses

  /** A string is taken for a u256 exactly if it has no leading zero and at most 32 bytes, for an address if it has 20. */
  lemma StringsTaken(d: Bytes)
    requires |d| < 0x1_0000
    ensures ToInt(Encode(Str(d))) == if |d| <= 32 && (d != [] ==> d[0] != 0) then Some(FromBigEndian(d)) else None
    ensures ToAddress(Encode(Str(d))) == if |d| == 20 then Some(d) else None
  {
    EncodedSize(Str(d), []);
    Taken(d);
    hide Encode, FromBigEndian, Payload, Good, IsInt, IsData;
  }

  lemma Taken(d: Bytes)
    requires |d| < 0x1_0000
    ensures var e := Encode(Str(d)); Good(e) && IsData(e) && (IsInt(e) <==> (d != [] ==> d[0] != 0))
  {
    StringForms(d);
    hide Encode, ToBigEndian;
  }

  // ------------------------------------------------------------------ The example of EIP-155

  /** Twenty times 0x35. */
  const RECEIVER: Address :=
    [0x35, 0x35, 0x35, 0x35, 0x35, 0x35, 0x35, 0x35, 0x35, 0x35, 0x35, 0x35, 0x35, 0x35, 0x35, 0x35, 0x35, 0x35, 0x35, 0x35]

  function Example(vrs: Option<Signature>, chainId: Option<nat>): Tx {
    Tx(false, 9, 20_000_000_000, 21_000, RECEIVER, 1_000_000_000_000_000_000, [], vrs, chainId)
  }

  /** The six items, encoded. */
  const EXAMPLE: Bytes :=
    [0x09, 0x85, 0x04, 0xa8, 0x17, 0xc8, 0x00, 0x82, 0x52, 0x08, 0x94] + RECEIVER
    + [0x88, 0x0d, 0xe0, 0xb6, 0xb3, 0xa7, 0x64, 0x00, 0x00, 0x80]

  lemma OneMore(n: nat, d: Byte)
    requires n > 0
    ensures ToBigEndian(256 * n + d) == ToBigEndian(n) + [d]
  {
    assert (256 * n + d) / 256 == n && (256 * n + d) % 256 == d;
  }

  lemma ExampleNumbers()
    ensures ToBigEndian(9) == [0x09] && ToBigEndian(21_000) == [0x52, 0x08]
    ensures ToBigEndian(20_000_000_000) == [0x04, 0xa8, 0x17, 0xc8, 0x00]
    ensures ToBigEndian(1_000_000_000_000_000_000) == [0x0d, 0xe0, 0xb6, 0xb3, 0xa7, 0x64, 0x00, 0x00]
  {
    hide *;
    OneByte(9);
    OneByte(0x52);
    OneMore(0x52, 0x08);
    OneByte(0x04);
    OneMore(0x04, 0xa8);
    OneMore(0x04a8, 0x17);
    OneMore(0x04a817, 0xc8);
    OneMore(0x04a817c8, 0x00);
    OneByte(0x0d);
    OneMore(0x0d, 0xe0);
    OneMore(0x0de0, 0xb6);
    OneMore(0x0de0b6, 0xb3);
    OneMore(0x0de0b6b3, 0xa7);
    OneMore(0x0de0b6b3a7, 0x64);
    OneMore(0x0de0b6b3a764, 0x00);
    OneMore(0x0de0b6b3a76400, 0x00);
  }

  lemma ThreeEncoded(x: Item, y: Item, z: Item)
    ensures EncodeAll([x, y, z]) == Encode(x) + Encode(y) + Encode(z)
  {
    hide *;
    EncodeAllFirst(x, [y, z]);
    EncodeAllFirst(y, [z]);
    EncodeAllOne(z);
    assert [x] + [y, z] == [x, y, z] && [y] + [z] == [y, z];
  }

  lemma SixEncoded(a: Item, b: Item, c: Item, d: Item, e: Item, f: Item)
    ensures EncodeAll([a, b, c, d, e, f]) == (Encode(a) + Encode(b) + Encode(c)) + (Encode(d) + Encode(e) + Encode(f))
  {
    hide *;
    EncodeAllConcat([a, b, c], [d, e, f]);
    ThreeEncoded(a, b, c);
    ThreeEncoded(d, e, f);
    assert [a, b, c] + [d, e, f] == [a, b, c, d, e, f];
  }

  lemma ExampleItems(vrs: Option<Signature>, chainId: Option<nat>)
    ensures Unsigned(Example(vrs, chainId))
            == [Str([0x09]), Str([0x04, 0xa8, 0x17, 0xc8, 0x00]), Str([0x52, 0x08]), Str(RECEIVER),
                Str([0x0d, 0xe0, 0xb6, 0xb3, 0xa7, 0x64, 0x00, 0x00]), Str([])]
  {
    hide ToBigEndian, Unsigned;
    UnsignedItems(Example(vrs, chainId));
    ExampleNumbers();
  }

  lemma ExampleFront()
    ensures Encode(Str([0x09])) + Encode(Str([0x04, 0xa8, 0x17, 0xc8, 0x00])) + Encode(Str([0x52, 0x08]))
            == [0x09, 0x85, 0x04, 0xa8, 0x17, 0xc8, 0x00, 0x82, 0x52, 0x08]
  {
    hide *;
    StringForms([0x09]);
    StringForms([0x04, 0xa8, 0x17, 0xc8, 0x00]);
    StringForms([0x52, 0x08]);
  }

  lemma ExampleBack()
    ensures Encode(Str(RECEIVER)) + Encode(Str([0x0d, 0xe0, 0xb6, 0xb3, 0xa7, 0x64, 0x00, 0x00])) + Encode(Str([]))
            == [0x94] + RECEIVER + [0x88, 0x0d, 0xe0, 0xb6, 0xb3, 0xa7, 0x64, 0x00, 0x00, 0x80]
  {
    hide *;
    StringForms(RECEIVER);
    StringForms([0x0d, 0xe0, 0xb6, 0xb3, 0xa7, 0x64, 0x00, 0x00]);
    StringForms([]);
  }

  lemma ExampleEncoded(vrs: Option<Signature>, chainId: Option<nat>)
    ensures EncodeAll(Unsigned(Example(vrs, chainId))) == EXAMPLE
  {
    hide Encode, EncodeAll, Example, Unsigned, ToBigEndian, RECEIVER;
    ExampleItems(vrs, chainId);
    var xs := Unsigned(Example(vrs, chainId));
    SixEncoded(xs[0], xs[1], xs[2], xs[3], xs[4], xs[5]);
    ExampleFront();
    ExampleBack();
  }

  /** The bytes that are hashed and signed, on chain 1. */
  lemma ExampleForSigning()
    ensures Encode(List(ForSigning(Example(None, Some(1))))) == [0xec] + EXAMPLE + [0x01, 0x80, 0x80]
  {
    hide *;
    var t := Example(None, Some(1));
    ExampleParts(None, Some(1));
    SigningItems(t);
    OneByte(1);
    ExampleEncoded(None, Some(1));
    EncodeAllConcat(Unsigned(t), [Str([0x01]), Str([]), Str([])]);
    ThreeEncoded(Str([0x01]), Str([]), Str([]));
    StringForms([0x01]);
    StringForms([]);
    ListForms(ForSigning(t));
    assert [0xec] + EXAMPLE + [0x01, 0x80, 0x80] == [0xec] + (EXAMPLE + [0x01, 0x80, 0x80]);
  }

  lemma ExampleParts(vrs: Option<Signature>, chainId: Option<nat>)
    ensures Example(vrs, chainId).vrs == vrs && Example(vrs, chainId).chainId == chainId && |EXAMPLE| == 41
  {
  }

  /** v, r and s of the signed example, encoded: v is 37 or 38 on chain 1, and 27 or 28 on none. */
  lemma ExampleTail(r: Bytes, s: Bytes, id: Byte, chainId: Option<nat>)
    requires |r| == |s| == 32 && r[0] != 0 && s[0] != 0 && id <= 1 && chainId in {None, Some(1)}
    ensures var t := Example(Some(Signature(FromBigEndian(r), FromBigEndian(s), id)), chainId);
            && !t.vrs.value.IsZero()
            && Signed(t) == Unsigned(t) + [Str([if chainId == None then 27 + id else 37 + id]), Str(r), Str(s)]
  {
    hide *;
    var v: Byte := if chainId == None then 27 + id else 37 + id;
    var vrs := Some(Signature(FromBigEndian(r), FromBigEndian(s), id));
    var t := Example(vrs, chainId);
    ExampleParts(vrs, chainId);
    NotZero(r);
    IsZeroIs(t.vrs.value);
    CompactAgain(r);
    CompactAgain(s);
    SignedItems(t);
    OneByte(v);
    NineAgain(Signed(t));
  }

  lemma NineAgain(xs: seq<Item>)
    requires |xs| == 9
    ensures xs == xs[..6] + [xs[6], xs[7], xs[8]]
  {
  }

  lemma TailEncoded(v: Byte, r: Bytes, s: Bytes)
    requires |r| == |s| == 32 && v < 0x80
    ensures EncodeAll([Str([v]), Str(r), Str(s)]) == [v] + ([0xa0] + r) + ([0xa0] + s)
  {
    hide *;
    ThreeEncoded(Str([v]), Str(r), Str(s));
    StringForms([v]);
    StringForms(r);
    StringForms(s);
  }

  /** The signed transaction, with any r and s of 32 bytes: v is 37 or 38 on chain 1, and 27 or 28 on none. */
  lemma ExampleSigned(r: Bytes, s: Bytes, id: Byte, chainId: Option<nat>)
    requires |r| == |s| == 32 && r[0] != 0 && s[0] != 0 && id <= 1 && chainId in {None, Some(1)}
    ensures var t := Example(Some(Signature(FromBigEndian(r), FromBigEndian(s), id)), chainId);
            && !t.vrs.value.IsZero()
            && Encode(List(Signed(t)))
               == [0xf8, 0x6c] + (EXAMPLE + ([if chainId == None then 27 + id else 37 + id] + ([0xa0] + r) + ([0xa0] + s)))
  {
    hide *;
    var v: Byte := if chainId == None then 27 + id else 37 + id;
    var vrs := Some(Signature(FromBigEndian(r), FromBigEndian(s), id));
    var t := Example(vrs, chainId);
    ExampleParts(vrs, chainId);
    ExampleTail(r, s, id, chainId);
    ExampleEncoded(vrs, chainId);
    EncodeAllConcat(Unsigned(t), [Str([v]), Str(r), Str(s)]);
    TailEncoded(v, r, s);
    HundredEight(Signed(t));
  }

  lemma HundredEight(xs: seq<Item>)
    requires |EncodeAll(xs)| == 108
    ensures Encode(List(xs)) == [0xf8, 0x6c] + EncodeAll(xs)
  {
    hide *;
    ListForms(xs);
    OneByte(0x6c);
    assert [0xf8] + [0x6c] == [0xf8, 0x6c];
  }

  lemma CompactAgain(b: Bytes)
    requires b != [] && b[0] != 0
    ensures ToBigEndian(FromBigEndian(b)) == b
  {
    CompactRoundTrip(b);
  }

  lemma NotZero(b: Bytes)
    requires b != [] && b[0] != 0
    ensures FromBigEndian(b) != 0
  {
    CompactRoundTrip(b);
    OneByte(0);
    hide FromBigEndian, ToBigEndian;
  }
}
