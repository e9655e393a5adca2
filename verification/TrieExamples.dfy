/** Root nodes of small maps, byte by byte. */
module TrieExamples {
  import opened CommonData
  import opened HexPrefix
  import opened Rlp
  import opened Trie
  import opened TrieNode
  import opened TrieMap

  // ------------------------------------------------------------------ The trees

  lemma EmptyStored()
    ensures Canonical(Nil) && Formed(Nil) && Stores(Nil, map[])
  {
  }

  lemma OneStored(key: Bytes, v: Bytes)
    requires v != []
    ensures var t := Leaf(Unpack(key), v);
            Canonical(t) && Formed(t) && Stores(t, map[key := v])
  {
    hide *;
    EmptyStored();
    StoresInsert(Nil, map[], key, v);
    InsertCanonical(Nil, Unpack(key), v);
    IntoNothing(Unpack(key), v);
  }

  lemma IntoNothing(k: Nibbles, v: Bytes)
    requires v != []
    ensures Formed(Nil) && Inserted(Nil, k, v) == Leaf(k, v)
  {
  }

  /** Two leaves without a key of their own in slots 1 and 2. */
  function Fork(v: Bytes, w: Bytes): Tree {
    Branch(Nils(16)[1 := Leaf([], v)][2 := Leaf([], w)], [])
  }

  lemma Forked(v: Bytes, w: Bytes)
    requires v != [] && w != []
    ensures Formed(Leaf([1], v)) && Inserted(Leaf([1], v), [2], w) == Fork(v, w)
  {
    hide Nils;
    var t, k: Nibbles := Leaf([1], v), [2];
    assert Shared(k, t.key) == 0;
    assert t.key[1..] == [] && k[1..] == [];
    assert Branched(t) == Branch(Nils(16)[1 := Leaf([], v)], []);
    IntoNothing([], w);
  }

  lemma ForkedBelow(v: Bytes, w: Bytes)
    requires v != [] && w != []
    ensures Formed(Leaf([1, 1], v)) && Inserted(Leaf([1, 1], v), [1, 2], w) == Ext([1], Fork(v, w))
  {
    Forked(v, w);
    hide Fork;
    var t, k: Nibbles := Leaf([1, 1], v), [1, 2];
    assert t.key[1..] == [1] && k[1..] == [2] && k[..1] == [1];
    assert Shared(k[1..], t.key[1..]) == 0;
    assert Shared(k, t.key) == 1;
  }

  lemma Halves()
    ensures Unpack([0x11]) == [1, 1] && Unpack([0x12]) == [1, 2] && Unpack([0x01]) == [0, 1]
  {
    var a: Bytes, b: Bytes, c: Bytes := [0x11], [0x12], [0x01];
    assert a[1..] == [] && b[1..] == [] && c[1..] == [];
  }

  lemma TwoStored(v: Bytes, w: Bytes)
    requires v != [] && w != []
    ensures var t := Ext([1], Fork(v, w));
            Canonical(t) && Formed(t) && Stores(t, map[[0x11] := v, [0x12] := w])
  {
    hide *;
    Halves();
    ForkedBelow(v, w);
    OneStored([0x11], v);
    StoresInsert(Leaf([1, 1], v), map[[0x11] := v], [0x12], w);
    InsertCanonical(Leaf([1, 1], v), [1, 2], w);
  }

  // ------------------------------------------------------------------ Their nodes

  lemma LeafNode(sha3: Hasher, k: Nibbles, v: Bytes)
    ensures Enc(sha3, Leaf(k, v)) == Encode(List([Str(HexPrefixOf(k, true)), Str(v)]))
  {
    hide Encode, HexPrefixOf;
  }

  lemma ExtNode(sha3: Hasher, k: Nibbles, c: Tree)
    ensures Enc(sha3, Ext(k, c)) == Encode(List([Str(HexPrefixOf(k, false)), RefOf(sha3, c)]))
  {
    hide Encode, HexPrefixOf, RefOf;
  }

  lemma EncodePair(x: Item, y: Item)
    ensures EncodeAll([x, y]) == Encode(x) + Encode(y)
  {
    EncodeAllFirst(x, [y]);
    EncodeAllOne(y);
    assert [x] + [y] == [x, y];
  }

  function Empties(n: nat): (xs: seq<Item>)
    ensures |xs| == n && forall i | 0 <= i < n :: xs[i] == Str([])
  {
    if n == 0 then [] else [Str([])] + Empties(n - 1)
  }

  function Eighties(n: nat): (b: Bytes)
    ensures |b| == n && forall i | 0 <= i < n :: b[i] == 0x80
  {
    if n == 0 then [] else [0x80] + Eighties(n - 1)
  }

  lemma {:induction false} EmptiesEncoded(n: nat)
    ensures EncodeAll(Empties(n)) == Eighties(n)
  {
    hide Encode;
    StringForms([]);
    EncodeAllFirst(Str([]), if n == 0 then [] else Empties(n - 1));
    if n > 0 {
      EmptiesEncoded(n - 1);
    }
  }

  lemma ForkItem(sha3: Hasher, v: Bytes, w: Bytes)
    ensures ItemOf(sha3, Fork(v, w))
            == List([Str([])] + [RefOf(sha3, Leaf([], v)), RefOf(sha3, Leaf([], w))] + Empties(14))
  {
    NodeForm(sha3, Fork(v, w));
    NodeForm(sha3, Nil);
    hide HexPrefixOf, RefOf, Encode, Nils, ItemOf;
    assert ItemOf(sha3, Nil) == Str([]) by { NilItem(sha3); }
    var kids := Nils(16)[1 := Leaf([], v)][2 := Leaf([], w)];
    var xs := ItemOf(sha3, Fork(v, w)).items;
    var ys := [Str([])] + [RefOf(sha3, Leaf([], v)), RefOf(sha3, Leaf([], w))] + Empties(14);
    assert |xs| == |ys| == 17;
    forall i | 0 <= i < 17 ensures xs[i] == ys[i] {
      if i < 16 {
        assert xs[i] == RefOf(sha3, kids[i]);
      }
    }
    assert xs == ys;
  }

  lemma NilItem(sha3: Hasher)
    ensures ItemOf(sha3, Nil) == Str([])
  {
  }

  lemma ForkPayload(sha3: Hasher, v: Bytes, w: Bytes)
    ensures ItemOf(sha3, Fork(v, w)).List?
    ensures EncodeAll(ItemOf(sha3, Fork(v, w)).items)
            == [0x80] + Encode(RefOf(sha3, Leaf([], v))) + Encode(RefOf(sha3, Leaf([], w))) + Eighties(14)
  {
    hide *;
    ForkItem(sha3, v, w);
    var x, y := RefOf(sha3, Leaf([], v)), RefOf(sha3, Leaf([], w));
    EncodeAllConcat([Str([])] + [x, y], Empties(14));
    EncodeAllConcat([Str([])], [x, y]);
    EncodeAllOne(Str([]));
    EncodePair(x, y);
    EmptiesEncoded(14);
    StringForms([]);
    assert [0x80] + (Encode(x) + Encode(y)) == [0x80] + Encode(x) + Encode(y);
  }

  // ------------------------------------------------------------------ The root nodes

  lemma EmptyRoot(sha3: Hasher, t: Tree)
    requires Canonical(t) && Formed(t) && Stores(t, map[])
    ensures Enc(sha3, t) == [0x80]
  {
    hide *;
    EmptyStored();
    SameMapSameTree(t, Nil, map[]);
    NodeForm(sha3, Nil);
  }

  lemma WholeByte(a: Nibble, b: Nibble)
    ensures HexPrefixOf([a, b], true) == [0x20, 16 * (a as int) + b]
  {
    hide *;
    var key: Nibbles := [a, b];
    HexPrefixBytes(key, true);
    HexPrefixByte(key, true, 0);
  }

  /** One short pair: the whole root node. */
  lemma OneKeyRoot(sha3: Hasher, t: Tree)
    requires Canonical(t) && Formed(t) && Stores(t, map[[0x01] := [0x07]])
    ensures Enc(sha3, t) == [0xc4, 0x82, 0x20, 0x01, 0x07]
  {
    hide *;
    Halves();
    OneStored([0x01], [0x07]);
    SameMapSameTree(t, Leaf([0, 1], [0x07]), map[[0x01] := [0x07]]);
    LeafNode(sha3, [0, 1], [0x07]);
    WholeByte(0, 1);
    StringForms([0x20, 0x01]);
    StringForms([0x07]);
    EncodePair(Str([0x20, 0x01]), Str([0x07]));
    ListForms([Str([0x20, 0x01]), Str([0x07])]);
  }

  /** A leaf with a string of 40 bytes and no key of its own. */
  lemma LongLeaf(sha3: Hasher, v: Bytes)
    requires |v| == 40
    ensures Enc(sha3, Leaf([], v)) == [0xea, 0x20, 0xa8] + v
  {
    hide *;
    LeafNode(sha3, [], v);
    HexPrefixBytes([], true);
    assert HexPrefixOf([], true) == [0x20];
    StringForms([0x20]);
    StringForms(v);
    EncodePair(Str([0x20]), Str(v));
    ListForms([Str([0x20]), Str(v)]);
  }

  lemma HashedRef(sha3: Hasher, t: Tree, b: Bytes)
    requires Enc(sha3, t) == b && |b| >= 32
    ensures Encode(RefOf(sha3, t)) == [0xa0] + sha3(b)
  {
    hide *;
    NodeForm(sha3, t);
    StringForms(sha3(b));
  }

  /** The node of a branch with two hashed children. */
  lemma ForkNode(sha3: Hasher, v: Bytes, w: Bytes)
    requires |v| == |w| == 40
    ensures Enc(sha3, Fork(v, w))
            == [0xf8, 81] + ([0x80] + ([0xa0] + sha3([0xea, 0x20, 0xa8] + v))
                                    + ([0xa0] + sha3([0xea, 0x20, 0xa8] + w)) + Eighties(14))
  {
    hide *;
    LongLeaf(sha3, v);
    LongLeaf(sha3, w);
    HashedRef(sha3, Leaf([], v), [0xea, 0x20, 0xa8] + v);
    HashedRef(sha3, Leaf([], w), [0xea, 0x20, 0xa8] + w);
    ForkPayload(sha3, v, w);
    ListForms(ItemOf(sha3, Fork(v, w)).items);
    EightyOne();
    EncIs(sha3, Fork(v, w));
  }

  lemma EightyOne()
    ensures ToBigEndian(81) == [81]
  {
    assert ToBigEndian(0) == [];
  }

  lemma EncIs(sha3: Hasher, t: Tree)
    ensures Enc(sha3, t) == Encode(ItemOf(sha3, t))
  {
  }

  /** An extension by one nibble over a child that is referred to by its hash. */
  lemma StemNode(sha3: Hasher, c: Tree, b: Bytes)
    requires Enc(sha3, c) == b && |b| >= 32
    ensures Enc(sha3, Ext([1], c)) == [0xe2, 0x11, 0xa0] + sha3(b)
  {
    hide *;
    HashedRef(sha3, c, b);
    var ref := RefOf(sha3, c);
    ExtNode(sha3, [1], c);
    HexPrefixBytes([1], false);
    assert HexPrefixOf([1], false) == [0x11];
    StringForms([0x11]);
    EncodePair(Str([0x11]), ref);
    ListForms([Str([0x11]), ref]);
  }

  /** Two long values under keys that share a nibble: an extension, over a branch, over two leaves, each by its hash. */
  lemma TwoKeyRoot(sha3: Hasher, t: Tree, v: Bytes, w: Bytes)
    requires |v| == |w| == 40
    requires Canonical(t) && Formed(t) && Stores(t, map[[0x11] := v, [0x12] := w])
    ensures var first, second := sha3([0xea, 0x20, 0xa8] + v), sha3([0xea, 0x20, 0xa8] + w);
            Enc(sha3, t) == [0xe2, 0x11, 0xa0] + sha3([0xf8, 81] + ([0x80] + ([0xa0] + first) + ([0xa0] + second) + Eighties(14)))
  {
    hide *;
    TwoStored(v, w);
    SameMapSameTree(t, Ext([1], Fork(v, w)), map[[0x11] := v, [0x12] := w]);
    ForkNode(sha3, v, w);
    StemNode(sha3, Fork(v, w), Enc(sha3, Fork(v, w)));
  }
}
