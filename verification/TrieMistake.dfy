/** A run after which a value that is left alone is taken for the hash of a leaf. */
module TrieMistake {
  import opened CommonData
  import opened Rlp
  import opened HexPrefix
  import opened Trie
  import opened TrieNode
  import opened TrieSteps
  import opened TrieRemoval
  import opened StateCacheDB
  import opened TrieDB
  import opened TrieHashers

  const ELSEWHERE: Bytes := [0x30]
  const SHORTER: Bytes := [1]
  const LONGER: Bytes := [1, 2]

  /** The leaf of the first key, as it lies in the branch once there is a second. */
  function Elsewhere(value: Bytes): Tree { Leaf([0], value) }

  /** Under a shorter and a longer key, that hash and something else. */
  function HashRun(h: H256, value: Bytes): seq<Op> {
    [Put(ELSEWHERE, value), Put(SHORTER, h), Put(LONGER, [7])]
  }

  function HashContents(h: H256, value: Bytes): map<Bytes, Bytes> {
    map[ELSEWHERE := value, SHORTER := h, LONGER := [7]]
  }

  // ------------------------------------------------------------------ What the run makes of tree and map

  lemma HashRunContents(h: H256, value: Bytes)
    ensures Applied(map[], HashRun(h, value)) == HashContents(h, value)
  {
    var ops := HashRun(h, value);
    AppliedStep(map[], ops, 0);
    AppliedStep(map[], ops, 1);
    AppliedStep(map[], ops, 2);
    assert ops[..0] == [] && ops[..3] == ops;
  }

  lemma KeysUnpacked()
    ensures Unpack(ELSEWHERE) == [3, 0] && Unpack(SHORTER) == [0, 1] && Unpack(LONGER) == [0, 1, 0, 2]
  {
    assert Unpack([]) == [] && ELSEWHERE[1..] == [] && SHORTER[1..] == [];
    assert LONGER[1..] == [2] && Unpack([2]) == [0, 2] + Unpack([2][1..]);
  }

  /** The trees after one, two and three operations, and on the way. */
  function First(value: Bytes): Tree { Leaf([3, 0], value) }
  function Bare(value: Bytes): Tree { Branch(Nils(16)[3 := Elsewhere(value)], []) }
  function Two(h: H256, value: Bytes): Tree { Branch(Nils(16)[3 := Elsewhere(value)][0 := Leaf([1], h)], []) }
  function Fork(h: H256): Tree { Branch(Nils(16)[0 := Leaf([2], [7])], h) }
  function Three(h: H256, value: Bytes): Tree { Branch(Nils(16)[3 := Elsewhere(value)][0 := Ext([1], Fork(h))], []) }

  lemma SecondPut(h: H256, value: Bytes)
    requires value != []
    ensures Inserted(First(value), [0, 1], h) == Two(h, value)
    ensures InsertTrees(First(value), [0, 1], h) == {Two(h, value), Leaf([1], h)} + Subtrees(Bare(value))
  {
    var k: Nibbles := [0, 1];
    assert k[1..] == [1] && First(value).key[1..] == [0];
    assert Shared(k, First(value).key) == 0;
    assert Branched(First(value)) == Bare(value);
    hide Nils, Subtrees;
    assert Inserted(Nil, [1], h) == Leaf([1], h) && InsertTrees(Nil, [1], h) == {Leaf([1], h)};
    assert Inserted(Bare(value), k, h) == Two(h, value);
    assert InsertTrees(Bare(value), k, h) == {Two(h, value), Leaf([1], h)};
  }

  /** Behind the end of the shorter key. */
  lemma ForkPut(h: H256)
    ensures Inserted(Leaf([], h), [0, 2], [7]) == Fork(h)
    ensures InsertTrees(Leaf([], h), [0, 2], [7]) == {Fork(h), Leaf([2], [7])} + Subtrees(Branch(Nils(16), h))
  {
    var k: Nibbles := [0, 2];
    assert k[1..] == [2] && Shared(k, []) == 0;
    assert Branched(Leaf([], h)) == Branch(Nils(16), h);
    hide Nils, Subtrees;
    assert Inserted(Nil, [2], [7]) == Leaf([2], [7]) && InsertTrees(Nil, [2], [7]) == {Leaf([2], [7])};
    assert Inserted(Branch(Nils(16), h), k, [7]) == Fork(h);
    assert InsertTrees(Branch(Nils(16), h), k, [7]) == {Fork(h), Leaf([2], [7])};
  }

  lemma UnderPut(h: H256)
    ensures Inserted(Leaf([1], h), [1, 0, 2], [7]) == Ext([1], Fork(h))
    ensures InsertTrees(Leaf([1], h), [1, 0, 2], [7]) ==
            {Ext([1], Fork(h)), Fork(h), Leaf([2], [7])} + Subtrees(Branch(Nils(16), h)) + Subtrees(Ext([1], Leaf([], h)))
  {
    var k: Nibbles := [1, 0, 2];
    assert k[1..] == [0, 2] && k[..1] == [1] && [1][1..] == [];
    assert Shared(k, [1]) == 1;
    assert Drop(Leaf([1], h), 1) == Leaf([], h);
    ForkPut(h);
    hide Nils, Subtrees, Fork;
  }

  lemma IntoSlot(t: Tree, k: Nibbles, v: Bytes)
    requires Formed(t) && t.Branch? && k != [] && v != []
    ensures Inserted(t, k, v) == Branch(t.kids[k[0] := Inserted(t.kids[k[0]], k[1..], v)], t.value)
    ensures InsertTrees(t, k, v) == {Inserted(t, k, v)} + InsertTrees(t.kids[k[0]], k[1..], v)
  {
  }

  lemma TwoParts(h: H256, value: Bytes)
    requires value != []
    ensures var t := Two(h, value);
            Formed(t) && t.Branch? && t.kids[0] == Leaf([1], h) && Branch(t.kids[0 := Ext([1], Fork(h))], t.value) == Three(h, value)
  {
    hide Nils, Fork;
    assert Formed(Leaf([1], h)) && Formed(Elsewhere(value));
  }

  lemma ThirdPut(h: H256, value: Bytes)
    requires value != []
    ensures Formed(Two(h, value)) && Inserted(Two(h, value), [0, 1, 0, 2], [7]) == Three(h, value)
    ensures InsertTrees(Two(h, value), [0, 1, 0, 2], [7]) == {Three(h, value)} +
            ({Ext([1], Fork(h)), Fork(h), Leaf([2], [7])} + Subtrees(Branch(Nils(16), h)) + Subtrees(Ext([1], Leaf([], h))))
  {
    hide *;
    var k: Nibbles := [0, 1, 0, 2];
    assert k[1..] == [1, 0, 2];
    TwoParts(h, value);
    IntoSlot(Two(h, value), k, [7]);
    UnderPut(h);
  }

  lemma PutAfter(t: Tree, key: Bytes, k: Nibbles, v: Bytes)
    requires Formed(t) && v != [] && Unpack(key) == k
    ensures After(t, Put(key, v)) == Inserted(t, k, v) && OpTrees(t, Put(key, v)) == InsertTrees(t, k, v)
  {
    hide Inserted, InsertTrees, Unpack;
  }

  lemma FirstPut(value: Bytes)
    requires value != []
    ensures Formed(Nil) && Inserted(Nil, [3, 0], value) == First(value) && InsertTrees(Nil, [3, 0], value) == {First(value)}
    ensures Formed(First(value))
  {
  }

  lemma RunOfThree(t: Tree, a: Op, b: Op, c: Op)
    ensures var t1 := After(t, a);
            var t2 := After(t1, b);
            AfterAll(t, [a, b, c]) == After(t2, c) && RunTrees(t, [a, b, c]) == OpTrees(t, a) + OpTrees(t1, b) + OpTrees(t2, c)
  {
    var ops := [a, b, c];
    hide OpTrees, After;
    AfterStep(t, ops, 0);
    AfterStep(t, ops, 1);
    AfterStep(t, ops, 2);
    assert ops[..0] == [] && ops[..3] == ops;
    assert ops[1..] == [b, c] && [b, c][1..] == [c] && [c][1..] == [];
    var t1 := After(t, a);
    var t2 := After(t1, b);
    assert RunTrees(t2, [c]) == OpTrees(t2, c) + RunTrees(After(t2, c), []);
    assert RunTrees(t1, [b, c]) == OpTrees(t1, b) + RunTrees(t2, [c]);
  }

  /** The trees of the run, step by step. */
  lemma HashRunTrees(h: H256, value: Bytes)
    requires value != []
    ensures AfterAll(Nil, HashRun(h, value)) == Three(h, value)
    ensures RunTrees(Nil, HashRun(h, value)) ==
            {First(value)} + ({Two(h, value), Leaf([1], h)} + Subtrees(Bare(value))) + ({Three(h, value)} +
            ({Ext([1], Fork(h)), Fork(h), Leaf([2], [7])} + Subtrees(Branch(Nils(16), h)) + Subtrees(Ext([1], Leaf([], h)))))
  {
    hide *;
    KeysUnpacked();
    FirstPut(value);
    SecondPut(h, value);
    ThirdPut(h, value);
    PutAfter(Nil, ELSEWHERE, [3, 0], value);
    PutAfter(First(value), SHORTER, [0, 1], h);
    PutAfter(Two(h, value), LONGER, [0, 1, 0, 2], [7]);
    RunOfThree(Nil, Put(ELSEWHERE, value), Put(SHORTER, h), Put(LONGER, [7]));
    HashRunIs(h, value);
  }

  lemma HashRunIs(h: H256, value: Bytes)
    ensures HashRun(h, value) == [Put(ELSEWHERE, value), Put(SHORTER, h), Put(LONGER, [7])]
  {
  }

  // ------------------------------------------------------------------ What is in the store then

  /** The bytes of the leaf with the longer key are too few for a hash. */
  lemma ShortLeaf(sha3: Hasher)
    ensures Own(sha3, Leaf([2], [7])) == multiset{}
  {
    var a, b := Str(HexPrefixOf([2], true)), Str([7]);
    HexPrefixRoundTrip([2], true);
    StringSize(a.data);
    StringSize(b.data);
    TrieNode.EncodeTwo(a, b);
    assert ItemOf(sha3, Leaf([2], [7])) == List([a, b]);
    HeaderSize(|EncodeAll([a, b])|);
    hide HexPrefixOf, EncodeAll, Header;
    assert |Encode(List([a, b]))| <= 9 + |EncodeAll([a, b])|;
  }

  /** Those of the leaf elsewhere are enough. */
  lemma LongLeaf(sha3: Hasher, value: Bytes)
    requires |value| >= 32
    ensures Own(sha3, Elsewhere(value)) == multiset{sha3(Enc(sha3, Elsewhere(value)))}
  {
    var a, b := Str(HexPrefixOf([0], true)), Str(value);
    TrieNode.EncodeTwo(a, b);
    assert ItemOf(sha3, Elsewhere(value)) == List([a, b]);
    assert |Encode(b)| >= |value|;
    hide HexPrefixOf, EncodeAll, Header;
    assert |Encode(List([a, b]))| >= |EncodeAll([a, b])|;
  }

  lemma ElsewhereBelow(sha3: Hasher, main: Table, h: H256, value: Bytes)
    requires Held(sha3, main, Three(h, value))
    ensures Kept(sha3, main, Elsewhere(value)) && Own(sha3, Elsewhere(value)) <= Below(sha3, Three(h, value))
  {
    var t := Three(h, value);
    hide Nils, Own, Fork;
    assert t.kids[3] == Elsewhere(value);
    KeptSlot(sha3, main, t, 3);
    BelowSplit(sha3, t.kids, 3);
  }

  /** The leaf elsewhere counts, and is a pair. */
  lemma LeafCounts(sha3: Hasher, nodes: set<Bytes>, main: Table, h: H256, value: Bytes)
    requires |value| >= 32 && h == sha3(Enc(sha3, Elsewhere(value)))
    requires StoreOf(sha3, nodes, main, Three(h, value)) && ToldApart(sha3, nodes)
    ensures h in main && main[h].count > 0 && IsPair(main[h].bytes)
  {
    var leaf, t := Elsewhere(value), Three(h, value);
    LongLeaf(sha3, value);
    ElsewhereBelow(sha3, main, h, value);
    LeafIsPair(sha3, leaf);
    hide ItemOf, Enc, Below, IsPair, Three, Elsewhere, Walk, Held;
    CountsAt(main, multiset{sha3(Enc(sha3, t))} + Below(sha3, t), h);
    assert h in Own(sha3, leaf);
    assert h in Below(sha3, t);
  }

  lemma LeafIsPair(sha3: Hasher, t: Tree)
    requires t.Leaf?
    ensures |Enc(sha3, t)| < SIZE_LIMIT ==> IsPair(Enc(sha3, t))
  {
    if |Enc(sha3, t)| < SIZE_LIMIT {
      NodeRead(sha3, t);
    }
  }

  lemma HashMistaken(sha3: Hasher, main: Table, enforced: bool, h: H256, value: Bytes)
    requires h in main && main[h].count > 0 && IsPair(main[h].bytes)
    ensures Removable(HashContents(h, value), LONGER)
    ensures MistakenFor(sha3, main, enforced, HashContents(h, value), LONGER)
  {
    var m := HashContents(h, value);
    ShortLeaf(sha3);
    KeysUnpacked();
    hide IsPair, Own, Unpack;
    forall a <- m | Alone(m, a, LONGER) ensures |m[a]| <= HASH_SIZE {
      assert ELSEWHERE[0] != LONGER[0];
    }
    assert Alone(m, SHORTER, LONGER);
    assert LeafBehind(m, SHORTER, LONGER) == Leaf([2], [7]);
    assert AsHash(h) == h;
  }

  /** Whether references are enforced or not: the value is the hash of a node that counts. */
  method MistakeReached(sha3: Hasher, db: DB, value: Bytes) returns (trie: GenericTrieDB, h: H256)
    requires db.Valid() && db.m_main == map[] && |value| >= 32
    requires ToldApart(sha3, NodesFromEmpty(sha3, HashRun(sha3(Enc(sha3, Elsewhere(value))), value)))
    modifies db`m_main, db`refs
    ensures trie.Valid() && trie.sha3 == sha3 && trie.m_db == db && trie.contents == HashContents(h, value)
    ensures Removable(trie.contents, LONGER)
    ensures MistakenFor(sha3, db.m_main, db.m_enforceRefs, trie.contents, LONGER)
  {
    h := sha3(Enc(sha3, Elsewhere(value)));
    hide *;
    RunFromEmpty(sha3, h, value);
    trie := new GenericTrieDB(sha3, db);
    var ok: bool;
    ghost var stores: seq<Table>;
    ok, stores := trie.Run(HashRun(h, value));
    trie.ValidStore(trie.nodes);
    trie.RootFacts(trie.tree);
    trie.StoreParts();
    LeafCounts(sha3, trie.nodes, db.m_main, h, value);
    HashMistaken(sha3, db.m_main, db.m_enforceRefs, h, value);
  }

  lemma RunFromEmpty(sha3: Hasher, h: H256, value: Bytes)
    requires |value| >= 32
    ensures Legal(HashRun(h, value)) && value != []
    ensures NodesFromEmpty(sha3, HashRun(h, value)) == {Enc(sha3, Nil)} + RunNodes(sha3, Nil, HashRun(h, value))
    ensures AfterAll(Nil, HashRun(h, value)) == Three(h, value)
    ensures Applied(map[], HashRun(h, value)) == HashContents(h, value)
    ensures AllRemovable(map[], HashRun(h, value))
    ensures NoMistakes(sha3, NodesFromEmpty(sha3, HashRun(h, value)), map[], HashRun(h, value))
  {
    hide *;
    HashRunIs(h, value);
    HashRunTrees(h, value);
    HashRunContents(h, value);
    EmptyNodes(sha3, HashRun(h, value));
    PutsOnly(sha3, NodesFromEmpty(sha3, HashRun(h, value)), map[], HashRun(h, value));
  }

  lemma EmptyNodes(sha3: Hasher, ops: seq<Op>)
    ensures NodesFromEmpty(sha3, ops) == {Enc(sha3, Nil)} + RunNodes(sha3, Nil, ops)
  {
    hide Enc, RunNodes;
  }

  lemma PutsOnly(sha3: Hasher, nodes: set<Bytes>, m: map<Bytes, Bytes>, ops: seq<Op>)
    requires forall o <- ops :: o.Put? && o.value != []
    ensures Legal(ops) && AllRemovable(m, ops) && NoMistakes(sha3, nodes, m, ops)
  {
    hide Applied, Removable, NoMistake;
    forall i | 0 <= i < |ops| ensures ops[i].Put? {
      assert ops[i] in ops;
    }
  }

  // ------------------------------------------------------------------ There are hash functions for that run

  function SomeTrees(h: H256, value: Bytes): set<Tree> {
    {Nil, First(value), Elsewhere(value), Bare(value), Two(h, value), Leaf([1], h), Three(h, value)}
  }

  function OtherTrees(h: H256): set<Tree> {
    {Ext([1], Fork(h)), Fork(h), Leaf([2], [7]), Branch(Nils(16), h), Ext([1], Leaf([], h)), Leaf([], h)}
  }

  function HashTrees(h: H256, value: Bytes): set<Tree> { SomeTrees(h, value) + OtherTrees(h) }

  lemma HashTreesClosed(h: H256, value: Bytes)
    ensures Closed(HashTrees(h, value))
  {
    var trees := HashTrees(h, value);
    hide Nils;
    forall t <- trees ensures HasKids(trees, t) {
      if t.Branch? {
        assert t == Bare(value) || t == Two(h, value) || t == Three(h, value) || t == Fork(h) || t == Branch(Nils(16), h);
      }
    }
  }

  lemma HashTreesShort(h: H256, value: Bytes)
    requires |value| < MAX_SIZE
    ensures |HashTrees(h, value)| < Pow256(HASH_SIZE)
    ensures forall t <- HashTrees(h, value) :: ShortNode(t)
  {
    hide Nils, Pow256;
    FewHashes();
    SomeShort(h, value);
    OthersShort(h);
    hide SomeTrees, OtherTrees, ShortNode;
    UnionSize(SomeTrees(h, value), OtherTrees(h));
  }

  lemma SomeShort(h: H256, value: Bytes)
    requires |value| < MAX_SIZE
    ensures |SomeTrees(h, value)| <= 7 && forall t <- SomeTrees(h, value) :: ShortNode(t)
  {
    hide Nils;
  }

  lemma OthersShort(h: H256)
    ensures |OtherTrees(h)| <= 6 && forall t <- OtherTrees(h) :: ShortNode(t)
  {
    hide Nils;
  }

  lemma HashTreesHold(h: H256, value: Bytes)
    ensures {Nil, First(value), Two(h, value), Leaf([1], h), Bare(value), Three(h, value), Ext([1], Fork(h)), Fork(h), Leaf([2], [7]),
             Branch(Nils(16), h), Ext([1], Leaf([], h))} <= HashTrees(h, value)
  {
    hide Nils, First, Elsewhere, Bare, Two, Three, Fork;
  }

  lemma HashRunWithin(h: H256, value: Bytes)
    requires value != []
    ensures TreesInRun(HashRun(h, value)) <= HashTrees(h, value)
  {
    hide *;
    var trees := HashTrees(h, value);
    HashRunTrees(h, value);
    HashTreesClosed(h, value);
    HashTreesHold(h, value);
    ClosedSubtrees(trees, Bare(value));
    ClosedSubtrees(trees, Branch(Nils(16), h));
    ClosedSubtrees(trees, Ext([1], Leaf([], h)));
    RunWithin(HashRun(h, value), trees);
  }

  lemma ElsewhereOccurs(h: H256, value: Bytes)
    requires value != []
    ensures Elsewhere(value).Leaf? && Elsewhere(value) in TreesInRun(HashRun(h, value))
  {
    HashRunTrees(h, value);
    SubtreesOfKid(Bare(value).kids, 3);
    hide Nils, RunTrees, First, Two, Three, Fork, HashRun;
    assert Elsewhere(value) in Subtrees(Elsewhere(value));
    assert Elsewhere(value) in Subtrees(Bare(value));
    assert Bare(value) in Subtrees(Bare(value));
    hide Subtrees;
    assert Bare(value) in RunTrees(Nil, HashRun(h, value));
  }

  /** For every hash and value some hash function gives the leaf elsewhere that hash and tells the nodes of the run apart. */
  lemma MistakeCanBeToldApart(h: H256, value: Bytes) returns (sha3: Hasher)
    requires 32 <= |value| < MAX_SIZE
    ensures sha3(Enc(sha3, Elsewhere(value))) == h
    ensures ToldApart(sha3, NodesFromEmpty(sha3, HashRun(h, value)))
  {
    hide *;
    var ops := HashRun(h, value);
    HashRunWithin(h, value);
    ElsewhereOccurs(h, value);
    HashTreesShort(h, value);
    PartIsSmaller(TreesInRun(ops), HashTrees(h, value));
    TreesClosed(ops);
    sha3 := HasherWith(TreesInRun(ops), Elsewhere(value), h);
    SeparatesNodes(sha3, ops, {});
  }
}
