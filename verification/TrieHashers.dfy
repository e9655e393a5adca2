/** That nodes can be told apart is no empty assumption: for every run there are hash functions that do. */
module TrieHashers {
  import opened CommonData
  import opened Rlp
  import opened HexPrefix
  import opened Trie
  import opened TrieNode
  import opened TrieSteps
  import opened TrieRemoval
  import opened TrieDB

  // ------------------------------------------------------------------ Hashes that are not used yet

  function NumberHash(n: nat): H256
    requires n < Pow256(HASH_SIZE)
  {
    BigEndianSize(n, HASH_SIZE);
    AsHash(ToBigEndian(n))
  }

  lemma NumberHashInjective(m: nat, n: nat)
    requires m < Pow256(HASH_SIZE) && n < Pow256(HASH_SIZE) && NumberHash(m) == NumberHash(n)
    ensures m == n
  {
    hide ToBigEndian, FromBigEndian, Pow256;
    forall k: nat | k < Pow256(HASH_SIZE) ensures FromBigEndian(NumberHash(k)) == k {
      var b := ToBigEndian(k);
      BigEndianSize(k, HASH_SIZE);
      BigEndianRoundTrip(k);
      FromBigEndianPadded(HASH_SIZE - |b|, b);
    }
  }

  function FirstHashes(n: nat): set<H256>
    requires n <= Pow256(HASH_SIZE)
  {
    if n == 0 then {} else FirstHashes(n - 1) + {NumberHash(n - 1)}
  }

  lemma {:induction false} FirstHashNumber(n: nat, h: H256) returns (i: nat)
    requires n <= Pow256(HASH_SIZE) && h in FirstHashes(n)
    ensures i < n && h == NumberHash(i)
  {
    hide NumberHash, Pow256;
    if h == NumberHash(n - 1) {
      i := n - 1;
    } else {
      i := FirstHashNumber(n - 1, h);
    }
  }

  lemma {:induction false} FirstHashesMany(n: nat)
    requires n <= Pow256(HASH_SIZE)
    ensures |FirstHashes(n)| == n
  {
    hide NumberHash, Pow256;
    if n > 0 {
      FirstHashesMany(n - 1);
      if NumberHash(n - 1) in FirstHashes(n - 1) {
        var i := FirstHashNumber(n - 1, NumberHash(n - 1));
        NumberHashInjective(n - 1, i);
      }
    }
  }

  lemma {:induction false} PartIsSmaller<T>(a: set<T>, b: set<T>)
    requires a <= b
    ensures |a| <= |b|
    decreases a
  {
    if a != {} {
      var x :| x in a;
      PartIsSmaller(a - {x}, b - {x});
    }
  }

  /** Fewer than 2^256 hashes leave another one. */
  lemma FreshHash(used: set<H256>) returns (h: H256)
    requires |used| < Pow256(HASH_SIZE)
    ensures h !in used
  {
    hide FirstHashes, Pow256;
    var all := FirstHashes(|used| + 1);
    FirstHashesMany(|used| + 1);
    if all <= used {
      PartIsSmaller(all, used);
    }
    h :| h in all && h !in used;
  }

  // ------------------------------------------------------------------ Trees from small to large

  function Size(t: Tree): nat
    decreases t
  {
    1 + match t
    case Nil => 0
    case Leaf(_, _) => 0
    case Ext(_, c) => Size(c)
    case Branch(kids, _) => SizeAll(kids)
  }

  function SizeAll(kids: seq<Tree>): nat
    decreases kids
  {
    if kids == [] then 0 else Size(kids[0]) + SizeAll(kids[1..])
  }

  lemma {:induction false} KidIsSmaller(kids: seq<Tree>, i: nat)
    requires i < |kids|
    ensures Size(kids[i]) <= SizeAll(kids)
  {
    if i > 0 {
      KidIsSmaller(kids[1..], i - 1);
    }
  }

  lemma {:induction false} Largest(trees: set<Tree>) returns (t: Tree)
    requires trees != {}
    ensures t in trees && forall s <- trees :: Size(s) <= Size(t)
    decreases trees
  {
    hide Size;
    t :| t in trees;
    if trees != {t} {
      var other := Largest(trees - {t});
      if Size(other) > Size(t) {
        t := other;
      }
    }
  }

  predicate HasKids(trees: set<Tree>, t: Tree) {
    match t
    case Nil => true
    case Leaf(_, _) => true
    case Ext(_, c) => c in trees
    case Branch(_, _) => |t.kids| == 16 && forall i | 0 <= i < 16 :: t.kids[i] in trees
  }

  predicate Closed(trees: set<Tree>) {
    forall t <- trees :: HasKids(trees, t)
  }

  lemma WithoutLargest(trees: set<Tree>, t: Tree)
    requires Closed(trees) && t in trees && forall s <- trees :: Size(s) <= Size(t)
    ensures Closed(trees - {t}) && HasKids(trees - {t}, t)
  {
    forall s <- trees ensures HasKids(trees - {t}, s) {
      assert HasKids(trees, s);
      if s.Branch? {
        forall i | 0 <= i < 16 ensures s.kids[i] != t {
          KidIsSmaller(s.kids, i);
        }
      }
    }
  }

  // ------------------------------------------------------------------ A hash function for a set of trees

  lemma ShortSize(sha3: Hasher, t: Tree)
    requires ShortNode(t)
    ensures |Enc(sha3, t)| < SIZE_LIMIT
  {
    ShortNodeFits(sha3, t);
    HeaderSize(|PayloadOf(ItemOf(sha3, t))|);
    hide ItemOf, Header, EncodeAll;
  }

  lemma HeaderSize(n: nat)
    requires n < SIZE_LIMIT
    ensures |Header(DATA_START, n)| <= 9 && |Header(LIST_START, n)| <= 9
  {
    if n >= IMMEDIATE {
      LongHeader(DATA_START, n);
    }
  }

  /** Different trees have different hashes, and none of these hashes. */
  ghost predicate Separates(sha3: Hasher, trees: set<Tree>, others: set<H256>) {
    && (forall s <- trees, t <- trees :: sha3(Enc(sha3, s)) == sha3(Enc(sha3, t)) ==> s == t)
    && forall t <- trees :: sha3(Enc(sha3, t)) !in others
  }

  lemma RefSeparates(sha3: Hasher, trees: set<Tree>, others: set<H256>, s: Tree, t: Tree)
    requires Separates(sha3, trees, others) && s in trees && t in trees && RefOf(sha3, s) == RefOf(sha3, t)
    ensures s == t
  {
    if |Enc(sha3, s)| < 32 && |Enc(sha3, t)| >= 32 {
      InlineIsNoHash(sha3, s, Enc(sha3, t));
    } else if |Enc(sha3, t)| < 32 && |Enc(sha3, s)| >= 32 {
      InlineIsNoHash(sha3, t, Enc(sha3, s));
    }
  }

  /** Above trees that are told apart, nodes are too. */
  lemma NodeSeparates(sha3: Hasher, trees: set<Tree>, others: set<H256>, s: Tree, t: Tree)
    requires Separates(sha3, trees, others) && HasKids(trees, s) && HasKids(trees, t)
    requires ShortNode(s) && ShortNode(t) && Enc(sha3, s) == Enc(sha3, t)
    ensures s == t
  {
    ShortSize(sha3, s);
    EncodeInjective(ItemOf(sha3, s), ItemOf(sha3, t));
    hide HexPrefixOf, RefOf, Separates, Enc;
    if TwoItem(s) {
      var x, y := ItemOf(sha3, s).items, ItemOf(sha3, t).items;
      assert |x| == 2 && |y| == 2;
      assert TwoItem(t);
      assert x[0] == y[0] && x[1] == y[1];
      HexPrefixInjective(s.key, s.Leaf?, t.key, t.Leaf?);
      if s.Ext? {
        RefSeparates(sha3, trees, others, s.child, t.child);
      }
    } else if s.Branch? {
      BranchDetermined(sha3, s, t);
      forall i | 0 <= i < 16 ensures s.kids[i] == t.kids[i] {
        RefSeparates(sha3, trees, others, s.kids[i], t.kids[i]);
      }
      assert s.kids == t.kids;
    }
  }

  /** A hash function with one value changed. */
  function Changed(sha3: Hasher, b: Bytes, h: H256): Hasher {
    (x: Bytes) => if x == b then h else sha3(x)
  }

  /** A value that is not used below a tree can change without changing the node. */
  lemma {:induction false} EncUnchanged(sha3: Hasher, b: Bytes, h: H256, trees: set<Tree>, t: Tree)
    requires Closed(trees) && HasKids(trees, t) && forall c <- trees :: Enc(sha3, c) != b
    ensures ItemOf(Changed(sha3, b, h), t) == ItemOf(sha3, t)
    decreases t, 0
  {
    hide HexPrefixOf, Enc;
    if t.Ext? {
      RefUnchanged(sha3, b, h, trees, t.child);
    } else if t.Branch? {
      forall i | 0 <= i < 16 ensures RefOf(Changed(sha3, b, h), t.kids[i]) == RefOf(sha3, t.kids[i]) {
        RefUnchanged(sha3, b, h, trees, t.kids[i]);
      }
      assert RefsOf(Changed(sha3, b, h), t.kids) == RefsOf(sha3, t.kids);
    }
  }

  lemma {:induction false} RefUnchanged(sha3: Hasher, b: Bytes, h: H256, trees: set<Tree>, c: Tree)
    requires Closed(trees) && c in trees && forall c <- trees :: Enc(sha3, c) != b
    ensures RefOf(Changed(sha3, b, h), c) == RefOf(sha3, c)
    decreases c, 1
  {
    EncUnchanged(sha3, b, h, trees, c);
    hide ItemOf;
  }

  function HashesOf(sha3: Hasher, trees: set<Tree>): set<H256> {
    set t <- trees :: sha3(Enc(sha3, t))
  }

  lemma {:induction false} NotMoreHashes(sha3: Hasher, trees: set<Tree>)
    ensures |HashesOf(sha3, trees)| <= |trees|
    decreases trees
  {
    hide Enc;
    if trees != {} {
      var t :| t in trees;
      NotMoreHashes(sha3, trees - {t});
      assert HashesOf(sha3, trees) == HashesOf(sha3, trees - {t}) + {sha3(Enc(sha3, t))};
    }
  }

  lemma UnionSize<T>(a: set<T>, b: set<T>)
    ensures |a + b| <= |a| + |b|
  {
    assert a + b == (a - b) + b && (a - b) !! b;
    PartIsSmaller(a - b, a);
  }

  /** One more tree, above those that are told apart already, is given a hash that is not used. */
  lemma OneMoreTree(sha3: Hasher, trees: set<Tree>, others: set<H256>, t: Tree, h: H256) returns (changed: Hasher)
    requires Separates(sha3, trees, others) && Closed(trees) && HasKids(trees, t) && t !in trees
    requires ShortNode(t) && forall s <- trees :: ShortNode(s)
    requires h !in HashesOf(sha3, trees) + others
    ensures Separates(changed, trees + {t}, others)
    ensures forall s <- trees + {t} :: changed(Enc(changed, s)) == if s == t then h else sha3(Enc(sha3, s))
  {
    hide ShortNode, ItemOf, Closed, HasKids, Separates, Changed, HashesOf, Enc;
    var b := Enc(sha3, t);
    forall s <- trees ensures Enc(sha3, s) != b {
      ClosedHas(trees, s);
      if Enc(sha3, s) == b {
        NodeSeparates(sha3, trees, others, s, t);
      }
    }
    changed := Changed(sha3, b, h);
    forall s <- trees + {t} ensures ItemOf(changed, s) == ItemOf(sha3, s) {
      ClosedHas(trees, s);
      EncUnchanged(sha3, b, h, trees, s);
    }
    ChangedSeparates(sha3, trees, others, t, h);
  }

  lemma ChangedSeparates(sha3: Hasher, trees: set<Tree>, others: set<H256>, t: Tree, h: H256)
    requires Separates(sha3, trees, others) && h !in HashesOf(sha3, trees) + others
    requires forall s <- trees :: Enc(sha3, s) != Enc(sha3, t)
    requires forall s <- trees + {t} :: ItemOf(Changed(sha3, Enc(sha3, t), h), s) == ItemOf(sha3, s)
    ensures Separates(Changed(sha3, Enc(sha3, t), h), trees + {t}, others)
    ensures var changed := Changed(sha3, Enc(sha3, t), h);
            forall s <- trees + {t} :: changed(Enc(changed, s)) == if s == t then h else sha3(Enc(sha3, s))
  {
    hide ItemOf, Changed, Enc, HashesOf;
    var changed := Changed(sha3, Enc(sha3, t), h);
    forall s <- trees + {t} ensures changed(Enc(changed, s)) == if s == t then h else sha3(Enc(sha3, s)) {
      ChangedAt(sha3, Enc(sha3, t), h, s);
    }
    forall s <- trees ensures sha3(Enc(sha3, s)) in HashesOf(sha3, trees) {
      HashOfMember(sha3, trees, s);
    }
    forall s <- trees + {t}, r <- trees + {t} | changed(Enc(changed, s)) == changed(Enc(changed, r)) ensures s == r {
      if s != t && r != t {
        assert sha3(Enc(sha3, s)) == sha3(Enc(sha3, r));
      }
    }
  }

  lemma HashOfMember(sha3: Hasher, trees: set<Tree>, s: Tree)
    requires s in trees
    ensures sha3(Enc(sha3, s)) in HashesOf(sha3, trees)
  {
    hide Enc;
  }

  lemma ChangedAt(sha3: Hasher, b: Bytes, h: H256, s: Tree)
    requires ItemOf(Changed(sha3, b, h), s) == ItemOf(sha3, s)
    ensures Changed(sha3, b, h)(Enc(Changed(sha3, b, h), s)) == if Enc(sha3, s) == b then h else sha3(Enc(sha3, s))
  {
  }

  lemma ClosedHas(trees: set<Tree>, s: Tree)
    requires Closed(trees)
    ensures s in trees ==> HasKids(trees, s)
  {
  }

  /** For every finite set of trees there is a hash function that tells them apart, with hashes that are not among others. */
  lemma {:induction false} HasherFor(trees: set<Tree>, others: set<H256>) returns (sha3: Hasher)
    requires Closed(trees) && (forall t <- trees :: ShortNode(t)) && |trees| + |others| <= Pow256(HASH_SIZE)
    ensures Separates(sha3, trees, others)
    decreases |trees|
  {
    hide Pow256, ShortNode, Closed, HasKids, HashesOf, Enc;
    if trees == {} {
      sha3 := (x: Bytes) => Zeros(HASH_SIZE);
    } else {
      var t := Largest(trees);
      WithoutLargest(trees, t);
      var rest := trees - {t};
      var inner := HasherFor(rest, others);
      NotMoreHashes(inner, rest);
      UnionSize(HashesOf(inner, rest), others);
      var h := FreshHash(HashesOf(inner, rest) + others);
      sha3 := OneMoreTree(inner, rest, others, t, h);
      assert rest + {t} == trees;
    }
  }

  /** The hash of one of its leaves can be chosen. */
  lemma {:induction false} HasherWith(trees: set<Tree>, leaf: Tree, h: H256) returns (sha3: Hasher)
    requires Closed(trees) && (forall t <- trees :: ShortNode(t)) && |trees| < Pow256(HASH_SIZE)
    requires leaf in trees && leaf.Leaf?
    ensures Separates(sha3, trees, {}) && sha3(Enc(sha3, leaf)) == h
    decreases |trees|
  {
    hide Pow256, ShortNode, Closed, HasKids, HashesOf, Enc;
    var t := Largest(trees);
    WithoutLargest(trees, t);
    var rest := trees - {t};
    assert rest + {t} == trees;
    if t == leaf {
      var inner := HasherFor(rest, {h});
      KeptFree(inner, rest, h);
      sha3 := OneMoreTree(inner, rest, {}, t, h);
    } else {
      var inner := HasherWith(rest, leaf, h);
      NotMoreHashes(inner, rest);
      var unused := FreshHash(HashesOf(inner, rest));
      sha3 := OneMoreTree(inner, rest, {}, t, unused);
    }
  }

  lemma KeptFree(sha3: Hasher, trees: set<Tree>, h: H256)
    requires Separates(sha3, trees, {h})
    ensures Separates(sha3, trees, {}) && h !in HashesOf(sha3, trees) + {}
  {
    hide Enc;
  }

  // ------------------------------------------------------------------ A hash function for a run

  lemma {:induction false} SubtreesBelow(t: Tree, s: Tree)
    requires s in Subtrees(t)
    ensures s.Ext? ==> s.child in Subtrees(t)
    ensures s.Branch? ==> forall i | 0 <= i < |s.kids| :: s.kids[i] in Subtrees(t)
    decreases t, 1
  {
    if s == t {
      if t.Ext? {
        assert t.child in Subtrees(t.child);
      } else if t.Branch? {
        forall i | 0 <= i < |t.kids| ensures t.kids[i] in Subtrees(t) {
          SubtreesOfKid(t.kids, i);
          assert t.kids[i] in Subtrees(t.kids[i]);
        }
      }
    } else if t.Ext? {
      SubtreesBelow(t.child, s);
    } else if t.Branch? {
      SubtreesAllBelow(t.kids, s);
    }
  }

  lemma {:induction false} SubtreesAllBelow(kids: seq<Tree>, s: Tree)
    requires s in SubtreesAll(kids)
    ensures s.Ext? ==> s.child in SubtreesAll(kids)
    ensures s.Branch? ==> forall i | 0 <= i < |s.kids| :: s.kids[i] in SubtreesAll(kids)
    decreases kids, 0
  {
    if s in Subtrees(kids[0]) {
      SubtreesBelow(kids[0], s);
    } else {
      SubtreesAllBelow(kids[1..], s);
    }
  }

  /** All trees that occur in a run that starts with a new trie. */
  function TreesInRun(ops: seq<Op>): set<Tree> {
    set t <- {Nil} + RunTrees(Nil, ops), s <- Subtrees(t) :: s
  }

  lemma {:induction false} SubtreesWithin(kids: seq<Tree>, all: set<Tree>)
    requires forall i | 0 <= i < |kids| :: Subtrees(kids[i]) <= all
    ensures SubtreesAll(kids) <= all
  {
    if kids != [] {
      SubtreesWithin(kids[1..], all);
    }
  }

  lemma {:induction false} ClosedSubtrees(trees: set<Tree>, t: Tree)
    requires Closed(trees) && t in trees
    ensures Subtrees(t) <= trees
    decreases t
  {
    hide Closed;
    ClosedHas(trees, t);
    if t.Ext? {
      ClosedSubtrees(trees, t.child);
    } else if t.Branch? {
      forall i | 0 <= i < |t.kids| ensures Subtrees(t.kids[i]) <= trees {
        ClosedSubtrees(trees, t.kids[i]);
      }
      SubtreesWithin(t.kids, trees);
    }
  }

  lemma RunWithin(ops: seq<Op>, all: set<Tree>)
    requires Closed(all) && {Nil} + RunTrees(Nil, ops) <= all
    ensures TreesInRun(ops) <= all
  {
    hide Subtrees, RunTrees, Closed;
    forall s <- TreesInRun(ops) ensures s in all {
      var t :| t in {Nil} + RunTrees(Nil, ops) && s in Subtrees(t);
      ClosedSubtrees(all, t);
    }
  }

  lemma TreesClosed(ops: seq<Op>)
    requires forall t <- TreesInRun(ops) :: ShortNode(t)
    ensures Closed(TreesInRun(ops))
  {
    hide Subtrees, RunTrees;
    forall s <- TreesInRun(ops) ensures HasKids(TreesInRun(ops), s) {
      var t :| t in {Nil} + RunTrees(Nil, ops) && s in Subtrees(t);
      SubtreesBelow(t, s);
    }
  }

  /** The values put in that are short enough to be taken for hashes, as such. */
  function ValueHashes(ops: seq<Op>): (r: set<H256>)
    ensures |r| <= |ops|
  {
    if ops == [] then {}
    else
      var before := ValueHashes(ops[..|ops| - 1]);
      match ops[|ops| - 1]
      case Put(_, value) => if |value| <= HASH_SIZE then before + {AsHash(value)} else before
      case Erase(_) => before
      case Purge => before
  }

  lemma {:induction false} ValuesPut(ops: seq<Op>, key: Bytes)
    requires key in Applied(map[], ops)
    ensures var v := Applied(map[], ops)[key]; |v| <= HASH_SIZE ==> AsHash(v) in ValueHashes(ops)
  {
    hide AsHash;
    if ops != [] && key in Applied(map[], ops[..|ops| - 1]) {
      ValuesPut(ops[..|ops| - 1], key);
    }
  }

  lemma {:induction false} ValueHashesMore(ops: seq<Op>, i: nat)
    requires i <= |ops|
    ensures ValueHashes(ops[..i]) <= ValueHashes(ops)
  {
    hide AsHash;
    if i == |ops| {
      assert ops[..i] == ops;
    } else {
      ValueHashesMore(ops[..|ops| - 1], i);
      assert ops[..|ops| - 1][..i] == ops[..i];
    }
  }

  lemma SeparatesNodes(sha3: Hasher, ops: seq<Op>, others: set<H256>)
    requires forall t <- TreesInRun(ops) :: ShortNode(t)
    requires Separates(sha3, TreesInRun(ops), others)
    ensures ToldApart(sha3, NodesFromEmpty(sha3, ops))
    ensures forall b <- NodesFromEmpty(sha3, ops) :: sha3(b) !in others
  {
    hide Enc, ShortNode, RunTrees;
    forall b <- NodesFromEmpty(sha3, ops) ensures exists t :: t in TreesInRun(ops) && b == Enc(sha3, t) && |b| < SIZE_LIMIT {
      var t :| t in {Nil} + RunTrees(Nil, ops) && b == Enc(sha3, t);
      assert t in Subtrees(t);
      ShortSize(sha3, t);
    }
  }

  lemma NoHashInRun(sha3: Hasher, ops: seq<Op>, v: Bytes)
    requires forall b <- NodesFromEmpty(sha3, ops) :: sha3(b) !in ValueHashes(ops)
    requires |v| <= HASH_SIZE ==> AsHash(v) in ValueHashes(ops)
    ensures NoHash(sha3, NodesFromEmpty(sha3, ops), v)
  {
    hide AsHash, NodesFromEmpty, ValueHashes;
  }

  /** Whatever the run, some hash function tells all its nodes apart and takes none of its values for a hash. */
  lemma RunCanBeToldApart(ops: seq<Op>) returns (sha3: Hasher)
    requires (forall t <- TreesInRun(ops) :: ShortNode(t)) && |TreesInRun(ops)| + |ops| <= Pow256(HASH_SIZE)
    ensures ToldApart(sha3, NodesFromEmpty(sha3, ops)) && NoMistakes(sha3, NodesFromEmpty(sha3, ops), map[], ops)
  {
    hide *;
    TreesClosed(ops);
    ValueHashesFew(ops);
    sha3 := HasherFor(TreesInRun(ops), ValueHashes(ops));
    SeparatesNodes(sha3, ops, ValueHashes(ops));
    NoMistakesInRun(sha3, ops);
  }

  lemma ValueHashesFew(ops: seq<Op>)
    ensures |ValueHashes(ops)| <= |ops|
  {
  }

  lemma NoMistakesInRun(sha3: Hasher, ops: seq<Op>)
    requires forall b <- NodesFromEmpty(sha3, ops) :: sha3(b) !in ValueHashes(ops)
    ensures NoMistakes(sha3, NodesFromEmpty(sha3, ops), map[], ops)
  {
    hide NodesFromEmpty, ValueHashes, NoHash, AsHash, Applied, Alone;
    forall i, a | 0 <= i < |ops| && a in Applied(map[], ops[..i])
      ensures NoHash(sha3, NodesFromEmpty(sha3, ops), Applied(map[], ops[..i])[a])
    {
      ValuesPut(ops[..i], a);
      ValueHashesMore(ops, i);
      NoHashInRun(sha3, ops, Applied(map[], ops[..i])[a]);
    }
  }

  lemma FewHashes()
    ensures Pow256(HASH_SIZE) >= 256
  {
    assert Pow256(HASH_SIZE) == 256 * Pow256(HASH_SIZE - 1);
    hide Pow256;
  }

  // ------------------------------------------------------------------ A run of two keys

  const FIRST: Bytes := [0x01]
  const SECOND: Bytes := [0x10]

  function ExampleRun(): seq<Op> {
    [Put(FIRST, [7]), Put(SECOND, [8])]
  }

  const ONE := Leaf([0, 1], [7])
  const KID := Leaf([1], [7])
  const OTHER := Leaf([0], [8])

  /** The branch with its first slot in use, and with both. */
  function Bare(): Tree { Branch(Nils(16)[0 := KID], []) }
  function Both(): Tree { Branch(Nils(16)[0 := KID][1 := OTHER], []) }

  lemma ExampleBelow()
    ensures Formed(Bare()) && Inserted(Bare(), [1, 0], [8]) == Both()
    ensures InsertTrees(Bare(), [1, 0], [8]) == {Both(), OTHER}
  {
    var k: Nibbles := [1, 0];
    assert k[1..] == [0];
    hide Nils;
    assert Inserted(Nil, [0], [8]) == OTHER;
    assert InsertTrees(Nil, [0], [8]) == {OTHER};
  }

  lemma ExampleApart()
    ensures Formed(ONE) && Inserted(ONE, [1, 0], [8]) == Both()
    ensures InsertTrees(ONE, [1, 0], [8]) == Subtrees(Bare()) + {Both(), OTHER}
  {
    ExampleBelow();
    var k: Nibbles := [1, 0];
    assert Shared(k, ONE.key) == 0;
    assert ONE.key[1..] == [1];
    assert Branched(ONE) == Bare();
    hide Nils, Subtrees, Bare, Both;
  }

  lemma ExampleKeys()
    ensures Unpack(FIRST) == [0, 1] && Unpack(SECOND) == [1, 0]
  {
    assert Unpack([]) == [] && FIRST[1..] == [] && SECOND[1..] == [];
  }

  lemma ExampleTrees()
    ensures RunTrees(Nil, ExampleRun()) == {ONE} + (Subtrees(Bare()) + {Both(), OTHER})
  {
    ExampleKeys();
    ExampleApart();
    hide Subtrees, Bare, Both, Nils, Unpack;
    var ops := ExampleRun();
    assert ops[1..] == [Put(SECOND, [8])] && ops[1..][1..] == [];
    assert After(Nil, ops[0]) == ONE && OpTrees(Nil, ops[0]) == {ONE};
    assert OpTrees(ONE, ops[1]) == Subtrees(Bare()) + {Both(), OTHER};
    hide OpTrees, After;
    assert RunTrees(ONE, ops[1..]) == OpTrees(ONE, ops[1]) + RunTrees(After(ONE, ops[1]), []);
  }

  lemma ExampleContents()
    ensures Applied(map[], ExampleRun()) == map[FIRST := [7], SECOND := [8]]
  {
    var ops := ExampleRun();
    assert ops[..1] == [Put(FIRST, [7])] && ops[..1][..0] == [];
    assert Applied(map[], ops[..1]) == map[FIRST := [7]];
  }

  function ExampleAll(): set<Tree> {
    {Nil, ONE, KID} + {OTHER, Bare(), Both()}
  }

  lemma ExampleClosed()
    ensures Closed(ExampleAll())
  {
    var trees := ExampleAll();
    hide Nils;
    forall t <- trees ensures HasKids(trees, t) {
      if t.Branch? {
        assert t == Bare() || t == Both();
      }
    }
  }

  lemma ExampleWithin()
    ensures TreesInRun(ExampleRun()) <= ExampleAll()
  {
    ExampleTrees();
    ExampleClosed();
    hide Closed, RunTrees, Bare, Both, ExampleRun, Subtrees;
    ClosedSubtrees(ExampleAll(), Bare());
    RunWithin(ExampleRun(), ExampleAll());
  }

  lemma ExampleIsSmall()
    ensures |ExampleAll()| + |ExampleRun()| <= Pow256(HASH_SIZE)
    ensures forall t <- ExampleAll() :: ShortNode(t)
  {
    FewHashes();
    hide Pow256, Nils;
    UnionSize({Nil, ONE, KID}, {OTHER, Bare(), Both()});
  }

  lemma ExampleRemovesNothing()
    ensures Legal(ExampleRun()) && AllRemovable(map[], ExampleRun())
  {
  }

  /** With those two keys the assumptions of a run from the empty trie are met, by some hash function. */
  lemma ExampleCanBeToldApart() returns (sha3: Hasher)
    ensures Legal(ExampleRun()) && AllRemovable(map[], ExampleRun())
    ensures ToldApart(sha3, NodesFromEmpty(sha3, ExampleRun()))
    ensures NoMistakes(sha3, NodesFromEmpty(sha3, ExampleRun()), map[], ExampleRun())
    ensures Applied(map[], ExampleRun()) == map[FIRST := [7], SECOND := [8]]
  {
    hide *;
    ExampleContents();
    ExampleRemovesNothing();
    ExampleWithin();
    ExampleIsSmall();
    PartIsSmaller(TreesInRun(ExampleRun()), ExampleAll());
    sha3 := RunCanBeToldApart(ExampleRun());
  }
}
