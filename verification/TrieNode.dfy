/** Trees as nodes: a child under 32 bytes is written in place, any other by its hash (Yellow Paper, Appendix D). */
module TrieNode {
  import opened CommonData
  import opened Rlp
  import opened HexPrefix
  import opened Trie

  type H256 = h: Bytes | |h| == 32
    witness [0, 0, 0, 0, 0, 0, 0, 0, 0, 0, 0, 0, 0, 0, 0, 0, 0, 0, 0, 0, 0, 0, 0, 0, 0, 0, 0, 0, 0, 0, 0, 0]

  /** keccak256, of which nothing is assumed but what NoCollision says of the nodes that occur. */
  type Hasher = Bytes -> H256

  // ------------------------------------------------------------------ A tree as an item

  function ItemOf(sha3: Hasher, t: Tree): Item
    decreases t, 0
  {
    match t
    case Nil => EMPTY
    case Leaf(k, v) => List([Str(HexPrefixOf(k, true)), Str(v)])
    case Ext(k, c) => List([Str(HexPrefixOf(k, false)), RefOf(sha3, c)])
    case Branch(kids, v) => List(RefsOf(sha3, kids) + [Str(v)])
  }

  function Enc(sha3: Hasher, t: Tree): Bytes
    decreases t, 1
  {
    Encode(ItemOf(sha3, t))
  }

  /** How a node stands in its parent: what streamNode appends for it. */
  function RefOf(sha3: Hasher, t: Tree): Item
    decreases t, 2
  {
    if |Enc(sha3, t)| < 32 then ItemOf(sha3, t) else Str(sha3(Enc(sha3, t)))
  }

  function RefsOf(sha3: Hasher, kids: seq<Tree>): (refs: seq<Item>)
    ensures |refs| == |kids|
    ensures forall i | 0 <= i < |kids| :: refs[i] == RefOf(sha3, kids[i])
    decreases kids
  {
    if kids == [] then [] else [RefOf(sha3, kids[0])] + RefsOf(sha3, kids[1..])
  }

  /** Where things stand in a node: the key's first byte tells a leaf from an extension, and slot 16 is the value. */
  lemma NodeForm(sha3: Hasher, t: Tree)
    ensures t.Nil? ==> Enc(sha3, t) == [0x80]
    ensures TwoItem(t) ==>
              && ItemOf(sha3, t).List? && |ItemOf(sha3, t).items| == 2
              && var key := ItemOf(sha3, t).items[0];
              && key.Str? && |key.data| == |t.key| / 2 + 1
              && if t.Leaf? then 0x20 <= key.data[0] <= 0x3f else 0x00 <= key.data[0] <= 0x1f
    ensures t.Leaf? ==> ItemOf(sha3, t).items[1] == Str(t.value)
    ensures t.Ext? ==> ItemOf(sha3, t).items[1] == RefOf(sha3, t.child)
    ensures t.Branch? && |t.kids| == 16 ==>
              && ItemOf(sha3, t).List? && |ItemOf(sha3, t).items| == 17 && ItemOf(sha3, t).items[16] == Str(t.value)
              && forall i | 0 <= i < 16 :: ItemOf(sha3, t).items[i] == RefOf(sha3, t.kids[i])
    ensures RefOf(sha3, t) == if |Enc(sha3, t)| <= 31 then ItemOf(sha3, t) else Str(sha3(Enc(sha3, t)))
  {
    if TwoItem(t) {
      HexPrefixBytes(t.key, t.Leaf?);
    }
    hide HexPrefixOf, RefOf;
  }

  // ------------------------------------------------------------------ Which nodes occur

  /** A tree and all trees below it. */
  function Subtrees(t: Tree): set<Tree>
    decreases t
  {
    {t} +
    match t
    case Nil => {}
    case Leaf(_, _) => {}
    case Ext(_, c) => Subtrees(c)
    case Branch(kids, _) => SubtreesAll(kids)
  }

  function SubtreesAll(kids: seq<Tree>): set<Tree>
    decreases kids
  {
    if kids == [] then {} else Subtrees(kids[0]) + SubtreesAll(kids[1..])
  }

  /** The bytes of some nodes. */
  function Encs(sha3: Hasher, trees: set<Tree>): set<Bytes> {
    set t <- trees :: Enc(sha3, t)
  }

  lemma EncsSum(sha3: Hasher, a: set<Tree>, b: set<Tree>)
    ensures Encs(sha3, a + b) == Encs(sha3, a) + Encs(sha3, b)
  {
    hide Enc;
  }

  lemma EncsPart(sha3: Hasher, a: set<Tree>, b: set<Tree>)
    requires a <= b
    ensures Encs(sha3, a) <= Encs(sha3, b)
  {
    hide Enc;
  }

  /** The node and all nodes below it are among the given ones. */
  predicate Known(sha3: Hasher, nodes: set<Bytes>, t: Tree)
    decreases t
  {
    && Enc(sha3, t) in nodes
    && match t
       case Nil => true
       case Leaf(_, v) => v != []
       case Ext(k, c) => k != [] && c != Nil && Known(sha3, nodes, c)
       case Branch(_, _) => |t.kids| == 16 && forall i | 0 <= i < 16 :: Known(sha3, nodes, t.kids[i])
  }

  lemma {:induction false} KnownFormed(sha3: Hasher, nodes: set<Bytes>, t: Tree)
    requires Known(sha3, nodes, t)
    ensures Formed(t)
    decreases t
  {
    if t.Ext? {
      KnownFormed(sha3, nodes, t.child);
    } else if t.Branch? {
      forall i | 0 <= i < 16 ensures Formed(t.kids[i]) { KnownFormed(sha3, nodes, t.kids[i]); }
    }
  }

  lemma {:induction false} KnownMore(sha3: Hasher, nodes: set<Bytes>, more: set<Bytes>, t: Tree)
    requires Known(sha3, nodes, t) && nodes <= more
    ensures Known(sha3, more, t)
    decreases t
  {
    if t.Ext? {
      KnownMore(sha3, nodes, more, t.child);
    } else if t.Branch? {
      forall i | 0 <= i < 16 ensures Known(sha3, more, t.kids[i]) { KnownMore(sha3, nodes, more, t.kids[i]); }
    }
  }

  lemma {:induction false} SubtreesOfKid(kids: seq<Tree>, i: nat)
    requires i < |kids|
    ensures Subtrees(kids[i]) <= SubtreesAll(kids)
  {
    if i > 0 {
      SubtreesOfKid(kids[1..], i - 1);
    }
  }

  /** A tree is known where the nodes of all its subtrees are. */
  lemma {:induction false} KnownIs(sha3: Hasher, nodes: set<Bytes>, t: Tree)
    requires Formed(t) && Encs(sha3, Subtrees(t)) <= nodes
    ensures Known(sha3, nodes, t)
    decreases t
  {
    assert t in Subtrees(t);
    assert Enc(sha3, t) in Encs(sha3, Subtrees(t));
    if t.Ext? {
      EncsPart(sha3, Subtrees(t.child), Subtrees(t));
      KnownIs(sha3, nodes, t.child);
    } else if t.Branch? {
      forall i | 0 <= i < 16 ensures Known(sha3, nodes, t.kids[i]) {
        SubtreesOfKid(t.kids, i);
        EncsPart(sha3, Subtrees(t.kids[i]), Subtrees(t));
        KnownIs(sha3, nodes, t.kids[i]);
      }
    }
  }

  /** No two different of these nodes have the same hash. */
  ghost predicate NoCollision(sha3: Hasher, nodes: set<Bytes>) {
    forall a, b :: a in nodes && b in nodes && sha3(a) == sha3(b) ==> a == b
  }

  /** The empty node is there, no node is too long for the reader, and no two have the same hash. */
  ghost predicate ToldApart(sha3: Hasher, nodes: set<Bytes>) {
    && NoCollision(sha3, nodes) && Enc(sha3, Nil) in nodes
    && forall b <- nodes :: |b| < SIZE_LIMIT
  }

  // ------------------------------------------------------------------ Sizes

  lemma StringSize(d: Bytes)
    requires |d| < SIZE_LIMIT
    ensures |Encode(Str(d))| <= |d| + 9
    ensures |d| == 32 ==> |Encode(Str(d))| == 33
  {
    if |d| >= IMMEDIATE {
      LongHeader(DATA_START, |d|);
    }
  }

  lemma RefSize(sha3: Hasher, t: Tree)
    ensures |Encode(RefOf(sha3, t))| <= 33
  {
    if |Enc(sha3, t)| >= 32 {
      StringSize(sha3(Enc(sha3, t)));
    }
  }

  lemma {:induction false} EncodeAllBound(xs: seq<Item>, m: nat)
    requires forall i | 0 <= i < |xs| :: |Encode(xs[i])| <= m
    ensures |EncodeAll(xs)| <= m * |xs|
  {
    hide Encode;
    if xs != [] {
      EncodeAllBound(xs[1..], m);
      assert |EncodeAll(xs)| == |Encode(xs[0])| + |EncodeAll(xs[1..])|;
      assert m * |xs| == m + m * |xs[1..]|;
    }
  }

  lemma EncodeTwo(a: Item, b: Item)
    ensures EncodeAll([a, b]) == Encode(a) + Encode(b)
  {
    hide Encode;
    assert [a, b][1..] == [b];
    EncodeAllOne(b);
  }

  /** Strings and vectors do not grow beyond this. */
  const MAX_SIZE := 0x4000_0000_0000_0000

  /** No string in the node itself grows beyond that. */
  predicate ShortNode(t: Tree) {
    match t
    case Nil => true
    case Leaf(k, v) => |k| < MAX_SIZE && |v| < MAX_SIZE
    case Ext(k, _) => |k| < MAX_SIZE
    case Branch(_, v) => |t.kids| == 16 && |v| < MAX_SIZE
  }

  lemma ShortNodeFits(sha3: Hasher, t: Tree)
    requires ShortNode(t)
    ensures |PayloadOf(ItemOf(sha3, t))| < SIZE_LIMIT - 9
  {
    match t
    case Nil =>
    case Leaf(k, v) =>
      HexPrefixRoundTrip(k, true);
      StringSize(HexPrefixOf(k, true));
      StringSize(v);
      hide Encode, HexPrefixOf;
      EncodeTwo(Str(HexPrefixOf(k, true)), Str(v));
    case Ext(k, c) =>
      HexPrefixRoundTrip(k, false);
      StringSize(HexPrefixOf(k, false));
      RefSize(sha3, c);
      hide Encode, HexPrefixOf, RefOf;
      EncodeTwo(Str(HexPrefixOf(k, false)), RefOf(sha3, c));
    case Branch(kids, v) =>
      hide Encode, RefOf;
      var refs := RefsOf(sha3, kids);
      forall i | 0 <= i < |refs| ensures |Encode(refs[i])| <= 33 { RefSize(sha3, kids[i]); }
      EncodeAllBound(refs, 33);
      StringSize(v);
      EncodeAllConcat(refs, [Str(v)]);
      EncodeAllOne(Str(v));
  }

  /** Reading the bytes of a node gives back its item. */
  lemma NodeRead(sha3: Hasher, t: Tree)
    requires |Enc(sha3, t)| < SIZE_LIMIT
    ensures Walk(Enc(sha3, t)) == Some(ItemOf(sha3, t))
  {
    EncodeThenWalk(ItemOf(sha3, t));
  }

  // ------------------------------------------------------------------ Hashes a tree refers to

  /** The hash a node is stored under, if it is not written in place. */
  function Own(sha3: Hasher, t: Tree): multiset<H256> {
    if |Enc(sha3, t)| >= 32 then multiset{sha3(Enc(sha3, t))} else multiset{}
  }

  /** The hashes the unfolded tree below a node refers to, as often as it does. */
  function Below(sha3: Hasher, t: Tree): multiset<H256>
    decreases t
  {
    match t
    case Nil => multiset{}
    case Leaf(_, _) => multiset{}
    case Ext(_, c) => Own(sha3, c) + Below(sha3, c)
    case Branch(kids, _) => BelowAll(sha3, kids)
  }

  function BelowAll(sha3: Hasher, kids: seq<Tree>): multiset<H256>
    decreases kids
  {
    if kids == [] then multiset{} else Own(sha3, kids[0]) + Below(sha3, kids[0]) + BelowAll(sha3, kids[1..])
  }

  function Refs(sha3: Hasher, t: Tree): multiset<H256> {
    Own(sha3, t) + Below(sha3, t)
  }

  lemma NilRefs(sha3: Hasher)
    ensures Refs(sha3, Nil) == Own(sha3, Nil) == multiset{}
  {
    assert Enc(sha3, Nil) == [DATA_START];
  }

  /** One child's share of the references of a branch. */
  lemma {:induction false} BelowSplit(sha3: Hasher, kids: seq<Tree>, i: nat)
    requires i < |kids|
    ensures BelowAll(sha3, kids) == Refs(sha3, kids[i]) + BelowAll(sha3, kids[i := Nil])
  {
    NilRefs(sha3);
    hide Own;
    if i == 0 {
      assert kids[0 := Nil][1..] == kids[1..];
    } else {
      BelowSplit(sha3, kids[1..], i - 1);
      assert kids[i := Nil][1..] == kids[1..][i - 1 := Nil];
    }
  }

  lemma BelowReplaced(sha3: Hasher, kids: seq<Tree>, i: nat, t: Tree)
    requires i < |kids|
    ensures BelowAll(sha3, kids[i := t]) == Refs(sha3, t) + BelowAll(sha3, kids[i := Nil])
  {
    hide Own, Below, BelowAll, Refs;
    BelowSplit(sha3, kids[i := t], i);
    assert kids[i := t][i := Nil] == kids[i := Nil];
  }

  lemma {:induction false} BelowPrefix(sha3: Hasher, kids: seq<Tree>, i: nat)
    requires i < |kids|
    ensures BelowAll(sha3, kids[..i + 1]) == BelowAll(sha3, kids[..i]) + Own(sha3, kids[i]) + Below(sha3, kids[i])
  {
    hide Own;
    if i == 0 {
      assert kids[..1][1..] == [];
    } else {
      BelowPrefix(sha3, kids[1..], i - 1);
      assert kids[..i + 1][1..] == kids[1..][..i] && kids[..i][1..] == kids[1..][..i - 1];
    }
  }

  lemma {:induction false} BelowNone(sha3: Hasher, kids: seq<Tree>)
    requires forall i | 0 <= i < |kids| :: kids[i] == Nil
    ensures BelowAll(sha3, kids) == multiset{}
  {
    if kids != [] {
      NilRefs(sha3);
      BelowNone(sha3, kids[1..]);
    }
  }

  // ------------------------------------------------------------------ The table of nodes

  datatype Entry = Entry(bytes: Bytes, count: nat)

  type Table = map<H256, Entry>

  /** The node is in the table under its hash, unless it is written in place. */
  predicate Kept(sha3: Hasher, main: Table, t: Tree) {
    |Enc(sha3, t)| >= 32 ==> sha3(Enc(sha3, t)) in main && main[sha3(Enc(sha3, t))].bytes == Enc(sha3, t)
  }

  /** Every node below t is in the table. */
  predicate Held(sha3: Hasher, main: Table, t: Tree)
    decreases t
  {
    match t
    case Nil => true
    case Leaf(_, _) => true
    case Ext(_, c) => Kept(sha3, main, c) && Held(sha3, main, c)
    case Branch(_, _) =>
      forall i | 0 <= i < |t.kids| :: Kept(sha3, main, t.kids[i]) && Held(sha3, main, t.kids[i])
  }

  /** The later table still has all the bytes of the earlier one. */
  predicate Grows(earlier: Table, later: Table) {
    forall h <- earlier :: h in later && later[h].bytes == earlier[h].bytes
  }

  lemma GrowsSame(a: Table)
    ensures Grows(a, a)
  {
  }

  lemma GrowsOn(a: Table, b: Table, c: Table)
    requires Grows(a, b) && Grows(b, c)
    ensures Grows(a, c)
  {
  }

  /** Every entry is one of the nodes, under its own hash, and can be read. */
  ghost predicate Sound(sha3: Hasher, nodes: set<Bytes>, main: Table) {
    forall h <- main :: h == sha3(main[h].bytes) && main[h].bytes in nodes && main[h].bytes != [] && Walk(main[h].bytes).Some?
  }

  /** The two tables have the same nodes, if not the same counts. */
  predicate SameNodes(a: Table, b: Table) {
    a.Keys == b.Keys && forall h <- a :: a[h].bytes == b[h].bytes
  }

  lemma {:induction false} HeldGrows(sha3: Hasher, earlier: Table, later: Table, t: Tree)
    requires Held(sha3, earlier, t) && Grows(earlier, later)
    ensures Held(sha3, later, t)
    decreases t
  {
    if t.Ext? {
      HeldGrows(sha3, earlier, later, t.child);
    } else if t.Branch? {
      forall i | 0 <= i < |t.kids| ensures Kept(sha3, later, t.kids[i]) && Held(sha3, later, t.kids[i]) {
        HeldGrows(sha3, earlier, later, t.kids[i]);
      }
    }
  }

  // ------------------------------------------------------------------ From nodes back to trees

  /** Where hashes do not collide, the reference to a node determines the node's item. */
  lemma RefDetermines(sha3: Hasher, s: Tree, t: Tree, nodes: set<Bytes>)
    requires Known(sha3, nodes, s) && Known(sha3, nodes, t) && ToldApart(sha3, nodes)
    requires RefOf(sha3, s) == RefOf(sha3, t)
    ensures ItemOf(sha3, s) == ItemOf(sha3, t)
  {
    if |Enc(sha3, s)| >= 32 && |Enc(sha3, t)| >= 32 {
      EncodeInjective(ItemOf(sha3, s), ItemOf(sha3, t));
    } else if |Enc(sha3, s)| >= 32 {
      InlineIsNoHash(sha3, t, Enc(sha3, s));
    } else if |Enc(sha3, t)| >= 32 {
      InlineIsNoHash(sha3, s, Enc(sha3, t));
    }
  }

  lemma InlineIsNoHash(sha3: Hasher, t: Tree, b: Bytes)
    ensures ItemOf(sha3, t) != Str(sha3(b))
  {
  }

  /** The item of a node determines the whole tree below it. */
  lemma {:induction false} ItemDetermines(sha3: Hasher, s: Tree, t: Tree, nodes: set<Bytes>)
    requires Known(sha3, nodes, s) && Known(sha3, nodes, t) && ToldApart(sha3, nodes)
    requires ItemOf(sha3, s) == ItemOf(sha3, t)
    ensures s == t
    decreases s
  {
    hide ToldApart, HexPrefixOf, RefOf;
    if TwoItem(s) {
      var x, y := ItemOf(sha3, s).items, ItemOf(sha3, t).items;
      assert |x| == 2 && |y| == 2;
      assert TwoItem(t);
      assert x[0] == y[0] && x[1] == y[1];
      HexPrefixInjective(s.key, s.Leaf?, t.key, t.Leaf?);
      if s.Ext? {
        RefDetermines(sha3, s.child, t.child, nodes);
        ItemDetermines(sha3, s.child, t.child, nodes);
      }
    } else if s.Branch? {
      BranchDetermined(sha3, s, t);
      forall i | 0 <= i < 16 ensures s.kids[i] == t.kids[i] {
        RefDetermines(sha3, s.kids[i], t.kids[i], nodes);
        ItemDetermines(sha3, s.kids[i], t.kids[i], nodes);
      }
      assert s.kids == t.kids;
    }
  }

  /** Where hashes do not collide, a hash determines the whole tree below the node. */
  lemma HashDetermines(sha3: Hasher, s: Tree, t: Tree, nodes: set<Bytes>)
    requires Known(sha3, nodes, s) && Known(sha3, nodes, t) && ToldApart(sha3, nodes)
    requires sha3(Enc(sha3, s)) == sha3(Enc(sha3, t))
    ensures s == t
  {
    EncodeInjective(ItemOf(sha3, s), ItemOf(sha3, t));
    ItemDetermines(sha3, s, t, nodes);
  }

  lemma BranchDetermined(sha3: Hasher, s: Tree, t: Tree)
    requires s.Branch? && |s.kids| == 16 && (t.Branch? ==> |t.kids| == 16) && ItemOf(sha3, s) == ItemOf(sha3, t)
    ensures t.Branch? && s.value == t.value
    ensures forall i | 0 <= i < 16 :: RefOf(sha3, s.kids[i]) == RefOf(sha3, t.kids[i])
  {
    hide RefOf, HexPrefixOf;
    var x, y := ItemOf(sha3, s).items, ItemOf(sha3, t).items;
    assert |x| == 17 && |y| == 17;
    assert t.Branch?;
    assert x[16] == Str(s.value) && y[16] == Str(t.value);
    forall i | 0 <= i < 16 ensures RefOf(sha3, s.kids[i]) == RefOf(sha3, t.kids[i]) {
      assert x[i] == RefOf(sha3, s.kids[i]) && y[i] == RefOf(sha3, t.kids[i]);
    }
  }

  // ------------------------------------------------------------------ Nodes that never count

  /** The hash is that of a canonical tree's node. */
  ghost predicate OfCanonical(sha3: Hasher, nodes: set<Bytes>, h: H256) {
    exists c :: Canonical(c) && Enc(sha3, c) in nodes && sha3(Enc(sha3, c)) == h
  }

  ghost predicate Counted(sha3: Hasher, nodes: set<Bytes>, refs: multiset<H256>) {
    forall h <- refs :: OfCanonical(sha3, nodes, h)
  }

  /** All that is below the node is canonical, if not the node itself. */
  ghost predicate KidsCanonical(t: Tree) {
    match t
    case Nil => true
    case Leaf(_, _) => true
    case Ext(_, c) => Canonical(c)
    case Branch(_, _) => |t.kids| == 16 && forall i | 0 <= i < 16 :: Canonical(t.kids[i])
  }

  lemma CountedSum(sha3: Hasher, nodes: set<Bytes>, a: multiset<H256>, b: multiset<H256>)
    requires Counted(sha3, nodes, a) && Counted(sha3, nodes, b)
    ensures Counted(sha3, nodes, a + b)
  {
    hide OfCanonical;
  }

  lemma OwnCounted(sha3: Hasher, nodes: set<Bytes>, t: Tree)
    requires Canonical(t) && Enc(sha3, t) in nodes
    ensures Counted(sha3, nodes, Own(sha3, t))
  {
    hide Enc, Canonical;
    assert OfCanonical(sha3, nodes, sha3(Enc(sha3, t)));
  }

  lemma {:induction false} BelowCounted(sha3: Hasher, nodes: set<Bytes>, t: Tree)
    requires Known(sha3, nodes, t) && KidsCanonical(t)
    ensures Counted(sha3, nodes, Below(sha3, t))
    decreases t, 1
  {
    hide Enc, Own, OfCanonical;
    if t.Ext? {
      OwnCounted(sha3, nodes, t.child);
      BelowCounted(sha3, nodes, t.child);
      CountedSum(sha3, nodes, Own(sha3, t.child), Below(sha3, t.child));
    } else if t.Branch? {
      KidsCounted(sha3, nodes, t.kids);
    }
  }

  lemma {:induction false} KidsCounted(sha3: Hasher, nodes: set<Bytes>, kids: seq<Tree>)
    requires forall i | 0 <= i < |kids| :: Known(sha3, nodes, kids[i]) && Canonical(kids[i])
    ensures Counted(sha3, nodes, BelowAll(sha3, kids))
    decreases kids, 0
  {
    hide Enc, Own, OfCanonical;
    if kids != [] {
      var c := kids[0];
      OwnCounted(sha3, nodes, c);
      BelowCounted(sha3, nodes, c);
      KidsCounted(sha3, nodes, kids[1..]);
      CountedSum(sha3, nodes, Own(sha3, c), Below(sha3, c));
      CountedSum(sha3, nodes, Own(sha3, c) + Below(sha3, c), BelowAll(sha3, kids[1..]));
    }
  }

  /** A branch with one slot in use, as it is for a moment while keys part, is never counted. */
  lemma NeverCounted(sha3: Hasher, nodes: set<Bytes>, b: Tree, refs: multiset<H256>)
    requires b.Branch? && |b.kids| == 16 && !TwoUsed(b.kids, b.value) && Enc(sha3, b) in nodes
    requires ToldApart(sha3, nodes) && Counted(sha3, nodes, refs)
    ensures sha3(Enc(sha3, b)) !in refs
  {
    if sha3(Enc(sha3, b)) in refs {
      var c :| Canonical(c) && Enc(sha3, c) in nodes && sha3(Enc(sha3, c)) == sha3(Enc(sha3, b));
      EncodeInjective(ItemOf(sha3, b), ItemOf(sha3, c));
      BranchDetermined(sha3, b, c);
      hide Enc, ItemOf, ToldApart, Counted, TwoUsed;
      forall i | 0 <= i < 16 ensures c.kids[i] != Nil ==> b.kids[i] != Nil {
        RefOfNil(sha3, c.kids[i]);
      }
      MoreUsed(c.kids, c.value, b.kids, b.value);
    }
  }

  lemma RefOfNil(sha3: Hasher, c: Tree)
    ensures RefOf(sha3, c) == RefOf(sha3, Nil) <==> c == Nil
  {
    assert Enc(sha3, Nil) == [DATA_START];
  }
}
