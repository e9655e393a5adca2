/** GenericTrieDB: inserting and removing node by node over a reference-counted store. */
module TrieDB {
  import opened CommonData
  import opened Rlp
  import opened HexPrefix
  import opened Trie
  import opened TrieNode
  import opened StateCacheDB
  import opened TrieMap
  import opened TrieSteps
  import opened TrieRemoval

  // ------------------------------------------------------------------ Reading nodes as items

  /** RLP::isEmpty: an empty string or an empty list. */
  predicate IsEmptyItem(x: Item) { x == EMPTY || x == List([]) }

  predicate Keyed(x: Item) {
    x.List? && |x.items| == 2 && x.items[0].Str? && x.items[0].data != []
  }

  /** keyOf and isLeaf, of a two-item node. */
  function KeyOfItem(x: Item): Nibbles
    requires Keyed(x)
  {
    KeyOf(x.items[0].data).Key()
  }

  predicate IsLeafItem(x: Item)
    requires Keyed(x)
  {
    IsLeaf(x.items[0].data)
  }

  /** What the code can tell about a node from its item. */
  lemma NodeShape(sha3: Hasher, t: Tree)
    requires t.Branch? ==> |t.kids| == 16
    ensures var x := ItemOf(sha3, t);
            && (t.Nil? <==> IsEmptyItem(x))
            && (TwoItem(t) <==> x.List? && |x.items| == 2)
            && (t.Branch? <==> x.List? && |x.items| == 17)
            && (TwoItem(t) ==> Keyed(x) && KeyOfItem(x) == t.key && IsLeafItem(x) == t.Leaf?)
            && (t.Leaf? ==> x.items[1] == Str(t.value))
            && (t.Ext? ==> x.items[1] == RefOf(sha3, t.child))
  {
    if TwoItem(t) {
      HexPrefixRoundTrip(t.key, t.Leaf?);
    }
  }

  lemma BranchShape(sha3: Hasher, t: Tree)
    requires t.Branch? && |t.kids| == 16
    ensures var x := ItemOf(sha3, t);
            && x.List? && |x.items| == 17 && x.items[16] == Str(t.value)
            && forall i | 0 <= i < 16 :: x.items[i] == RefOf(sha3, t.kids[i])
  {
  }

  /** What the code can tell about a child from the reference to it. */
  lemma RefShape(sha3: Hasher, c: Tree)
    requires c.Branch? ==> |c.kids| == 16
    ensures var x := RefOf(sha3, c);
            && (c.Nil? <==> IsEmptyItem(x))
            && (x.List? || c.Nil? ==> x == ItemOf(sha3, c) && |Enc(sha3, c)| < 32)
            && (x.Str? && !c.Nil? ==> |Enc(sha3, c)| >= 32 && x.data == sha3(Enc(sha3, c)))
  {
    NodeShape(sha3, c);
    assert Enc(sha3, Nil) == [DATA_START];
  }

  // ------------------------------------------------------------------ References below a branched node

  lemma BelowBranched(sha3: Hasher, t: Tree)
    requires Formed(t) && TwoItem(t)
    ensures t.key == [] ==> Below(sha3, Branched(t)) == multiset{}
    ensures t.key != [] ==> Below(sha3, Branched(t)) == Refs(sha3, Branched(t).kids[t.key[0]])
  {
    if t.key == [] {
      BelowNone(sha3, Nils(16));
    } else {
      OneKid(sha3, Nils(16), Branched(t).kids[t.key[0]], t.key[0]);
    }
  }

  lemma OneKid(sha3: Hasher, kids: seq<Tree>, c: Tree, i: nat)
    requires |kids| == 16 && i < 16 && forall j | 0 <= j < 16 && j != i :: kids[j] == Nil
    ensures BelowAll(sha3, kids[i := c]) == Refs(sha3, c)
  {
    hide Own, Below;
    BelowReplaced(sha3, kids, i, c);
    BelowNone(sha3, kids[i := Nil]);
  }

  // ------------------------------------------------------------------ The trie

  lemma InSum(a: multiset<H256>, b: multiset<H256>)
    ensures b <= a + b
  {
  }

  lemma RootSwap(from: H256, to: H256, below: multiset<H256>)
    ensures multiset{from} + below - multiset{from} + multiset{to} == multiset{to} + below
    ensures multiset{} + below + multiset{to} == multiset{to} + below
  {
  }

  /** What a run makes of a plain map. */
  function Applied(m: map<Bytes, Bytes>, ops: seq<Op>): map<Bytes, Bytes> {
    if ops == [] then m
    else
      var before := Applied(m, ops[..|ops| - 1]);
      match ops[|ops| - 1]
      case Put(key, value) => before[key := value]
      case Erase(key) => before - {key}
      case Purge => before
  }

  lemma AppliedStep(m: map<Bytes, Bytes>, ops: seq<Op>, i: nat)
    requires i < |ops|
    ensures var before := Applied(m, ops[..i]);
            Applied(m, ops[..i + 1]) == match ops[i]
              case Put(key, value) => before[key := value]
              case Erase(key) => before - {key}
              case Purge => before
  {
    assert ops[..i + 1][..i] == ops[..i];
  }

  /** Whether every removal of a run finds a map that lets it. */
  ghost predicate AllRemovable(m: map<Bytes, Bytes>, ops: seq<Op>) {
    forall i | 0 <= i < |ops| :: ops[i].Erase? ==> Removable(Applied(m, ops[..i]), ops[i].key)
  }

  /** toHash: up to 32 bytes, filled with zeros in front. */
  function AsHash(d: Bytes): H256
    requires |d| <= HASH_SIZE
  {
    Zeros(HASH_SIZE - |d|) + d
  }

  /** A value that could be taken for the hash of one of the nodes is not that hash. */
  predicate NoHash(sha3: Hasher, nodes: set<Bytes>, d: Bytes) {
    d != [] && |d| <= HASH_SIZE ==> forall b <- nodes :: sha3(b) != AsHash(d)
  }

  /** The bytes are those of a leaf or an extension. */
  predicate IsPair(b: Bytes) {
    var x := Walk(b);
    x.Some? && x.value.List? && |x.value.items| == 2
  }

  /**
   * Taken for a hash, the value is that of a leaf or an extension that a lookup still sees once some references are gone:
   * with references enforced, a node that is counted more often than that.
   */
  predicate Mistaken(main: Table, enforced: bool, gone: multiset<H256>, d: Bytes) {
    d != [] && |d| <= HASH_SIZE &&
    var h := AsHash(d);
    h in main && (enforced ==> main[h].count > gone[h]) && IsPair(main[h].bytes)
  }

  /** The value that removal leaves alone in the tree is so mistaken; the leaf with the key has been counted down by then. */
  predicate MistakenBelow(sha3: Hasher, main: Table, enforced: bool, t: Tree, k: Nibbles)
    requires Formed(t) && Get(t, k) != []
  {
    Mistaken(main, enforced, Own(sha3, Gone(t, k)), Stake(t, k))
  }

  /** The same told by the map. */
  ghost predicate MistakenFor(sha3: Hasher, main: Table, enforced: bool, m: map<Bytes, Bytes>, key: Bytes) {
    key in m && exists a <- m :: Alone(m, a, key) && Mistaken(main, enforced, Own(sha3, LeafBehind(m, a, key)), m[a])
  }

  /** What the store sees of a value while the branch and the leaf under it are counted down. */
  lemma MistakenLater(before: Table, after: Table, refs: multiset<H256>, branch: multiset<H256>, leaf: multiset<H256>,
                      enforced: bool, d: Bytes)
    requires SameNodes(before, after) && Counts(after, refs) && Counts(before, refs + branch + leaf)
    requires forall h <- before :: IsPair(before[h].bytes) ==> h !in branch
    ensures Mistaken(after, enforced, multiset{}, d) <==> Mistaken(before, enforced, leaf, d)
  {
    if d != [] && |d| <= HASH_SIZE {
      hide IsPair, AsHash;
      var h := AsHash(d);
      CountsAt(after, refs, h);
      CountsAt(before, refs + branch + leaf, h);
      hide Counts, CountOf, SameNodes;
      assert (refs + branch + leaf)[h] == refs[h] + branch[h] + leaf[h];
    }
  }

  lemma CountsAt(main: Table, refs: multiset<H256>, h: H256)
    requires Counts(main, refs)
    ensures h in main ==> main[h].count == refs[h]
  {
  }

  lemma NotMistaken(sha3: Hasher, nodes: set<Bytes>, main: Table, enforced: bool, m: map<Bytes, Bytes>, key: Bytes)
    requires Sound(sha3, nodes, main) && NoMistake(sha3, nodes, m, key)
    ensures !MistakenFor(sha3, main, enforced, m, key)
  {
    hide IsPair, AsHash, Alone, Own;
  }

  /** No value that is left alone when a key is removed is the hash of one of the nodes. */
  ghost predicate NoMistake(sha3: Hasher, nodes: set<Bytes>, m: map<Bytes, Bytes>, key: Bytes) {
    key in m ==> forall a <- m :: Alone(m, a, key) ==> NoHash(sha3, nodes, m[a])
  }

  ghost predicate NoMistakes(sha3: Hasher, nodes: set<Bytes>, m: map<Bytes, Bytes>, ops: seq<Op>) {
    forall i | 0 <= i < |ops| :: ops[i].Erase? ==> NoMistake(sha3, nodes, Applied(m, ops[..i]), ops[i].key)
  }

  /** The keys a run is given. */
  function KeysIn(ops: seq<Op>): set<Bytes> {
    set o <- ops | !o.Purge? :: o.key
  }

  lemma {:induction false} AppliedKeys(m: map<Bytes, Bytes>, ops: seq<Op>, i: nat)
    requires i <= |ops|
    ensures Applied(m, ops[..i]).Keys <= m.Keys + KeysIn(ops)
  {
    if i > 0 {
      AppliedKeys(m, ops, i - 1);
      AppliedStep(m, ops, i - 1);
      assert ops[i - 1] in ops;
    }
  }

  /** Where no key begins another, as with keys of one length, every removal goes through and no value is taken for a hash. */
  lemma PrefixFreeRun(sha3: Hasher, nodes: set<Bytes>, m: map<Bytes, Bytes>, ops: seq<Op>)
    requires forall a, b :: a in m.Keys + KeysIn(ops) && b in m.Keys + KeysIn(ops) ==> !(a < b)
    ensures AllRemovable(m, ops) && NoMistakes(sha3, nodes, m, ops)
  {
    hide Applied, NoHash, Removable;
    forall i | 0 <= i < |ops| && ops[i].Erase?
      ensures Removable(Applied(m, ops[..i]), ops[i].key) && NoMistake(sha3, nodes, Applied(m, ops[..i]), ops[i].key)
    {
      AppliedKeys(m, ops, i);
      assert ops[i] in ops && ops[i].key in KeysIn(ops);
      var before := Applied(m, ops[..i]);
      assert forall a <- before :: a in m.Keys + KeysIn(ops);
      PrefixFreeRemovable(before, ops[i].key);
    }
  }

  /** Values that are put in are there. */
  predicate Legal(ops: seq<Op>) {
    forall o <- ops :: o.Put? ==> o.value != []
  }

  // ------------------------------------------------------------------ Runs

  /** An operation goes through unless it is a removal that the map does not let, or that takes a value for a hash. */
  ghost predicate GoesThrough(sha3: Hasher, main: Table, enforced: bool, m: map<Bytes, Bytes>, o: Op) {
    o.Erase? ==> Removable(m, o.key) && !MistakenFor(sha3, main, enforced, m, o.key)
  }

  /** Nodes leave the store by a purge only, which takes just those that do not count. */
  predicate Leads(o: Op, before: Table, after: Table) {
    if o.Purge? then after == map h | h in before && before[h].count > 0 :: before[h] else Grows(before, after)
  }

  /** All nodes of the tree are there, and the counts are those of its root and of the hashes in the unfolded tree. */
  ghost predicate StoreOf(sha3: Hasher, nodes: set<Bytes>, main: Table, t: Tree) {
    var root := sha3(Enc(sha3, t));
    && Sound(sha3, nodes, main) && Held(sha3, main, t)
    && root in main && main[root].bytes == Enc(sha3, t)
    && Counts(main, multiset{root} + Below(sha3, t))
  }

  /** The stores of a run: what it starts with, and what each operation that went through leaves. */
  ghost predicate StoresOfRun(sha3: Hasher, nodes: set<Bytes>, enforced: bool, t: Tree, m: map<Bytes, Bytes>, ops: seq<Op>,
                              stores: seq<Table>) {
    && 0 < |stores| <= |ops| + 1
    && (forall i | 0 <= i < |stores| :: StoreOf(sha3, nodes, stores[i], AfterAll(t, ops[..i])))
    && forall i | 0 <= i < |stores| - 1 ::
         && GoesThrough(sha3, stores[i], enforced, Applied(m, ops[..i]), ops[i])
         && Leads(ops[i], stores[i], stores[i + 1])
  }

  lemma NothingDone(t: Tree, m: map<Bytes, Bytes>, ops: seq<Op>)
    ensures Applied(m, ops[..0]) == m && AfterAll(t, ops[..0]) == t && ops[0..] == ops && ops[..|ops|] == ops
  {
  }

  lemma FirstStore(sha3: Hasher, nodes: set<Bytes>, enforced: bool, t: Tree, m: map<Bytes, Bytes>, ops: seq<Op>, main: Table)
    requires StoreOf(sha3, nodes, main, AfterAll(t, ops[..0]))
    ensures StoresOfRun(sha3, nodes, enforced, t, m, ops, [main])
  {
    hide StoreOf, AfterAll;
  }

  lemma OneMoreStore(sha3: Hasher, nodes: set<Bytes>, enforced: bool, t: Tree, m: map<Bytes, Bytes>, ops: seq<Op>,
                     stores: seq<Table>, next: Table)
    requires StoresOfRun(sha3, nodes, enforced, t, m, ops, stores) && |stores| <= |ops|
    requires StoreOf(sha3, nodes, next, AfterAll(t, ops[..|stores|]))
    requires var i := |stores| - 1;
             && GoesThrough(sha3, stores[i], enforced, Applied(m, ops[..i]), ops[i])
             && Leads(ops[i], stores[i], next)
    ensures StoresOfRun(sha3, nodes, enforced, t, m, ops, stores + [next])
  {
    hide StoreOf, AfterAll, GoesThrough, Applied, Leads;
  }

  /** Where no value could be taken for a hash, a run goes on as long as the maps let it. */
  lemma RunDecided(sha3: Hasher, nodes: set<Bytes>, enforced: bool, t: Tree, m: map<Bytes, Bytes>, ops: seq<Op>, stores: seq<Table>)
    requires StoresOfRun(sha3, nodes, enforced, t, m, ops, stores) && NoMistakes(sha3, nodes, m, ops)
    requires var n := |stores| - 1;
             n < |ops| ==> !GoesThrough(sha3, stores[n], enforced, Applied(m, ops[..n]), ops[n])
    ensures |stores| == |ops| + 1 <==> AllRemovable(m, ops)
  {
    hide Held, Below, Enc, AfterAll, Applied, Removable, NoMistake, MistakenFor, Leads, Sound;
    var n := |stores| - 1;
    if n == |ops| {
      forall i | 0 <= i < |ops| ensures ops[i].Erase? ==> Removable(Applied(m, ops[..i]), ops[i].key) {
        assert GoesThrough(sha3, stores[i], enforced, Applied(m, ops[..i]), ops[i]);
      }
    } else {
      assert StoreOf(sha3, nodes, stores[n], AfterAll(t, ops[..n]));
      NotMistaken(sha3, nodes, stores[n], enforced, Applied(m, ops[..n]), ops[n].key);
    }
  }

  // ------------------------------------------------------------------ Removing

  /** What becomes of a node when a key is removed below it. Lost: the code takes a value for a hash, or leaves the key. */
  datatype Deletion = Missing | Replaced(node: Item) | Lost

  function Outcome(sha3: Hasher, main: Table, enforced: bool, t: Tree, k: Nibbles): Deletion
    requires Formed(t)
  {
    if !Safe(t, k) then Lost
    else if Get(t, k) == [] then Missing
    else if MistakenBelow(sha3, main, enforced, t, k) then Lost
    else Replaced(ItemOf(sha3, Deleted(t, k)))
  }

  // ------------------------------------------------------------------ The trie

  /** The entries of the table are nodes that have occurred, and counted; the nodes can be told apart. */
  ghost predicate StoreHolds(sha3: Hasher, nodes: set<Bytes>, main: Table, refs: multiset<H256>) {
    Counts(main, refs) && Sound(sha3, nodes, main) && ToldApart(sha3, nodes)
  }

  /**
   * The root is that of a canonical tree which stores the map, and all its nodes are in the table. The counts are those of
   * the hashes in the unfolded tree, each as often as it occurs there.
   */
  ghost predicate Bound(sha3: Hasher, nodes: set<Bytes>, main: Table, refs: multiset<H256>, root: H256, t: Tree,
                        m: map<Bytes, Bytes>) {
    && StoreHolds(sha3, nodes, main, refs)
    && Canonical(t) && Formed(t) && Known(sha3, nodes, t)
    && root == sha3(Enc(sha3, t))
    && root in main && main[root].bytes == Enc(sha3, t)
    && Held(sha3, main, t)
    && refs == multiset{root} + Below(sha3, t)
    && Stores(t, m)
  }

  class GenericTrieDB {
    const sha3: Hasher
    const m_db: DB
    var m_root: H256

    /** Every node that has occurred. */
    ghost var nodes: set<Bytes>
    ghost var tree: Tree
    ghost var contents: map<Bytes, Bytes>

    ghost predicate StoreOk()
      reads this`nodes, m_db
    {
      StoreHolds(sha3, nodes, m_db.m_main, m_db.refs)
    }

    ghost predicate Valid()
      reads this, m_db
    {
      Bound(sha3, nodes, m_db.m_main, m_db.refs, m_root, tree, contents)
    }

    /** Over an empty store of its own: init() puts the empty node there and makes it the root. */
    constructor (sha3: Hasher, db: DB)
      requires db.Valid() && db.m_main == map[]
      modifies db`m_main, db`refs
      ensures Valid() && contents == map[] && this.sha3 == sha3 && m_db == db
      ensures tree == Nil && nodes == {Enc(sha3, Nil)}
    {
      this.sha3, m_db := sha3, db;
      nodes, tree, contents := {Enc(sha3, Nil)}, Nil, map[];
      new;
      assert m_db.refs == multiset{};
      assert Enc(sha3, Nil) == [DATA_START];
      m_root := ForceInsertNode(EMPTY, Nil);
    }

    /** insert(key, value): changes the map at one key; nothing is asked of the key. */
    method Insert(key: Bytes, value: Bytes)
      requires Valid() && value != []
      requires ToldApart(sha3, nodes + OpNodes(sha3, tree, Put(key, value)))
      modifies this, m_db`m_main, m_db`refs
      ensures Valid() && contents == old(contents)[key := value]
      ensures tree == After(old(tree), Put(key, value))
      ensures nodes == old(nodes) + OpNodes(sha3, old(tree), Put(key, value))
      ensures Grows(old(m_db.m_main), m_db.m_main)
    {
      hide *;
      nodes := nodes + OpNodes(sha3, tree, Put(key, value));
      Admitted(old(nodes));
      InsertAmong(key, value);
    }

    /** The same, once the nodes it passes through are among those that occur. */
    method InsertAmong(key: Bytes, value: Bytes)
      requires Valid() && value != [] && OpNodes(sha3, tree, Put(key, value)) <= nodes
      modifies this`m_root, this`tree, this`contents, m_db`m_main, m_db`refs
      ensures Valid() && contents == old(contents)[key := value] && tree == After(old(tree), Put(key, value))
      ensures Grows(old(m_db.m_main), m_db.m_main)
    {
      hide *;
      ghost var t := tree;
      var k := Unpack(key);
      PutIs(t, key, value);
      RootFacts(t);
      InsertedFacts(t, k, value);
      StoresInsert(t, contents, key, value);
      UncountedNode(false, t, multiset{});
      var rootItem := Load(m_root, t);
      ghost var base := if |Encode(rootItem)| < 32 then multiset{m_root} else multiset{};
      RootCounted(base);
      MakeInsertable(t, k, value);
      var b := MergeAt(rootItem, m_root, k, value, false, t, base);
      label merged:
      Reroot(|Encode(rootItem)| < 32, b, Inserted(t, k, value), contents[key := value]);
      GrowsOn(old(m_db.m_main), old@merged(m_db.m_main), m_db.m_main);
    }

    lemma PutIs(t: Tree, key: Bytes, value: Bytes)
      requires Valid() && t == tree && value != []
      ensures Formed(t) && After(t, Put(key, value)) == Inserted(t, Unpack(key), value)
      ensures OpNodes(sha3, t, Put(key, value)) == InsertNodes(sha3, t, Unpack(key), value)
    {
    }

    /** More nodes may occur, as long as they can be told apart. */
    twostate lemma Admitted(before: set<Bytes>)
      requires old(Valid()) && before == old(nodes) <= nodes && ToldApart(sha3, nodes)
      requires tree == old(tree) && m_root == old(m_root) && contents == old(contents) && unchanged(m_db)
      ensures Valid()
    {
      KnownMore(sha3, before, nodes, tree);
      hide ToldApart, Held, Stores, Below, Enc, Known, Canonical, Formed;
    }

    lemma RootCounted(base: multiset<H256>)
      requires Valid() && (base == multiset{m_root} || base == multiset{})
      ensures Counted(sha3, nodes, base)
    {
      hide Canonical, Enc, Held, Stores, Below, Sound, ToldApart;
      assert OfCanonical(sha3, nodes, m_root);
    }

    /** The end of insert and remove: a small old root is counted down here, and the new root goes in. */
    method Reroot(small: bool, b: Item, ghost t: Tree, ghost m: map<Bytes, Bytes>)
      requires StoreOk() && b == ItemOf(sha3, t) && Known(sha3, nodes, t) && Held(sha3, m_db.m_main, t)
      requires Canonical(t) && Formed(t) && Stores(t, m)
      requires m_db.refs == (if small then multiset{m_root} else multiset{}) + Below(sha3, t)
      modifies this`m_root, this`tree, this`contents, m_db`m_main, m_db`refs
      ensures Valid() && tree == t && contents == m && Grows(old(m_db.m_main), m_db.m_main)
    {
      hide *;
      RootSwap(m_root, sha3(Enc(sha3, t)), Below(sha3, t));
      GrowsSame(m_db.m_main);
      if small {
        ForceKillNode(m_root);
      }
      label killed:
      var root := ForceInsertNode(b, t);
      GrowsOn(old(m_db.m_main), old@killed(m_db.m_main), m_db.m_main);
      HeldGrows(sha3, old(m_db.m_main), m_db.m_main, t);
      MakeBound(root, t, m);
      m_root, tree, contents := root, t, m;
      MakeValid();
    }

    /**
     * A run goes through, operation by operation, until a removal finds a map that does not let it or takes a value for a hash;
     * without one the map is what a plain one becomes. Where no value is the hash of a node only the maps matter.
     */
    method Run(ops: seq<Op>) returns (ok: bool, ghost stores: seq<Table>)
      requires Valid() && Legal(ops) && ToldApart(sha3, nodes + RunNodes(sha3, tree, ops))
      modifies this, m_db`m_main, m_db`refs
      ensures StoresOfRun(sha3, old(nodes + RunNodes(sha3, tree, ops)), m_db.m_enforceRefs, old(tree), old(contents), ops, stores)
      ensures stores[0] == old(m_db.m_main)
      ensures ok <==> |stores| == |ops| + 1
      ensures ok ==> Valid() && contents == Applied(old(contents), ops) && tree == AfterAll(old(tree), ops) && m_db.m_main == stores[|ops|]
      ensures var n := |stores| - 1;
              !ok ==> !GoesThrough(sha3, stores[n], m_db.m_enforceRefs, Applied(old(contents), ops[..n]), ops[n])
      ensures NoMistakes(sha3, old(nodes + RunNodes(sha3, tree, ops)), old(contents), ops) ==> (ok <==> AllRemovable(old(contents), ops))
    {
      hide *;
      ghost var t, m, all := tree, contents, nodes + RunNodes(sha3, tree, ops);
      RunStarts(all, ops);
      stores := [m_db.m_main];
      for i := 0 to |ops|
        invariant Valid() && contents == Applied(m, ops[..i]) && tree == AfterAll(t, ops[..i])
        invariant nodes + RunNodes(sha3, tree, ops[i..]) == all
        invariant |stores| == i + 1 && stores[0] == old(m_db.m_main) && stores[i] == m_db.m_main
        invariant StoresOfRun(sha3, all, m_db.m_enforceRefs, t, m, ops, stores)
      {
        RunStep(t, m, ops, i, all);
        match ops[i] {
          case Put(key, value) => Insert(key, value);
          case Erase(key) =>
            var gone := Remove(key);
            if !gone {
              RunStops(all, t, m, ops, stores);
              return false, stores;
            }
          case Purge => PurgeStore();
        }
        ValidStore(all);
        OneMoreStore(sha3, all, m_db.m_enforceRefs, t, m, ops, stores, m_db.m_main);
        stores := stores + [m_db.m_main];
      }
      RunStops(all, t, m, ops, stores);
      return true, stores;
    }

    lemma RunStarts(all: set<Bytes>, ops: seq<Op>)
      requires Valid() && nodes <= all
      ensures Applied(contents, ops[..0]) == contents && AfterAll(tree, ops[..0]) == tree && ops[0..] == ops && ops[..|ops|] == ops
      ensures StoresOfRun(sha3, all, m_db.m_enforceRefs, tree, contents, ops, [m_db.m_main])
    {
      hide *;
      ValidStore(all);
      NothingDone(tree, contents, ops);
      FirstStore(sha3, all, m_db.m_enforceRefs, tree, contents, ops, m_db.m_main);
    }

    /** The store of a trie. */
    lemma ValidStore(all: set<Bytes>)
      requires Valid() && nodes <= all
      ensures StoreOf(sha3, all, m_db.m_main, tree)
    {
      hide Held, Enc, Below, Known, Canonical, Formed, Stores, ToldApart;
    }

    lemma RunStops(all: set<Bytes>, t: Tree, m: map<Bytes, Bytes>, ops: seq<Op>, stores: seq<Table>)
      requires StoresOfRun(sha3, all, m_db.m_enforceRefs, t, m, ops, stores)
      requires var n := |stores| - 1;
               n < |ops| ==> !GoesThrough(sha3, stores[n], m_db.m_enforceRefs, Applied(m, ops[..n]), ops[n])
      ensures |stores| <= |ops| + 1
      ensures NoMistakes(sha3, all, m, ops) ==> (|stores| == |ops| + 1 <==> AllRemovable(m, ops))
    {
      if NoMistakes(sha3, all, m, ops) {
        hide *;
        RunDecided(sha3, all, m_db.m_enforceRefs, t, m, ops, stores);
      }
    }

    /** What an operation of a run may rely on, and what it has to leave. */
    lemma RunStep(t: Tree, m: map<Bytes, Bytes>, ops: seq<Op>, i: nat, all: set<Bytes>)
      requires Valid() && i < |ops| && Legal(ops) && contents == Applied(m, ops[..i]) && tree == AfterAll(t, ops[..i])
      requires nodes + RunNodes(sha3, tree, ops[i..]) == all && ToldApart(sha3, all)
      ensures ToldApart(sha3, nodes + OpNodes(sha3, tree, ops[i]))
      ensures nodes + OpNodes(sha3, tree, ops[i]) + RunNodes(sha3, After(tree, ops[i]), ops[i + 1..]) == all
      ensures AfterAll(t, ops[..i + 1]) == After(tree, ops[i])
      ensures GoesThrough(sha3, m_db.m_main, m_db.m_enforceRefs, contents, ops[i]) <==>
              (ops[i].Erase? ==>
                && Removable(contents, ops[i].key)
                && !MistakenFor(sha3, m_db.m_main, m_db.m_enforceRefs, contents, ops[i].key))
      ensures forall main: Table :: Leads(ops[i], m_db.m_main, main) <==>
                if ops[i].Purge? then main == map h | h in m_db.m_main && m_db.m_main[h].count > 0 :: m_db.m_main[h]
                else Grows(m_db.m_main, main)
      ensures match ops[i]
              case Put(key, value) => value != [] && Applied(m, ops[..i + 1]) == contents[key := value]
              case Erase(key) => Applied(m, ops[..i + 1]) == contents - {key}
              case Purge => Applied(m, ops[..i + 1]) == contents && After(tree, ops[i]) == tree && OpNodes(sha3, tree, ops[i]) == {}
    {
      hide Applied, Removable, RunNodes, Sound, Enc, Known, Held, Below, Stores, Canonical, Formed, MistakenFor, Grows, AfterAll;
      AppliedStep(m, ops, i);
      AfterStep(t, ops, i);
      assert ops[i..][0] == ops[i] && ops[i..][1..] == ops[i + 1..];
      RunNodesStep(sha3, tree, ops[i..]);
      hide OpNodes, After;
    }

    /** Where the nodes of two tries can be told apart, their roots are equal exactly when their contents are. */
    lemma RootIffContents(other: GenericTrieDB)
      requires Valid() && other.Valid() && sha3 == other.sha3 && ToldApart(sha3, nodes + other.nodes)
      ensures m_root == other.m_root <==> contents == other.contents
    {
      hide Enc, Held, Known, Canonical, Formed, Get, ToldApart, Sound, Below;
      if m_root == other.m_root {
        KnownMore(sha3, nodes, nodes + other.nodes, tree);
        KnownMore(sha3, other.nodes, nodes + other.nodes, other.tree);
        HashDetermines(sha3, tree, other.tree, nodes + other.nodes);
        StoresSame(tree, contents, other.contents);
      } else if contents == other.contents {
        SameMapSameTree(tree, other.tree, contents);
      }
    }

    /** The parts of Valid, for a caller that has hidden it. */
    lemma RootFacts(t: Tree)
      requires Valid() && t == tree
      ensures StoreOk() && Canonical(t) && Formed(t) && Known(sha3, nodes, t)
      ensures m_root == sha3(Enc(sha3, t)) && m_root in m_db.m_main && m_db.m_main[m_root].bytes == Enc(sha3, t)
      ensures Held(sha3, m_db.m_main, t) && Stores(t, contents)
      ensures m_db.refs == multiset{m_root} + Below(sha3, t) && m_root in m_db.refs
      ensures Encode(ItemOf(sha3, t)) == Enc(sha3, t)
      ensures var base := if |Enc(sha3, t)| < 32 then multiset{m_root} else multiset{};
              multiset{m_root} + Below(sha3, t) == base + Own(sha3, t) + Below(sha3, t)
      ensures OwnUnless(false, t) == Own(sha3, t) && KidsCanonical(t)
    {
    }

    lemma MakeBound(root: H256, t: Tree, m: map<Bytes, Bytes>)
      requires StoreOk() && Canonical(t) && Formed(t) && Known(sha3, nodes, t)
      requires root == sha3(Enc(sha3, t)) && root in m_db.m_main && m_db.m_main[root].bytes == Enc(sha3, t)
      requires Held(sha3, m_db.m_main, t) && Stores(t, m)
      requires m_db.refs == multiset{root} + Below(sha3, t)
      ensures Bound(sha3, nodes, m_db.m_main, m_db.refs, root, t, m)
    {
    }

    lemma MakeValid()
      requires Bound(sha3, nodes, m_db.m_main, m_db.refs, m_root, tree, contents)
      ensures Valid()
    {
    }

    lemma InsertedFacts(t: Tree, k: Nibbles, v: Bytes)
      requires Canonical(t) && Formed(t) && Known(sha3, nodes, t) && v != [] && InsertNodes(sha3, t, k, v) <= nodes
      ensures var t' := Inserted(t, k, v); Canonical(t') && Formed(t') && Known(sha3, nodes, t')
    {
      InsertCanonical(t, k, v);
      InsertKnown(sha3, nodes, t, k, v);
    }

    // ---------------------------------------------------------------- Nodes in the store

    /** RLP(node(h)). */
    method Load(h: H256, ghost t: Tree) returns (x: Item)
      requires StoreOk() && Known(sha3, nodes, t)
      requires h in m_db.m_main && m_db.m_main[h].bytes == Enc(sha3, t)
      requires h in m_db.refs
      ensures x == ItemOf(sha3, t)
    {
      hide Enc, Sound;
      var s := m_db.Lookup(h);
      assert m_db.Sees(h);
      NodeRead(sha3, t);
      x := Walk(s).value;
    }

    method ForceInsertNode(x: Item, ghost t: Tree) returns (h: H256)
      requires StoreOk() && x == ItemOf(sha3, t) && Known(sha3, nodes, t)
      modifies m_db`m_main, m_db`refs
      ensures StoreOk() && Grows(old(m_db.m_main), m_db.m_main)
      ensures h == sha3(Enc(sha3, t)) && h in m_db.m_main && m_db.m_main[h].bytes == Enc(sha3, t)
      ensures m_db.refs == old(m_db.refs) + multiset{h}
    {
      var v := Encode(x);
      h := sha3(v);
      NodeRead(sha3, t);
      hide ItemOf, Encode, Walk;
      m_db.Insert(h, v);
      forall g <- m_db.m_main
        ensures g == sha3(m_db.m_main[g].bytes) && m_db.m_main[g].bytes in nodes
        ensures m_db.m_main[g].bytes != [] && Walk(m_db.m_main[g].bytes).Some?
      {
        if g != h {
          assert g in old(m_db.m_main);
        }
      }
    }

    method KillNode(x: Item, ghost t: Tree)
      requires StoreOk() && x == ItemOf(sha3, t)
      modifies m_db`m_main, m_db`refs
      ensures StoreOk() && Grows(old(m_db.m_main), m_db.m_main) && SameNodes(old(m_db.m_main), m_db.m_main)
      ensures m_db.refs == old(m_db.refs) - Own(sha3, t)
    {
      if |Encode(x)| >= 32 {
        ForceKillNode(sha3(Encode(x)));
      }
    }

    method ForceKillNode(h: H256)
      requires StoreOk()
      modifies m_db`m_main, m_db`refs
      ensures StoreOk() && Grows(old(m_db.m_main), m_db.m_main) && SameNodes(old(m_db.m_main), m_db.m_main)
      ensures m_db.refs == old(m_db.refs) - multiset{h}
    {
      hide ToldApart;
      var r := m_db.Kill(h);
    }

    /** What a node's parent holds of it; nodes of 32 bytes or more go into the store. */
    method StreamNode(x: Item, ghost t: Tree) returns (r: Item)
      requires StoreOk() && x == ItemOf(sha3, t) && Known(sha3, nodes, t)
      modifies m_db`m_main, m_db`refs
      ensures StoreOk() && Grows(old(m_db.m_main), m_db.m_main)
      ensures r == RefOf(sha3, t) && Kept(sha3, m_db.m_main, t)
      ensures |Enc(sha3, t)| < 32 ==> m_db.m_main == old(m_db.m_main)
      ensures m_db.refs == old(m_db.refs) + Own(sha3, t)
    {
      if |Encode(x)| < 32 {
        r := x;
      } else {
        var h := ForceInsertNode(x, t);
        r := Str(h);
      }
    }

    // ---------------------------------------------------------------- Inserting

    /** Puts the value at the node itself: a new leaf, the leaf it is, or the branch it is. */
    method Place(orig: Item, k: Nibbles, v: Bytes, ghost t: Tree, ghost base: multiset<H256>) returns (b: Item)
      requires StoreOk() && orig == ItemOf(sha3, t) && Known(sha3, nodes, t)
      requires t.Nil? || (t.Leaf? && t.key == k) || (t.Branch? && k == [])
      requires v != [] && Held(sha3, m_db.m_main, t)
      requires m_db.refs - Own(sha3, t) == base + Below(sha3, t)
      modifies m_db`m_main, m_db`refs
      ensures StoreOk() && Grows(old(m_db.m_main), m_db.m_main)
      ensures Formed(t) && b == ItemOf(sha3, Inserted(t, k, v))
      ensures Held(sha3, m_db.m_main, Inserted(t, k, v))
      ensures m_db.refs == base + Below(sha3, Inserted(t, k, v))
    {
      KnownFormed(sha3, nodes, t);
      NodeShape(sha3, t);
      KillNode(orig, t);
      HeldGrows(sha3, old(m_db.m_main), m_db.m_main, t);
      if IsEmptyItem(orig) {
        NilRefs(sha3);
        return List([Str(HexPrefixOf(k, true)), Str(v)]);
      }
      if |orig.items| == 2 {
        return List([orig.items[0], Str(v)]);
      }
      var s := FirstSlots(orig.items);
      assert s + [Str(v)] == RefsOf(sha3, t.kids) + [Str(v)];
      return List(s + [Str(v)]);
    }

    /** Splits a two-item node after s nibbles into an extension above what is left of it. */
    method Cleve(orig: Item, s: nat, ghost t: Tree, ghost base: multiset<H256>) returns (b: Item)
      requires StoreOk() && orig == ItemOf(sha3, t) && Known(sha3, nodes, t) && TwoItem(t)
      requires 0 < s <= |t.key| && (t.Ext? ==> s < |t.key|) && Held(sha3, m_db.m_main, t)
      requires Known(sha3, nodes, Drop(t, s))
      requires m_db.refs == base + Own(sha3, t) + Below(sha3, t)
      modifies m_db`m_main, m_db`refs
      ensures StoreOk() && Grows(old(m_db.m_main), m_db.m_main)
      ensures b == ItemOf(sha3, Ext(t.key[..s], Drop(t, s)))
      ensures Held(sha3, m_db.m_main, Ext(t.key[..s], Drop(t, s)))
      ensures m_db.refs == base + Below(sha3, Ext(t.key[..s], Drop(t, s)))
    {
      hide *;
      PairParts(t, []);
      NodeShape(sha3, t);
      CleavedFacts(sha3, t, s);
      Uncounted(base, Own(sha3, t), Below(sha3, t));
      KillNode(orig, t);
      label killed:
      var k := KeyOfItem(orig);
      var bottom := List([Str(HexPrefixOf(k[s..], IsLeafItem(orig))), orig.items[1]]);
      ghost var d := Drop(t, s);
      var ref := StreamNode(bottom, d);
      GrowsOn(old(m_db.m_main), old@killed(m_db.m_main), m_db.m_main);
      HeldGrows(sha3, old(m_db.m_main), m_db.m_main, t);
      HeldUnder(sha3, m_db.m_main, t, s);
      b := List([Str(HexPrefixOf(k[..s], false)), ref]);
    }

    /** Turns a two-item node into a branch with one slot in use. */
    method BranchOut(orig: Item, ghost t: Tree, ghost base: multiset<H256>) returns (b: Item)
      requires StoreOk() && orig == ItemOf(sha3, t) && Known(sha3, nodes, t) && TwoItem(t)
      requires Held(sha3, m_db.m_main, t) && (t.Ext? ==> t.key != []) && Known(sha3, nodes, Branched(t))
      requires m_db.refs == base + Own(sha3, t) + Below(sha3, t)
      modifies m_db`m_main, m_db`refs
      ensures StoreOk() && Grows(old(m_db.m_main), m_db.m_main)
      ensures Formed(t) && b == ItemOf(sha3, Branched(t))
      ensures Held(sha3, m_db.m_main, Branched(t))
      ensures m_db.refs == base + Below(sha3, Branched(t))
    {
      hide *;
      KnownFormed(sha3, nodes, t);
      PairParts(t, []);
      NodeShape(sha3, t);
      BranchedFacts(sha3, t);
      Uncounted(base, Own(sha3, t), Below(sha3, t));
      KillNode(orig, t);
      label killed:
      HeldGrows(sha3, old(m_db.m_main), m_db.m_main, t);
      var k := KeyOfItem(orig);
      if k == [] {
        b := List(Empties(16) + [orig.items[1]]);
      } else {
        var slot := StreamSlot(orig, t, base);
        GrowsOn(old(m_db.m_main), old@killed(m_db.m_main), m_db.m_main);
        HeldGrows(sha3, old(m_db.m_main), m_db.m_main, t);
        var r := OneSlot(k[0], slot);
        b := List(r + [EMPTY]);
      }
      BranchedHeld(sha3, m_db.m_main, t);
    }

    /** The used slot of that branch: what is left of the node, or the child of a one-nibble extension. */
    method StreamSlot(orig: Item, ghost t: Tree, ghost base: multiset<H256>) returns (slot: Item)
      requires StoreOk() && orig == ItemOf(sha3, t) && Known(sha3, nodes, t) && TwoItem(t) && t.key != []
      requires Formed(t) && Held(sha3, m_db.m_main, t) && Known(sha3, nodes, Branched(t))
      requires m_db.refs == base + Below(sha3, t)
      modifies m_db`m_main, m_db`refs
      ensures StoreOk() && Grows(old(m_db.m_main), m_db.m_main)
      ensures slot == RefOf(sha3, Branched(t).kids[t.key[0]])
      ensures Kept(sha3, m_db.m_main, Branched(t).kids[t.key[0]])
      ensures m_db.refs == base + Below(sha3, Branched(t))
    {
      hide *;
      ShapeFacts(t);
      BranchedFacts(sha3, t);
      BranchedSlot(sha3, t, nodes);
      GrowsSame(m_db.m_main);
      var k := KeyOfItem(orig);
      if IsLeafItem(orig) || |k| > 1 {
        slot := StreamNode(List([Str(HexPrefixOf(k[1..], IsLeafItem(orig))), orig.items[1]]), Branched(t).kids[k[0]]);
      } else {
        slot := orig.items[1];
        ChildHeld(sha3, m_db.m_main, t);
      }
    }

    /** All nodes on the way to k occur, now and after insertion. */
    ghost predicate Insertable(t: Tree, k: Nibbles, v: Bytes)
      reads this`nodes
    {
      && Formed(t) && v != [] && Known(sha3, nodes, t) && KidsCanonical(t)
      && InsertNodes(sha3, t, k, v) <= nodes && Enc(sha3, Nil) in nodes
    }

    lemma MakeInsertable(t: Tree, k: Nibbles, v: Bytes)
      requires StoreOk() && Formed(t) && v != [] && Known(sha3, nodes, t) && KidsCanonical(t)
      requires InsertNodes(sha3, t, k, v) <= nodes
      ensures Insertable(t, k, v)
    {
    }

    lemma InsertableParts(t: Tree, k: Nibbles, v: Bytes)
      requires Insertable(t, k, v)
      ensures Formed(t) && v != [] && Known(sha3, nodes, t) && KidsCanonical(t) && Enc(sha3, Nil) in nodes
    {
    }

    /** Merges into a node; what it returns is not in the store yet, what it was given no longer counts. */
    method MergeAt(orig: Item, origHash: H256, k: Nibbles, v: Bytes, inLine: bool,
                   ghost t: Tree, ghost base: multiset<H256>) returns (b: Item)
      requires StoreOk() && orig == ItemOf(sha3, t) && origHash == sha3(Enc(sha3, t)) && Held(sha3, m_db.m_main, t)
      requires Insertable(t, k, v) && Counted(sha3, nodes, base) && (TwoItem(t) && Astray(t, k) ==> Canonical(t))
      requires m_db.refs == base + OwnUnless(inLine, t) + Below(sha3, t)
      requires inLine && |Enc(sha3, t)| >= 32 ==> (t.Ext? && t.key <= k) || (t.Branch? && sha3(Enc(sha3, t)) !in m_db.refs)
      modifies m_db`m_main, m_db`refs
      ensures StoreOk() && Grows(old(m_db.m_main), m_db.m_main)
      ensures b == ItemOf(sha3, Inserted(t, k, v)) && Held(sha3, m_db.m_main, Inserted(t, k, v))
      ensures m_db.refs == base + Below(sha3, Inserted(t, k, v))
      decreases |k|, if TwoItem(t) then if t.Ext? && t.key <= k then 1 else 2 else 0, 1
    {
      hide *;
      MergeFacts(t, k, v, inLine, base);
      if IsEmptyItem(orig) {
        b := Place(orig, k, v, t, base);
        return;
      }
      if |orig.items| == 2 {
        var key := KeyOfItem(orig);
        if key == k && IsLeafItem(orig) {
          b := Place(orig, k, v, t, base);
        } else if key <= k && !IsLeafItem(orig) {
          b := MergeUnder(orig, origHash, k, v, inLine, t, base);
        } else {
          b := MergeApart(orig, k, v, t, base);
        }
      } else if k == [] {
        b := Place(orig, k, v, t, base);
      } else {
        b := MergeInto(orig, origHash, k, v, inLine, t, base);
      }
    }

    /** Below an extension whose key begins k. */
    method MergeUnder(orig: Item, origHash: H256, k: Nibbles, v: Bytes, inLine: bool,
                      ghost t: Tree, ghost base: multiset<H256>) returns (b: Item)
      requires StoreOk() && orig == ItemOf(sha3, t) && origHash == sha3(Enc(sha3, t)) && Held(sha3, m_db.m_main, t)
      requires Insertable(t, k, v) && Counted(sha3, nodes, base)
      requires m_db.refs == base + OwnUnless(inLine, t) + Below(sha3, t)
      requires t.Ext? && t.key <= k
      modifies m_db`m_main, m_db`refs
      ensures StoreOk() && Grows(old(m_db.m_main), m_db.m_main)
      ensures b == ItemOf(sha3, Inserted(t, k, v)) && Held(sha3, m_db.m_main, Inserted(t, k, v))
      ensures m_db.refs == base + Below(sha3, Inserted(t, k, v))
      decreases |k|, 1, 0
    {
      hide *;
      UnderFacts(t, k, v);
      UncountedNode(inLine, t, base);
      GrowsSame(m_db.m_main);
      var key := KeyOfItem(orig);
      ghost var c, rest := t.child, k[|key|..];
      if !inLine {
        KillHash(orig, origHash, t);
      }
      HeldGrows(sha3, old(m_db.m_main), m_db.m_main, t);
      KeptUnderExt(sha3, m_db.m_main, t);
      label killed:
      var r := MergeAtAux(orig.items[1], k[|key|..], v, c, base);
      GrowsOn(old(m_db.m_main), old@killed(m_db.m_main), m_db.m_main);
      HeldExt(sha3, m_db.m_main, t.key, Inserted(c, rest, v));
      b := List([orig.items[0], r]);
    }

    /** Into the slot of a branch that k's first nibble names. */
    method MergeInto(orig: Item, origHash: H256, k: Nibbles, v: Bytes, inLine: bool,
                     ghost t: Tree, ghost base: multiset<H256>) returns (b: Item)
      requires StoreOk() && orig == ItemOf(sha3, t) && origHash == sha3(Enc(sha3, t)) && Held(sha3, m_db.m_main, t)
      requires Insertable(t, k, v) && Counted(sha3, nodes, base)
      requires m_db.refs == base + OwnUnless(inLine, t) + Below(sha3, t)
      requires t.Branch? && k != []
      modifies m_db`m_main, m_db`refs
      ensures StoreOk() && Grows(old(m_db.m_main), m_db.m_main)
      ensures b == ItemOf(sha3, Inserted(t, k, v)) && Held(sha3, m_db.m_main, Inserted(t, k, v))
      ensures m_db.refs == base + Below(sha3, Inserted(t, k, v))
      decreases |k|, 0, 0
    {
      hide *;
      IntoFacts(t, k, v);
      InsertableParts(t, k, v);
      OthersCounted(t, k[0], base);
      UncountedNode(inLine, t, base);
      GrowsSame(m_db.m_main);
      var x := k[0];
      ghost var c, c' := t.kids[x], Inserted(t.kids[x], k[1..], v);
      ghost var others := BelowAll(sha3, t.kids[x := Nil]);
      SlotSum(base, Own(sha3, c), Below(sha3, c), others);
      SlotSum(base, Own(sha3, c'), Below(sha3, c'), others);
      if !inLine {
        KillHash(orig, origHash, t);
      }
      HeldGrows(sha3, old(m_db.m_main), m_db.m_main, t);
      KeptSlot(sha3, m_db.m_main, t, x);
      label killed:
      var r := MergeSlots(orig.items, x, k[1..], v, c, base + others);
      GrowsOn(old(m_db.m_main), old@killed(m_db.m_main), m_db.m_main);
      HeldGrows(sha3, old@killed(m_db.m_main), m_db.m_main, t);
      HeldBranch(sha3, m_db.m_main, t, x, c');
      b := List(r);
    }

    /** The loop over the slots: all as they are, but for the one merged into. */
    method MergeSlots(items: seq<Item>, x: Nibble, k: Nibbles, v: Bytes, ghost c: Tree, ghost base: multiset<H256>)
      returns (r: seq<Item>)
      requires StoreOk() && |items| == 17 && items[x] == RefOf(sha3, c)
      requires Kept(sha3, m_db.m_main, c) && Held(sha3, m_db.m_main, c)
      requires Insertable(c, k, v) && Canonical(c) && Counted(sha3, nodes, base)
      requires m_db.refs == base + Own(sha3, c) + Below(sha3, c)
      modifies m_db`m_main, m_db`refs
      ensures StoreOk() && Grows(old(m_db.m_main), m_db.m_main)
      ensures r == items[x := RefOf(sha3, Inserted(c, k, v))]
      ensures Kept(sha3, m_db.m_main, Inserted(c, k, v)) && Held(sha3, m_db.m_main, Inserted(c, k, v))
      ensures m_db.refs == base + Own(sha3, Inserted(c, k, v)) + Below(sha3, Inserted(c, k, v))
      decreases |k|, 4
    {
      hide *;
      InsertableParts(c, k, v);
      ghost var c' := Inserted(c, k, v);
      ghost var items' := items[x := RefOf(sha3, c')];
      GrowsSame(m_db.m_main);
      r := [];
      for i := 0 to 17
        invariant StoreOk() && Grows(old(m_db.m_main), m_db.m_main) && r == items'[..i]
        invariant i <= x ==> m_db.m_main == old(m_db.m_main) && m_db.refs == old(m_db.refs)
        invariant i > x ==> Kept(sha3, m_db.m_main, c') && Held(sha3, m_db.m_main, c')
        invariant i > x ==> m_db.refs == base + Own(sha3, c') + Below(sha3, c')
      {
        if i == x {
          var slot := MergeAtAux(items[i], k, v, c, base);
          r := r + [slot];
        } else {
          r := r + [items[i]];
        }
      }
      assert items'[..17] == items';
    }

    /** Where k leaves the key of a two-item node: split it there, or branch if that is at once. */
    method MergeApart(orig: Item, k: Nibbles, v: Bytes,
                      ghost t: Tree, ghost base: multiset<H256>) returns (b: Item)
      requires StoreOk() && orig == ItemOf(sha3, t) && Held(sha3, m_db.m_main, t)
      requires Insertable(t, k, v) && Counted(sha3, nodes, base) && Canonical(t) && TwoItem(t) && Astray(t, k)
      requires m_db.refs == base + Own(sha3, t) + Below(sha3, t)
      modifies m_db`m_main, m_db`refs
      ensures StoreOk() && Grows(old(m_db.m_main), m_db.m_main)
      ensures b == ItemOf(sha3, Inserted(t, k, v)) && Held(sha3, m_db.m_main, Inserted(t, k, v))
      ensures m_db.refs == base + Below(sha3, Inserted(t, k, v))
      decreases |k|, 2, 0
    {
      hide *;
      InsertableParts(t, k, v);
      ItemKey(t);
      var sh := Shared(k, KeyOfItem(orig));
      EmptySum(base);
      if sh != 0 {
        ApartFacts(t, k, v);
        ghost var top := Ext(t.key[..sh], Drop(t, sh));
        var cleved := Cleve(orig, sh, t, base);
        label cleved:
        b := MergeAt(cleved, sha3(Encode(cleved)), k, v, true, top, base);
        GrowsOn(old(m_db.m_main), old@cleved(m_db.m_main), m_db.m_main);
      } else {
        BranchFacts(t, k, v);
        var branched := BranchOut(orig, t, base);
        label branched:
        OneSlotUncounted(t, base);
        b := MergeAt(branched, sha3(Encode(branched)), k, v, true, Branched(t), base);
        GrowsOn(old(m_db.m_main), old@branched(m_db.m_main), m_db.m_main);
      }
    }

    /** Merges into what a node holds of a child, fetching and counting down the child if it is in the store. */
    method MergeAtAux(orig: Item, k: Nibbles, v: Bytes,
                      ghost c: Tree, ghost base: multiset<H256>) returns (r: Item)
      requires StoreOk() && orig == RefOf(sha3, c) && Kept(sha3, m_db.m_main, c) && Held(sha3, m_db.m_main, c)
      requires Insertable(c, k, v) && Canonical(c) && Counted(sha3, nodes, base)
      requires m_db.refs == base + Own(sha3, c) + Below(sha3, c)
      modifies m_db`m_main, m_db`refs
      ensures StoreOk() && Grows(old(m_db.m_main), m_db.m_main)
      ensures r == RefOf(sha3, Inserted(c, k, v))
      ensures Kept(sha3, m_db.m_main, Inserted(c, k, v)) && Held(sha3, m_db.m_main, Inserted(c, k, v))
      ensures m_db.refs == base + Own(sha3, Inserted(c, k, v)) + Below(sha3, Inserted(c, k, v))
      decreases |k|, 3, 0
    {
      hide *;
      AuxFacts(c, k, v, base);
      var x := orig;
      var isRemovable := false;
      if !x.List? && !IsEmptyItem(x) {
        x := Load(x.data, c);
        isRemovable := true;
      }
      var b := MergeAt(x, sha3(Encode(x)), k, v, !isRemovable, c, base);
      label merged:
      Regrouped(base, Below(sha3, Inserted(c, k, v)), Own(sha3, Inserted(c, k, v)));
      r := StreamNode(b, Inserted(c, k, v));
      GrowsOn(old(m_db.m_main), old@merged(m_db.m_main), m_db.m_main);
      HeldGrows(sha3, old@merged(m_db.m_main), m_db.m_main, Inserted(c, k, v));
    }

    /** killNode(orig, hash). */
    method KillHash(x: Item, h: H256, ghost t: Tree)
      requires StoreOk() && x == ItemOf(sha3, t) && h == sha3(Enc(sha3, t))
      modifies m_db`m_main, m_db`refs
      ensures StoreOk() && Grows(old(m_db.m_main), m_db.m_main) && SameNodes(old(m_db.m_main), m_db.m_main)
      ensures m_db.refs == old(m_db.refs) - Own(sha3, t)
    {
      GrowsSame(m_db.m_main);
      if |Encode(x)| >= 32 {
        ForceKillNode(h);
      }
    }

    lemma MergeFacts(t: Tree, k: Nibbles, v: Bytes, inLine: bool, base: multiset<H256>)
      requires Insertable(t, k, v)
      ensures Formed(t) && v != [] && Known(sha3, nodes, t)
      ensures var x := ItemOf(sha3, t);
              && (t.Nil? <==> IsEmptyItem(x))
              && (TwoItem(t) <==> x.List? && |x.items| == 2)
              && (t.Branch? <==> x.List? && |x.items| == 17)
              && (TwoItem(t) ==> Keyed(x) && KeyOfItem(x) == t.key && IsLeafItem(x) == t.Leaf?)
      ensures t.Nil? || t.Branch? || TwoItem(t)
      ensures TwoItem(t) <==> t.Leaf? || t.Ext?
      ensures TwoItem(t) ==> Astray(t, k) == if t.Leaf? then k != t.key else !(t.key <= k)
      ensures t.Nil? || |Enc(sha3, t)| < 32 || !inLine ==> OwnUnless(inLine, t) == Own(sha3, t)
      ensures t.Nil? || |Enc(sha3, t)| < 32 || !inLine || sha3(Enc(sha3, t)) !in m_db.refs ==>
                m_db.refs == base + OwnUnless(inLine, t) + Below(sha3, t) ==>
                  m_db.refs - Own(sha3, t) == base + Below(sha3, t)
    {
      hide *;
      InsertableParts(t, k, v);
      ShapeFacts(t);
      PairParts(t, k);
      OwnCountedDown(t, inLine, base);
    }

    lemma PairParts(t: Tree, k: Nibbles)
      ensures t.Nil? || t.Branch? || TwoItem(t)
      ensures TwoItem(t) <==> t.Leaf? || t.Ext?
      ensures TwoItem(t) ==> Astray(t, k) == if t.Leaf? then k != t.key else !(t.key <= k)
    {
    }

    lemma OwnCountedDown(t: Tree, inLine: bool, base: multiset<H256>)
      ensures t.Nil? || |Enc(sha3, t)| < 32 || !inLine ==> OwnUnless(inLine, t) == Own(sha3, t)
      ensures t.Nil? || |Enc(sha3, t)| < 32 || !inLine || sha3(Enc(sha3, t)) !in m_db.refs ==>
                m_db.refs == base + OwnUnless(inLine, t) + Below(sha3, t) ==>
                  m_db.refs - Own(sha3, t) == base + Below(sha3, t)
    {
      NilRefs(sha3);
      hide Enc, Below;
    }

    lemma UnderFacts(t: Tree, k: Nibbles, v: Bytes)
      requires Insertable(t, k, v) && t.Ext? && t.key <= k
      ensures Keyed(ItemOf(sha3, t)) && KeyOfItem(ItemOf(sha3, t)) == t.key && 0 < |t.key| <= |k|
      ensures Formed(t) && v != [] && Insertable(t.child, k[|t.key|..], v) && Canonical(t.child) && Formed(t.child)
      ensures var c' := Inserted(t.child, k[|t.key|..], v);
              && ItemOf(sha3, t).List? && |ItemOf(sha3, t).items| == 2
              && ItemOf(sha3, t).items[1] == RefOf(sha3, t.child)
              && Inserted(t, k, v) == Ext(t.key, c')
              && ItemOf(sha3, Ext(t.key, c')) == List([ItemOf(sha3, t).items[0], RefOf(sha3, c')])
              && Below(sha3, t) == Own(sha3, t.child) + Below(sha3, t.child)
              && Below(sha3, Ext(t.key, c')) == Own(sha3, c') + Below(sha3, c')
    {
      NodeShape(sha3, t);
      CanonicalKids(t.child);
      hide Own, RefOf, HexPrefixOf, Canonical;
    }

    lemma CanonicalKids(t: Tree)
      requires Canonical(t)
      ensures KidsCanonical(t)
    {
    }

    lemma IntoFacts(t: Tree, k: Nibbles, v: Bytes)
      requires Insertable(t, k, v) && t.Branch? && k != []
      ensures Formed(t) && v != [] && |t.kids| == 16
      ensures Insertable(t.kids[k[0]], k[1..], v) && Canonical(t.kids[k[0]]) && Formed(t.kids[k[0]])
      ensures var x, i := ItemOf(sha3, t), k[0];
              var c' := Inserted(t.kids[i], k[1..], v);
              var others := BelowAll(sha3, t.kids[i := Nil]);
              && x.List? && |x.items| == 17 && x.items[i] == RefOf(sha3, t.kids[i])
              && Inserted(t, k, v) == Branch(t.kids[i := c'], t.value)
              && ItemOf(sha3, Branch(t.kids[i := c'], t.value)) == List(x.items[i := RefOf(sha3, c')])
              && Below(sha3, t) == Own(sha3, t.kids[i]) + Below(sha3, t.kids[i]) + others
              && Below(sha3, Branch(t.kids[i := c'], t.value)) == Own(sha3, c') + Below(sha3, c') + others
    {
      hide Own, RefOf, ItemOf, Below, BelowAll, Canonical, Enc, KidsCanonical, Known, InsertNodes;
      InsertableKid(t, k, v);
      SlotFacts(sha3, t, k[0], Inserted(t.kids[k[0]], k[1..], v));
    }

    lemma InsertableKid(t: Tree, k: Nibbles, v: Bytes)
      requires Insertable(t, k, v) && t.Branch? && k != []
      ensures |t.kids| == 16 && Insertable(t.kids[k[0]], k[1..], v) && Canonical(t.kids[k[0]])
    {
      hide Enc, InsertNodes, Canonical;
      InsertBelow(sha3, nodes, t, k, v);
      CanonicalKids(t.kids[k[0]]);
    }

    lemma OthersCounted(t: Tree, i: nat, base: multiset<H256>)
      requires t.Branch? && i < 16 && Known(sha3, nodes, t) && KidsCanonical(t)
      requires Enc(sha3, Nil) in nodes && Counted(sha3, nodes, base)
      ensures Counted(sha3, nodes, base + BelowAll(sha3, t.kids[i := Nil]))
    {
      KidsCounted(sha3, nodes, t.kids[i := Nil]);
      CountedSum(sha3, nodes, base, BelowAll(sha3, t.kids[i := Nil]));
    }

    /** The branch a two-item node is turned into does not count: it has one slot in use. */
    lemma OneSlotUncounted(t: Tree, base: multiset<H256>)
      requires StoreOk() && Formed(t) && Canonical(t) && TwoItem(t) && Known(sha3, nodes, Branched(t))
      requires Counted(sha3, nodes, base)
      ensures sha3(Enc(sha3, Branched(t))) !in base + Below(sha3, Branched(t))
    {
      var b := Branched(t);
      BranchedKids(t);
      BelowCounted(sha3, nodes, b);
      CountedSum(sha3, nodes, base, Below(sha3, b));
      NeverCounted(sha3, nodes, b, base + Below(sha3, b));
    }

    lemma BranchedKids(t: Tree)
      requires Formed(t) && Canonical(t) && TwoItem(t)
      ensures var b := Branched(t); b.Branch? && |b.kids| == 16 && KidsCanonical(b) && !TwoUsed(b.kids, b.value)
    {
      var b := Branched(t);
      assert forall i | 0 <= i <= 16 :: Used(b.kids, b.value, i) ==> i == if t.key == [] then 16 else t.key[0];
    }

    lemma ItemKey(t: Tree)
      requires Formed(t) && TwoItem(t)
      ensures Keyed(ItemOf(sha3, t)) && KeyOfItem(ItemOf(sha3, t)) == t.key && (t.Leaf? || t.Ext?)
    {
      NodeShape(sha3, t);
    }

    lemma AuxFacts(c: Tree, k: Nibbles, v: Bytes, base: multiset<H256>)
      requires Insertable(c, k, v)
      ensures Formed(c) && v != [] && Known(sha3, nodes, c) && Known(sha3, nodes, Inserted(c, k, v))
      ensures var x := RefOf(sha3, c);
              && (c.Nil? <==> IsEmptyItem(x))
              && (x.List? || c.Nil? ==> x == ItemOf(sha3, c) && |Enc(sha3, c)| < 32 && Own(sha3, c) == OwnUnless(true, c))
              && (x.Str? && !c.Nil? ==>
                    && |Enc(sha3, c)| >= 32 && x.data == sha3(Enc(sha3, c))
                    && Own(sha3, c) == multiset{x.data} && Own(sha3, c) == OwnUnless(false, c))
      ensures Encode(ItemOf(sha3, c)) == Enc(sha3, c)
      ensures |Enc(sha3, c)| >= 32 && Kept(sha3, m_db.m_main, c) ==>
                var h := sha3(Enc(sha3, c)); h in m_db.m_main && m_db.m_main[h].bytes == Enc(sha3, c)
    {
      RefShape(sha3, c);
      InsertKnown(sha3, nodes, c, k, v);
      OwnInPlace(true, c);
      hide KidsCanonical, Inserted, Known, ItemOf;
    }

    lemma UncountedNode(inLine: bool, t: Tree, base: multiset<H256>)
      ensures inLine ==> base + OwnUnless(inLine, t) + Below(sha3, t) == base + Below(sha3, t)
      ensures !inLine ==> base + OwnUnless(inLine, t) + Below(sha3, t) - Own(sha3, t) == base + Below(sha3, t)
      ensures t.Ext? ==> base + Below(sha3, t) == base + Own(sha3, t.child) + Below(sha3, t.child)
    {
      hide Own;
    }

    lemma EmptySum(base: multiset<H256>)
      ensures forall t: Tree {:trigger Below(sha3, t)} ::
                base + OwnUnless(true, t) + Below(sha3, t) == base + Below(sha3, t)
    {
      hide Below;
    }

    lemma ApartFacts(t: Tree, k: Nibbles, v: Bytes)
      requires Insertable(t, k, v) && Canonical(t) && TwoItem(t) && Astray(t, k) && Shared(k, t.key) > 0
      ensures Formed(t) && v != []
      ensures var s := Shared(k, t.key);
              && s <= |t.key| && (t.Ext? ==> s < |t.key|)
              && var top := Ext(t.key[..s], Drop(t, s));
              && Insertable(top, k, v) && Known(sha3, nodes, Drop(t, s))
              && Formed(top) && top.key <= k && Inserted(top, k, v) == Inserted(t, k, v)
              && TwoItem(top) && !Astray(top, k) && Encode(ItemOf(sha3, top)) == Enc(sha3, top)
    {
      NotShared(t, k);
      ApartKnown(sha3, nodes, t, k, v);
      var s := Shared(k, t.key);
      assert t.key[..s] == k[..s];
    }

    lemma BranchFacts(t: Tree, k: Nibbles, v: Bytes)
      requires Insertable(t, k, v) && Canonical(t) && TwoItem(t) && Astray(t, k) && Shared(k, t.key) == 0
      ensures Formed(t) && v != [] && (t.Ext? ==> t.key != []) && Branched(t).Branch? && !TwoItem(Branched(t))
      ensures Encode(ItemOf(sha3, Branched(t))) == Enc(sha3, Branched(t))
      ensures Known(sha3, nodes, Branched(t)) && Insertable(Branched(t), k, v)
      ensures Inserted(Branched(t), k, v) == Inserted(t, k, v)
    {
      NotShared(t, k);
      ApartKnown(sha3, nodes, t, k, v);
      BranchedFormed(t);
      BranchedKids(t);
      hide Enc, Nils;
    }

    // ---------------------------------------------------------------- Removing

    /**
     * remove(key): unbinds one key. It goes through exactly if the map lets it and no value is mistaken for a hash; else a key
     * that is missing leaves all as it was, and what throws leaves the root.
     */
    method Remove(key: Bytes) returns (ok: bool)
      requires Valid() && ToldApart(sha3, nodes + OpNodes(sha3, tree, Erase(key)))
      modifies this, m_db`m_main, m_db`refs
      ensures var mistaken := MistakenFor(sha3, old(m_db.m_main), m_db.m_enforceRefs, old(contents), key);
              && (ok <==> Removable(old(contents), key) && !mistaken)
              && (!ok && !mistaken ==> m_root == old(m_root))
      ensures ok || key !in old(contents) ==>
                && Valid() && contents == old(contents) - {key}
                && tree == After(old(tree), Erase(key)) && nodes == old(nodes) + OpNodes(sha3, old(tree), Erase(key))
      ensures Grows(old(m_db.m_main), m_db.m_main)
    {
      hide *;
      nodes := nodes + OpNodes(sha3, tree, Erase(key));
      Admitted(old(nodes));
      ok := RemoveAmong(key);
    }

    /** The same, once the nodes it passes through are among those that occur. */
    method RemoveAmong(key: Bytes) returns (ok: bool)
      requires Valid() && OpNodes(sha3, tree, Erase(key)) <= nodes
      modifies this`m_root, this`tree, this`contents, m_db`m_main, m_db`refs
      ensures var mistaken := MistakenFor(sha3, old(m_db.m_main), m_db.m_enforceRefs, old(contents), key);
              && (ok <==> Removable(old(contents), key) && !mistaken)
              && (!ok && !mistaken ==> m_root == old(m_root))
      ensures ok || key !in old(contents) ==>
                Valid() && contents == old(contents) - {key} && tree == After(old(tree), Erase(key))
      ensures Grows(old(m_db.m_main), m_db.m_main)
    {
      hide *;
      var k := Unpack(key);
      ghost var t, m := tree, contents;
      EraseIs(t, key);
      RootFacts(t);
      RemovalIs(t, key);
      var rootItem := Load(m_root, t);
      ghost var base := if |Encode(rootItem)| < 32 then multiset{m_root} else multiset{};
      var d := DeleteAt(rootItem, k, t, base);
      label deleted:
      if d.Replaced? {
        Reroot(|Encode(rootItem)| < 32, d.node, Deleted(t, k), m - {key});
        GrowsOn(old(m_db.m_main), old@deleted(m_db.m_main), m_db.m_main);
        return true;
      }
      if key !in m {
        StoreUntouched();
      }
      ok := d.Missing?;
    }

    twostate lemma StoreUntouched()
      requires old(Valid()) && m_db.m_main == old(m_db.m_main) && m_db.refs == old(m_db.refs)
      requires unchanged(this) && m_db.m_enforceRefs == old(m_db.m_enforceRefs)
      ensures Valid()
    {
      hide Canonical, Formed, Known, Enc, Held, Below, Stores, Sound, ToldApart, Counts;
    }

    lemma EraseIs(t: Tree, key: Bytes)
      requires Valid() && t == tree
      ensures Formed(t)
      ensures var k := Unpack(key);
              if Get(t, k) == [] then After(t, Erase(key)) == t && OpNodes(sha3, t, Erase(key)) == {}
              else After(t, Erase(key)) == Deleted(t, k) && OpNodes(sha3, t, Erase(key)) == DeleteNodes(sha3, t, k)
      ensures Get(t, Unpack(key)) != [] <==> key in contents
    {
      StoredAt(t, contents, key);
      hide Known, Held, Canonical, Below, Deleted, DeleteNodes, Enc, Unpack;
    }

    /** What is removed, whether it can be, and what is left. */
    lemma RemovalIs(t: Tree, key: Bytes)
      requires Valid() && t == tree
      requires Formed(t) && (Get(t, Unpack(key)) != [] ==> DeleteNodes(sha3, t, Unpack(key)) <= nodes)
      ensures Deletable(t, Unpack(key))
      ensures var k, m, d := Unpack(key), contents, Outcome(sha3, m_db.m_main, m_db.m_enforceRefs, t, Unpack(key));
              && (d.Lost? <==> !Removable(m, key) || MistakenFor(sha3, m_db.m_main, m_db.m_enforceRefs, m, key))
              && (d.Missing? ==> key !in m && m - {key} == m)
              && (key !in m ==> !d.Replaced? && m - {key} == m)
              && (d.Replaced? ==>
                    && Get(t, k) != [] && d.node == ItemOf(sha3, Deleted(t, k)) && Canonical(Deleted(t, k)) && Formed(Deleted(t, k))
                    && Known(sha3, nodes, Deleted(t, k)) && Stores(Deleted(t, k), m - {key}))
    {
      hide *;
      var k, m := Unpack(key), contents;
      RootFacts(t);
      StoredAt(t, m, key);
      StoresDelete(t, m, key);
      SafeIff(t, m, key);
      StakeMistaken(m_db.m_main, m_db.m_enforceRefs, t, m, key);
      OutcomeParts(m_db.m_main, m_db.m_enforceRefs, t, k);
      if key in m {
        ValuesThere(t, m, key);
      }
      MakeDeletable(t, k);
      if Get(t, k) != [] {
        RemovedFacts(t, k);
      }
    }

    lemma ValuesThere(t: Tree, m: map<Bytes, Bytes>, key: Bytes)
      requires Formed(t) && Stores(t, m) && key in m
      ensures m[key] != []
    {
      hide Get;
    }

    lemma StakeMistaken(main: Table, enforced: bool, t: Tree, m: map<Bytes, Bytes>, key: Bytes)
      requires Canonical(t) && Formed(t) && Stores(t, m)
      ensures MistakenFor(sha3, main, enforced, m, key) <==>
              Get(t, Unpack(key)) != [] && MistakenBelow(sha3, main, enforced, t, Unpack(key))
    {
      hide Get, Unpack, Stake, Gone, Alone, Canonical, AsHash, IsPair, Own, LeafBehind;
      StoredAt(t, m, key);
      if key in m {
        StakeIff(t, m, key);
      }
    }

    lemma OutcomeParts(main: Table, enforced: bool, t: Tree, k: Nibbles)
      requires Formed(t)
      ensures var d := Outcome(sha3, main, enforced, t, k);
              && (d.Lost? <==> !Safe(t, k) || (Get(t, k) != [] && MistakenBelow(sha3, main, enforced, t, k)))
              && (d.Replaced? <==> Safe(t, k) && Get(t, k) != [] && !MistakenBelow(sha3, main, enforced, t, k))
              && (d.Replaced? ==> d.node == ItemOf(sha3, Deleted(t, k)))
    {
      hide Safe, Get, Deleted, ItemOf, MistakenBelow;
    }

    lemma RemovedFacts(t: Tree, k: Nibbles)
      requires Canonical(t) && Formed(t) && Known(sha3, nodes, t) && Get(t, k) != [] && DeleteNodes(sha3, t, k) <= nodes
      ensures var t' := Deleted(t, k); Canonical(t') && Formed(t') && Known(sha3, nodes, t')
    {
      GetDelete(t, k, k);
      DeleteKnown(sha3, nodes, t, k);
    }

    /** All nodes on the way to k occur, now and after removal. */
    ghost predicate Deletable(t: Tree, k: Nibbles)
      reads this`nodes
    {
      && Canonical(t) && Formed(t) && Known(sha3, nodes, t)
      && (Get(t, k) != [] ==> DeleteNodes(sha3, t, k) <= nodes)
    }

    lemma MakeDeletable(t: Tree, k: Nibbles)
      requires Canonical(t) && Formed(t) && Known(sha3, nodes, t)
      requires Get(t, k) != [] ==> DeleteNodes(sha3, t, k) <= nodes
      ensures Deletable(t, k)
    {
    }

    /** Deletes from a node; nothing changes where the key is not stored. */
    method DeleteAt(orig: Item, k: Nibbles, ghost t: Tree, ghost base: multiset<H256>) returns (d: Deletion)
      requires StoreOk() && orig == ItemOf(sha3, t) && Held(sha3, m_db.m_main, t) && Deletable(t, k)
      requires m_db.refs == base + Own(sha3, t) + Below(sha3, t)
      modifies m_db`m_main, m_db`refs
      ensures StoreOk() && Grows(old(m_db.m_main), m_db.m_main) && Formed(t)
      ensures d == Outcome(sha3, old(m_db.m_main), m_db.m_enforceRefs, t, k)
      ensures Get(t, k) == [] ==> m_db.m_main == old(m_db.m_main) && m_db.refs == old(m_db.refs)
      ensures d.Replaced? ==> Get(t, k) != [] && Held(sha3, m_db.m_main, Deleted(t, k))
      ensures d.Replaced? ==> m_db.refs == base + Below(sha3, Deleted(t, k))
      ensures t.Leaf? ==> SameNodes(old(m_db.m_main), m_db.m_main)
      decreases t, 1
    {
      hide *;
      DeletableParts(t, k);
      ShapeFacts(t);
      EndOutcome(m_db.m_main, m_db.m_enforceRefs, t, k);
      GrowsSame(m_db.m_main);
      NodesSame(m_db.m_main);
      if IsEmptyItem(orig) {
        return Missing;
      }
      if |orig.items| == 2 {
        var key := KeyOfItem(orig);
        if key == k && IsLeafItem(orig) {
          LeafGone(t, k, base);
          KillNode(orig, t);
          return Replaced(EMPTY);
        }
        if key <= k {
          if IsLeafItem(orig) {
            return Lost; // the value of the shorter key would be taken for the hash of a child
          }
          d := DeleteUnder(orig, k, t, base);
        } else {
          return Missing;
        }
      } else if k == [] {
        if IsEmptyItem(orig.items[16]) {
          return Lost; // there is no first nibble to choose a slot by
        }
        d := DeleteValue(orig, t, base);
      } else {
        d := DeleteInto(orig, k, t, base);
      }
    }

    lemma DeletableParts(t: Tree, k: Nibbles)
      requires Deletable(t, k)
      ensures Canonical(t) && Formed(t) && Known(sha3, nodes, t)
      ensures Get(t, k) != [] ==> DeleteNodes(sha3, t, k) <= nodes
    {
    }

    /** The outcome where the descent ends. */
    lemma EndOutcome(main: Table, enforced: bool, t: Tree, k: Nibbles)
      requires Canonical(t) && Formed(t)
      ensures t.Nil? ==> Outcome(sha3, main, enforced, t, k) == Missing && Get(t, k) == []
      ensures t.Leaf? ==>
                Outcome(sha3, main, enforced, t, k) == if t.key == k then Replaced(EMPTY) else if t.key <= k then Lost else Missing
      ensures t.Leaf? && t.key != k ==> Get(t, k) == []
      ensures t.Ext? && !(t.key <= k) ==> Outcome(sha3, main, enforced, t, k) == Missing && Get(t, k) == []
      ensures t.Branch? ==> |t.kids| == 16 && ItemOf(sha3, t).items[16] == Str(t.value)
      ensures t.Branch? ==> (IsEmptyItem(Str(t.value)) <==> t.value == [])
      ensures t.Branch? && k == [] && t.value == [] ==> Outcome(sha3, main, enforced, t, k) == Lost && Get(t, k) == []
    {
      hide HexPrefixOf, RefOf;
      if t.Leaf? && t.key == k {
        assert Deleted(t, k) == Nil;
      }
    }

    lemma LeafGone(t: Tree, k: Nibbles, base: multiset<H256>)
      requires t.Leaf? && t.key == k && Formed(t)
      ensures Get(t, k) == t.value != []
      ensures Deleted(t, k) == Nil && ItemOf(sha3, Nil) == EMPTY && Below(sha3, Nil) == multiset{}
      ensures Held(sha3, m_db.m_main, Nil) && forall m: Table :: Held(sha3, m, Nil)
      ensures base + Own(sha3, t) + Below(sha3, t) - Own(sha3, t) == base + multiset{}
    {
      Uncounted(base, Own(sha3, t), Below(sha3, t));
    }

    /** Below an extension: a child left with two items is grafted onto it. */
    method DeleteUnder(orig: Item, k: Nibbles, ghost t: Tree, ghost base: multiset<H256>) returns (d: Deletion)
      requires StoreOk() && orig == ItemOf(sha3, t) && Held(sha3, m_db.m_main, t) && Deletable(t, k)
      requires m_db.refs == base + Own(sha3, t) + Below(sha3, t)
      requires t.Ext? && t.key <= k
      modifies m_db`m_main, m_db`refs
      ensures StoreOk() && Grows(old(m_db.m_main), m_db.m_main) && Formed(t)
      ensures d == Outcome(sha3, old(m_db.m_main), m_db.m_enforceRefs, t, k)
      ensures Get(t, k) == [] ==> m_db.m_main == old(m_db.m_main) && m_db.refs == old(m_db.refs)
      ensures d.Replaced? ==> Get(t, k) != [] && Held(sha3, m_db.m_main, Deleted(t, k))
      ensures d.Replaced? ==> m_db.refs == base + Below(sha3, Deleted(t, k))
      decreases t, 0
    {
      hide *;
      DeletableParts(t, k);
      ShapeFacts(t);
      DeleteUnderFacts(m_db.m_main, m_db.m_enforceRefs, t, k);
      KeptUnderExt(sha3, m_db.m_main, t);
      var key := KeyOfItem(orig);
      ghost var c, rest := t.child, k[|t.key|..];
      Regrouped4(base, Own(sha3, t), Own(sha3, c), Below(sha3, c));
      var r := DeleteAtAux(orig.items[1], k[|key|..], c, base + Own(sha3, t));
      if !r.Replaced? {
        return r;
      }
      ghost var c' := Deleted(c, rest);
      DeletedUnderFacts(t, k);
      HeldExt(sha3, m_db.m_main, t.key, c');
      label deleted:
      UncountedTwo(base, Own(sha3, t), Own(sha3, c'), Below(sha3, c'));
      KillNode(orig, t);
      label killed:
      GrowsOn(old(m_db.m_main), old@deleted(m_db.m_main), m_db.m_main);
      HeldGrows(sha3, old@deleted(m_db.m_main), m_db.m_main, Ext(t.key, c'));
      KeptUnderExt(sha3, m_db.m_main, Ext(t.key, c'));
      var b := GraftIfPair(List([orig.items[0], r.node]), t.key, c', base);
      GrowsOn(old(m_db.m_main), old@killed(m_db.m_main), m_db.m_main);
      return Replaced(b);
    }

    /** graft, if what is below has two items. */
    method GraftIfPair(orig: Item, ghost key: Nibbles, ghost c: Tree, ghost base: multiset<H256>) returns (b: Item)
      requires StoreOk() && orig == ItemOf(sha3, Ext(key, c)) && Known(sha3, nodes, c) && c != Nil
      requires Kept(sha3, m_db.m_main, c) && Held(sha3, m_db.m_main, c)
      requires m_db.refs == base + Own(sha3, c) + Below(sha3, c)
      modifies m_db`m_main, m_db`refs
      ensures StoreOk() && Grows(old(m_db.m_main), m_db.m_main)
      ensures b == ItemOf(sha3, Prefixed(key, c)) && Held(sha3, m_db.m_main, Prefixed(key, c))
      ensures m_db.refs == base + Below(sha3, Prefixed(key, c))
    {
      hide *;
      ExtFacts(key, c);
      HeldExt(sha3, m_db.m_main, key, c);
      GrowsSame(m_db.m_main);
      Regrouped5(base, Own(sha3, c), Below(sha3, c));
      var two := IsTwoItemNode(orig.items[1], Some(c));
      if two == Some(true) {
        b := Graft(orig, key, c, base);
      } else {
        b := orig;
      }
    }

    lemma ExtFacts(key: Nibbles, c: Tree)
      requires c != Nil
      ensures var x := ItemOf(sha3, Ext(key, c)); x.List? && |x.items| == 2 && x.items[1] == RefOf(sha3, c)
      ensures c.Leaf? || c.Ext? || (Prefixed(key, c) == Ext(key, c) && Below(sha3, Ext(key, c)) == Own(sha3, c) + Below(sha3, c))
    {
      hide HexPrefixOf, RefOf, Own;
    }

    lemma DeleteUnderFacts(main: Table, enforced: bool, t: Tree, k: Nibbles)
      requires Deletable(t, k) && t.Ext? && t.key <= k
      ensures Formed(t) && ItemOf(sha3, t).items[1] == RefOf(sha3, t.child)
      ensures Deletable(t.child, k[|t.key|..]) && Formed(t.child)
      ensures Below(sha3, t) == Own(sha3, t.child) + Below(sha3, t.child)
      ensures Get(t, k) == Get(t.child, k[|t.key|..])
      ensures var d, below := Outcome(sha3, main, enforced, t, k), Outcome(sha3, main, enforced, t.child, k[|t.key|..]);
              && (below.Replaced? ==> d == Replaced(ItemOf(sha3, Deleted(t, k))))
              && (!below.Replaced? ==> d == below)
    {
      hide HexPrefixOf, RefOf, Own, Enc, AsHash, IsPair;
    }

    lemma DeletedUnderFacts(t: Tree, k: Nibbles)
      requires Canonical(t) && Formed(t) && Known(sha3, nodes, t) && Get(t, k) != [] && DeleteNodes(sha3, t, k) <= nodes
      requires t.Ext? && t.key <= k && Formed(t.child)
      requires Get(t.child, k[|t.key|..]) != []
      ensures var c' := Deleted(t.child, k[|t.key|..]);
              && Deleted(t, k) == Prefixed(t.key, c') && c' != Nil && Formed(c') && Known(sha3, nodes, c')
              && ItemOf(sha3, Ext(t.key, c')) == List([ItemOf(sha3, t).items[0], RefOf(sha3, c')])
              && Below(sha3, Ext(t.key, c')) == Own(sha3, c') + Below(sha3, c')
    {
      var rest := k[|t.key|..];
      GetDelete(t.child, rest, rest);
      DeleteKnown(sha3, nodes, t.child, rest);
      hide HexPrefixOf, RefOf, Own, Enc;
    }

    /** isTwoItemNode, of a reference to a child, or of a value that is taken for one: None if it is too long for a hash. */
    method IsTwoItemNode(x: Item, ghost c: Option<Tree>) returns (r: Option<bool>)
      requires StoreOk()
      requires c.Some? ==>
                 && x == RefOf(sha3, c.value) && c.value != Nil && Known(sha3, nodes, c.value)
                 && Kept(sha3, m_db.m_main, c.value) && Own(sha3, c.value) <= m_db.refs
      requires c.None? ==> x.Str? && x.data != []
      ensures c.Some? ==> r == Some(c.value.Leaf? || c.value.Ext?)
      ensures c.None? ==> r == if |x.data| <= HASH_SIZE then Some(Mistaken(m_db.m_main, m_db.m_enforceRefs, multiset{}, x.data)) else None
    {
      if c.Some? {
        ShapeFacts(c.value);
        FollowFacts(c.value);
        NodeInStore(c.value);
      }
      hide ItemOf, Enc, Own, Known, Below, ToldApart, RefOf, AsHash, IsEmptyItem, Keyed, Walk;
      if x.List? {
        return Some(|x.items| == 2);
      }
      if |x.data| > HASH_SIZE {
        return None;
      }
      FullHash(x.data);
      var s := m_db.Lookup(AsHash(x.data));
      if s == [] {
        return Some(false);
      }
      match Walk(s)
      case None => r := None;
      case Some(n) => r := Some(n.List? && |n.items| == 2);
    }

    lemma FullHash(d: Bytes)
      requires |d| <= HASH_SIZE
      ensures |d| == HASH_SIZE ==> AsHash(d) == d
    {
    }

    lemma NodeInStore(c: Tree)
      requires StoreOk() && Known(sha3, nodes, c)
      ensures Enc(sha3, c) != [] && Walk(Enc(sha3, c)) == Some(ItemOf(sha3, c))
    {
      NodeRead(sha3, c);
    }

    /** graft: a two-item node above a two-item node becomes one, and the lower one no longer counts. */
    method Graft(orig: Item, ghost key: Nibbles, ghost c: Tree, ghost base: multiset<H256>) returns (b: Item)
      requires StoreOk() && orig == ItemOf(sha3, Ext(key, c)) && Known(sha3, nodes, c) && (c.Leaf? || c.Ext?)
      requires Kept(sha3, m_db.m_main, c) && Held(sha3, m_db.m_main, c)
      requires m_db.refs == base + Own(sha3, c) + Below(sha3, c)
      modifies m_db`m_main, m_db`refs
      ensures StoreOk() && Grows(old(m_db.m_main), m_db.m_main)
      ensures b == ItemOf(sha3, Prefixed(key, c)) && Held(sha3, m_db.m_main, Prefixed(key, c))
      ensures m_db.refs == base + Below(sha3, Prefixed(key, c))
    {
      hide *;
      ShapeFacts(c);
      GraftFacts(key, c);
      FollowFacts(c);
      RefCounted(base, Own(sha3, c), Below(sha3, c));
      Uncounted(base, Own(sha3, c), Below(sha3, c));
      GrowsSame(m_db.m_main);
      var n: Item;
      if orig.items[1].List? {
        n := orig.items[1];
      } else {
        var lh := orig.items[1].data;
        n := Load(lh, c);
        ForceKillNode(lh);
      }
      HeldGrows(sha3, old(m_db.m_main), m_db.m_main, c);
      PrefixedHeld(sha3, m_db.m_main, key, c);
      b := List([Str(HexPrefixOf(KeyOfItem(orig) + KeyOfItem(n), IsLeafItem(n))), n.items[1]]);
    }

    lemma GraftFacts(key: Nibbles, c: Tree)
      requires c.Leaf? || c.Ext?
      requires Known(sha3, nodes, c)
      ensures var x, y := ItemOf(sha3, Ext(key, c)), ItemOf(sha3, c);
              && Keyed(x) && KeyOfItem(x) == key && x.List? && |x.items| == 2 && x.items[1] == RefOf(sha3, c)
              && Keyed(y)
              && ItemOf(sha3, Prefixed(key, c)) == List([Str(HexPrefixOf(key + c.key, c.Leaf?)), y.items[1]])
              && Below(sha3, Prefixed(key, c)) == Below(sha3, c)
              && (RefOf(sha3, c).List? ==> Own(sha3, c) == multiset{})
              && (RefOf(sha3, c).Str? ==> |RefOf(sha3, c).data| == 32 && Own(sha3, c) == multiset{RefOf(sha3, c).data})
    {
      KnownFormed(sha3, nodes, c);
      RefShape(sha3, c);
      NodeShape(sha3, c);
      HexPrefixRoundTrip(key, false);
      hide HexPrefixOf, Encode;
    }

    /** Deletes from what a node holds of a child, putting what is left of the child into the store. */
    method DeleteAtAux(orig: Item, k: Nibbles, ghost c: Tree, ghost base: multiset<H256>) returns (r: Deletion)
      requires StoreOk() && orig == RefOf(sha3, c)
      requires Kept(sha3, m_db.m_main, c) && Held(sha3, m_db.m_main, c) && Deletable(c, k)
      requires m_db.refs == base + Own(sha3, c) + Below(sha3, c)
      modifies m_db`m_main, m_db`refs
      ensures StoreOk() && Grows(old(m_db.m_main), m_db.m_main) && Formed(c)
      ensures var d := Outcome(sha3, old(m_db.m_main), m_db.m_enforceRefs, c, k); if d.Replaced? then r.Replaced? else r == d
      ensures Get(c, k) == [] ==> m_db.m_main == old(m_db.m_main) && m_db.refs == old(m_db.refs)
      ensures r.Replaced? ==>
                && Get(c, k) != [] && r.node == RefOf(sha3, Deleted(c, k))
                && Kept(sha3, m_db.m_main, Deleted(c, k)) && Held(sha3, m_db.m_main, Deleted(c, k))
                && m_db.refs == base + Own(sha3, Deleted(c, k)) + Below(sha3, Deleted(c, k))
      ensures c.Leaf? ==> SameNodes(old(m_db.m_main), m_db.m_main)
      decreases c, 2
    {
      hide *;
      DeletableParts(c, k);
      ShapeFacts(c);
      RefEmpty(c);
      EndOutcome(m_db.m_main, m_db.m_enforceRefs, c, k);
      OutcomeParts(m_db.m_main, m_db.m_enforceRefs, c, k);
      GrowsSame(m_db.m_main);
      NodesSame(m_db.m_main);
      if IsEmptyItem(orig) {
        return Missing;
      }
      RefCounted(base, Own(sha3, c), Below(sha3, c));
      var x := Follow(orig, c);
      var d := DeleteAt(x, k, c, base);
      if !d.Replaced? {
        return d;
      }
      RemovedFacts(c, k);
      LeafToNil(c, k);
      label deleted:
      Regrouped(base, Below(sha3, Deleted(c, k)), Own(sha3, Deleted(c, k)));
      var s := StreamNode(d.node, Deleted(c, k));
      GrowsOn(old(m_db.m_main), old@deleted(m_db.m_main), m_db.m_main);
      HeldGrows(sha3, old@deleted(m_db.m_main), m_db.m_main, Deleted(c, k));
      return Replaced(s);
    }

    lemma LeafToNil(c: Tree, k: Nibbles)
      requires Formed(c) && Get(c, k) != []
      ensures c.Leaf? ==> |Enc(sha3, Deleted(c, k))| < 32
    {
      if c.Leaf? {
        assert Enc(sha3, Nil) == [DATA_START];
      }
    }

    lemma RefEmpty(c: Tree)
      requires Formed(c)
      ensures c.Nil? <==> IsEmptyItem(RefOf(sha3, c))
    {
      RefShape(sha3, c);
    }

    /** The value of a branch goes: what is left of it may be a single child. */
    method DeleteValue(orig: Item, ghost t: Tree, ghost base: multiset<H256>) returns (d: Deletion)
      requires StoreOk() && orig == ItemOf(sha3, t) && Held(sha3, m_db.m_main, t) && Deletable(t, [])
      requires m_db.refs == base + Own(sha3, t) + Below(sha3, t)
      requires t.Branch? && t.value != []
      modifies m_db`m_main, m_db`refs
      ensures StoreOk() && Grows(old(m_db.m_main), m_db.m_main) && Formed(t)
      ensures d == Outcome(sha3, old(m_db.m_main), m_db.m_enforceRefs, t, [])
      ensures d.Replaced? && Get(t, []) != [] && Held(sha3, m_db.m_main, Deleted(t, []))
      ensures m_db.refs == base + Below(sha3, Deleted(t, []))
    {
      hide *;
      DeletableParts(t, []);
      ShapeFacts(t);
      ValueGone(m_db.m_main, m_db.m_enforceRefs, t);
      Uncounted(base, Own(sha3, t), Below(sha3, t));
      KillNode(orig, t);
      label killed:
      HeldGrows(sha3, old(m_db.m_main), m_db.m_main, t);
      var used := UniqueInUseOf(orig, 16);
      UsedIsUnique(t, [], 16, used);
      if used != 255 {
        var b := MergeSlot(orig, used, t, [], base);
        GrowsOn(old(m_db.m_main), old@killed(m_db.m_main), m_db.m_main);
        return Replaced(b);
      }
      EmptiedBranch(t);
      HeldEmptied(t);
      var s := FirstSlots(orig.items);
      return Replaced(List(s + [EMPTY]));
    }

    lemma ValueGone(main: Table, enforced: bool, t: Tree)
      requires Deletable(t, []) && t.Branch? && t.value != []
      ensures Formed(t) && |t.kids| == 16 && Get(t, []) == t.value && KidsKnown(t.kids)
      ensures Deleted(t, []) == Collapsed(t.kids, [])
      ensures Outcome(sha3, main, enforced, t, []) == Replaced(ItemOf(sha3, Collapsed(t.kids, [])))
      ensures !NoneUsed(t.kids, [], 0)
    {
      hide ItemOf, Collapsed, Enc;
      StillUsed(t.kids, t.value, t.kids, [], 16);
    }

    lemma EmptiedBranch(t: Tree)
      requires t.Branch? && |t.kids| == 16 && Collapsed(t.kids, []) == Branch(t.kids, [])
      ensures var x := ItemOf(sha3, t);
              x.List? && |x.items| == 17 && ItemOf(sha3, Collapsed(t.kids, [])) == List(x.items[..16] + [EMPTY])
      ensures Below(sha3, Collapsed(t.kids, [])) == Below(sha3, t)
    {
      hide Collapsed, RefsOf, Own;
      assert ItemOf(sha3, t).items[..16] == RefsOf(sha3, t.kids);
    }

    lemma HeldEmptied(t: Tree)
      requires t.Branch? && |t.kids| == 16 && Collapsed(t.kids, []) == Branch(t.kids, []) && Held(sha3, m_db.m_main, t)
      ensures Held(sha3, m_db.m_main, Collapsed(t.kids, []))
    {
      hide Collapsed, Kept;
    }

    /** In the slot of a branch that k's first nibble names. */
    method DeleteInto(orig: Item, k: Nibbles, ghost t: Tree, ghost base: multiset<H256>) returns (d: Deletion)
      requires StoreOk() && orig == ItemOf(sha3, t) && Held(sha3, m_db.m_main, t) && Deletable(t, k)
      requires m_db.refs == base + Own(sha3, t) + Below(sha3, t)
      requires t.Branch? && k != []
      modifies m_db`m_main, m_db`refs
      ensures StoreOk() && Grows(old(m_db.m_main), m_db.m_main) && Formed(t)
      ensures d == Outcome(sha3, old(m_db.m_main), m_db.m_enforceRefs, t, k)
      ensures Get(t, k) == [] ==> m_db.m_main == old(m_db.m_main) && m_db.refs == old(m_db.refs)
      ensures d.Replaced? ==> Get(t, k) != [] && Held(sha3, m_db.m_main, Deleted(t, k))
      ensures d.Replaced? ==> m_db.refs == base + Below(sha3, Deleted(t, k))
      decreases t, 0
    {
      hide *;
      DeletableParts(t, k);
      ShapeFacts(t);
      DeleteIntoFacts(t, k);
      var x := k[0];
      KeptSlot(sha3, m_db.m_main, t, x);
      ghost var c, rest := t.kids[x], k[1..];
      OutcomeParts(m_db.m_main, m_db.m_enforceRefs, t, k);
      OutcomeParts(m_db.m_main, m_db.m_enforceRefs, c, rest);
      ghost var c' := if Get(c, rest) == [] then Nil else Deleted(c, rest);
      ghost var others := BelowAll(sha3, t.kids[x := Nil]);
      ghost var items' := orig.items[x := RefOf(sha3, c')];
      StoreCounts();
      SlotSum(base + Own(sha3, t), Own(sha3, c), Below(sha3, c), others);
      GrowsSame(m_db.m_main);
      NodesSame(m_db.m_main);
      var r: seq<Item> := [];
      for i := 0 to 17
        invariant StoreOk() && Grows(old(m_db.m_main), m_db.m_main)
        invariant r == items'[..i] || (i <= x && r == orig.items[..i])
        invariant i <= x ==> m_db.m_main == old(m_db.m_main) && m_db.refs == old(m_db.refs)
        invariant i > x ==> Get(c, rest) != [] && Safe(c, rest) && r == items'[..i]
        invariant i > x ==> !MistakenBelow(sha3, old(m_db.m_main), m_db.m_enforceRefs, c, rest)
        invariant c.Leaf? ==> SameNodes(old(m_db.m_main), m_db.m_main)
        invariant i > x ==> Kept(sha3, m_db.m_main, c') && Held(sha3, m_db.m_main, c')
        invariant i > x ==> m_db.refs == base + Own(sha3, t) + others + Own(sha3, c') + Below(sha3, c')
      {
        if i == x {
          var slot := DeleteAtAux(orig.items[i], k[1..], c, base + Own(sha3, t) + others);
          if !slot.Replaced? {
            NotReplaced(old(m_db.m_main), m_db.m_enforceRefs, t, k);
            return slot;
          }
          r := r + [slot.node];
        } else {
          r := r + [orig.items[i]];
        }
      }
      assert items'[..17] == items';
      ghost var t' := Branch(t.kids[x := c'], t.value);
      DeletedIntoFacts(old(m_db.m_main), m_db.m_enforceRefs, t, k);
      HeldGrows(sha3, old(m_db.m_main), m_db.m_main, t);
      HeldBranch(sha3, m_db.m_main, t, x, c');
      label deleted:
      UncountedSlot(base, Own(sha3, t), others, Own(sha3, c'), Below(sha3, c'));
      KillNode(orig, t);
      GrowsOn(old(m_db.m_main), old@deleted(m_db.m_main), m_db.m_main);
      HeldGrows(sha3, old@deleted(m_db.m_main), m_db.m_main, t');
      label killed:
      if c.Leaf? {
        NodesSameOn(old(m_db.m_main), old@deleted(m_db.m_main), m_db.m_main);
        SeenLater(old(m_db.m_main), old(m_db.refs), t, k, base);
      }
      var b := Collapse(List(r), t', base);
      GrowsOn(old(m_db.m_main), old@killed(m_db.m_main), m_db.m_main);
      d := if b.Some? then Replaced(b.value) else Lost;
    }

    ghost predicate KidsKnown(kids: seq<Tree>)
      reads this`nodes
    {
      forall i | 0 <= i < |kids| :: Known(sha3, nodes, kids[i])
    }

    /** Before and after the branch and the leaf in its slot are counted down the same values are mistaken. */
    lemma SeenLater(before: Table, refs: multiset<H256>, t: Tree, k: Nibbles, base: multiset<H256>)
      requires StoreOk() && t.Branch? && k != [] && Known(sha3, nodes, t) && |t.kids| == 16 && t.kids[k[0]].Leaf?
      requires SameNodes(before, m_db.m_main) && Counts(before, refs)
      requires Formed(t.kids[k[0]]) && Get(t.kids[k[0]], k[1..]) != []
      requires var c, others := t.kids[k[0]], BelowAll(sha3, t.kids[k[0] := Nil]);
               var c' := Deleted(c, k[1..]);
               && refs == base + Own(sha3, t) + (Own(sha3, c) + Below(sha3, c) + others)
               && m_db.refs == base + (Own(sha3, c') + Below(sha3, c') + others)
      ensures var v := t.value;
              Mistaken(m_db.m_main, m_db.m_enforceRefs, multiset{}, v) <==> Mistaken(before, m_db.m_enforceRefs, Own(sha3, t.kids[k[0]]), v)
    {
      hide *;
      var c := t.kids[k[0]];
      StoreParts();
      BranchIsNoPair(before, t);
      CountsLater(refs, t, c, k[1..], BelowAll(sha3, t.kids[k[0] := Nil]), base);
      MistakenLater(before, m_db.m_main, m_db.refs, Own(sha3, t), Own(sha3, c), m_db.m_enforceRefs, t.value);
    }

    lemma CountsLater(refs: multiset<H256>, t: Tree, c: Tree, k: Nibbles, others: multiset<H256>, base: multiset<H256>)
      requires c.Leaf? && Formed(c) && Get(c, k) != []
      requires refs == base + Own(sha3, t) + (Own(sha3, c) + Below(sha3, c) + others)
      requires m_db.refs == base + (Own(sha3, Deleted(c, k)) + Below(sha3, Deleted(c, k)) + others)
      ensures m_db.refs + Own(sha3, t) + Own(sha3, c) == refs
    {
      NilRefs(sha3);
      hide Own;
    }

    lemma BranchIsNoPair(before: Table, t: Tree)
      requires StoreOk() && t.Branch? && Known(sha3, nodes, t) && SameNodes(before, m_db.m_main)
      ensures forall h <- before :: IsPair(before[h].bytes) ==> h !in Own(sha3, t)
    {
      NodeInStore(t);
      NodeShape(sha3, t);
      hide ItemOf, Enc, Walk;
    }

    /** What stands for a branch after one slot changed: None if a value left alone is too long for a hash, or is one. */
    method Collapse(rlp: Item, ghost t: Tree, ghost base: multiset<H256>) returns (b: Option<Item>)
      requires StoreOk() && rlp == ItemOf(sha3, t) && Held(sha3, m_db.m_main, t)
      requires t.Branch? && |t.kids| == 16 && Formed(t) && KidsKnown(t.kids) && !NoneUsed(t.kids, t.value, 0)
      requires m_db.refs == base + Below(sha3, t)
      modifies m_db`m_main, m_db`refs
      ensures StoreOk() && Grows(old(m_db.m_main), m_db.m_main)
      ensures b == if UniqueInUse(t.kids, t.value, 0) == 16
                     && (|t.value| > HASH_SIZE || Mistaken(old(m_db.m_main), m_db.m_enforceRefs, multiset{}, t.value)) then None
                   else Some(ItemOf(sha3, Collapsed(t.kids, t.value)))
      ensures b.Some? ==> Held(sha3, m_db.m_main, Collapsed(t.kids, t.value))
      ensures b.Some? ==> m_db.refs == base + Below(sha3, Collapsed(t.kids, t.value))
    {
      hide *;
      BranchSeen(t);
      GrowsSame(m_db.m_main);
      var used := UniqueInUseOf(rlp, 255);
      UsedIsUnique(t, t.value, 255, used);
      if used == 255 {
        return Some(rlp);
      }
      if used == 16 {
        OnlyValue(t);
        var two := IsTwoItemNode(rlp.items[16], None);
        if two == None {
          return None;
        }
        if two == Some(true) {
          return None; // the node with that hash would be grafted
        }
        var merged := Merge(rlp, 16);
        return Some(merged);
      }
      var m := MergeSlot(rlp, used, t, t.value, base);
      return Some(m);
    }

    /** merge with what the one slot in use holds, and graft if that has two items. */
    method MergeSlot(rlp: Item, used: nat, ghost t: Tree, ghost value: Bytes, ghost base: multiset<H256>) returns (b: Item)
      requires StoreOk() && rlp == ItemOf(sha3, t) && Held(sha3, m_db.m_main, t)
      requires t.Branch? && |t.kids| == 16 && Formed(t) && KidsKnown(t.kids)
      requires used == UniqueInUse(t.kids, value, 0) < 16
      requires m_db.refs == base + Below(sha3, t)
      modifies m_db`m_main, m_db`refs
      ensures StoreOk() && Grows(old(m_db.m_main), m_db.m_main)
      ensures b == ItemOf(sha3, Collapsed(t.kids, value)) && Held(sha3, m_db.m_main, Collapsed(t.kids, value))
      ensures m_db.refs == base + Below(sha3, Collapsed(t.kids, value))
    {
      hide *;
      BranchSeen(t);
      OneSlotFacts(t, value, used);
      GrowsSame(m_db.m_main);
      KeptSlot(sha3, m_db.m_main, t, used);
      ghost var kid := t.kids[used];
      Regrouped5(base, Own(sha3, kid), Below(sha3, kid));
      var merged := Merge(rlp, used);
      b := GraftIfPair(merged, [used], kid, base);
    }

    lemma BranchSeen(t: Tree)
      requires t.Branch? && |t.kids| == 16
      ensures var x := ItemOf(sha3, t); x.List? && |x.items| == 17 && x.items[16] == Str(t.value)
    {
      BranchShape(sha3, t);
    }

    /** A branch of which only the value is left. */
    lemma OnlyValue(t: Tree)
      requires t.Branch? && |t.kids| == 16 && Formed(t) && UniqueInUse(t.kids, t.value, 0) == 16
      ensures t.value != [] && Collapsed(t.kids, t.value) == Leaf([], t.value)
      ensures ItemOf(sha3, Leaf([], t.value)) == List([Str(HexPrefixOf([], true)), Str(t.value)])
      ensures Below(sha3, t) == multiset{} == Below(sha3, Leaf([], t.value))
      ensures forall main: Table :: Held(sha3, main, Leaf([], t.value))
    {
      UniqueInUseIs(t.kids, t.value, 0);
      forall i | 0 <= i < 16 ensures t.kids[i] == Nil {
        assert !Used(t.kids, t.value, i);
      }
      BelowNone(sha3, t.kids);
      hide HexPrefixOf, UniqueInUse;
    }

    lemma DeleteIntoFacts(t: Tree, k: Nibbles)
      requires Deletable(t, k) && t.Branch? && k != []
      ensures Formed(t) && |t.kids| == 16
      ensures var c := t.kids[k[0]];
              && Formed(c) && Deletable(c, k[1..])
              && ItemOf(sha3, t).items[k[0]] == RefOf(sha3, c)
              && Get(t, k) == Get(c, k[1..])
              && Below(sha3, t) == Own(sha3, c) + Below(sha3, c) + BelowAll(sha3, t.kids[k[0] := Nil])
    {
      hide ItemOf, RefOf, Own, Enc, Stake, BelowAll, AsHash, IsPair, Deleted, UniqueInUse, TwoUsed, Safe, Inside;
      BranchShape(sha3, t);
      BelowSplit(sha3, t.kids, k[0]);
      if Get(t, k) != [] {
        ValueAtStake(t, k);
      }
    }

    /** Where removal leaves the value of the branch alone, it leaves nothing alone further down. */
    lemma ValueAtStake(t: Tree, k: Nibbles)
      requires Canonical(t) && Formed(t) && t.Branch? && k != [] && Get(t, k) != []
      ensures |t.kids| == 16
      ensures var c := t.kids[k[0]];
              Formed(c) && Get(c, k[1..]) != [] &&
              var alone := UniqueInUse(t.kids[k[0] := Deleted(c, k[1..])], t.value, 0) == 16;
              && Gone(t, k) == Gone(c, k[1..]) && (c.Leaf? ==> Gone(t, k) == c)
              && Stake(t, k) == (if alone then t.value else Stake(c, k[1..]))
              && (alone ==> c.Leaf? && Stake(c, k[1..]) == [] && Safe(c, k[1..]))
              && (Inside(t, k) <==> Inside(c, k[1..]))
    {
      var c, rest := t.kids[k[0]], k[1..];
      assert Get(c, rest) == Get(t, k);
      var c' := Deleted(c, rest);
      var kids' := t.kids[k[0] := c'];
      UniqueInUseIs(kids', t.value, 0);
      GoneIsLeaf(c, rest);
      if c' != Nil {
        assert Used(kids', t.value, k[0]);
      }
      hide UniqueInUse, TwoUsed, NoneUsed;
    }

    lemma GoneIsLeaf(c: Tree, k: Nibbles)
      requires Canonical(c) && Formed(c) && Get(c, k) != []
      ensures Deleted(c, k) == Nil <==> c.Leaf?
      ensures c.Leaf? ==> c.key == k && Stake(c, k) == [] && Safe(c, k)
    {
      if c.Ext? {
        GetDelete(c.child, k[|c.key|..], k[|c.key|..]);
      } else if c.Branch? {
        GetDelete(c, k, k);
      }
    }

    /** What the outcome is where it is no replacement further down. */
    lemma NotReplaced(main: Table, enforced: bool, t: Tree, k: Nibbles)
      requires Canonical(t) && Formed(t) && t.Branch? && k != [] && |t.kids| == 16 && Formed(t.kids[k[0]])
      requires !Outcome(sha3, main, enforced, t.kids[k[0]], k[1..]).Replaced?
      ensures Outcome(sha3, main, enforced, t, k) == Outcome(sha3, main, enforced, t.kids[k[0]], k[1..])
    {
      var c, rest := t.kids[k[0]], k[1..];
      assert Get(t, k) == Get(c, rest) && (Inside(t, k) <==> Inside(c, rest));
      if Get(t, k) != [] {
        ValueAtStake(t, k);
      }
      hide Get, Inside, Stake, Gone, Own, ItemOf, Deleted, Canonical, AsHash, IsPair;
    }

    lemma DeletedIntoFacts(main: Table, enforced: bool, t: Tree, k: Nibbles)
      requires Canonical(t) && Formed(t) && Known(sha3, nodes, t) && Get(t, k) != [] && DeleteNodes(sha3, t, k) <= nodes
      requires t.Branch? && |t.kids| == 16 && k != [] && Formed(t.kids[k[0]])
      requires Get(t.kids[k[0]], k[1..]) != [] && Safe(t.kids[k[0]], k[1..])
      requires !MistakenBelow(sha3, main, enforced, t.kids[k[0]], k[1..])
      ensures var c' := Deleted(t.kids[k[0]], k[1..]);
              var t' := Branch(t.kids[k[0] := c'], t.value);
              && Deleted(t, k) == Collapsed(t'.kids, t'.value)
              && Formed(t') && KidsKnown(t'.kids) && !NoneUsed(t'.kids, t'.value, 0)
              && ItemOf(sha3, t') == List(ItemOf(sha3, t).items[k[0] := RefOf(sha3, c')])
              && Below(sha3, t') == Own(sha3, c') + Below(sha3, c') + BelowAll(sha3, t.kids[k[0] := Nil])
              && (UniqueInUse(t'.kids, t'.value, 0) == 16 ==> t.kids[k[0]].Leaf? && c' == Nil)
              && Outcome(sha3, main, enforced, t, k) ==
                 if UniqueInUse(t'.kids, t'.value, 0) == 16
                    && (|t'.value| > HASH_SIZE || Mistaken(main, enforced, Own(sha3, t.kids[k[0]]), t'.value)) then Lost
                 else Replaced(ItemOf(sha3, Collapsed(t'.kids, t'.value)))
    {
      hide ItemOf, RefOf, Own, Collapsed, Below, BelowAll, Stake, Gone, Inside, UniqueInUse, Enc, Mistaken, TwoUsed, DeleteNodes;
      var c, rest := t.kids[k[0]], k[1..];
      var c' := Deleted(c, rest);
      var t' := Branch(t.kids[k[0] := c'], t.value);
      DeleteBelow(sha3, nodes, t, k);
      DeleteKnown(sha3, nodes, c, rest);
      GetDelete(c, rest, rest);
      StillUsed(t.kids, t.value, t'.kids, t'.value, k[0]);
      SlotFacts(sha3, t, k[0], c');
      ValueAtStake(t, k);
      NothingMistaken(main, enforced, Own(sha3, c));
    }

    lemma NothingMistaken(main: Table, enforced: bool, gone: multiset<H256>)
      ensures !Mistaken(main, enforced, gone, [])
    {
    }

    lemma UsedIsUnique(t: Tree, value: Bytes, except: nat, used: nat)
      requires t.Branch? && Formed(t) && !NoneUsed(t.kids, value, 0)
      requires (except == 16 && value == []) || (except == 255 && value == t.value)
      requires var x := ItemOf(sha3, t);
               && x.List? && |x.items| == 17
               && (used == 255 || (used <= 16 && used != except && !IsEmptyItem(x.items[used])
                                   && forall i | 0 <= i <= 16 && i != except && i != used :: IsEmptyItem(x.items[i])))
               && (used == 255 ==>
                     || (forall i | 0 <= i <= 16 && i != except :: IsEmptyItem(x.items[i]))
                     || exists i, j :: 0 <= i < j <= 16 && i != except && j != except
                                       && !IsEmptyItem(x.items[i]) && !IsEmptyItem(x.items[j]))
      ensures used == UniqueInUse(t.kids, value, 0) && (used == 255 || used <= 16) && (except == 16 ==> used != 16)
      ensures used == 255 ==> Collapsed(t.kids, value) == Branch(t.kids, value)
    {
      hide *;
      SlotsSeen(t, value, except);
      UniqueParts(t, value);
      var items := ItemOf(sha3, t).items;
      if used == 255 {
        var i :| 0 <= i <= 16 && Used(t.kids, value, i);
        var i', j' :| 0 <= i' < j' <= 16 && i' != except && j' != except && !IsEmptyItem(items[i']) && !IsEmptyItem(items[j']);
        assert Used(t.kids, value, i') && Used(t.kids, value, j');
      } else {
        assert Used(t.kids, value, used);
      }
    }

    /** An item of a branch is empty just where its slot is not in use; the excepted one is not looked at. */
    lemma SlotsSeen(t: Tree, value: Bytes, except: nat)
      requires t.Branch? && Formed(t)
      requires (except == 16 && value == []) || (except == 255 && value == t.value)
      ensures var x := ItemOf(sha3, t);
              && |t.kids| == 16 && x.List? && |x.items| == 17
              && (forall i | 0 <= i <= 16 && i != except :: IsEmptyItem(x.items[i]) <==> !Used(t.kids, value, i))
              && (except <= 16 ==> !Used(t.kids, value, except))
    {
      BranchShape(sha3, t);
      forall i | 0 <= i < 16 ensures IsEmptyItem(RefOf(sha3, t.kids[i])) <==> t.kids[i] == Nil {
        RefShape(sha3, t.kids[i]);
      }
      hide ItemOf, RefOf;
    }

    lemma UniqueParts(t: Tree, value: Bytes)
      requires t.Branch? && |t.kids| == 16 && !NoneUsed(t.kids, value, 0)
      ensures exists i :: 0 <= i <= 16 && Used(t.kids, value, i)
      ensures var u := UniqueInUse(t.kids, value, 0);
              if u == 255 then
                && Collapsed(t.kids, value) == Branch(t.kids, value)
                && exists i, j :: 0 <= i < j <= 16 && Used(t.kids, value, i) && Used(t.kids, value, j)
              else u <= 16 && Used(t.kids, value, u) && forall i | 0 <= i <= 16 && i != u :: !Used(t.kids, value, i)
    {
      UniqueInUseIs(t.kids, value, 0);
      hide UniqueInUse, Used;
    }

    lemma OneSlotFacts(t: Tree, value: Bytes, u: nat)
      requires t.Branch? && Formed(t) && |t.kids| == 16 && KidsKnown(t.kids)
      requires u == UniqueInUse(t.kids, value, 0) < 16
      ensures var kid := t.kids[u];
              && kid != Nil && Known(sha3, nodes, kid) && (kid.Leaf? || kid.Ext? || kid.Branch?)
              && Collapsed(t.kids, value) == Prefixed([u], kid)
              && ItemOf(sha3, t).items[u] == RefOf(sha3, kid)
              && ItemOf(sha3, Ext([u], kid)) == List([Str(HexPrefixOf([u], false)), RefOf(sha3, kid)])
              && Below(sha3, t) == Own(sha3, kid) + Below(sha3, kid) == Below(sha3, Ext([u], kid))
    {
      UniqueInUseIs(t.kids, value, 0);
      BranchShape(sha3, t);
      hide RefOf, Own, HexPrefixOf, UniqueInUse;
      forall j | 0 <= j < 16 && j != u ensures t.kids[j] == Nil {
        assert !Used(t.kids, value, j);
      }
      OneKid(sha3, t.kids, t.kids[u], u);
      assert t.kids[u := t.kids[u]] == t.kids;
    }

    /** uniqueInUse: the one slot other than the excepted that is not empty, or 255. */
    method UniqueInUseOf(orig: Item, except: nat) returns (used: nat)
      requires orig.List? && |orig.items| == 17
      ensures used == 255 || (used <= 16 && used != except && !IsEmptyItem(orig.items[used])
                              && forall i | 0 <= i <= 16 && i != except && i != used :: IsEmptyItem(orig.items[i]))
      ensures used == 255 ==>
                || (forall i | 0 <= i <= 16 && i != except :: IsEmptyItem(orig.items[i]))
                || exists i, j :: 0 <= i < j <= 16 && i != except && j != except
                                  && !IsEmptyItem(orig.items[i]) && !IsEmptyItem(orig.items[j])
    {
      used := 255;
      for i := 0 to 17
        invariant used == 255 || (used < i && used != except && !IsEmptyItem(orig.items[used]))
        invariant forall j | 0 <= j < i && j != except && j != used :: IsEmptyItem(orig.items[j])
      {
        if i != except && !IsEmptyItem(orig.items[i]) {
          if used == 255 {
            used := i;
          } else {
            return 255;
          }
        }
      }
    }

    /** merge: a branch with one slot in use as a two-item node. */
    method Merge(orig: Item, i: nat) returns (b: Item)
      requires orig.List? && |orig.items| == 17 && i <= 16
      ensures b == List([Str(if i != 16 then HexPrefixOf([i], false) else HexPrefixOf([], true)), orig.items[i]])
    {
      if i != 16 {
        var byteOfI: Bytes := [i];
        var key := EncodeData(byteOfI, false, 1, 2, 0);
        UnpackAt(byteOfI, 1);
        assert Unpack(byteOfI)[1..2] == [i];
        b := List([Str(key), orig.items[i]]);
      } else {
        b := List([Str(HexPrefixOf([], true)), orig.items[i]]);
      }
    }

    // ---------------------------------------------------------------- Looking up

    /** The node a reference stands for: itself if written in place, else fetched by hash. */
    method Follow(ref: Item, ghost c: Tree) returns (x: Item)
      requires StoreOk() && ref == RefOf(sha3, c) && c != Nil && Known(sha3, nodes, c)
      requires Kept(sha3, m_db.m_main, c)
      requires Own(sha3, c) <= m_db.refs
      ensures x == ItemOf(sha3, c)
    {
      hide *;
      FollowFacts(c);
      if ref.List? {
        x := ref;
      } else {
        x := Load(ref.data, c);
      }
    }

    lemma FollowFacts(c: Tree)
      requires Known(sha3, nodes, c) && c != Nil && Kept(sha3, m_db.m_main, c)
      ensures var x := RefOf(sha3, c);
              && (x.List? ==> x == ItemOf(sha3, c))
              && (x.Str? ==> |x.data| == 32 && x.data in m_db.m_main && m_db.m_main[x.data].bytes == Enc(sha3, c))
              && (x.Str? && Own(sha3, c) <= m_db.refs ==> x.data in m_db.refs)
    {
      KnownFormed(sha3, nodes, c);
      RefShape(sha3, c);
      if RefOf(sha3, c).Str? {
        assert sha3(Enc(sha3, c)) in Own(sha3, c);
      }
    }

    /** at(key). */
    method At(key: Bytes) returns (r: Bytes)
      requires Valid()
      ensures r == if key in contents then contents[key] else []
    {
      hide *;
      RootFacts(tree);
      StoredAt(tree, contents, key);
      InSum(multiset{m_root}, Below(sha3, tree));
      var root := Load(m_root, tree);
      r := AtAux(root, Unpack(key), tree);
    }

    method AtAux(here: Item, key: Nibbles, ghost t: Tree) returns (r: Bytes)
      requires StoreOk() && here == ItemOf(sha3, t) && Known(sha3, nodes, t)
      requires Held(sha3, m_db.m_main, t)
      requires Below(sha3, t) <= m_db.refs
      ensures Formed(t) && r == Get(t, key)
      decreases t
    {
      hide *;
      ShapeFacts(t);
      AtEnd(t, key);
      if IsEmptyItem(here) {
        return [];
      }
      if |here.items| == 2 {
        var k := KeyOfItem(here);
        if key == k && IsLeafItem(here) {
          r := here.items[1].data;
        } else if k <= key && !IsLeafItem(here) {
          AtExt(t, key);
          var x := Follow(here.items[1], t.child);
          r := AtAux(x, key[|k|..], t.child);
        } else {
          if t.Ext? {
            AtExt(t, key);
          }
          r := [];
        }
      } else {
        if key == [] {
          return here.items[16].data;
        }
        AtSlot(t, key);
        var slot := here.items[key[0]];
        if IsEmptyItem(slot) {
          r := [];
        } else {
          var x := Follow(slot, t.kids[key[0]]);
          r := AtAux(x, key[1..], t.kids[key[0]]);
        }
      }
    }

    /** What the code sees of any node. */
    lemma ShapeFacts(t: Tree)
      requires Known(sha3, nodes, t)
      ensures Formed(t)
      ensures var x := ItemOf(sha3, t);
              && (t.Nil? <==> IsEmptyItem(x))
              && (t.Leaf? || t.Ext? <==> x.List? && |x.items| == 2)
              && (t.Branch? <==> x.List? && |x.items| == 17)
              && (t.Leaf? || t.Ext? ==> Keyed(x) && KeyOfItem(x) == t.key && IsLeafItem(x) == t.Leaf?)
    {
      KnownFormed(sha3, nodes, t);
      NodeShape(sha3, t);
    }

    lemma AtEnd(t: Tree, key: Nibbles)
      requires Formed(t)
      ensures t.Nil? ==> Get(t, key) == []
      ensures t.Leaf? ==> ItemOf(sha3, t).items[1] == Str(t.value)
      ensures t.Leaf? ==> Get(t, key) == if key == t.key then t.value else []
      ensures t.Branch? && key == [] ==> |t.kids| == 16 && ItemOf(sha3, t).items[16] == Str(t.value) && Get(t, key) == t.value
    {
      hide HexPrefixOf, RefOf;
    }

    lemma AtExt(t: Tree, key: Nibbles)
      requires Known(sha3, nodes, t) && Held(sha3, m_db.m_main, t) && Formed(t) && t.Ext?
      requires Below(sha3, t) <= m_db.refs
      ensures ItemOf(sha3, t).items[1] == RefOf(sha3, t.child) && t.child != Nil
      ensures Formed(t.child)
      ensures Get(t, key) == if t.key <= key then Get(t.child, key[|t.key|..]) else []
      ensures Known(sha3, nodes, t.child)
      ensures Kept(sha3, m_db.m_main, t.child) && Held(sha3, m_db.m_main, t.child)
      ensures Own(sha3, t.child) <= m_db.refs && Below(sha3, t.child) <= m_db.refs
    {
      hide HexPrefixOf, RefOf, Own, Enc;
    }

    lemma AtSlot(t: Tree, key: Nibbles)
      requires Known(sha3, nodes, t) && Held(sha3, m_db.m_main, t) && Formed(t)
      requires t.Branch? && key != []
      requires Below(sha3, t) <= m_db.refs
      ensures |t.kids| == 16 && Formed(t.kids[key[0]])
      ensures Get(t, key) == Get(t.kids[key[0]], key[1..])
      ensures ItemOf(sha3, t).items[key[0]] == RefOf(sha3, t.kids[key[0]])
      ensures IsEmptyItem(RefOf(sha3, t.kids[key[0]])) <==> t.kids[key[0]].Nil?
      ensures t.kids[key[0]].Nil? ==> Get(t.kids[key[0]], key[1..]) == []
      ensures Known(sha3, nodes, t.kids[key[0]])
      ensures Kept(sha3, m_db.m_main, t.kids[key[0]]) && Held(sha3, m_db.m_main, t.kids[key[0]])
      ensures Own(sha3, t.kids[key[0]]) <= m_db.refs && Below(sha3, t.kids[key[0]]) <= m_db.refs
    {
      BranchShape(sha3, t);
      RefShape(sha3, t.kids[key[0]]);
      BelowSplit(sha3, t.kids, key[0]);
      hide ItemOf, RefOf, Own, Enc;
    }

    // ---------------------------------------------------------------- Checking, purging

    /** Purging the store takes nothing the trie still refers to. */
    method PurgeStore()
      requires Valid()
      modifies m_db`m_main
      ensures Valid()
      ensures m_db.m_main == map h | h in old(m_db.m_main) && old(m_db.m_main)[h].count > 0 :: old(m_db.m_main)[h]
    {
      hide *;
      RootFacts(tree);
      ghost var main := m_db.m_main;
      StoreParts();
      m_db.Purge();
      PurgedHeld(main, m_db.m_main, tree);
      RootKept(main, m_db.m_main);
      SoundPurged(main, m_db.m_main);
      MakeStoreOk();
      MakeBound(m_root, tree, contents);
      MakeValid();
    }

    lemma StoreParts()
      requires StoreOk()
      ensures m_db.Valid() && Sound(sha3, nodes, m_db.m_main)
      ensures ToldApart(sha3, nodes)
      ensures forall h: H256 :: h in m_db.refs <==> CountOf(m_db.m_main, h) > 0
      ensures Counts(m_db.m_main, m_db.refs)
    {
    }

    lemma StoreCounts()
      requires StoreOk()
      ensures Counts(m_db.m_main, m_db.refs)
    {
    }

    lemma MakeStoreOk()
      requires Counts(m_db.m_main, m_db.refs) && Sound(sha3, nodes, m_db.m_main)
      requires ToldApart(sha3, nodes)
      ensures StoreOk()
    {
    }

    lemma RootKept(before: Table, after: Table)
      requires after == map h | h in before && before[h].count > 0 :: before[h]
      requires m_root in before && before[m_root].bytes == Enc(sha3, tree) && CountOf(before, m_root) > 0
      ensures m_root in after && after[m_root].bytes == Enc(sha3, tree)
    {
    }

    lemma SoundPurged(before: Table, after: Table)
      requires after == map h | h in before && before[h].count > 0 :: before[h]
      requires Sound(sha3, nodes, before)
      ensures Sound(sha3, nodes, after)
    {
    }

    lemma {:induction false} PurgedHeld(before: Table, after: Table, t: Tree)
      requires after == map h | h in before && before[h].count > 0 :: before[h]
      requires Known(sha3, nodes, t) && Held(sha3, before, t)
      requires forall h <- Below(sha3, t) :: CountOf(before, h) > 0
      ensures Held(sha3, after, t)
      decreases t
    {
      if t.Ext? {
        PurgedKept(before, after, t.child);
        PurgedHeld(before, after, t.child);
      } else if t.Branch? {
        forall i | 0 <= i < 16 ensures Kept(sha3, after, t.kids[i]) && Held(sha3, after, t.kids[i]) {
          BelowSplit(sha3, t.kids, i);
          PurgedKept(before, after, t.kids[i]);
          PurgedHeld(before, after, t.kids[i]);
        }
      }
    }

    lemma PurgedKept(before: Table, after: Table, c: Tree)
      requires after == map h | h in before && before[h].count > 0 :: before[h]
      requires Kept(sha3, before, c) && forall h <- Own(sha3, c) :: CountOf(before, h) > 0
      ensures Kept(sha3, after, c)
    {
      if |Enc(sha3, c)| >= 32 {
        assert sha3(Enc(sha3, c)) in Own(sha3, c);
      }
    }

    /** check(requireNoLeftOvers): the tree is well formed, and the store counts nothing that is not in it. */
    method Check(requireNoLeftOvers: bool) returns (r: bool)
      requires Valid()
      ensures r
    {
      var left := LeftOvers();
      match left
      case None => r := false;
      case Some(k) => r := k == {} || !requireNoLeftOvers;
    }

    /** leftOvers(): the counted hashes that the walk from the root does not meet; None if it throws. */
    method LeftOvers() returns (r: Option<set<H256>>)
      requires Valid()
      ensures r == Some({})
    {
      hide *;
      RootFacts(tree);
      StoreParts();
      RefsAsSets(Below(sha3, tree));
      var k := m_db.Keys();
      assert k == set h | h in m_db.refs;
      r := DescendKey(m_root, k, false, tree);
    }

    /** The different hashes among some references. */
    ghost function Hashes(m: multiset<H256>): set<H256> {
      set h | h in m
    }

    lemma RefsAsSets(below: multiset<H256>)
      ensures Hashes(multiset{m_root} + below) == {m_root} + Hashes(below)
      ensures m_db.refs == multiset{m_root} + below ==>
                (set h | h in m_db.refs) - Hashes(multiset{m_root} + below) == {}
      ensures below <= multiset{m_root} + below && m_root in multiset{m_root} + below
    {
    }

    lemma SumAsSets(a: multiset<H256>, b: multiset<H256>, mask: set<H256>)
      ensures mask - Hashes(a) - Hashes(b) == mask - Hashes(a + b)
      ensures Hashes(multiset{}) == {} && mask - {} == mask
    {
    }

    method DescendKey(k: H256, mask: set<H256>, wasExt: bool, ghost t: Tree)
      returns (r: Option<set<H256>>)
      requires StoreOk() && k == sha3(Enc(sha3, t)) && k in m_db.m_main && m_db.m_main[k].bytes == Enc(sha3, t)
      requires Canonical(t) && Known(sha3, nodes, t) && Held(sha3, m_db.m_main, t)
      requires t.Nil? ==> k == m_root
      requires k in m_db.refs && Below(sha3, t) <= m_db.refs
      requires wasExt ==> t.Branch?
      ensures r == Some(mask - ({k} + Hashes(Below(sha3, t))))
      decreases t, 1
    {
      hide *;
      ShapeFacts(t);
      EmptyTrieFacts(t);
      HashesOfNil();
      var rest := mask - {k};
      if k == m_root && k == sha3(Encode(EMPTY)) {
        return Some(rest);
      }
      var x := Load(k, t);
      r := DescendList(x, rest, wasExt, t);
      assert rest - Hashes(Below(sha3, t)) == mask - ({k} + Hashes(Below(sha3, t)));
    }

    lemma EmptyTrieFacts(t: Tree)
      requires StoreOk() && Known(sha3, nodes, t)
      ensures sha3(Enc(sha3, t)) == sha3(Encode(EMPTY)) <==> t.Nil?
    {
      if sha3(Enc(sha3, t)) == sha3(Encode(EMPTY)) {
        EncodeInjective(ItemOf(sha3, t), ItemOf(sha3, Nil));
      }
    }

    lemma HashesOfNil()
      ensures Hashes(Below(sha3, Nil)) == {}
      ensures forall a: set<H256>, b: set<H256> :: b == {} ==> a + b == a
    {
    }

    method DescendEntry(x: Item, mask: set<H256>, wasExt: bool, ghost c: Tree)
      returns (r: Option<set<H256>>)
      requires StoreOk() && x == RefOf(sha3, c) && c != Nil
      requires Canonical(c) && Known(sha3, nodes, c)
      requires Kept(sha3, m_db.m_main, c) && Held(sha3, m_db.m_main, c)
      requires Own(sha3, c) <= m_db.refs && Below(sha3, c) <= m_db.refs
      requires wasExt ==> c.Branch?
      ensures r == Some(mask - Hashes(Own(sha3, c) + Below(sha3, c)))
      decreases c, 2
    {
      hide *;
      ShapeFacts(c);
      FollowFacts(c);
      EntryHashes(c);
      if x.Str? && |x.data| == 32 {
        r := DescendKey(x.data, mask, wasExt, c);
      } else if x.List? {
        r := DescendList(x, mask, wasExt, c);
      } else {
        return None;
      }
    }

    lemma EntryHashes(c: Tree)
      requires Formed(c) && c != Nil
      ensures var x := RefOf(sha3, c);
              && (x.Str? ==> x.data == sha3(Enc(sha3, c))
                             && {sha3(Enc(sha3, c))} + Hashes(Below(sha3, c)) == Hashes(Own(sha3, c) + Below(sha3, c)))
              && (x.List? ==> Hashes(Below(sha3, c)) == Hashes(Own(sha3, c) + Below(sha3, c)))
    {
      hide *;
      FormedBranch(c);
      RefShape(sha3, c);
      OwnHashes(c);
      SumOfHashes(Own(sha3, c), Below(sha3, c));
    }

    lemma FormedBranch(c: Tree)
      requires Formed(c)
      ensures c.Branch? ==> |c.kids| == 16
    {
    }

    lemma SumOfHashes(a: multiset<H256>, b: multiset<H256>)
      ensures Hashes(a + b) == Hashes(a) + Hashes(b)
      ensures Hashes(a) == {} ==> Hashes(a) + Hashes(b) == Hashes(b)
    {
    }

    lemma OwnHashes(c: Tree)
      ensures Hashes(Own(sha3, c)) == if |Enc(sha3, c)| >= 32 then {sha3(Enc(sha3, c))} else {}
    {
      hide Enc;
    }

    method DescendList(x: Item, mask: set<H256>, wasExt: bool, ghost t: Tree)
      returns (r: Option<set<H256>>)
      requires StoreOk() && x == ItemOf(sha3, t) && t != Nil
      requires Canonical(t) && Known(sha3, nodes, t) && Held(sha3, m_db.m_main, t)
      requires Below(sha3, t) <= m_db.refs
      requires wasExt ==> t.Branch?
      ensures r == Some(mask - Hashes(Below(sha3, t)))
      decreases t, 0
    {
      hide *;
      ShapeFacts(t);
      LeafHashes(t, mask);
      if x.List? && |x.items| == 2 && !wasExt {
        if IsLeafItem(x) {
          return Some(mask);
        }
        AtExt(t, t.key);
        ExtHashes(t);
        r := DescendEntry(x.items[1], mask, true, t.child);
      } else if x.List? && |x.items| == 17 {
        var left := mask;
        NoHashes(t, mask);
        for i := 0 to 16
          invariant left == mask - Hashes(BelowAll(sha3, t.kids[..i]))
        {
          AtSlot(t, [i]);
          SlotHashes(t, i, mask);
          if !IsEmptyItem(x.items[i]) {
            var next := DescendEntry(x.items[i], left, false, t.kids[i]);
            left := next.value;
          }
        }
        AllHashes(t);
        return Some(left);
      } else {
        return None;
      }
    }

    lemma LeafHashes(t: Tree, mask: set<H256>)
      ensures t.Leaf? ==> mask - Hashes(Below(sha3, t)) == mask
    {
    }

    lemma ExtHashes(t: Tree)
      requires t.Ext? && Canonical(t)
      ensures t.child.Branch? && Canonical(t.child) && Below(sha3, t) == Own(sha3, t.child) + Below(sha3, t.child)
    {
    }

    lemma NoHashes(t: Tree, mask: set<H256>)
      requires t.Branch? && Canonical(t)
      ensures |t.kids| == 16 && mask == mask - Hashes(BelowAll(sha3, t.kids[..0]))
    {
    }

    lemma SlotHashes(t: Tree, i: nat, mask: set<H256>)
      requires t.Branch? && Canonical(t) && i < 16
      ensures |t.kids| == 16 && Canonical(t.kids[i])
      ensures var before := BelowAll(sha3, t.kids[..i]);
              var slot := Own(sha3, t.kids[i]) + Below(sha3, t.kids[i]);
              && mask - Hashes(before) - Hashes(slot) == mask - Hashes(BelowAll(sha3, t.kids[..i + 1]))
              && (t.kids[i].Nil? ==> Hashes(before) == Hashes(BelowAll(sha3, t.kids[..i + 1])))
    {
      BelowPrefix(sha3, t.kids, i);
      NilRefs(sha3);
      var before := BelowAll(sha3, t.kids[..i]);
      Regrouped4(multiset{}, before, Own(sha3, t.kids[i]), Below(sha3, t.kids[i]));
      assert BelowAll(sha3, t.kids[..i + 1]) == before + (Own(sha3, t.kids[i]) + Below(sha3, t.kids[i]));
      SumAsSets(before, Own(sha3, t.kids[i]) + Below(sha3, t.kids[i]), mask);
    }

    lemma AllHashes(t: Tree)
      requires t.Branch? && |t.kids| == 16
      ensures BelowAll(sha3, t.kids[..16]) == Below(sha3, t)
    {
      assert t.kids[..16] == t.kids;
    }

    /** The node's own reference, unless it was never put in the store. */
    ghost function OwnUnless(inLine: bool, t: Tree): multiset<H256> {
      if inLine then multiset{} else Own(sha3, t)
    }

    lemma OwnInPlace(inLine: bool, t: Tree)
      ensures |Enc(sha3, t)| < 32 ==> OwnUnless(inLine, t) == Own(sha3, t)
      ensures !inLine ==> OwnUnless(inLine, t) == Own(sha3, t)
    {
    }
  }

  lemma NodesSame(a: Table)
    ensures SameNodes(a, a)
  {
  }

  lemma NodesSameOn(a: Table, b: Table, c: Table)
    requires SameNodes(a, b) && SameNodes(b, c)
    ensures SameNodes(a, c)
  {
  }

  lemma SlotSum(base: multiset<H256>, own: multiset<H256>, below: multiset<H256>, others: multiset<H256>)
    ensures base + (own + below + others) == base + others + own + below
  {
  }

  lemma UncountedSlot(base: multiset<H256>, above: multiset<H256>, others: multiset<H256>, own: multiset<H256>, below: multiset<H256>)
    ensures base + above + others + own + below - above == base + (own + below + others)
  {
  }

  lemma Regrouped5(base: multiset<H256>, own: multiset<H256>, below: multiset<H256>)
    ensures base + (own + below) == base + own + below
    ensures own <= base + (own + below)
  {
  }

  lemma Regrouped4(base: multiset<H256>, above: multiset<H256>, own: multiset<H256>, below: multiset<H256>)
    ensures base + above + (own + below) == base + above + own + below
  {
  }

  lemma UncountedTwo(base: multiset<H256>, above: multiset<H256>, own: multiset<H256>, below: multiset<H256>)
    ensures base + above + own + below - above == base + own + below == base + (own + below)
    ensures own <= base + own + below
  {
  }

  lemma RefCounted(base: multiset<H256>, own: multiset<H256>, below: multiset<H256>)
    ensures own <= base + own + below
  {
  }

  lemma PrefixedHeld(sha3: Hasher, main: Table, key: Nibbles, c: Tree)
    requires Held(sha3, main, c) && (c.Leaf? || c.Ext?)
    ensures Held(sha3, main, Prefixed(key, c))
  {
  }

  lemma Regrouped(base: multiset<H256>, below: multiset<H256>, own: multiset<H256>)
    ensures base + below + own == base + own + below
  {
  }

  lemma KeptUnderExt(sha3: Hasher, main: Table, t: Tree)
    requires t.Ext? && Held(sha3, main, t)
    ensures Kept(sha3, main, t.child) && Held(sha3, main, t.child)
  {
  }

  lemma HeldExt(sha3: Hasher, main: Table, key: Nibbles, c: Tree)
    requires Kept(sha3, main, c) && Held(sha3, main, c)
    ensures Held(sha3, main, Ext(key, c))
  {
  }

  lemma KeptSlot(sha3: Hasher, main: Table, t: Tree, i: nat)
    requires t.Branch? && i < |t.kids| && Held(sha3, main, t)
    ensures Kept(sha3, main, t.kids[i]) && Held(sha3, main, t.kids[i])
  {
  }

  lemma HeldBranch(sha3: Hasher, main: Table, t: Tree, i: nat, c: Tree)
    requires t.Branch? && i < |t.kids| && Held(sha3, main, t) && Kept(sha3, main, c) && Held(sha3, main, c)
    ensures Held(sha3, main, Branch(t.kids[i := c], t.value))
  {
    hide Kept;
  }

  lemma SlotItem(sha3: Hasher, t: Tree, i: nat, c: Tree)
    requires t.Branch? && |t.kids| == 16 && i < 16
    ensures var x := ItemOf(sha3, t);
            && x.List? && |x.items| == 17 && x.items[i] == RefOf(sha3, t.kids[i])
            && ItemOf(sha3, Branch(t.kids[i := c], t.value)) == List(x.items[i := RefOf(sha3, c)])
  {
    hide RefOf, RefsOf;
    BranchShape(sha3, t);
    RefsUpdate(sha3, t.kids, i, c);
    assert (RefsOf(sha3, t.kids) + [Str(t.value)])[i := RefOf(sha3, c)]
        == RefsOf(sha3, t.kids)[i := RefOf(sha3, c)] + [Str(t.value)];
  }

  /** A branch before and after one of its slots changes. */
  lemma SlotFacts(sha3: Hasher, t: Tree, i: nat, c: Tree)
    requires t.Branch? && |t.kids| == 16 && i < 16
    ensures var x := ItemOf(sha3, t);
            var t' := Branch(t.kids[i := c], t.value);
            var others := BelowAll(sha3, t.kids[i := Nil]);
            && x.List? && |x.items| == 17 && x.items[i] == RefOf(sha3, t.kids[i])
            && ItemOf(sha3, t') == List(x.items[i := RefOf(sha3, c)])
            && Below(sha3, t) == Own(sha3, t.kids[i]) + Below(sha3, t.kids[i]) + others
            && Below(sha3, t') == Own(sha3, c) + Below(sha3, c) + others
  {
    hide RefOf, RefsOf, Own, ItemOf, BelowAll;
    SlotItem(sha3, t, i, c);
    BelowSplit(sha3, t.kids, i);
    BelowReplaced(sha3, t.kids, i, c);
  }

  /** What is left below a split, and what goes on top of it. */
  lemma CleavedFacts(sha3: Hasher, t: Tree, s: nat)
    requires TwoItem(t) && 0 < s <= |t.key| && (t.Ext? ==> s < |t.key|)
    ensures var x, d := ItemOf(sha3, t), Drop(t, s);
            && x.List? && |x.items| == 2
            && ItemOf(sha3, d) == List([Str(HexPrefixOf(t.key[s..], t.Leaf?)), x.items[1]])
            && ItemOf(sha3, Ext(t.key[..s], d)) == List([Str(HexPrefixOf(t.key[..s], false)), RefOf(sha3, d)])
            && Below(sha3, d) == Below(sha3, t)
            && Below(sha3, Ext(t.key[..s], d)) == Own(sha3, d) + Below(sha3, d)
  {
    hide HexPrefixOf, RefOf, Own;
  }

  lemma HeldUnder(sha3: Hasher, main: Table, t: Tree, s: nat)
    requires TwoItem(t) && s <= |t.key| && Held(sha3, main, t) && Kept(sha3, main, Drop(t, s))
    ensures Held(sha3, main, Ext(t.key[..s], Drop(t, s)))
  {
  }

  /** How the one slot of a branched node relates to the node it came from. */
  lemma BranchedFacts(sha3: Hasher, t: Tree)
    requires Formed(t) && TwoItem(t)
    ensures var x, b := ItemOf(sha3, t), Branched(t);
            && x.List? && |x.items| == 2
            && (t.key == [] ==>
                  && ItemOf(sha3, b) == List(Empties(16) + [x.items[1]])
                  && Below(sha3, b) == multiset{} == Below(sha3, t))
            && (t.key != [] ==>
                  && b.Branch? && |b.kids| == 16
                  && ItemOf(sha3, b) == List(Empties(16)[t.key[0] := RefOf(sha3, b.kids[t.key[0]])] + [EMPTY])
                  && Below(sha3, b) == Own(sha3, b.kids[t.key[0]]) + Below(sha3, b.kids[t.key[0]]))
  {
    BelowBranched(sha3, t);
    BranchedAsItem(sha3, t);
    hide HexPrefixOf, RefOf, Own, Empties, Nils;
  }

  lemma BranchedSlot(sha3: Hasher, t: Tree, nodes: set<Bytes>)
    requires Formed(t) && TwoItem(t) && Known(sha3, nodes, Branched(t)) && t.key != []
    ensures var x, c := ItemOf(sha3, t), Branched(t).kids[t.key[0]];
            if t.Leaf? || |t.key| > 1 then
              && ItemOf(sha3, c) == List([Str(HexPrefixOf(t.key[1..], t.Leaf?)), x.items[1]])
              && Known(sha3, nodes, c) && Below(sha3, c) == Below(sha3, t)
            else
              RefOf(sha3, c) == x.items[1] && Own(sha3, c) + Below(sha3, c) == Below(sha3, t) && c == t.child
  {
    hide HexPrefixOf, RefOf, Own, Nils, Enc;
  }

  lemma ChildHeld(sha3: Hasher, main: Table, t: Tree)
    requires t.Ext? && Held(sha3, main, t)
    ensures Kept(sha3, main, t.child)
  {
  }

  lemma Uncounted(base: multiset<H256>, own: multiset<H256>, below: multiset<H256>)
    ensures base + own + below - own == base + below
  {
  }

  /** The loop that streams sixteen slots, all but one of them empty. */
  method OneSlot(x: nat, slot: Item) returns (r: seq<Item>)
    requires x < 16
    ensures r == Empties(16)[x := slot]
  {
    r := [];
    for i := 0 to 16
      invariant |r| == i && forall j | 0 <= j < i :: r[j] == if j == x then slot else EMPTY
    {
      r := r + [if i == x then slot else EMPTY];
    }
  }

  /** The loop that streams the first sixteen slots of a branch again. */
  method FirstSlots(items: seq<Item>) returns (r: seq<Item>)
    requires |items| == 17
    ensures r == items[..16]
  {
    r := [];
    for i := 0 to 16
      invariant r == items[..i]
    {
      r := r + [items[i]];
    }
  }

  function Empties(n: nat): (s: seq<Item>)
    ensures |s| == n && forall i | 0 <= i < n :: s[i] == EMPTY
  {
    if n == 0 then [] else Empties(n - 1) + [EMPTY]
  }

  lemma NilRef(sha3: Hasher)
    ensures RefOf(sha3, Nil) == EMPTY
  {
    assert Enc(sha3, Nil) == [DATA_START];
  }

  lemma RefsUpdate(sha3: Hasher, kids: seq<Tree>, i: nat, c: Tree)
    requires i < |kids|
    ensures RefsOf(sha3, kids[i := c]) == RefsOf(sha3, kids)[i := RefOf(sha3, c)]
  {
    hide RefOf;
  }

  lemma RefsOfNone(sha3: Hasher)
    ensures RefsOf(sha3, Nils(16)) == Empties(16)
  {
    NilRef(sha3);
    hide RefOf, Nils, Empties;
  }

  lemma BranchedAsItem(sha3: Hasher, t: Tree)
    requires Formed(t) && TwoItem(t)
    ensures t.key == [] ==> ItemOf(sha3, Branched(t)) == List(Empties(16) + [Str(t.value)])
    ensures t.key != [] ==>
              var i := t.key[0];
              ItemOf(sha3, Branched(t)) == List(Empties(16)[i := RefOf(sha3, Branched(t).kids[i])] + [EMPTY])
  {
    RefsOfNone(sha3);
    hide RefOf, RefsOf, Nils, Empties;
    if t.key != [] {
      RefsUpdate(sha3, Nils(16), t.key[0], Branched(t).kids[t.key[0]]);
    }
  }

  lemma BranchedHeld(sha3: Hasher, main: Table, t: Tree)
    requires Formed(t) && TwoItem(t) && Held(sha3, main, t)
    requires t.key != [] ==> Kept(sha3, main, Branched(t).kids[t.key[0]])
    ensures Held(sha3, main, Branched(t))
  {
    var b := Branched(t);
    hide ItemOf, Encode, Nils, HexPrefixOf;
    assert Enc(sha3, Nil) == [DATA_START];
  }
}
