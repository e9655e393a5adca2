/** GenericTrieDB::iterator: a trail of nodes from the root to where the walk stands. */
module TrieIterator {
  import opened CommonData
  import opened Rlp
  import opened HexPrefix
  import opened HexMap
  import opened Trie
  import opened TrieNode
  import opened TrieMap
  import opened TrieEntries
  import opened TrieDB

  /**
   * One node of the trail: its item, the path to it in hex-prefix form, and how far the walk is with it:
   * 255 before entering, 16 at the node itself, then the slots 0 to 15, and 17 on leaving.
   */
  datatype Node = Node(rlp: Item, key: Bytes, child: Byte)

  /** incrementChild: 16, 0, 1, ..., 15, 17. */
  function Incremented(child: Byte): Byte {
    if child == 16 then 0 else if child == 15 then 17 else (child + 1) % 256
  }

  /** How many children come after one. */
  function Remaining(child: Byte): nat {
    if child == 16 then 17 else if child < 16 then 16 - child else 0
  }

  /** What a node of the trail stands for: a tree, the path to it, and the same child. */
  datatype Place = Place(tree: Tree, path: Nibbles, child: Byte)

  predicate Proper(f: Place) {
    && Formed(f.tree)
    && (f.child == 255 || (f.tree.Leaf? && f.child == 0) || (f.tree.Branch? && f.child <= 16))
  }

  /** The entries of a branch from a slot on. */
  function Slots(t: Tree, path: Nibbles, child: Byte): seq<Pair>
    requires Formed(t) && t.Branch?
  {
    if child == 16 then ValueEntry(t.value, path) + EntriesFrom(t.kids, path, 0)
    else if child < 16 then EntriesFrom(t.kids, path, child)
    else []
  }

  /** The entries that come after a place. */
  function Pending(f: Place): seq<Pair>
    requires Proper(f)
  {
    if f.child == 255 then Entries(f.tree, f.path)
    else if f.tree.Branch? then Slots(f.tree, f.path, Incremented(f.child))
    else []
  }

  predicate AllProper(s: seq<Place>) {
    forall f <- s :: Proper(f)
  }

  /** The entries still to come, from the innermost place outwards. */
  function Rest(s: seq<Place>): seq<Pair>
    requires AllProper(s)
  {
    if s == [] then [] else Pending(s[|s| - 1]) + Rest(s[..|s| - 1])
  }

  /** The entry the walk stands on. */
  function Current(f: Place): Option<Pair> {
    if f.tree.Leaf? && f.child == 0 then Some(Pair(f.path, f.tree.value))
    else if f.tree.Branch? && f.child == 16 && f.tree.value != [] then Some(Pair(f.path, f.tree.value))
    else None
  }

  /** The walk stands on the first of these entries with the others to come, or has ended if there are none. */
  predicate Positioned(s: seq<Place>, e: seq<Pair>) {
    && AllProper(s)
    && if e == [] then s == []
       else s != [] && Current(s[|s| - 1]) == Some(e[0]) && Rest(s) == e[1..]
  }

  // ------------------------------------------------------------------ How much walking is left

  function Cost(t: Tree): nat
    requires Formed(t)
    decreases t, 0
  {
    match t
    case Nil => 1
    case Leaf(_, _) => 1
    case Ext(_, c) => 1 + Cost(c)
    case Branch(kids, _) => 2 + CostFrom(kids, 0)
  }

  function CostFrom(kids: seq<Tree>, i: nat): nat
    requires AllFormed(kids) && i <= 16
    decreases kids, 16 - i
  {
    if i == 16 then 0 else 1 + Cost(kids[i]) + CostFrom(kids, i + 1)
  }

  function CostSlots(t: Tree, child: Byte): nat
    requires Formed(t) && t.Branch?
  {
    if child == 16 then CostFrom(t.kids, 0) else if child < 16 then CostFrom(t.kids, child) else 0
  }

  function CostAt(f: Place): (c: nat)
    requires Proper(f)
  {
    if f.child == 255 then Cost(f.tree)
    else if f.tree.Branch? then 1 + CostSlots(f.tree, Incremented(f.child))
    else 1
  }

  function Work(s: seq<Place>): nat
    requires AllProper(s)
  {
    if s == [] then 0 else CostAt(s[|s| - 1]) + Work(s[..|s| - 1])
  }

  // ------------------------------------------------------------------ What each step does to the entries to come

  lemma Innermost(s: seq<Place>, f: Place)
    ensures AllProper(s + [f]) <==> AllProper(s) && Proper(f)
    ensures AllProper(s + [f]) ==> Rest(s + [f]) == Pending(f) + Rest(s) && Work(s + [f]) == CostAt(f) + Work(s)
  {
    assert (s + [f])[..|s|] == s;
    assert AllProper(s + [f]) ==> forall g <- s :: g in s + [f];
    assert f in s + [f];
  }

  lemma NothingHere(s: seq<Place>, f: Place)
    requires AllProper(s) && Proper(f) && (if f.child == 255 then f.tree.Nil? else !f.tree.Branch?)
    ensures AllProper(s + [f]) && Rest(s + [f]) == Rest(s) && Work(s + [f]) > Work(s)
  {
    Innermost(s, f);
  }

  lemma AtLeaf(s: seq<Place>, f: Place)
    requires AllProper(s) && Proper(f) && f.child == 255 && f.tree.Leaf?
    ensures var g := Place(f.tree, f.path + f.tree.key, 0);
            && AllProper(s + [f]) && AllProper(s + [g]) && Positioned(s + [g], Rest(s + [f]))
            && Entries(f.tree, f.path) == [Pair(g.path, f.tree.value)]
            && Rest(s + [f]) == [Pair(g.path, f.tree.value)] + Rest(s)
            && Work(s + [f]) > Work(s)
  {
    hide AllProper, Rest, Work;
    var g := Place(f.tree, f.path + f.tree.key, 0);
    Innermost(s, f);
    Innermost(s, g);
  }

  lemma AtExtension(s: seq<Place>, f: Place)
    requires AllProper(s) && Proper(f) && f.child == 255 && f.tree.Ext?
    ensures var g := Place(f.tree.child, f.path + f.tree.key, 255);
            && AllProper(s + [f]) && AllProper(s + [g]) && Rest(s + [g]) == Rest(s + [f]) && Work(s + [g]) < Work(s + [f])
            && Entries(f.tree, f.path) == Entries(g.tree, g.path)
  {
    hide AllProper, Rest, Work;
    Innermost(s, f);
    Innermost(s, Place(f.tree.child, f.path + f.tree.key, 255));
  }

  /** Entering a branch, or going on in one, leads to the slots from some child on. */
  lemma ToSlots(s: seq<Place>, f: Place)
    requires AllProper(s) && Proper(f) && f.tree.Branch?
    ensures var c := if f.child == 255 then 16 else Incremented(f.child);
            && AllProper(s + [f]) && c <= 17 && Formed(f.tree)
            && Rest(s + [f]) == Slots(f.tree, f.path, c) + Rest(s)
            && Work(s + [f]) > CostSlots(f.tree, c) + Work(s)
  {
    hide AllProper, Rest, Work;
    Innermost(s, f);
  }

  /** A slot with nothing in it. */
  lemma EmptySlot(f: Place)
    requires Proper(f) && f.tree.Branch? && f.child <= 16
    requires if f.child == 16 then f.tree.value == [] else f.tree.kids[f.child] == Nil
    ensures var c := Incremented(f.child);
            && c <= 17 && c != 16
            && Slots(f.tree, f.path, f.child) == Slots(f.tree, f.path, c)
            && CostSlots(f.tree, c) <= CostSlots(f.tree, f.child)
            && (f.child < 16 ==> Entries(f.tree.kids[f.child], f.path + [f.child]) == [])
            && (f.child < 16 ==> Slots(f.tree, f.path, c) == EntriesFrom(f.tree.kids, f.path, f.child as int + 1))
  {
    var from := EntriesFrom(f.tree.kids, f.path, if f.child == 16 then 0 else f.child as int + 1);
    assert [] + from == from;
    assert f.child < 16 ==> Entries(f.tree.kids[f.child], f.path + [f.child]) == [];
  }

  lemma OwnValue(s: seq<Place>, f: Place)
    requires AllProper(s) && Proper(f) && f.tree.Branch? && f.child == 16 && f.tree.value != []
    ensures Positioned(s + [f], Slots(f.tree, f.path, 16) + Rest(s))
  {
    hide AllProper, Rest, Work;
    Innermost(s, f);
    RestHolds(s);
  }

  lemma RestHolds(s: seq<Place>)
    ensures AllProper(s) <==> forall f <- s :: Proper(f)
  {
  }

  /** A slot with a child: its entries come before those of the slots after it. */
  lemma IntoKid(s: seq<Place>, f: Place)
    requires AllProper(s) && Proper(f) && f.tree.Branch? && f.child < 16
    ensures var g := Place(f.tree.kids[f.child], f.path + [f.child], 255);
            && AllProper(s + [f]) && Proper(g) && AllProper(s + [f] + [g])
            && Slots(f.tree, f.path, f.child) + Rest(s) == Entries(g.tree, g.path) + Rest(s + [f])
            && Rest(s + [f] + [g]) == Entries(g.tree, g.path) + Rest(s + [f])
            && Rest(s + [f]) == EntriesFrom(f.tree.kids, f.path, f.child as int + 1) + Rest(s)
            && Work(s + [f] + [g]) <= CostSlots(f.tree, f.child) + Work(s)
  {
    hide AllProper, Rest, Work;
    var g := Place(f.tree.kids[f.child], f.path + [f.child], 255);
    Innermost(s, f);
    Innermost(s + [f], g);
    assert Pending(f) == EntriesFrom(f.tree.kids, f.path, f.child as int + 1);
    assert Slots(f.tree, f.path, f.child) == Entries(g.tree, g.path) + Pending(f);
    assert Entries(g.tree, g.path) + Pending(f) + Rest(s) == Entries(g.tree, g.path) + (Pending(f) + Rest(s));
  }

  // ------------------------------------------------------------------ Looking for a key

  /** What is left of the search for key with k still to match: the innermost place lies on its path, or all to come is wanted. */
  predicate Sought(s: seq<Place>, k: Nibbles, key: Nibbles, target: seq<Pair>) {
    && AllProper(s)
    && if k == [] then target == Rest(s)
       else
         && s != []
         && var f, outer := s[|s| - 1], s[..|s| - 1];
           && Proper(f) && f.child == 255 && f.path + k == key
           && target == SkipTo(Entries(f.tree, f.path), key) + Rest(outer)
  }

  lemma SoughtInnermost(s: seq<Place>, f: Place, k: Nibbles, key: Nibbles, target: seq<Pair>)
    requires AllProper(s) && Proper(f)
    ensures Sought(s + [f], k, key, target) <==>
              if k == [] then target == Pending(f) + Rest(s)
              else f.child == 255 && f.path + k == key && target == SkipTo(Entries(f.tree, f.path), key) + Rest(s)
  {
    hide AllProper, Rest, Work, Entries, SkipTo;
    Innermost(s, f);
    assert (s + [f])[..|s|] == s;
  }

  lemma AllWanted(s: seq<Place>, key: Nibbles, target: seq<Pair>)
    requires AllProper(s)
    ensures Sought(s, [], key, target) <==> target == Rest(s)
  {
  }

  lemma SoughtNothing(s: seq<Place>, f: Place, k: Nibbles, key: Nibbles, target: seq<Pair>)
    requires AllProper(s) && Proper(f) && Sought(s + [f], k, key, target)
    requires if f.child == 255 then f.tree.Nil? else !f.tree.Branch?
    ensures Sought(s, [], key, target)
  {
    hide AllProper, Rest;
    SoughtInnermost(s, f, k, key, target);
    assert [] + Rest(s) == Rest(s);
  }

  /** What is left of k below a two-item node that is not skipped. */
  function LeftBelow(k: Nibbles, key: Nibbles): Nibbles {
    if key <= k then k[|key|..] else []
  }

  lemma SoughtSkips(s: seq<Place>, f: Place, k: Nibbles, key: Nibbles, target: seq<Pair>)
    requires AllProper(s) && Proper(f) && f.child == 255 && (f.tree.Leaf? || f.tree.Ext?) && Sought(s + [f], k, key, target)
    requires !(f.tree.key <= k) && !Less(k, f.tree.key)
    ensures Sought(s, [], key, target)
  {
    hide AllProper, Rest, Entries, SkipTo, LieUnder, Sought, Slots;
    AllWanted(s, key, target);
    PairUnder(f.tree, f.path);
    SoughtInnermost(s, f, k, key, target);
    SkipBelow(Entries(f.tree, f.path), f.path, f.tree.key, k);
    assert [] + Rest(s) == Rest(s);
  }

  lemma PairUnder(t: Tree, path: Nibbles)
    requires Formed(t) && (t.Leaf? || t.Ext?)
    ensures LieUnder(Entries(t, path), path + t.key)
  {
    if t.Ext? {
      EntriesBelow(t.child, path + t.key);
    }
  }

  lemma LessLonger(p: Nibbles, q: Nibbles)
    requires q != []
    ensures Less(p, p + q)
  {
    LessUnder(p, [], q);
    assert p + [] == p;
  }

  lemma SoughtLeaf(s: seq<Place>, f: Place, k: Nibbles, key: Nibbles, target: seq<Pair>)
    requires AllProper(s) && Proper(f) && f.child == 255 && f.tree.Leaf? && Sought(s + [f], k, key, target)
    requires f.tree.key <= k || Less(k, f.tree.key)
    ensures if LeftBelow(k, f.tree.key) == [] then Positioned(s + [Place(f.tree, f.path + f.tree.key, 0)], target)
            else Sought(s, [], key, target)
  {
    hide AllProper, Rest, Less, Entries, LieUnder, Positioned, Sought, Slots, Work;
    AllWanted(s, key, target);
    PairUnder(f.tree, f.path);
    AtLeaf(s, f);
    SoughtInnermost(s, f, k, key, target);
    Innermost(s, f);
    var kk, e := f.tree.key, Entries(f.tree, f.path);
    if k != [] && kk <= k {
      assert k == kk + k[|kk|..];
      assert f.path + kk + k[|kk|..] == key;
      if k[|kk|..] == [] {
        LessIrreflexive(key);
        assert f.path + kk == key;
      } else {
        LessLonger(f.path + kk, k[|kk|..]);
        assert e[1..] == [];
        assert [] + Rest(s) == Rest(s);
      }
    } else if k != [] {
      SkipBelow(e, f.path, kk, k);
    }
  }

  lemma SoughtExt(s: seq<Place>, f: Place, k: Nibbles, key: Nibbles, target: seq<Pair>)
    requires AllProper(s) && Proper(f) && f.child == 255 && f.tree.Ext? && Sought(s + [f], k, key, target)
    requires f.tree.key <= k || Less(k, f.tree.key)
    ensures var g := Place(f.tree.child, f.path + f.tree.key, 255);
            Proper(g) && Sought(s + [g], LeftBelow(k, f.tree.key), key, target)
  {
    hide AllProper, Rest, Less, Entries, LieUnder, SkipTo, Sought, Slots, Work;
    PairUnder(f.tree, f.path);
    AtExtension(s, f);
    var kk, g := f.tree.key, Place(f.tree.child, f.path + f.tree.key, 255);
    SoughtInnermost(s, f, k, key, target);
    SoughtInnermost(s, g, LeftBelow(k, kk), key, target);
    if k != [] && kk <= k {
      assert f.path + kk + k[|kk|..] == f.path + k;
      if k[|kk|..] == [] {
        assert g.path == key;
        SkipAtKey(g.tree, g.path);
      }
    } else if k != [] {
      SkipBelow(Entries(f.tree, f.path), f.path, kk, k);
    }
  }

  /** The search is running over the slots of the innermost branch, from its child on. */
  predicate Running(s: seq<Place>, f: Place, k: Nibbles, key: Nibbles, target: seq<Pair>) {
    && AllProper(s) && Formed(f.tree) && f.tree.Branch? && f.child <= 17
    && if k == [] then target == Slots(f.tree, f.path, f.child) + Rest(s)
       else
         && f.child < 16 && f.path + [f.child] + k == key
         && target == SkipTo(Entries(f.tree.kids[f.child], f.path + [f.child]), key)
                      + (EntriesFrom(f.tree.kids, f.path, f.child as int + 1) + Rest(s))
  }

  /** Entering a branch: at itself, or at the slot the key goes through. */
  lemma SoughtBranch(s: seq<Place>, f: Place, k: Nibbles, key: Nibbles, target: seq<Pair>)
    requires AllProper(s) && Proper(f) && f.child == 255 && f.tree.Branch? && Sought(s + [f], k, key, target)
    ensures if k == [] then Running(s, f.(child := 16), [], key, target)
            else Running(s, f.(child := k[0]), k[1..], key, target)
  {
    hide AllProper, Rest, Less, SkipTo, Sought, Work;
    SoughtInnermost(s, f, k, key, target);
    if k != [] {
      var slot := f.path + [k[0]];
      var kid, after := f.tree.kids[k[0]], EntriesFrom(f.tree.kids, f.path, k[0] as int + 1);
      SkipBranch(f.tree.kids, f.tree.value, f.path, k);
      assert slot + k[1..] == key by { assert k == [k[0]] + k[1..]; }
      assert target == SkipTo(Entries(kid, slot), key) + after + Rest(s);
      assert target == SkipTo(Entries(kid, slot), key) + (after + Rest(s));
      if k[1..] == [] {
        assert slot == key;
        SkipAtKey(kid, slot);
        assert Slots(f.tree, f.path, k[0]) == Entries(kid, slot) + after;
      }
    }
  }

  /** Going on in a branch with its next child. */
  lemma RunsOn(s: seq<Place>, f: Place, key: Nibbles, target: seq<Pair>)
    requires AllProper(s) && Proper(f) && f.child != 255 && f.tree.Branch? && Sought(s + [f], [], key, target)
    ensures Running(s, f.(child := Incremented(f.child)), [], key, target)
  {
    hide AllProper, Rest, Less, SkipTo, Slots, Work, CostSlots;
    ToSlots(s, f);
    SoughtInnermost(s, f, [], key, target);
  }

  lemma RunsOut(s: seq<Place>, f: Place, k: Nibbles, key: Nibbles, target: seq<Pair>)
    requires Running(s, f, k, key, target) && f.child == 17
    ensures Sought(s, [], key, target)
  {
    hide AllProper, Rest;
    assert [] + Rest(s) == Rest(s);
  }

  lemma RunsPast(s: seq<Place>, f: Place, k: Nibbles, key: Nibbles, target: seq<Pair>)
    requires Running(s, f, k, key, target) && f.child < 17
    requires if f.child == 16 then f.tree.value == [] else f.tree.kids[f.child] == Nil
    ensures Running(s, f.(child := Incremented(f.child)), [], key, target)
    ensures CostSlots(f.tree, Incremented(f.child)) <= CostSlots(f.tree, f.child)
    ensures Remaining(Incremented(f.child)) < Remaining(f.child) && Incremented(f.child) <= 17
  {
    hide AllProper, Rest, CostSlots, Entries, EntriesFrom, Slots, Less;
    EmptySlot(f);
    assert SkipTo([], key) == [];
    if k != [] {
      var after := EntriesFrom(f.tree.kids, f.path, f.child as int + 1);
      assert [] + (after + Rest(s)) == after + Rest(s);
    }
  }

  lemma RunsInto(s: seq<Place>, f: Place, k: Nibbles, key: Nibbles, target: seq<Pair>)
    requires Running(s, f, k, key, target) && f.child < 16
    ensures var g := Place(f.tree.kids[f.child], f.path + [f.child], 255);
            && AllProper(s + [f]) && Proper(g) && Sought(s + [f] + [g], k, key, target)
            && Work(s + [f] + [g]) <= CostSlots(f.tree, f.child) + Work(s)
  {
    hide AllProper, Rest, Less, SkipTo, Slots, Work, CostSlots, Entries, EntriesFrom, Sought;
    IntoKid(s, f);
    SoughtInnermost(s + [f], Place(f.tree.kids[f.child], f.path + [f.child], 255), k, key, target);
  }

  lemma RunsStill(s: seq<Place>, f: Place, k: Nibbles, key: Nibbles, target: seq<Pair>)
    requires Running(s, f, k, key, target) && f.child == 16 && f.tree.value != []
    ensures Positioned(s + [f], target)
  {
    OwnValue(s, f);
  }

  // ------------------------------------------------------------------ Nodes of the trail

  /** The node is what the trie holds for the place. */
  ghost predicate StandsFor(db: GenericTrieDB, x: Node, f: Place)
    reads db, db.m_db
  {
    && Proper(f) && x.rlp == ItemOf(db.sha3, f.tree) && x.key == HexPrefixOf(f.path, false) && x.child == f.child
    && Known(db.sha3, db.nodes, f.tree) && Held(db.sha3, db.m_db.m_main, f.tree)
    && Below(db.sha3, f.tree) <= db.m_db.refs
  }

  ghost predicate TrailOk(db: GenericTrieDB, trail: seq<Node>, s: seq<Place>)
    reads db, db.m_db
  {
    |trail| == |s| && forall i | 0 <= i < |trail| :: StandsFor(db, trail[i], s[i])
  }

  lemma TrailParts(db: GenericTrieDB, trail: seq<Node>, s: seq<Place>)
    requires TrailOk(db, trail, s)
    ensures |trail| == |s| && AllProper(s)
    ensures trail != [] ==>
              var top := |trail| - 1;
              && TrailOk(db, trail[..top], s[..top]) && StandsFor(db, trail[top], s[top])
              && AllProper(s[..top]) && s == s[..top] + [s[top]] && trail == trail[..top] + [trail[top]]
  {
    hide StandsFor;
    forall i | 0 <= i < |s| ensures Proper(s[i]) {
      StandsProper(db, trail[i], s[i]);
    }
  }

  lemma StandsProper(db: GenericTrieDB, x: Node, f: Place)
    requires StandsFor(db, x, f)
    ensures Proper(f)
  {
  }

  lemma TrailGrown(db: GenericTrieDB, trail: seq<Node>, s: seq<Place>, x: Node, f: Place)
    requires TrailOk(db, trail, s) && StandsFor(db, x, f)
    ensures TrailOk(db, trail + [x], s + [f])
  {
    hide StandsFor;
  }

  /** What the code can tell from the innermost node. */
  lemma NodeSeen(db: GenericTrieDB, x: Node, f: Place)
    requires db.Valid() && StandsFor(db, x, f)
    ensures Proper(f) && x.child == f.child && x.rlp == ItemOf(db.sha3, f.tree)
    ensures f.tree.Nil? <==> IsEmptyItem(x.rlp)
    ensures f.tree.Leaf? || f.tree.Ext? <==> x.rlp.List? && |x.rlp.items| == 2
    ensures f.tree.Branch? <==> x.rlp.List? && |x.rlp.items| == 17
    ensures f.tree.Leaf? || f.tree.Ext? ==>
              Keyed(x.rlp) && KeyOfItem(x.rlp) == f.tree.key && IsLeafItem(x.rlp) == f.tree.Leaf?
    ensures x.key == HexPrefixOf(f.path, false) && KeyOf(x.key).Key() == f.path
    ensures f.child == 255 || (f.tree.Leaf? && f.child == 0) || (f.tree.Branch? && f.child <= 16)
    ensures f.tree.Branch? ==> x.rlp.items[16] == Str(f.tree.value)
    ensures f.tree.Leaf? ==> x.rlp.items[1] == Str(f.tree.value)
  {
    HexPrefixRoundTrip(f.path, false);
    hide HexPrefixOf, RefOf, Enc, Held, Below, Known, Canonical, Stores, ToldApart, Sound, IsEmptyItem, Keyed;
    KnownFormed(db.sha3, db.nodes, f.tree);
    NodeShape(db.sha3, f.tree);
    if f.tree.Branch? {
      BranchShape(db.sha3, f.tree);
    }
  }

  /** The child of an extension, in place of the extension. */
  lemma ChildSeen(db: GenericTrieDB, x: Node, f: Place, key: Bytes)
    requires db.Valid() && StandsFor(db, x, f) && f.tree.Ext? && key == HexPrefixOf(f.path + f.tree.key, false)
    ensures var c := f.tree.child;
            && db.StoreOk() && x.rlp.List? && |x.rlp.items| == 2
            && x.rlp.items[1] == RefOf(db.sha3, c) && c != Nil && Known(db.sha3, db.nodes, c)
            && Kept(db.sha3, db.m_db.m_main, c) && Own(db.sha3, c) <= db.m_db.refs
            && StandsFor(db, Node(ItemOf(db.sha3, c), key, 255), Place(c, f.path + f.tree.key, 255))
  {
    hide HexPrefixOf, RefOf, Enc, Held, Below, Known, Canonical, Stores, ToldApart, Sound;
    db.AtExt(f.tree, []);
    ExtIsPair(db.sha3, f.tree);
  }

  lemma ExtIsPair(sha3: Hasher, t: Tree)
    requires t.Ext?
    ensures ItemOf(sha3, t).List? && |ItemOf(sha3, t).items| == 2
  {
  }

  /** A child of a branch. */
  lemma KidSeen(db: GenericTrieDB, x: Node, f: Place)
    requires db.Valid() && StandsFor(db, x, f) && f.tree.Branch? && f.child < 16
    ensures var c := f.tree.kids[f.child];
            && db.StoreOk() && x.rlp.List? && |x.rlp.items| == 17
            && x.rlp.items[f.child] == RefOf(db.sha3, c) && (c == Nil <==> IsEmptyItem(x.rlp.items[f.child]))
            && Known(db.sha3, db.nodes, c)
            && Kept(db.sha3, db.m_db.m_main, c) && Own(db.sha3, c) <= db.m_db.refs
            && StandsFor(db, Node(ItemOf(db.sha3, c), HexPrefixOf(f.path + [f.child], false), 255), Place(c, f.path + [f.child], 255))
  {
    hide HexPrefixOf, RefOf, Enc, Held, Below, Known, Canonical, Stores, ToldApart, Sound, IsEmptyItem;
    KnownFormed(db.sha3, db.nodes, f.tree);
    db.AtSlot(f.tree, [f.child]);
    BranchShape(db.sha3, f.tree);
  }

  lemma ValueSeen(v: Bytes)
    ensures IsEmptyItem(Str(v)) <==> v == []
  {
  }

  lemma RootStands(db: GenericTrieDB, x: Node)
    requires db.Valid() && x == Node(ItemOf(db.sha3, db.tree), [0], 255)
    ensures StandsFor(db, x, Place(db.tree, [], 255))
  {
    hide Enc, Held, Known, Canonical, Stores, ToldApart, Sound, ItemOf;
    assert HexPrefixOf([], false) == [0];
    SumIncludes(multiset{db.m_root}, Below(db.sha3, db.tree));
  }

  lemma SumIncludes(a: multiset<H256>, b: multiset<H256>)
    ensures b <= a + b && a <= a + b
  {
  }

  lemma RootSought(t: Tree, key: Nibbles)
    requires Formed(t)
    ensures var s := [Place(t, [], 255)];
            && AllProper(s) && Rest(s) == Entries(t, [])
            && Sought(s, key, key, SkipTo(Entries(t, []), key))
  {
    var f := Place(t, [], 255);
    hide Entries, SkipTo, Sought;
    Innermost([], f);
    assert [] + [f] == [f];
    SoughtInnermost([], f, key, key, SkipTo(Entries(t, []), key));
    SkipAtKey(t, []);
    assert [] + key == key;
  }

  lemma Ended(k: Nibbles, key: Nibbles, target: seq<Pair>)
    requires Sought([], k, key, target)
    ensures Positioned([], target)
  {
  }

  lemma FrontAndLast<T>(s: seq<T>)
    ensures s != [] ==> s == s[..|s| - 1] + [s[|s| - 1]]
  {
  }

  lemma LastOf(s: seq<Place>, f: Place)
    ensures (s + [f])[..|s + [f]| - 1] == s
  {
  }

  lemma KeyBelow(kk: Nibbles)
    ensures kk <= [] || Less([], kk)
    ensures LeftBelow([], kk) == []
  {
  }

  lemma LeftBelowIs(k: Nibbles, kk: Nibbles)
    ensures LeftBelow(k, kk) == if kk <= k then k[|kk|..] else []
  {
  }

  lemma KeyedParts(x: Item)
    requires Keyed(x)
    ensures x.List? && |x.items| == 2 && x.items[0].Str? && x.items[0].data != []
    ensures KeyOfItem(x) == KeyOf(x.items[0].data).Key()
  {
  }

  lemma SliceParts(hpe: Bytes)
    ensures var s := KeyOf(hpe); s.data == hpe && s.offset <= 2 * |hpe| && s.Valid() && s.Key() == Unpack(hpe)[s.offset..]
  {
  }

  lemma CurrentParts(f: Place)
    requires Current(f).Some?
    ensures Current(f).value == Pair(f.path, (if f.tree.Leaf? || f.tree.Branch? then f.tree.value else []))
    ensures f.tree.Leaf? || f.tree.Branch?
  {
  }

  /** A path of whole bytes is the hex-prefix form without its first byte. */
  lemma WholeBytes(path: Nibbles)
    requires |path| % 2 == 0
    ensures HexPrefixOf(path, false) != [] && Unpack(HexPrefixOf(path, false)[1..]) == path
  {
    UnpackPack(path);
    assert ([0, 0] + path)[2..] == path;
  }

  /** hexPrefixEncode(keyOf(back.key), NibbleSlice(&back.child, 1), false). */
  method KeyOfSlot(above: Bytes, c: Byte, ghost path: Nibbles) returns (key: Bytes)
    requires above == HexPrefixOf(path, false) && c < 16
    ensures key == HexPrefixOf(path + [c], false)
  {
    HexPrefixRoundTrip(path, false);
    hide HexPrefixOf;
    SliceParts(above);
    assert Unpack([c]) == [0, c];
    var s := KeyOf(above);
    key := HexPrefix.EncodeTwo(s.data, s.offset, [c], 1, false);
  }

  lemma EmptyTrail(db: GenericTrieDB)
    ensures TrailOk(db, [], [])
  {
  }

  lemma LeafStands(db: GenericTrieDB, b: Node, key: Bytes, f: Place)
    requires StandsFor(db, b, f) && f.tree.Leaf? && key == HexPrefixOf(f.path + f.tree.key, false)
    ensures StandsFor(db, b.(key := key, child := 0), Place(f.tree, f.path + f.tree.key, 0))
  {
  }

  lemma BranchStands(db: GenericTrieDB, b: Node, f: Place, c: Byte)
    requires StandsFor(db, b, f) && f.tree.Branch? && c <= 16
    ensures StandsFor(db, b.(child := c), f.(child := c))
  {
  }

  lemma RunningParts(s: seq<Place>, f: Place, k: Nibbles, key: Nibbles, target: seq<Pair>)
    requires Running(s, f, k, key, target)
    ensures AllProper(s) && Formed(f.tree) && f.tree.Branch? && |f.tree.kids| == 16 && f.child <= 17
  {
  }

  lemma NoKeyLeft(s: seq<Place>, f: Place, k: Nibbles, key: Nibbles, target: seq<Pair>)
    requires Sought(s + [f], k, key, target) && f.child != 255
    ensures k == []
  {
  }

  lemma PopsLess(s: seq<Place>, f: Place)
    requires AllProper(s) && Proper(f)
    ensures AllProper(s + [f]) && Work(s) < Work(s + [f])
  {
    Innermost(s, f);
  }

  lemma SlotLess(s: seq<Place>, f: Place, i: Nibble)
    requires AllProper(s) && Proper(f) && f.tree.Branch? && f.child == 255
    ensures AllProper(s + [f]) && Work(s + [f]) > CostSlots(f.tree, i) + Work(s)
  {
    Innermost(s, f);
    CostOfLater(f.tree.kids, i);
  }

  lemma {:induction false} CostOfLater(kids: seq<Tree>, i: nat)
    requires AllFormed(kids) && i <= 16
    ensures CostFrom(kids, i) <= CostFrom(kids, 0)
  {
    if i > 0 {
      CostOfLater(kids, i - 1);
    }
  }

  // ------------------------------------------------------------------ The iterator

  class Iterator {
    const m_that: GenericTrieDB
    var m_trail: seq<Node>
    ghost var places: seq<Place>

    ghost predicate Valid()
      reads this, m_that, m_that.m_db
    {
      m_that.Valid() && TrailOk(m_that, m_trail, places) && AllProper(places)
    }

    /** All of the trail but its last node is in order, and that is a branch at some child. */
    ghost predicate AtBranch()
      reads this, m_that, m_that.m_db
    {
      && m_that.Valid() && m_trail != [] && |places| == |m_trail|
      && var top := |m_trail| - 1;
      && TrailOk(m_that, m_trail[..top], places[..top])
      && places[top].tree.Branch? && m_trail[top].child == places[top].child
      && StandsFor(m_that, m_trail[top].(child := 16), places[top].(child := 16))
    }

    /** begin(): on the first entry of the trie. */
    constructor Begin(db: GenericTrieDB)
      requires db.Valid()
      ensures Valid() && m_that == db && Formed(db.tree) && Positioned(places, Entries(db.tree, []))
    {
      m_that := db;
      m_trail, places := [], [];
      new;
      hide *;
      EnterRoot([]);
      Next();
    }

    /** lower_bound(key): on the first entry whose key does not lie before this one. */
    constructor LowerBound(db: GenericTrieDB, key: Bytes)
      requires db.Valid()
      ensures Valid() && m_that == db && Formed(db.tree)
      ensures Positioned(places, SkipTo(Entries(db.tree, []), Unpack(key)))
    {
      m_that := db;
      m_trail, places := [], [];
      new;
      hide *;
      EnterRoot(Unpack(key));
      NextFrom(Unpack(key), Unpack(key), SkipTo(Entries(db.tree, []), Unpack(key)));
    }

    lemma ValidParts()
      requires Valid()
      ensures m_that.Valid() && |m_trail| == |places| && AllProper(places) && TrailOk(m_that, m_trail, places)
      ensures m_trail == [] ==> places == []
      ensures m_trail != [] ==>
                var top := |m_trail| - 1;
                && TrailOk(m_that, m_trail[..top], places[..top]) && StandsFor(m_that, m_trail[top], places[top])
                && AllProper(places[..top]) && places == places[..top] + [places[top]]
    {
      TrailParts(m_that, m_trail, places);
    }

    lemma MakeValid(trail: seq<Node>, s: seq<Place>)
      requires m_that.Valid() && TrailOk(m_that, trail, s) && m_trail == trail && places == s
      ensures Valid()
    {
      TrailParts(m_that, trail, s);
    }

    method Pop()
      requires Valid() && m_trail != []
      modifies this
      ensures Valid() && places == old(places)[..|old(places)| - 1] && m_trail == old(m_trail)[..|old(m_trail)| - 1]
    {
      hide *;
      ValidParts();
      ghost var s := places[..|places| - 1];
      var trail := m_trail[..|m_trail| - 1];
      m_trail, places := trail, s;
      MakeValid(trail, s);
    }

    /** Changes the last node of the trail. */
    method SetTop(x: Node, ghost f: Place)
      requires Valid() && m_trail != [] && StandsFor(m_that, x, f)
      modifies this
      ensures Valid() && places == old(places)[..|old(places)| - 1] + [f] && m_trail == old(m_trail)[..|old(m_trail)| - 1] + [x]
    {
      hide *;
      ValidParts();
      ghost var s := places[..|places| - 1];
      var trail := m_trail[..|m_trail| - 1];
      TrailGrown(m_that, trail, s, x, f);
      m_trail, places := trail + [x], s + [f];
      MakeValid(trail + [x], s + [f]);
    }

    method Push(x: Node, ghost f: Place)
      requires Valid() && StandsFor(m_that, x, f)
      modifies this
      ensures Valid() && places == old(places) + [f] && m_trail == old(m_trail) + [x]
    {
      hide *;
      ValidParts();
      ghost var trail, s := m_trail, places;
      TrailGrown(m_that, trail, s, x, f);
      m_trail, places := m_trail + [x], places + [f];
      MakeValid(trail + [x], s + [f]);
    }

    /** hexPrefixEncode(keyOf(back.key), keyOf(rlp), false). */
    method KeyWith(b: Node, ghost f: Place) returns (key: Bytes)
      requires m_that.Valid() && StandsFor(m_that, b, f) && (f.tree.Leaf? || f.tree.Ext?)
      ensures key == HexPrefixOf(f.path + f.tree.key, false)
    {
      hide *;
      NodeSeen(m_that, b, f);
      KeyedParts(b.rlp);
      var above, own := KeyOf(b.key), KeyOf(b.rlp.items[0].data);
      SliceParts(b.key);
      SliceParts(b.rlp.items[0].data);
      key := HexPrefix.EncodeTwo(above.data, above.offset, own.data, own.offset, false);
    }

    /** Replaces an extension by its child. */
    method EnterChild(b: Node, key: Bytes, ghost f: Place)
      requires Valid() && m_trail != [] && b == m_trail[|m_trail| - 1] && f == places[|m_trail| - 1]
      requires f.tree.Ext? && key == HexPrefixOf(f.path + f.tree.key, false)
      modifies this
      ensures Valid() && places == old(places)[..|old(places)| - 1] + [Place(f.tree.child, f.path + f.tree.key, 255)]
    {
      hide *;
      ValidParts();
      ChildSeen(m_that, b, f, key);
      var x := m_that.Follow(b.rlp.items[1], f.tree.child);
      SetTop(Node(x, key, 255), Place(f.tree.child, f.path + f.tree.key, 255));
    }

    /** The trail of a new iterator: the root, not yet entered. */
    method EnterRoot(ghost key: Nibbles)
      requires m_that.Valid() && m_trail == []
      modifies this
      ensures Valid() && Formed(m_that.tree) && Rest(places) == Entries(m_that.tree, [])
      ensures Sought(places, key, key, SkipTo(Entries(m_that.tree, []), key))
    {
      hide *;
      ghost var t := m_that.tree;
      m_that.RootFacts(t);
      SumIncludes(multiset{m_that.m_root}, Below(m_that.sha3, t));
      var root := m_that.Load(m_that.m_root, t);
      RootStands(m_that, Node(root, [0], 255));
      RootSought(t, key);
      EmptyTrail(m_that);
      TrailGrown(m_that, [], [], Node(root, [0], 255), Place(t, [], 255));
      m_trail, places := [Node(root, [0], 255)], [Place(t, [], 255)];
      assert m_trail == [] + [Node(root, [0], 255)] && places == [] + [Place(t, [], 255)];
      MakeValid(m_trail, places);
    }

    /** Leaves a node below which nothing comes any more. */
    method PassBy(ghost f: Place, ghost k: Nibbles, ghost whole: Nibbles, ghost target: seq<Pair>)
      requires Valid() && m_trail != [] && f == places[|m_trail| - 1] && Sought(places, k, whole, target)
      requires Proper(f) && if f.child == 255 then f.tree.Nil? else !f.tree.Branch?
      modifies this
      ensures Valid() && AllProper(places) && Sought(places, [], whole, target)
      ensures AllProper(old(places)) && Work(places) < Work(old(places))
    {
      hide *;
      ValidParts();
      SoughtNothing(places[..|places| - 1], f, k, whole, target);
      NothingHere(places[..|places| - 1], f);
      Pop();
      ValidParts();
    }

    /** From a branch the walk stands in to its next slot. */
    method StepOn(b: Node, ghost f: Place, ghost whole: Nibbles, ghost target: seq<Pair>)
      requires Valid() && m_trail != [] && b == m_trail[|m_trail| - 1] && f == places[|m_trail| - 1]
      requires Proper(f) && f.child != 255 && f.tree.Branch? && b.child == f.child && Sought(places, [], whole, target)
      modifies this
      ensures AtBranch() && |places| == |old(places)| && AllProper(old(places))
      ensures var s, g := places[..|places| - 1], places[|places| - 1];
              && AllProper(s) && Formed(g.tree) && g.tree.Branch?
              && Running(s, g, [], whole, target) && CostSlots(g.tree, g.child) + Work(s) < Work(old(places))
    {
      hide *;
      ValidParts();
      ghost var s := places[..|places| - 1];
      RunsOn(s, f, whole, target);
      ToSlots(s, f);
      SetChild(b, f, Incremented(b.child));
      LastOf(s, f.(child := Incremented(f.child)));
    }

    /** operator++: leaves the entry it stands on and stops at the next one. */
    method Next()
      requires Valid()
      modifies this
      ensures Valid() && Positioned(places, old(Rest(places)))
    {
      hide *;
      ValidParts();
      ghost var target := Rest(places);
      AllWanted(places, [], target);
      while true
        invariant Valid() && AllProper(places) && Sought(places, [], [], target)
        decreases Work(places)
      {
        ValidParts();
        if m_trail == [] {
          Ended([], [], target);
          return;
        }
        var b := m_trail[|m_trail| - 1];
        ghost var s, f := places[..|places| - 1], places[|places| - 1];
        NodeSeen(m_that, b, f);
        ghost var work := Work(places);
        if b.child == 255 {
          if IsEmptyItem(b.rlp) {
            PassBy(f, [], [], target);
            continue;
          }
          if |b.rlp.items| == 2 {
            var done := NextPair(b, f, target);
            if done {
              return;
            }
            continue;
          }
          SoughtBranch(s, f, [], [], target);
          ToSlots(s, f);
          SetChild(b, f, 16);
          LastOf(s, f.(child := 16));
        } else {
          if |b.rlp.items| != 17 {
            PassBy(f, [], [], target);
            continue;
          }
          StepOn(b, f, [], target);
        }
        var _, stopped := RunThrough([], [], target, work);
        if stopped {
          return;
        }
      }
    }

    /** At a two-item node: stops at a leaf, or enters the child. */
    method NextPair(b: Node, ghost f: Place, ghost target: seq<Pair>) returns (stopped: bool)
      requires Valid() && m_trail != [] && b == m_trail[|m_trail| - 1] && f == places[|m_trail| - 1]
      requires (f.tree.Leaf? || f.tree.Ext?) && f.child == 255 && Sought(places, [], [], target)
      modifies this
      ensures Valid() && AllProper(places)
      ensures stopped ==> Positioned(places, target)
      ensures !stopped ==> Sought(places, [], [], target) && AllProper(old(places)) && Work(places) < Work(old(places))
    {
      hide *;
      ValidParts();
      ghost var s := places[..|places| - 1];
      NodeSeen(m_that, b, f);
      KeyBelow(f.tree.key);
      var key := KeyWith(b, f);
      if IsLeafItem(b.rlp) {
        SoughtLeaf(s, f, [], [], target);
        LeafStands(m_that, b, key, f);
        SetTop(b.(key := key, child := 0), Place(f.tree, f.path + f.tree.key, 0));
        ValidParts();
        return true;
      }
      SoughtExt(s, f, [], [], target);
      AtExtension(s, f);
      EnterChild(b, key, f);
      return false;
    }

    /** next(key), with k what is left of the key at the node the trail ends in. */
    method NextFrom(key: Nibbles, ghost whole: Nibbles, ghost target: seq<Pair>)
      requires Valid() && Sought(places, key, whole, target)
      modifies this
      ensures Valid() && Positioned(places, target)
    {
      hide *;
      ValidParts();
      var k := key;
      while true
        invariant Valid() && AllProper(places) && Sought(places, k, whole, target)
        decreases Work(places)
      {
        ValidParts();
        if m_trail == [] {
          Ended(k, whole, target);
          return;
        }
        var b := m_trail[|m_trail| - 1];
        ghost var s, f := places[..|places| - 1], places[|places| - 1];
        NodeSeen(m_that, b, f);
        ghost var work := Work(places);
        if b.child == 255 {
          if IsEmptyItem(b.rlp) {
            PassBy(f, k, whole, target);
            k := [];
            continue;
          }
          if |b.rlp.items| == 2 {
            var done;
            k, done := SeekPair(b, f, k, whole, target);
            if done {
              return;
            }
            continue;
          }
          k := SeekSlot(b, f, k, whole, target);
        } else {
          NoKeyLeft(s, f, k, whole, target);
          if |b.rlp.items| != 17 {
            PassBy(f, k, whole, target);
            k := [];
            continue;
          }
          StepOn(b, f, whole, target);
        }
        var stopped;
        k, stopped := RunThrough(k, whole, target, work);
        if stopped {
          return;
        }
      }
    }

    /** At a branch just entered: on to the slot of the next nibble, or to the branch's own value. */
    method SeekSlot(b: Node, ghost f: Place, key: Nibbles, ghost whole: Nibbles, ghost target: seq<Pair>) returns (k: Nibbles)
      requires Valid() && m_trail != [] && b == m_trail[|m_trail| - 1] && f == places[|m_trail| - 1]
      requires Proper(f) && f.tree.Branch? && f.child == 255 && Sought(places, key, whole, target)
      modifies this
      ensures AtBranch() && |places| == |old(places)| && AllProper(old(places))
      ensures var s, g := places[..|places| - 1], places[|places| - 1];
              && AllProper(s) && Formed(g.tree) && g.tree.Branch?
              && Running(s, g, k, whole, target) && CostSlots(g.tree, g.child) + Work(s) < Work(old(places))
    {
      hide *;
      ValidParts();
      ghost var s := places[..|places| - 1];
      SoughtBranch(s, f, key, whole, target);
      ToSlots(s, f);
      if key != [] {
        SlotLess(s, f, key[0]);
        SetChild(b, f, key[0]);
        LastOf(s, f.(child := key[0]));
        k := key[1..];
      } else {
        SetChild(b, f, 16);
        LastOf(s, f.(child := 16));
        k := [];
      }
    }

    /** At a two-item node the search goes on below it, stops at it, or passes it by. */
    method SeekPair(b: Node, ghost f: Place, key: Nibbles, ghost whole: Nibbles, ghost target: seq<Pair>)
      returns (k: Nibbles, stopped: bool)
      requires Valid() && m_trail != [] && b == m_trail[|m_trail| - 1] && f == places[|m_trail| - 1]
      requires (f.tree.Leaf? || f.tree.Ext?) && f.child == 255 && Sought(places, key, whole, target)
      modifies this
      ensures Valid() && AllProper(places)
      ensures stopped ==> Positioned(places, target)
      ensures !stopped ==> Sought(places, k, whole, target) && AllProper(old(places)) && Work(places) < Work(old(places))
    {
      hide *;
      ValidParts();
      ghost var s := places[..|places| - 1];
      NodeSeen(m_that, b, f);
      PopsLess(s, f);
      var kk := KeyOfItem(b.rlp);
      LeftBelowIs(key, kk);
      if !(kk <= key) {
        if !Less(key, kk) {
          SoughtSkips(s, f, key, whole, target);
          Pop();
          return [], false;
        }
      }
      k := if kk <= key then key[|kk|..] else [];
      var above := KeyWith(b, f);
      if IsLeafItem(b.rlp) {
        SoughtLeaf(s, f, key, whole, target);
        if k == [] {
          LeafStands(m_that, b, above, f);
          SetTop(b.(key := above, child := 0), Place(f.tree, f.path + f.tree.key, 0));
          ValidParts();
          return k, true;
        }
        Pop();
        return [], false;
      }
      SoughtExt(s, f, key, whole, target);
      AtExtension(s, f);
      EnterChild(b, above, f);
      return k, false;
    }

    /** Moves the branch the trail ends in to some child. */
    method SetChild(b: Node, ghost f: Place, c: Byte)
      requires Valid() && m_trail != [] && b == m_trail[|m_trail| - 1] && f == places[|m_trail| - 1]
      requires f.tree.Branch?
      modifies this
      ensures AtBranch() && places == old(places)[..|old(places)| - 1] + [f.(child := c)]
    {
      hide *;
      ValidParts();
      ghost var s := places[..|places| - 1];
      var trail := m_trail[..|m_trail| - 1];
      BranchStands(m_that, b, f, 16);
      m_trail, places := trail + [b.(child := c)], s + [f.(child := c)];
      MakeAtBranch(trail, s, b, f, c);
    }

    lemma MakeAtBranch(trail: seq<Node>, s: seq<Place>, b: Node, f: Place, c: Byte)
      requires m_that.Valid() && TrailOk(m_that, trail, s) && f.tree.Branch?
      requires StandsFor(m_that, b.(child := 16), f.(child := 16))
      requires m_trail == trail + [b.(child := c)] && places == s + [f.(child := c)]
      ensures AtBranch()
    {
      hide StandsFor;
      assert m_trail[..|trail|] == trail && places[..|s|] == s;
      assert b.(child := c).(child := 16) == b.(child := 16) && f.(child := c).(child := 16) == f.(child := 16);
    }

    /** The loop over the slots: stops at the branch's own value, enters the next child, or leaves the branch. */
    method RunThrough(k: Nibbles, ghost key: Nibbles, ghost target: seq<Pair>, ghost bound: nat)
      returns (rest: Nibbles, stopped: bool)
      requires AtBranch() && places != []
      requires Running(places[..|places| - 1], places[|places| - 1], k, key, target)
      requires Formed(places[|places| - 1].tree) && places[|places| - 1].tree.Branch? && AllProper(places[..|places| - 1])
      requires CostSlots(places[|places| - 1].tree, places[|places| - 1].child) + Work(places[..|places| - 1]) < bound
      modifies this
      ensures Valid() && (k == [] ==> rest == [])
      ensures stopped ==> Positioned(places, target)
      ensures !stopped ==> AllProper(places) && Sought(places, rest, key, target) && Work(places) < bound
    {
      hide *;
      AtBranchParts();
      rest := k;
      var trail, b := m_trail[..|m_trail| - 1], m_trail[|m_trail| - 1];
      ghost var s, f := places[..|places| - 1], places[|places| - 1];
      var c: Byte := b.child;
      RunningParts(s, f, k, key, target);
      while true
        invariant c <= 17 && m_trail == trail + [b.(child := c)] && places == s + [f.(child := c)]
        invariant Running(s, f.(child := c), rest, key, target) && CostSlots(f.tree, c) + Work(s) < bound
        invariant k == [] ==> rest == []
        decreases Remaining(c)
      {
        RunningParts(s, f.(child := c), rest, key, target);
        if c == 17 {
          m_trail, places := trail, s;
          RunsOut(s, f.(child := c), rest, key, target);
          MakeValid(trail, s);
          return [], false;
        }
        BranchStands(m_that, b.(child := 16), f.(child := 16), c);
        NodeSeen(m_that, b.(child := c), f.(child := c));
        ValueSeen(f.tree.value);
        if c < 16 {
          KidSeen(m_that, b.(child := c), f.(child := c));
        }
        if !IsEmptyItem(b.rlp.items[c]) {
          TrailGrown(m_that, trail, s, b.(child := c), f.(child := c));
          MakeValid(trail + [b.(child := c)], s + [f.(child := c)]);
          if c == 16 {
            RunsStill(s, f.(child := c), rest, key, target);
            return rest, true;
          }
          RunsInto(s, f.(child := c), rest, key, target);
          ghost var kid := f.tree.kids[c];
          var x := m_that.Follow(b.rlp.items[c], kid);
          var path := KeyOfSlot(b.key, c, f.path);
          Push(Node(x, path, 255), Place(kid, f.path + [c], 255));
          ValidParts();
          return rest, false;
        }
        RunsPast(s, f.(child := c), rest, key, target);
        rest, c := [], Incremented(c);
        m_trail, places := trail + [b.(child := c)], s + [f.(child := c)];
      }
    }

    lemma AtBranchParts()
      requires AtBranch()
      ensures m_that.Valid() && m_trail != [] && |places| == |m_trail|
      ensures var top := |m_trail| - 1;
              && TrailOk(m_that, m_trail[..top], places[..top])
              && places[top].tree.Branch? && m_trail[top].child == places[top].child
              && StandsFor(m_that, m_trail[top].(child := 16), places[top].(child := 16))
              && m_trail == m_trail[..top] + [m_trail[top]] && places == places[..top] + [places[top]]
    {
      AtBranchUnfolded();
      hide *;
      FrontAndLast(m_trail);
      FrontAndLast(places);
    }

    lemma AtBranchUnfolded()
      requires AtBranch()
      ensures m_that.Valid() && m_trail != [] && |places| == |m_trail|
      ensures var top := |m_trail| - 1;
              && TrailOk(m_that, m_trail[..top], places[..top])
              && places[top].tree.Branch? && m_trail[top].child == places[top].child
              && StandsFor(m_that, m_trail[top].(child := 16), places[top].(child := 16))
    {
    }

    /** What the iterator points to: the key is the path of the last node without its hex-prefix byte. */
    method At() returns (key: Bytes, value: Bytes)
      requires Valid() && m_trail != [] && Current(places[|m_trail| - 1]).Some?
      requires |Current(places[|m_trail| - 1]).value.key| % 2 == 0
      ensures Pair(Unpack(key), value) == Current(places[|m_trail| - 1]).value
    {
      hide *;
      ValidParts();
      var b := m_trail[|m_trail| - 1];
      ghost var f := places[|m_trail| - 1];
      NodeSeen(m_that, b, f);
      CurrentParts(f);
      WholeBytes(f.path);
      key := b.key[1..];
      value := b.rlp.items[if |b.rlp.items| == 2 then 1 else 16].data;
    }
  }
}
