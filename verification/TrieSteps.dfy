/** The nodes that insertions and removals pass through: what they leave behind, and what comes and goes on the way. */
module TrieSteps {
  import opened CommonData
  import opened HexPrefix
  import opened Trie
  import opened TrieNode

  // ------------------------------------------------------------------ Inserting

  /** The nodes on the way to k after insertion, and those a cleaved or branched node is for a moment. */
  function InsertTrees(t: Tree, k: Nibbles, v: Bytes): set<Tree>
    requires Formed(t) && v != []
    decreases |k|, Rank(t)
  {
    {Inserted(t, k, v)} +
    if t.Nil? || (t.Leaf? && k == t.key) || (t.Branch? && k == []) then {}
    else if t.Branch? then InsertTrees(t.kids[k[0]], k[1..], v)
    else if t.Ext? && t.key <= k then InsertTrees(t.child, k[|t.key|..], v)
    else
      var n := Shared(k, t.key);
      NotShared(t, k);
      if n > 0 then Subtrees(Ext(k[..n], Drop(t, n))) + InsertTrees(Drop(t, n), k[n..], v)
      else BranchedFormed(t); Subtrees(Branched(t)) + InsertTrees(Branched(t), k, v)
  }

  function InsertNodes(sha3: Hasher, t: Tree, k: Nibbles, v: Bytes): set<Bytes>
    requires Formed(t) && v != []
  {
    Encs(sha3, InsertTrees(t, k, v))
  }

  lemma InsertedOccurs(sha3: Hasher, t: Tree, k: Nibbles, v: Bytes)
    requires Formed(t) && v != []
    ensures Enc(sha3, Inserted(t, k, v)) in InsertNodes(sha3, t, k, v)
  {
    hide Enc, Inserted;
    assert Inserted(t, k, v) in InsertTrees(t, k, v);
  }

  /** The nodes further down, where the way goes on. */
  lemma InsertBelow(sha3: Hasher, nodes: set<Bytes>, t: Tree, k: Nibbles, v: Bytes)
    requires Formed(t) && v != [] && InsertNodes(sha3, t, k, v) <= nodes
    ensures t.Branch? && k != [] ==> InsertNodes(sha3, t.kids[k[0]], k[1..], v) <= nodes
    ensures t.Ext? && t.key <= k ==> InsertNodes(sha3, t.child, k[|t.key|..], v) <= nodes
  {
    hide Enc, Inserted;
    if t.Branch? && k != [] {
      EncsPart(sha3, InsertTrees(t.kids[k[0]], k[1..], v), InsertTrees(t, k, v));
    } else if t.Ext? && t.key <= k {
      EncsPart(sha3, InsertTrees(t.child, k[|t.key|..], v), InsertTrees(t, k, v));
    }
  }

  /** The nodes of a split, where the keys share something and where they do not. */
  lemma ApartKnown(sha3: Hasher, nodes: set<Bytes>, t: Tree, k: Nibbles, v: Bytes)
    requires Formed(t) && v != [] && TwoItem(t) && Astray(t, k) && InsertNodes(sha3, t, k, v) <= nodes
    ensures var n := Shared(k, t.key);
            Formed(Drop(t, n)) && Formed(Branched(t)) &&
            if n > 0 then
              && Known(sha3, nodes, Ext(k[..n], Drop(t, n))) && Known(sha3, nodes, Drop(t, n))
              && InsertNodes(sha3, Ext(k[..n], Drop(t, n)), k, v) <= nodes
              && InsertNodes(sha3, Drop(t, n), k[n..], v) <= nodes
            else
              Known(sha3, nodes, Branched(t)) && InsertNodes(sha3, Branched(t), k, v) <= nodes
  {
    var n := Shared(k, t.key);
    NotShared(t, k);
    BranchedFormed(t);
    if n > 0 {
      var top := Ext(k[..n], Drop(t, n));
      assert k[|top.key|..] == k[n..];
      assert Inserted(top, k, v) == Inserted(t, k, v);
      hide Enc, Branched, Drop, Inserted, Encs;
      assert InsertTrees(top, k, v) <= InsertTrees(t, k, v) && InsertTrees(Drop(t, n), k[n..], v) <= InsertTrees(t, k, v);
      EncsPart(sha3, InsertTrees(top, k, v), InsertTrees(t, k, v));
      EncsPart(sha3, InsertTrees(Drop(t, n), k[n..], v), InsertTrees(t, k, v));
      EncsPart(sha3, Subtrees(top), InsertTrees(t, k, v));
      KnownIs(sha3, nodes, top);
    } else {
      hide Enc, Drop, Inserted, Encs;
      EncsPart(sha3, InsertTrees(Branched(t), k, v), InsertTrees(t, k, v));
      EncsPart(sha3, Subtrees(Branched(t)), InsertTrees(t, k, v));
      KnownIs(sha3, nodes, Branched(t));
    }
  }

  lemma {:induction false} InsertKnown(sha3: Hasher, nodes: set<Bytes>, t: Tree, k: Nibbles, v: Bytes)
    requires Formed(t) && v != [] && Known(sha3, nodes, t) && InsertNodes(sha3, t, k, v) <= nodes
    ensures Known(sha3, nodes, Inserted(t, k, v))
    decreases |k|, Rank(t)
  {
    hide Enc, InsertNodes;
    InsertedOccurs(sha3, t, k, v);
    InsertBelow(sha3, nodes, t, k, v);
    if t.Branch? {
      if k != [] {
        InsertKnown(sha3, nodes, t.kids[k[0]], k[1..], v);
      }
    } else if TwoItem(t) && (t.Ext? || k != t.key) {
      if t.Ext? && t.key <= k {
        InsertKnown(sha3, nodes, t.child, k[|t.key|..], v);
      } else {
        var n := Shared(k, t.key);
        NotShared(t, k);
        ApartKnown(sha3, nodes, t, k, v);
        if n > 0 {
          InsertKnown(sha3, nodes, Drop(t, n), k[n..], v);
        } else {
          InsertKnown(sha3, nodes, Branched(t), k, v);
        }
      }
    }
  }

  // ------------------------------------------------------------------ Removing

  /** The nodes on the way to k after removal. */
  function DeleteTrees(t: Tree, k: Nibbles): set<Tree>
    requires Formed(t) && Get(t, k) != []
    decreases t
  {
    {Deleted(t, k)} +
    match t
    case Leaf(_, _) => {}
    case Ext(key, c) => DeleteTrees(c, k[|key|..])
    case Branch(kids, _) => if k == [] then {} else DeleteTrees(kids[k[0]], k[1..])
  }

  function DeleteNodes(sha3: Hasher, t: Tree, k: Nibbles): set<Bytes>
    requires Formed(t) && Get(t, k) != []
  {
    Encs(sha3, DeleteTrees(t, k))
  }

  lemma DeleteBelow(sha3: Hasher, nodes: set<Bytes>, t: Tree, k: Nibbles)
    requires Formed(t) && Get(t, k) != [] && DeleteNodes(sha3, t, k) <= nodes
    ensures Enc(sha3, Deleted(t, k)) in nodes
    ensures t.Branch? && k != [] ==> DeleteNodes(sha3, t.kids[k[0]], k[1..]) <= nodes
    ensures t.Ext? ==> DeleteNodes(sha3, t.child, k[|t.key|..]) <= nodes
  {
    hide Enc, Deleted;
    assert Deleted(t, k) in DeleteTrees(t, k);
    assert Enc(sha3, Deleted(t, k)) in Encs(sha3, DeleteTrees(t, k));
    if t.Branch? && k != [] {
      EncsPart(sha3, DeleteTrees(t.kids[k[0]], k[1..]), DeleteTrees(t, k));
    } else if t.Ext? {
      EncsPart(sha3, DeleteTrees(t.child, k[|t.key|..]), DeleteTrees(t, k));
    }
  }

  lemma PrefixedKnown(sha3: Hasher, nodes: set<Bytes>, p: Nibbles, t: Tree)
    requires Known(sha3, nodes, t) && p != [] && (t != Nil ==> Enc(sha3, Prefixed(p, t)) in nodes)
    ensures Known(sha3, nodes, Prefixed(p, t))
  {
  }

  lemma CollapsedKnown(sha3: Hasher, nodes: set<Bytes>, kids: seq<Tree>, value: Bytes)
    requires |kids| == 16 && (forall i | 0 <= i < 16 :: Known(sha3, nodes, kids[i]))
    requires Enc(sha3, Collapsed(kids, value)) in nodes
    ensures Known(sha3, nodes, Collapsed(kids, value))
  {
    UniqueInUseIs(kids, value, 0);
    var u := UniqueInUse(kids, value, 0);
    hide Enc, UniqueInUse;
    if u < 16 {
      PrefixedKnown(sha3, nodes, [u], kids[u]);
    }
  }

  lemma {:induction false} DeleteKnown(sha3: Hasher, nodes: set<Bytes>, t: Tree, k: Nibbles)
    requires Formed(t) && Get(t, k) != [] && Known(sha3, nodes, t) && DeleteNodes(sha3, t, k) <= nodes
    ensures Known(sha3, nodes, Deleted(t, k))
    decreases t
  {
    hide Enc, Collapsed, Prefixed, DeleteNodes;
    DeleteBelow(sha3, nodes, t, k);
    match t
    case Leaf(_, _) =>
    case Ext(key, c) =>
      DeleteKnown(sha3, nodes, c, k[|key|..]);
      PrefixedKnown(sha3, nodes, key, Deleted(c, k[|key|..]));
    case Branch(kids, value) =>
      if k == [] {
        CollapsedKnown(sha3, nodes, kids, []);
      } else {
        DeleteKnown(sha3, nodes, kids[k[0]], k[1..]);
        CollapsedKnown(sha3, nodes, kids[k[0] := Deleted(kids[k[0]], k[1..])], value);
      }
  }

  // ------------------------------------------------------------------ Runs

  /** What a caller may ask of a trie and its store. */
  datatype Op = Put(key: Bytes, value: Bytes) | Erase(key: Bytes) | Purge

  /** What an operation makes of a tree; values are not empty. */
  function After(t: Tree, o: Op): Tree {
    match o
    case Put(key, value) => if Formed(t) && value != [] then Inserted(t, Unpack(key), value) else t
    case Erase(key) => if Formed(t) && Get(t, Unpack(key)) != [] then Deleted(t, Unpack(key)) else t
    case Purge => t
  }

  function AfterAll(t: Tree, ops: seq<Op>): Tree {
    if ops == [] then t else After(AfterAll(t, ops[..|ops| - 1]), ops[|ops| - 1])
  }

  lemma AfterStep(t: Tree, ops: seq<Op>, i: nat)
    requires i < |ops|
    ensures AfterAll(t, ops[..i + 1]) == After(AfterAll(t, ops[..i]), ops[i])
  {
    hide After;
    assert ops[..i + 1][..i] == ops[..i];
  }

  /** What an operation passes through. */
  function OpTrees(t: Tree, o: Op): set<Tree> {
    match o
    case Put(key, value) => if Formed(t) && value != [] then InsertTrees(t, Unpack(key), value) else {}
    case Erase(key) => if Formed(t) && Get(t, Unpack(key)) != [] then DeleteTrees(t, Unpack(key)) else {}
    case Purge => {}
  }

  function RunTrees(t: Tree, ops: seq<Op>): set<Tree>
    decreases ops
  {
    if ops == [] then {} else OpTrees(t, ops[0]) + RunTrees(After(t, ops[0]), ops[1..])
  }

  function OpNodes(sha3: Hasher, t: Tree, o: Op): set<Bytes> {
    Encs(sha3, OpTrees(t, o))
  }

  /** The finitely many nodes that occur while operations are carried out on a tree. */
  function RunNodes(sha3: Hasher, t: Tree, ops: seq<Op>): set<Bytes> {
    Encs(sha3, RunTrees(t, ops))
  }

  /** All nodes of a run that starts with a new trie. */
  function NodesFromEmpty(sha3: Hasher, ops: seq<Op>): set<Bytes> {
    {Enc(sha3, Nil)} + RunNodes(sha3, Nil, ops)
  }

  lemma RunNodesStep(sha3: Hasher, t: Tree, ops: seq<Op>)
    requires ops != []
    ensures RunNodes(sha3, t, ops) == OpNodes(sha3, t, ops[0]) + RunNodes(sha3, After(t, ops[0]), ops[1..])
  {
    hide OpTrees, After, Encs;
    EncsSum(sha3, OpTrees(t, ops[0]), RunTrees(After(t, ops[0]), ops[1..]));
  }
}
