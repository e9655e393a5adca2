/** Merkle Patricia trees as values: lookup, the shape GenericTrieDB keeps, insertion and removal (Yellow Paper, Appendix D). */
module Trie {
  import opened CommonData
  import opened HexPrefix

  datatype Tree =
    | Nil
    | Leaf(key: Nibbles, value: Bytes)
    | Ext(key: Nibbles, child: Tree)
    | Branch(kids: seq<Tree>, value: Bytes)

  predicate TwoItem(t: Tree) { t.Leaf? || t.Ext? }

  /** What any node the code handles looks like, transient ones included. */
  predicate Formed(t: Tree) {
    match t
    case Nil => true
    case Leaf(_, v) => v != []
    case Ext(k, c) => k != [] && c != Nil && Formed(c)
    case Branch(_, _) => |t.kids| == 16 && forall i | 0 <= i < 16 :: Formed(t.kids[i])
  }

  /** Slot i of a branch holds something; slot 16 is the value. */
  predicate Used(kids: seq<Tree>, value: Bytes, i: nat)
    requires |kids| == 16
  {
    if i < 16 then kids[i] != Nil else value != []
  }

  ghost predicate TwoUsed(kids: seq<Tree>, value: Bytes)
    requires |kids| == 16
  {
    exists i, j :: 0 <= i < j <= 16 && Used(kids, value, i) && Used(kids, value, j)
  }

  /** No extension above anything but a branch, and no branch with fewer than two slots in use. */
  ghost predicate Canonical(t: Tree) {
    match t
    case Nil => true
    case Leaf(_, v) => v != []
    case Ext(k, c) => k != [] && c.Branch? && Canonical(c)
    case Branch(_, _) =>
      |t.kids| == 16 && (forall i | 0 <= i < 16 :: Canonical(t.kids[i])) && TwoUsed(t.kids, t.value)
  }

  lemma {:induction false} CanonicalFormed(t: Tree)
    requires Canonical(t)
    ensures Formed(t)
  {
    if t.Ext? {
      CanonicalFormed(t.child);
    } else if t.Branch? {
      forall i | 0 <= i < 16 ensures Formed(t.kids[i]) { CanonicalFormed(t.kids[i]); }
    }
  }

  /** The value stored under a key, empty if there is none. */
  function Get(t: Tree, k: Nibbles): Bytes
    requires Formed(t)
    decreases t
  {
    match t
    case Nil => []
    case Leaf(key, v) => if k == key then v else []
    case Ext(key, c) => if key <= k then Get(c, k[|key|..]) else []
    case Branch(kids, v) => if k == [] then v else Get(kids[k[0]], k[1..])
  }

  // ------------------------------------------------------------------ Insertion

  function Nils(n: nat): (s: seq<Tree>)
    ensures |s| == n && forall i | 0 <= i < n :: s[i] == Nil
  {
    if n == 0 then [] else Nils(n - 1) + [Nil]
  }

  /** A two-item node with the first n nibbles of its key cut off. */
  function Drop(t: Tree, n: nat): Tree
    requires TwoItem(t) && n <= |t.key|
  {
    if t.Leaf? then Leaf(t.key[n..], t.value) else Ext(t.key[n..], t.child)
  }

  /** A two-item node as a branch with one slot in use. */
  function Branched(t: Tree): Tree
    requires TwoItem(t) && (t.Ext? ==> t.key != [])
  {
    if t.key == [] then Branch(Nils(16), t.value)
    else Branch(Nils(16)[t.key[0] := if t.Ext? && |t.key| == 1 then t.child else Drop(t, 1)], [])
  }

  function Rank(t: Tree): nat { if TwoItem(t) then 1 else 0 }

  /** The tree with k bound to v. */
  function Inserted(t: Tree, k: Nibbles, v: Bytes): (r: Tree)
    requires Formed(t) && v != []
    ensures r != Nil && Formed(r)
    decreases |k|, Rank(t)
  {
    if t.Nil? then Leaf(k, v)
    else if t.Branch? then
      if k == [] then Branch(t.kids, v) else Branch(t.kids[k[0] := Inserted(t.kids[k[0]], k[1..], v)], t.value)
    else if t.Leaf? && k == t.key then Leaf(k, v)
    else if t.Ext? && t.key <= k then Ext(t.key, Inserted(t.child, k[|t.key|..], v))
    else
      var n := Shared(k, t.key);
      NotShared(t, k);
      if n > 0 then Ext(k[..n], Inserted(Drop(t, n), k[n..], v))
      else BranchedFormed(t); Inserted(Branched(t), k, v)
  }

  /** The two-item node t is neither where k belongs nor above it. */
  predicate Astray(t: Tree, k: Nibbles)
    requires TwoItem(t)
  {
    if t.Leaf? then k != t.key else !(t.key <= k)
  }

  lemma NotShared(t: Tree, k: Nibbles)
    requires Formed(t) && TwoItem(t) && Astray(t, k)
    ensures var n := Shared(k, t.key);
            && Formed(Drop(t, n)) && k[..n] == t.key[..n] && t.key[..n] + t.key[n..] == t.key
            && Astray(Drop(t, n), k[n..]) && Shared(k[n..], t.key[n..]) == 0
  {
    var n := Shared(k, t.key);
    assert k == k[..n] + k[n..] && t.key == t.key[..n] + t.key[n..];
    assert n == |t.key| ==> t.key <= k;
    assert t.key[n..] <= k[n..] ==> t.key <= k;
  }

  lemma BranchedFormed(t: Tree)
    requires Formed(t) && TwoItem(t)
    ensures Formed(Branched(t))
  {
  }

  lemma {:induction false} GetBranched(t: Tree, q: Nibbles)
    requires Formed(t) && TwoItem(t)
    ensures Formed(Branched(t)) && Get(Branched(t), q) == Get(t, q)
  {
    if t.key != [] && q != [] {
      assert t.key == [t.key[0]] + t.key[1..] && q == [q[0]] + q[1..];
      if t.Ext? && t.key <= q {
        assert q[1..][|t.key| - 1..] == q[|t.key|..];
        assert t.key[1..] <= q[1..];
      }
      if t.Ext? && |t.key| == 1 {
        assert t.key == [t.key[0]];
      }
    }
  }

  lemma {:induction false} GetUnder(p: Nibbles, t: Tree, q: Nibbles)
    requires Formed(t) && TwoItem(t) && p != [] && p <= t.key && Formed(Drop(t, |p|))
    ensures Get(Ext(p, Drop(t, |p|)), q) == Get(t, q)
  {
    var rest := t.key[|p|..];
    assert t.key == p + rest;
    if p <= q {
      assert q == p + q[|p|..];
      if t.Ext? && t.key <= q {
        assert q[|p|..][|rest|..] == q[|t.key|..];
        assert rest <= q[|p|..];
      }
    }
  }

  /** Insertion changes its own key and no other. */
  lemma {:induction false} GetInsert(t: Tree, k: Nibbles, v: Bytes, q: Nibbles)
    requires Formed(t) && v != []
    ensures Get(Inserted(t, k, v), q) == if q == k then v else Get(t, q)
    decreases |k|, Rank(t)
  {
    if t.Branch? {
      if k != [] && q != [] {
        assert k == [k[0]] + k[1..] && q == [q[0]] + q[1..];
        GetInsert(t.kids[k[0]], k[1..], v, q[1..]);
      }
    } else if TwoItem(t) && (t.Ext? || k != t.key) {
      if t.Ext? && t.key <= k {
        var n := |t.key|;
        assert k == t.key + k[n..];
        if t.key <= q {
          assert q == t.key + q[n..];
          GetInsert(t.child, k[n..], v, q[n..]);
        }
      } else {
        GetInsertAstray(t, k, v, q);
      }
    }
  }

  lemma {:induction false} GetInsertAstray(t: Tree, k: Nibbles, v: Bytes, q: Nibbles)
    requires Formed(t) && v != [] && TwoItem(t) && Astray(t, k)
    ensures Get(Inserted(t, k, v), q) == if q == k then v else Get(t, q)
    decreases |k|, Rank(t), 0
  {
    hide Inserted, Branched, Drop;
    var n := Shared(k, t.key);
    NotShared(t, k);
    InsertedAstray(t, k, v);
    if n > 0 {
      GetUnder(k[..n], t, q);
      assert k == k[..n] + k[n..];
      if k[..n] <= q {
        assert q == k[..n] + q[n..];
        GetInsert(Drop(t, n), k[n..], v, q[n..]);
      }
    } else {
      GetBranched(t, q);
      GetInsert(Branched(t), k, v, q);
    }
  }

  lemma InsertedAstray(t: Tree, k: Nibbles, v: Bytes)
    requires Formed(t) && v != [] && TwoItem(t) && Astray(t, k)
    ensures var n := Shared(k, t.key);
            && Formed(Drop(t, n)) && Formed(Branched(t)) && Branched(t).Branch? && TwoItem(Drop(t, n))
            && Inserted(t, k, v) ==
               if n > 0 then Ext(k[..n], Inserted(Drop(t, n), k[n..], v)) else Inserted(Branched(t), k, v)
  {
    NotShared(t, k);
    BranchedFormed(t);
    hide Branched;
  }

  // ------------------------------------------------------------------ Insertion keeps the shape

  lemma Two(kids: seq<Tree>, value: Bytes, i: nat, j: nat)
    requires |kids| == 16 && i <= 16 && j <= 16 && i != j && Used(kids, value, i) && Used(kids, value, j)
    ensures TwoUsed(kids, value)
  {
    if i < j {
      assert Used(kids, value, i) && Used(kids, value, j);
    } else {
      assert Used(kids, value, j) && Used(kids, value, i);
    }
  }

  lemma MoreUsed(kids: seq<Tree>, value: Bytes, kids': seq<Tree>, value': Bytes)
    requires |kids| == |kids'| == 16 && TwoUsed(kids, value)
    requires forall i | 0 <= i <= 16 :: Used(kids, value, i) ==> Used(kids', value', i)
    ensures TwoUsed(kids', value')
  {
    var i, j :| 0 <= i < j <= 16 && Used(kids, value, i) && Used(kids, value, j);
    Two(kids', value', i, j);
  }

  /** Where nothing is shared, the two keys take two different slots of a new branch. */
  lemma InsertApart(t: Tree, k: Nibbles, v: Bytes)
    requires Canonical(t) && TwoItem(t) && v != [] && Astray(t, k) && Shared(k, t.key) == 0
    ensures Formed(t) && Formed(Branched(t))
    ensures Inserted(Branched(t), k, v).Branch? && Canonical(Inserted(Branched(t), k, v))
    ensures Inserted(t, k, v) == Inserted(Branched(t), k, v)
  {
    CanonicalFormed(t);
    BranchedFormed(t);
    NotShared(t, k);
    var b := Branched(t);
    var i := if t.key == [] then 16 else t.key[0];
    var j := if k == [] then 16 else k[0];
    assert i != j;
    var r := Inserted(b, k, v);
    if j < 16 {
      assert Inserted(b.kids[j], k[1..], v) == Leaf(k[1..], v);
      assert r == Branch(b.kids[j := Leaf(k[1..], v)], b.value);
    }
    assert Used(r.kids, r.value, i) && Used(r.kids, r.value, j);
    Two(r.kids, r.value, i, j);
  }

  lemma {:induction false} InsertCanonical(t: Tree, k: Nibbles, v: Bytes)
    requires Canonical(t) && v != []
    ensures Formed(t) && Canonical(Inserted(t, k, v))
    ensures t.Branch? ==> Inserted(t, k, v).Branch?
    decreases |k|, Rank(t)
  {
    CanonicalFormed(t);
    if t.Branch? {
      var r := Inserted(t, k, v);
      if k != [] {
        InsertCanonical(t.kids[k[0]], k[1..], v);
      }
      MoreUsed(t.kids, t.value, r.kids, r.value);
    } else if TwoItem(t) && (t.Ext? || k != t.key) {
      if t.Ext? && t.key <= k {
        InsertCanonical(t.child, k[|t.key|..], v);
      } else {
        var n := Shared(k, t.key);
        NotShared(t, k);
        InsertApart(Drop(t, n), k[n..], v);
        if n == 0 {
          assert k[0..] == k && t.key[0..] == t.key && Drop(t, 0) == t;
        }
      }
    }
  }

  // ------------------------------------------------------------------ Removal

  /** A key in front of a node: merged into a two-item node, an extension above a branch. */
  function Prefixed(p: Nibbles, t: Tree): Tree {
    match t
    case Nil => Nil
    case Leaf(k, v) => Leaf(p + k, v)
    case Ext(k, c) => Ext(p + k, c)
    case Branch(_, _) => Ext(p, t)
  }

  predicate NoneUsed(kids: seq<Tree>, value: Bytes, from: nat)
    requires |kids| == 16
  {
    forall i | from <= i <= 16 :: !Used(kids, value, i)
  }

  /** uniqueInUse from a slot on: the one slot in use, or 255 if there is none or more than one. */
  function UniqueInUse(kids: seq<Tree>, value: Bytes, from: nat): (u: nat)
    requires |kids| == 16 && from <= 17
    ensures u <= 16 || u == 255
    decreases 17 - from
  {
    if from == 17 then 255
    else if !Used(kids, value, from) then UniqueInUse(kids, value, from + 1)
    else if NoneUsed(kids, value, from + 1) then from
    else 255
  }

  lemma {:induction false} UniqueInUseIs(kids: seq<Tree>, value: Bytes, from: nat)
    requires |kids| == 16 && from <= 17
    ensures var u := UniqueInUse(kids, value, from);
            if u == 255 then NoneUsed(kids, value, from) || TwoUsed(kids, value)
            else from <= u <= 16 && Used(kids, value, u) && forall i | from <= i <= 16 && i != u :: !Used(kids, value, i)
    decreases 17 - from
  {
    if from < 17 {
      if !Used(kids, value, from) {
        UniqueInUseIs(kids, value, from + 1);
      } else if !NoneUsed(kids, value, from + 1) {
        var i :| from + 1 <= i <= 16 && Used(kids, value, i);
        Two(kids, value, from, i);
      }
    }
  }

  /** A branch, or what replaces it when only one slot is in use. */
  function Collapsed(kids: seq<Tree>, value: Bytes): Tree
    requires |kids| == 16
  {
    var u := UniqueInUse(kids, value, 0);
    if u == 255 then Branch(kids, value) else if u == 16 then Leaf([], value) else Prefixed([u], kids[u])
  }

  /** The tree without k, which must be stored. */
  function Deleted(t: Tree, k: Nibbles): Tree
    requires Formed(t) && Get(t, k) != []
    decreases t
  {
    match t
    case Leaf(_, _) => Nil
    case Ext(key, c) => Prefixed(key, Deleted(c, k[|key|..]))
    case Branch(kids, value) =>
      if k == [] then Collapsed(kids, []) else Collapsed(kids[k[0] := Deleted(kids[k[0]], k[1..])], value)
  }

  lemma {:induction false} GetPrefixed(p: Nibbles, t: Tree, q: Nibbles)
    requires Formed(t) && p != []
    ensures Formed(Prefixed(p, t))
    ensures Get(Prefixed(p, t), q) == if p <= q then Get(t, q[|p|..]) else []
  {
    if TwoItem(t) {
      assert (p + t.key)[|p|..] == t.key;
      if p <= q {
        assert q == p + q[|p|..];
        if t.Ext? && t.key <= q[|p|..] {
          assert q[|p|..][|t.key|..] == q[|p + t.key|..];
          assert p + t.key <= q;
        }
      }
    }
  }

  lemma PrefixedCanonical(p: Nibbles, t: Tree)
    requires Canonical(t) && p != []
    ensures Canonical(Prefixed(p, t))
  {
  }

  lemma {:induction false} GetCollapsed(kids: seq<Tree>, value: Bytes, q: Nibbles)
    requires Formed(Branch(kids, value))
    requires !NoneUsed(kids, value, 0)
    ensures Formed(Collapsed(kids, value))
    ensures Get(Collapsed(kids, value), q) == Get(Branch(kids, value), q)
  {
    UniqueInUseIs(kids, value, 0);
    var u := UniqueInUse(kids, value, 0);
    if u < 16 {
      GetPrefixed([u], kids[u], q);
      if q != [] {
        assert [u] <= q <==> q[0] == u;
        if q[0] != u {
          assert !Used(kids, value, q[0]);
        }
      } else {
        assert !Used(kids, value, 16);
      }
    } else if u == 16 && q != [] {
      assert !Used(kids, value, q[0]);
    }
  }

  lemma CollapsedCanonical(kids: seq<Tree>, value: Bytes)
    requires |kids| == 16 && (forall i | 0 <= i < 16 :: Canonical(kids[i])) && !NoneUsed(kids, value, 0)
    ensures Canonical(Collapsed(kids, value)) && Collapsed(kids, value) != Nil
  {
    UniqueInUseIs(kids, value, 0);
    var u := UniqueInUse(kids, value, 0);
    if u < 16 {
      PrefixedCanonical([u], kids[u]);
    }
  }

  /** Taking one slot away leaves another in use. */
  lemma StillUsed(kids: seq<Tree>, value: Bytes, kids': seq<Tree>, value': Bytes, gone: nat)
    requires |kids| == |kids'| == 16 && TwoUsed(kids, value)
    requires forall i | 0 <= i <= 16 && i != gone :: Used(kids, value, i) ==> Used(kids', value', i)
    ensures !NoneUsed(kids', value', 0)
  {
    var i, j :| 0 <= i < j <= 16 && Used(kids, value, i) && Used(kids, value, j);
    assert Used(kids', value', i) || Used(kids', value', j);
  }

  lemma DeletedBelow(key: Nibbles, c: Tree, c': Tree, k: Nibbles, q: Nibbles)
    requires Formed(c) && c != Nil && Formed(c') && Canonical(c') && key != [] && key <= k
    requires key <= q ==> Get(c', q[|key|..]) == if q[|key|..] == k[|key|..] then [] else Get(c, q[|key|..])
    ensures Canonical(Prefixed(key, c')) && Formed(Prefixed(key, c'))
    ensures Get(Prefixed(key, c'), q) == if q == k then [] else Get(Ext(key, c), q)
  {
    hide Prefixed;
    PrefixedCanonical(key, c');
    GetPrefixed(key, c', q);
    assert k == key + k[|key|..];
    if key <= q {
      assert q == key + q[|key|..];
    }
  }

  lemma DeletedKid(kids: seq<Tree>, value: Bytes, kid: Tree, k: Nibbles, q: Nibbles)
    requires Canonical(Branch(kids, value)) && Formed(Branch(kids, value)) && k != [] && Canonical(kid) && Formed(kid)
    requires q != [] && q[0] == k[0] ==> Get(kid, q[1..]) == if q[1..] == k[1..] then [] else Get(kids[k[0]], q[1..])
    ensures var r := Collapsed(kids[k[0] := kid], value);
            && Canonical(r) && Formed(r) && r != Nil
            && Get(r, q) == if q == k then [] else Get(Branch(kids, value), q)
  {
    hide Collapsed, TwoUsed, NoneUsed;
    var kids' := kids[k[0] := kid];
    StillUsed(kids, value, kids', value, k[0]);
    CollapsedCanonical(kids', value);
    GetCollapsed(kids', value, q);
    assert k == [k[0]] + k[1..];
    if q != [] {
      assert q == [q[0]] + q[1..];
    }
  }

  lemma DeletedValue(kids: seq<Tree>, value: Bytes, q: Nibbles)
    requires Canonical(Branch(kids, value)) && Formed(Branch(kids, value))
    ensures var r := Collapsed(kids, []);
            && Canonical(r) && Formed(r) && r != Nil
            && Get(r, q) == if q == [] then [] else Get(Branch(kids, value), q)
  {
    hide Collapsed, TwoUsed, NoneUsed;
    StillUsed(kids, value, kids, [], 16);
    CollapsedCanonical(kids, []);
    GetCollapsed(kids, [], q);
  }

  /** Removal clears its own key, changes no other, and restores the shape. */
  lemma {:induction false} GetDelete(t: Tree, k: Nibbles, q: Nibbles)
    requires Canonical(t) && Formed(t) && Get(t, k) != []
    ensures Canonical(Deleted(t, k)) && Formed(Deleted(t, k))
    ensures t.Branch? ==> Deleted(t, k) != Nil
    ensures Get(Deleted(t, k), q) == if q == k then [] else Get(t, q)
    decreases t
  {
    hide Prefixed, Collapsed, TwoUsed;
    match t
    case Leaf(_, _) =>
    case Ext(key, c) =>
      var rest := k[|key|..];
      GetDelete(c, rest, if key <= q then q[|key|..] else []);
      DeletedBelow(key, c, Deleted(c, rest), k, q);
    case Branch(kids, value) =>
      if k == [] {
        DeletedValue(kids, value, q);
      } else {
        GetDelete(kids[k[0]], k[1..], if q != [] then q[1..] else []);
        DeletedKid(kids, value, Deleted(kids[k[0]], k[1..]), k, q);
      }
  }
}
