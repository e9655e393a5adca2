/** A canonical tree is determined by what it stores, so a root depends on contents and not on history. */
module TrieCanonical {
  import opened CommonData
  import opened HexPrefix
  import opened Trie

  lemma {:induction false} SomeKey(t: Tree) returns (q: Nibbles)
    requires Canonical(t) && t != Nil
    ensures Formed(t) && Get(t, q) != []
  {
    CanonicalFormed(t);
    match t
    case Leaf(key, _) => q := key;
    case Ext(key, c) =>
      var q' := SomeKey(c);
      q := key + q';
      assert q[|key|..] == q';
    case Branch(kids, value) =>
      var i, j :| 0 <= i < j <= 16 && Used(kids, value, i) && Used(kids, value, j);
      q := SomeKeyIn(kids, value, i);
  }

  lemma {:induction false} SomeKeyIn(kids: seq<Tree>, value: Bytes, i: nat) returns (q: Nibbles)
    requires Canonical(Branch(kids, value)) && i <= 16 && Used(kids, value, i)
    ensures Formed(Branch(kids, value)) && Get(Branch(kids, value), q) != []
    ensures if i < 16 then q != [] && q[0] == i else q == []
    decreases kids
  {
    CanonicalFormed(Branch(kids, value));
    if i == 16 {
      q := [];
    } else {
      var q' := SomeKey(kids[i]);
      q := [i] + q';
      assert q[1..] == q';
    }
  }

  /** Two keys share nothing at their beginning, and the first is not empty. */
  predicate Apart(q1: Nibbles, q2: Nibbles) {
    q1 != [] && (q2 == [] || q1[0] != q2[0])
  }

  lemma TwoKeys(t: Tree) returns (q1: Nibbles, q2: Nibbles)
    requires Canonical(t) && t.Branch?
    ensures Formed(t) && Get(t, q1) != [] && Get(t, q2) != [] && Apart(q1, q2)
  {
    CanonicalFormed(t);
    var i, j :| 0 <= i < j <= 16 && Used(t.kids, t.value, i) && Used(t.kids, t.value, j);
    q1 := SomeKeyIn(t.kids, t.value, i);
    q2 := SomeKeyIn(t.kids, t.value, j);
  }

  ghost predicate SameContents(s: Tree, t: Tree)
    requires Formed(s) && Formed(t)
  {
    forall q :: Get(s, q) == Get(t, q)
  }

  /** The keys of an extension above a branch reach past its own key in two directions. */
  lemma ExtKeys(t: Tree) returns (q1: Nibbles, q2: Nibbles)
    requires Canonical(t) && t.Ext?
    ensures Formed(t) && Apart(q1, q2)
    ensures Get(t, t.key + q1) != [] && Get(t, t.key + q2) != []
  {
    CanonicalFormed(t);
    q1, q2 := TwoKeys(t.child);
    assert (t.key + q1)[|t.key|..] == q1 && (t.key + q2)[|t.key|..] == q2;
  }

  function Kind(t: Tree): nat {
    if t.Nil? then 0 else if t.Leaf? then 1 else if t.Ext? then 2 else 3
  }

  /** Canonical trees of different kinds differ at some key. */
  lemma KindsDiffer(s: Tree, t: Tree) returns (q: Nibbles)
    requires Canonical(s) && Canonical(t) && Formed(s) && Formed(t) && Kind(s) < Kind(t)
    ensures Get(s, q) != Get(t, q)
  {
    if s.Nil? {
      q := SomeKey(t);
    } else if t.Ext? {
      var q1, q2 := ExtKeys(t);
      assert (t.key + q1)[|t.key|..] == q1 && (t.key + q2)[|t.key|..] == q2;
      q := t.key + if s.key == t.key + q1 then q2 else q1;
    } else {
      var q1, q2 := TwoKeys(t);
      q := if (if s.Leaf? then s.key == q1 else s.key <= q1) then q2 else q1;
    }
  }

  lemma PrefixesOf(p: Nibbles, k: Nibbles, a: Nibbles)
    requires p <= a && k <= a
    ensures |p| <= |k| ==> p <= k
  {
  }

  /** Extensions whose keys are not in the one order differ at some key. */
  lemma ExtKeysDiffer(s: Tree, t: Tree) returns (q: Nibbles)
    requires Canonical(s) && Canonical(t) && Formed(s) && Formed(t)
    requires s.Ext? && t.Ext? && !(t.key <= s.key)
    ensures Get(s, q) != Get(t, q)
  {
    var q1, q2 := ExtKeys(s);
    var a, b := s.key + q1, s.key + q2;
    if t.key <= a {
      assert a[..|s.key|] == s.key && a[|s.key|] == q1[0];
      PrefixesOf(t.key, s.key, a);
      assert t.key[|s.key|] == q1[0];
      q := b;
    } else {
      q := a;
    }
  }

  lemma ChildContents(s: Tree, t: Tree)
    requires Formed(s) && Formed(t) && s.Ext? && t.Ext? && s.key == t.key && SameContents(s, t)
    ensures SameContents(s.child, t.child)
  {
    forall q ensures Get(s.child, q) == Get(t.child, q) {
      var k := s.key + q;
      assert k[|s.key|..] == q;
      assert Get(s, k) == Get(t, k);
    }
  }

  lemma KidContents(s: Tree, t: Tree, i: Nibble)
    requires Formed(s) && Formed(t) && s.Branch? && t.Branch? && SameContents(s, t)
    ensures SameContents(s.kids[i], t.kids[i])
  {
    forall q ensures Get(s.kids[i], q) == Get(t.kids[i], q) {
      var k := [i] + q;
      assert k != [] && k[0] == i && k[1..] == q;
      assert Get(s, k) == Get(s.kids[i], q);
      assert Get(t, k) == Get(t.kids[i], q);
    }
  }

  /** Two canonical trees that store the same are the same. */
  lemma {:induction false} Unique(s: Tree, t: Tree)
    requires Canonical(s) && Canonical(t) && Formed(s) && Formed(t) && SameContents(s, t)
    ensures s == t
    decreases s
  {
    assert Kind(s) == Kind(t) by {
      if Kind(s) < Kind(t) {
        var q := KindsDiffer(s, t);
        assert false;
      } else if Kind(t) < Kind(s) {
        var q := KindsDiffer(t, s);
        assert false;
      }
    }
    if s.Leaf? {
      assert Get(s, s.key) == Get(t, s.key);
    } else if s.Ext? {
      assert t.key <= s.key && s.key <= t.key by {
        if !(t.key <= s.key) {
          var q := ExtKeysDiffer(s, t);
          assert false;
        } else if !(s.key <= t.key) {
          var q := ExtKeysDiffer(t, s);
          assert false;
        }
      }
      assert s.key == t.key;
      ChildContents(s, t);
      Unique(s.child, t.child);
    } else if s.Branch? {
      assert Get(s, []) == Get(t, []);
      forall i | 0 <= i < 16 ensures s.kids[i] == t.kids[i] {
        KidContents(s, t, i);
        Unique(s.kids[i], t.kids[i]);
      }
      assert s.kids == t.kids;
    }
  }
}
