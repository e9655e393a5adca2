/** The entries of a tree in key order, and where a search for a key begins among them. */
module TrieEntries {
  import opened CommonData
  import opened HexPrefix
  import opened HexMap
  import opened Trie

  // ------------------------------------------------------------------ The order of keys below a common beginning

  lemma LessAt(p: Nibbles, a: Nibbles, b: Nibbles)
    requires p <= a && p <= b && |p| < |b| && (|a| == |p| || a[|p|] < b[|p|])
    ensures Less(a, b)
  {
    LessUnder(p, a[|p|..], b[|p|..]);
    assert p + a[|p|..] == a && p + b[|p|..] == b;
  }

  lemma LessAsym(a: Nibbles, b: Nibbles)
    requires Less(a, b)
    ensures !Less(b, a)
  {
    if Less(b, a) {
      LessTransitive(a, b, a);
      LessIrreflexive(a);
    }
  }

  lemma {:induction false} LessExtended(k: Nibbles, key: Nibbles, a: Nibbles)
    requires Less(k, key) && key <= a
    ensures Less(k, a)
  {
    if k != [] && k[0] == key[0] {
      LessExtended(k[1..], key[1..], a[1..]);
    }
  }

  lemma {:induction false} LessApart(k: Nibbles, key: Nibbles, a: Nibbles)
    requires !(key <= k) && !Less(k, key) && key <= a
    ensures Less(a, k)
  {
    if k != [] && k[0] == key[0] {
      LessApart(k[1..], key[1..], a[1..]);
    }
  }

  // ------------------------------------------------------------------ Entries in order

  function ValueEntry(value: Bytes, p: Nibbles): seq<Pair> {
    if value == [] then [] else [Pair(p, value)]
  }

  predicate AllFormed(kids: seq<Tree>) {
    |kids| == 16 && forall i | 0 <= i < 16 :: Formed(kids[i])
  }

  /** Below the path p: a branch's own value first, then slot by slot. */
  function Entries(t: Tree, p: Nibbles): seq<Pair>
    requires Formed(t)
    decreases t, 0
  {
    match t
    case Nil => []
    case Leaf(k, v) => [Pair(p + k, v)]
    case Ext(k, c) => Entries(c, p + k)
    case Branch(kids, v) => ValueEntry(v, p) + EntriesFrom(kids, p, 0)
  }

  function EntriesFrom(kids: seq<Tree>, p: Nibbles, i: nat): seq<Pair>
    requires AllFormed(kids) && i <= 16
    decreases kids, 16 - i
  {
    if i == 16 then [] else Entries(kids[i], p + [i]) + EntriesFrom(kids, p, i + 1)
  }

  /** Keys begin with p and values are there. */
  predicate LieUnder(e: seq<Pair>, p: Nibbles) {
    forall i | 0 <= i < |e| :: p <= e[i].key && e[i].value != []
  }

  /** Keys go on after p with nibble i or a later one. */
  predicate FromSlot(e: seq<Pair>, p: Nibbles, i: nat) {
    forall j | 0 <= j < |e| :: p <= e[j].key && |p| < |e[j].key| && i <= e[j].key[|p|] && e[j].value != []
  }

  lemma BelowSlot(e: seq<Pair>, p: Nibbles, i: Nibble)
    requires LieUnder(e, p + [i])
    ensures FromSlot(e, p, i)
    ensures forall j | 0 <= j < |e| :: p <= e[j].key && |p| < |e[j].key| && e[j].key[|p|] == i
  {
    forall j | 0 <= j < |e| ensures p <= e[j].key && |p| < |e[j].key| && e[j].key[|p|] == i {
      assert e[j].key[..|p| + 1] == p + [i];
      assert e[j].key[..|p|] == e[j].key[..|p| + 1][..|p|] == p;
    }
  }

  lemma {:induction false} EntriesBelow(t: Tree, p: Nibbles)
    requires Formed(t)
    ensures LieUnder(Entries(t, p), p)
    decreases t, 0
  {
    if t.Ext? {
      EntriesBelow(t.child, p + t.key);
      forall i | 0 <= i < |Entries(t, p)| ensures p <= Entries(t, p)[i].key {
        assert p <= p + t.key;
      }
    } else if t.Branch? {
      EntriesFromSlot(t.kids, p, 0);
    }
  }

  lemma {:induction false} EntriesFromSlot(kids: seq<Tree>, p: Nibbles, i: nat)
    requires AllFormed(kids) && i <= 16
    ensures FromSlot(EntriesFrom(kids, p, i), p, i)
    decreases kids, 16 - i
  {
    if i < 16 {
      EntriesBelow(kids[i], p + [i]);
      hide Entries;
      BelowSlot(Entries(kids[i], p + [i]), p, i);
      EntriesFromSlot(kids, p, i + 1);
    }
  }

  lemma SortedBoth(a: seq<Pair>, b: seq<Pair>)
    requires Sorted(a) && Sorted(b) && forall i, j | 0 <= i < |a| && 0 <= j < |b| :: Less(a[i].key, b[j].key)
    ensures Sorted(a + b)
  {
    hide Less;
  }

  /** What lies in slot i comes before what lies in later slots. */
  lemma SlotBeforeSlots(a: seq<Pair>, b: seq<Pair>, p: Nibbles, i: Nibble)
    requires LieUnder(a, p + [i]) && FromSlot(b, p, i + 1)
    ensures forall j, k | 0 <= j < |a| && 0 <= k < |b| :: Less(a[j].key, b[k].key)
  {
    BelowSlot(a, p, i);
    forall j, k | 0 <= j < |a| && 0 <= k < |b| ensures Less(a[j].key, b[k].key) {
      LessAt(p, a[j].key, b[k].key);
    }
  }

  /** A walk in order meets the keys in strictly ascending order. */
  lemma {:induction false} EntriesSorted(t: Tree, p: Nibbles)
    requires Formed(t)
    ensures Sorted(Entries(t, p))
    decreases t, 0
  {
    hide Less;
    if t.Ext? {
      EntriesSorted(t.child, p + t.key);
    } else if t.Branch? {
      EntriesFromSorted(t.kids, p, 0);
      EntriesFromSlot(t.kids, p, 0);
      hide EntriesFrom;
      var a, b := ValueEntry(t.value, p), EntriesFrom(t.kids, p, 0);
      forall i, j | 0 <= i < |a| && 0 <= j < |b| ensures Less(a[i].key, b[j].key) {
        LessAt(p, a[i].key, b[j].key);
      }
      SortedBoth(a, b);
    }
  }

  lemma {:induction false} EntriesFromSorted(kids: seq<Tree>, p: Nibbles, i: nat)
    requires AllFormed(kids) && i <= 16
    ensures Sorted(EntriesFrom(kids, p, i))
    decreases kids, 16 - i
  {
    hide Less, Entries;
    if i < 16 {
      EntriesSorted(kids[i], p + [i]);
      EntriesFromSorted(kids, p, i + 1);
      EntriesBelow(kids[i], p + [i]);
      EntriesFromSlot(kids, p, i + 1);
      SlotBeforeSlots(Entries(kids[i], p + [i]), EntriesFrom(kids, p, i + 1), p, i);
      SortedBoth(Entries(kids[i], p + [i]), EntriesFrom(kids, p, i + 1));
    }
  }

  // ------------------------------------------------------------------ The entries are what the tree stores

  lemma {:induction false} FindSecond(a: seq<Pair>, b: seq<Pair>, k: Nibbles)
    requires forall i | 0 <= i < |a| :: a[i].key != k
    ensures Find(a + b, k) == Find(b, k)
  {
    if a == [] {
      assert a + b == b;
    } else {
      FindSecond(a[1..], b, k);
      assert (a + b)[1..] == a[1..] + b;
    }
  }

  lemma {:induction false} FindFirst(a: seq<Pair>, b: seq<Pair>, k: Nibbles)
    requires forall i | 0 <= i < |b| :: b[i].key != k
    ensures Find(a + b, k) == Find(a, k)
  {
    if a == [] {
      assert a + b == b;
      FindNone(b, k);
    } else {
      FindFirst(a[1..], b, k);
      assert (a + b)[1..] == a[1..] + b;
    }
  }

  /** Looking among the entries is looking in the tree. */
  lemma {:induction false} EntriesFind(t: Tree, p: Nibbles, q: Nibbles)
    requires Formed(t)
    ensures Find(Entries(t, p), p + q) == Get(t, q)
    decreases t, 0
  {
    match t
    case Nil =>
    case Leaf(k, v) =>
      assert p + k == p + q ==> k == q by { assert (p + k)[|p|..] == k && (p + q)[|p|..] == q; }
      assert [Pair(p + k, v)][1..] == [];
    case Ext(k, c) =>
      if k <= q {
        EntriesFind(c, p + k, q[|k|..]);
        assert p + k + q[|k|..] == p + q;
      } else {
        EntriesBelow(c, p + k);
        hide Entries;
        var e := Entries(c, p + k);
        forall i | 0 <= i < |e| ensures e[i].key != p + q {
          NotBelow(p, k, q, e[i].key);
        }
        FindNone(e, p + q);
      }
    case Branch(kids, v) =>
      EntriesFindBranch(kids, v, p, q);
  }

  lemma {:induction false} EntriesFindBranch(kids: seq<Tree>, v: Bytes, p: Nibbles, q: Nibbles)
    requires AllFormed(kids)
    ensures Find(ValueEntry(v, p) + EntriesFrom(kids, p, 0), p + q) == if q == [] then v else Get(kids[q[0]], q[1..])
    decreases kids, 17
  {
    var a := ValueEntry(v, p);
    var b := EntriesFrom(kids, p, 0);
    EntriesFromSlot(kids, p, 0);
    if q == [] {
      assert p + q == p;
      FindFirst(a, b, p);
      assert v != [] ==> a[1..] == [];
    } else {
      EntriesFromFind(kids, p, 0, q);
      FindSecond(a, b, p + q);
    }
  }

  lemma {:induction false} EntriesFromFind(kids: seq<Tree>, p: Nibbles, i: nat, q: Nibbles)
    requires AllFormed(kids) && i <= 16 && q != []
    ensures Find(EntriesFrom(kids, p, i), p + q) == if i <= q[0] then Get(kids[q[0]], q[1..]) else []
    decreases kids, 16 - i
  {
    hide Entries, Get;
    if i < 16 {
      var a, b := Entries(kids[i], p + [i]), EntriesFrom(kids, p, i + 1);
      EntriesBelow(kids[i], p + [i]);
      BelowSlot(a, p, i);
      EntriesFromSlot(kids, p, i + 1);
      assert (p + q)[|p|] == q[0];
      if q[0] == i {
        EntriesFind(kids[i], p + [i], q[1..]);
        assert p + [i] + q[1..] == p + q;
        FindFirst(a, b, p + q);
      } else {
        EntriesFromFind(kids, p, i + 1, q);
        FindSecond(a, b, p + q);
      }
    }
  }

  // ------------------------------------------------------------------ Seeking

  /** The entries from the first whose key does not lie before k. */
  function SkipTo(e: seq<Pair>, k: Nibbles): seq<Pair> {
    if e != [] && Less(e[0].key, k) then SkipTo(e[1..], k) else e
  }

  /** On sorted entries exactly those before k are skipped. */
  lemma {:induction false} SkipToIs(e: seq<Pair>, k: Nibbles)
    requires Sorted(e)
    ensures var n := |e| - |SkipTo(e, k)|;
            && 0 <= n && SkipTo(e, k) == e[n..]
            && (forall i | 0 <= i < n :: Less(e[i].key, k))
            && (forall i | n <= i < |e| :: !Less(e[i].key, k))
  {
    hide Less;
    if e != [] && Less(e[0].key, k) {
      SkipToIs(e[1..], k);
    } else {
      assert e[0..] == e;
      forall i | 0 <= i < |e| ensures !Less(e[i].key, k) {
        if i > 0 && Less(e[i].key, k) {
          LessTransitive(e[0].key, e[i].key, k);
        }
      }
    }
  }

  lemma {:induction false} SkipAll(a: seq<Pair>, b: seq<Pair>, k: Nibbles)
    requires forall i | 0 <= i < |a| :: Less(a[i].key, k)
    ensures SkipTo(a + b, k) == SkipTo(b, k)
  {
    hide Less;
    if a == [] {
      assert a + b == b;
    } else {
      SkipAll(a[1..], b, k);
      assert (a + b)[1..] == a[1..] + b;
    }
  }

  lemma {:induction false} SkipFirst(a: seq<Pair>, b: seq<Pair>, k: Nibbles)
    requires b == [] || !Less(b[0].key, k)
    ensures SkipTo(a + b, k) == SkipTo(a, k) + b
  {
    hide Less;
    if a == [] {
      assert a + b == b;
    } else if Less(a[0].key, k) {
      SkipFirst(a[1..], b, k);
      assert (a + b)[1..] == a[1..] + b;
    }
  }

  lemma SkipNone(a: seq<Pair>, k: Nibbles)
    requires a == [] || !Less(a[0].key, k)
    ensures SkipTo(a, k) == a
  {
  }

  /** Everything below the sought key itself is kept. */
  lemma SkipAtKey(t: Tree, p: Nibbles)
    requires Formed(t)
    ensures SkipTo(Entries(t, p), p) == Entries(t, p)
  {
    EntriesBelow(t, p);
    hide Less, Entries;
    var e := Entries(t, p);
    if e != [] {
      NotBefore(p, e[0].key);
    }
  }

  /** Below the path p + key, while looking for p + k: skip all, keep all, or go on looking for the rest of k. */
  lemma SkipBelow(e: seq<Pair>, p: Nibbles, key: Nibbles, k: Nibbles)
    requires LieUnder(e, p + key)
    ensures !(key <= k) && Less(k, key) ==> SkipTo(e, p + k) == e
    ensures !(key <= k) && !Less(k, key) ==> SkipTo(e, p + k) == []
  {
    hide Less;
    assert forall i | 0 <= i < |e| :: p + key <= e[i].key;
    if !(key <= k) {
      forall i | 0 <= i < |e|
        ensures Less(k, key) ==> !Less(e[i].key, p + k)
        ensures !Less(k, key) ==> Less(e[i].key, p + k)
      {
        var a := e[i].key[|p|..];
        assert e[i].key == p + a && key <= a;
        LessUnder(p, a, k);
        if Less(k, key) {
          LessExtended(k, key, a);
          LessAsym(k, a);
        } else {
          LessApart(k, key, a);
        }
      }
      if Less(k, key) {
        SkipNone(e, p + k);
      } else {
        SkipAll(e, [], p + k);
        assert e + [] == e;
      }
    }
  }

  /** In a branch the search goes on in one slot: nothing before it is kept, everything after it is. */
  lemma SkipBranch(kids: seq<Tree>, v: Bytes, p: Nibbles, k: Nibbles)
    requires AllFormed(kids) && k != []
    ensures SkipTo(ValueEntry(v, p) + EntriesFrom(kids, p, 0), p + k)
         == SkipTo(Entries(kids[k[0]], p + [k[0]]), p + k) + EntriesFrom(kids, p, k[0] as int + 1)
  {
    hide Less;
    var a := ValueEntry(v, p);
    forall i | 0 <= i < |a| ensures Less(a[i].key, p + k) {
      LessAt(p, a[i].key, p + k);
    }
    SkipAll(a, EntriesFrom(kids, p, 0), p + k);
    SkipSlots(kids, p, 0, k);
  }

  lemma {:induction false} SkipSlots(kids: seq<Tree>, p: Nibbles, i: nat, k: Nibbles)
    requires AllFormed(kids) && k != [] && i <= k[0]
    ensures SkipTo(EntriesFrom(kids, p, i), p + k)
         == SkipTo(Entries(kids[k[0]], p + [k[0]]), p + k) + EntriesFrom(kids, p, k[0] as int + 1)
    decreases 16 - i
  {
    hide Less, Entries;
    var a, b := Entries(kids[i], p + [i]), EntriesFrom(kids, p, i + 1);
    EntriesBelow(kids[i], p + [i]);
    BelowSlot(a, p, i);
    assert (p + k)[|p|] == k[0];
    if i < k[0] {
      forall j | 0 <= j < |a| ensures Less(a[j].key, p + k) {
        LessAt(p, a[j].key, p + k);
      }
      SkipAll(a, b, p + k);
      SkipSlots(kids, p, i + 1, k);
    } else {
      EntriesFromSlot(kids, p, i + 1);
      if b != [] {
        LessAt(p, p + k, b[0].key);
        LessAsym(p + k, b[0].key);
      }
      SkipFirst(a, b, p + k);
    }
  }
}
