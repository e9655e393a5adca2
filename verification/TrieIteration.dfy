/** What a caller sees of iteration: every stored pair once, in ascending key order, from any key on. */
module TrieIteration {
  import opened CommonData
  import opened HexPrefix
  import opened HexMap
  import opened Trie
  import opened TrieMap
  import opened TrieEntries
  import opened TrieDB
  import opened TrieIterator

  // ------------------------------------------------------------------ The order of byte strings

  /** Lexicographic order on byte strings. */
  predicate BytesLess(a: Bytes, b: Bytes) {
    b != [] && (a == [] || a[0] < b[0] || (a[0] == b[0] && BytesLess(a[1..], b[1..])))
  }

  /** The first byte in which they differ decides, and where there is none the shorter one comes first. */
  lemma {:induction false} BytesLessAt(a: Bytes, b: Bytes, n: nat)
    requires n <= |a| && n <= |b| && a[..n] == b[..n] && (n < |a| && n < |b| ==> a[n] != b[n])
    ensures BytesLess(a, b) <==> n < |b| && (n == |a| || a[n] < b[n])
  {
    if n > 0 {
      assert a[0] == a[..n][0] == b[..n][0] == b[0];
      assert a[1..][..n - 1] == a[..n][1..] && b[1..][..n - 1] == b[..n][1..];
      BytesLessAt(a[1..], b[1..], n - 1);
    }
  }

  /** Nibbles are ordered as the bytes they come from. */
  lemma {:induction false} LessUnpack(a: Bytes, b: Bytes)
    ensures Less(Unpack(a), Unpack(b)) <==> BytesLess(a, b)
  {
    if a != [] && b != [] {
      var x, y := Unpack(a), Unpack(b);
      assert x[1..][1..] == Unpack(a[1..]) && y[1..][1..] == Unpack(b[1..]);
      LessUnpack(a[1..], b[1..]);
    }
  }

  // ------------------------------------------------------------------ Entries and contents

  lemma {:induction false} FindSome(e: seq<Pair>, k: Nibbles) returns (i: nat)
    requires Find(e, k) != []
    ensures i < |e| && e[i].key == k
  {
    if e[0].key == k {
      i := 0;
    } else {
      i := FindSome(e[1..], k);
      i := i + 1;
    }
  }

  /** The entry stands for a pair of the map. */
  ghost predicate PairOf(x: Pair, m: map<Bytes, Bytes>) {
    |x.key| % 2 == 0 && Pack(x.key) in m && m[Pack(x.key)] == x.value && Unpack(Pack(x.key)) == x.key
  }

  lemma EntryStored(t: Tree, m: map<Bytes, Bytes>, i: nat)
    requires Formed(t) && Stores(t, m) && i < |Entries(t, [])|
    ensures PairOf(Entries(t, [])[i], m)
  {
    var x := Entries(t, [])[i];
    EntriesSorted(t, []);
    EntriesBelow(t, []);
    EntriesFind(t, [], x.key);
    hide Entries, Get, Find, Sorted, Unpack, Pack;
    FindAt(Entries(t, []), i);
    assert [] + x.key == x.key;
    assert |x.key| % 2 == 0;
    UnpackPack(x.key);
    StoredAt(t, m, Pack(x.key));
  }

  lemma StoredEntry(t: Tree, m: map<Bytes, Bytes>, key: Bytes) returns (i: nat)
    requires Formed(t) && Stores(t, m) && key in m
    ensures i < |Entries(t, [])| && Entries(t, [])[i].key == Unpack(key)
  {
    hide Entries, Get, Find, Unpack, Pack;
    StoredAt(t, m, key);
    EntriesFind(t, [], Unpack(key));
    assert [] + Unpack(key) == Unpack(key);
    i := FindSome(Entries(t, []), Unpack(key));
  }

  function AsEntries(pairs: seq<(Bytes, Bytes)>): (e: seq<Pair>)
    ensures |e| == |pairs| && forall i | 0 <= i < |pairs| :: e[i] == Pair(Unpack(pairs[i].0), pairs[i].1)
  {
    if pairs == [] then [] else AsEntries(pairs[..|pairs| - 1]) + [Pair(Unpack(pairs[|pairs| - 1].0), pairs[|pairs| - 1].1)]
  }

  /** In ascending order, each key once, with just the pairs of the map. */
  ghost predicate ListsInOrder(pairs: seq<(Bytes, Bytes)>, m: map<Bytes, Bytes>) {
    && (forall i, j | 0 <= i < j < |pairs| :: BytesLess(pairs[i].0, pairs[j].0))
    && (forall i | 0 <= i < |pairs| :: pairs[i].0 in m && m[pairs[i].0] == pairs[i].1)
    && forall key <- m :: exists i :: 0 <= i < |pairs| && pairs[i].0 == key
  }

  lemma ListedInOrder(t: Tree, m: map<Bytes, Bytes>, pairs: seq<(Bytes, Bytes)>)
    requires Formed(t) && Stores(t, m) && AsEntries(pairs) == Entries(t, [])
    ensures ListsInOrder(pairs, m)
  {
    hide Entries, Less, Unpack, Pack, Stores, BytesLess, AsEntries;
    EntriesSorted(t, []);
    var e := Entries(t, []);
    forall i, j | 0 <= i < j < |pairs| ensures BytesLess(pairs[i].0, pairs[j].0) {
      assert Less(e[i].key, e[j].key);
      LessUnpack(pairs[i].0, pairs[j].0);
    }
    forall i | 0 <= i < |pairs| ensures pairs[i].0 in m && m[pairs[i].0] == pairs[i].1 {
      EntryStored(t, m, i);
      UnpackInjective(Pack(e[i].key), pairs[i].0);
    }
    forall key <- m ensures exists i :: 0 <= i < |pairs| && pairs[i].0 == key {
      var i := StoredEntry(t, m, key);
      UnpackInjective(pairs[i].0, key);
    }
  }

  // ------------------------------------------------------------------ Whole walks

  lemma PositionedParts(it: Iterator, e: seq<Pair>)
    requires it.Valid() && Positioned(it.places, e)
    ensures it.m_trail == [] <==> e == []
    ensures AllProper(it.places) && |it.places| == |it.m_trail|
    ensures e != [] ==> Current(it.places[|it.m_trail| - 1]) == Some(e[0]) && Rest(it.places) == e[1..]
  {
    it.ValidParts();
  }

  /** From begin to end. */
  method Iterate(db: GenericTrieDB) returns (pairs: seq<(Bytes, Bytes)>)
    requires db.Valid()
    ensures ListsInOrder(pairs, db.contents)
  {
    hide *;
    db.RootFacts(db.tree);
    ghost var e := Entries(db.tree, []);
    var it := new Iterator.Begin(db);
    pairs := [];
    NoneListed(e);
    while it.m_trail != []
      invariant fresh(it) && it.m_that == db && it.Valid()
      invariant |pairs| <= |e| && AsEntries(pairs) == e[..|pairs|] && Positioned(it.places, e[|pairs|..])
      decreases |e| - |pairs|
    {
      PositionedParts(it, e[|pairs|..]);
      EntryStored(db.tree, db.contents, |pairs|);
      PairOfParts(e[|pairs|], db.contents);
      var key, value := it.At();
      OneListed(pairs, (key, value), e);
      it.Next();
      pairs := pairs + [(key, value)];
    }
    PositionedParts(it, e[|pairs|..]);
    assert e[..|pairs|] == e;
    ListedInOrder(db.tree, db.contents, pairs);
  }

  lemma NoneListed(e: seq<Pair>)
    ensures AsEntries([]) == e[..0] && e[0..] == e
  {
  }

  lemma OneListed(pairs: seq<(Bytes, Bytes)>, x: (Bytes, Bytes), e: seq<Pair>)
    requires |pairs| < |e| && AsEntries(pairs) == e[..|pairs|] && Pair(Unpack(x.0), x.1) == e[|pairs|]
    ensures AsEntries(pairs + [x]) == e[..|pairs| + 1] && e[|pairs|..][1..] == e[|pairs| + 1..]
  {
    hide *;
    EntriesSnoc(pairs, x);
    OneTaken(e, |pairs|);
  }

  lemma EntriesSnoc(pairs: seq<(Bytes, Bytes)>, x: (Bytes, Bytes))
    ensures AsEntries(pairs + [x]) == AsEntries(pairs) + [Pair(Unpack(x.0), x.1)]
  {
    hide Unpack;
    assert (pairs + [x])[..|pairs|] == pairs;
  }

  lemma OneTaken(e: seq<Pair>, n: nat)
    requires n < |e|
    ensures e[..n + 1] == e[..n] + [e[n]] && e[n..][1..] == e[n + 1..]
  {
  }

  lemma PairOfParts(x: Pair, m: map<Bytes, Bytes>)
    requires PairOf(x, m)
    ensures |x.key| % 2 == 0
  {
  }

  /** lower_bound stops at the least stored key that does not lie before the given one, or at the end if there is none. */
  method Seek(db: GenericTrieDB, key: Bytes) returns (r: Option<(Bytes, Bytes)>)
    requires db.Valid()
    ensures r == None ==> forall k <- db.contents :: BytesLess(k, key)
    ensures r.Some? ==> r.value.0 in db.contents && db.contents[r.value.0] == r.value.1 && !BytesLess(r.value.0, key)
    ensures r.Some? ==> forall k <- db.contents :: BytesLess(k, key) || k == r.value.0 || BytesLess(r.value.0, k)
  {
    hide *;
    db.RootFacts(db.tree);
    ghost var e := Entries(db.tree, []);
    EntriesSorted(db.tree, []);
    ghost var i := |e| - |SkipTo(e, Unpack(key))|;
    SkipToIs(e, Unpack(key));
    var it := new Iterator.LowerBound(db, key);
    PositionedParts(it, e[i..]);
    if it.m_trail == [] {
      NoneAtOrAfter(db.tree, db.contents, key);
      return None;
    }
    EntryStored(db.tree, db.contents, i);
    PairOfParts(e[i], db.contents);
    var found, value := it.At();
    LeastAtOrAfter(db.tree, db.contents, key, i, found, value);
    return Some((found, value));
  }

  lemma NoneAtOrAfter(t: Tree, m: map<Bytes, Bytes>, key: Bytes)
    requires Formed(t) && Stores(t, m) && forall j | 0 <= j < |Entries(t, [])| :: Less(Entries(t, [])[j].key, Unpack(key))
    ensures forall k <- m :: BytesLess(k, key)
  {
    hide Entries, Less, Unpack, BytesLess, Stores;
    forall k <- m ensures BytesLess(k, key) {
      var j := StoredEntry(t, m, k);
      LessUnpack(k, key);
    }
  }

  lemma LeastAtOrAfter(t: Tree, m: map<Bytes, Bytes>, key: Bytes, i: nat, found: Bytes, value: Bytes)
    requires Formed(t) && Stores(t, m) && i < |Entries(t, [])| && Sorted(Entries(t, []))
    requires Entries(t, [])[i] == Pair(Unpack(found), value)
    requires forall j | 0 <= j < i :: Less(Entries(t, [])[j].key, Unpack(key))
    requires forall j | i <= j < |Entries(t, [])| :: !Less(Entries(t, [])[j].key, Unpack(key))
    ensures found in m && m[found] == value && !BytesLess(found, key)
    ensures forall k <- m :: BytesLess(k, key) || k == found || BytesLess(found, k)
  {
    hide Entries, Less, Unpack, Pack, BytesLess, Stores;
    var e := Entries(t, []);
    EntryStored(t, m, i);
    UnpackInjective(Pack(e[i].key), found);
    LessUnpack(found, key);
    forall k <- m ensures BytesLess(k, key) || k == found || BytesLess(found, k) {
      var j := StoredEntry(t, m, k);
      LessUnpack(k, key);
      LessUnpack(found, k);
      if j == i {
        UnpackInjective(k, found);
      }
    }
  }
}
