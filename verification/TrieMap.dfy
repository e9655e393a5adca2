/** What it means for a tree to store a map from byte strings to byte strings, and that it is then the only one. */
module TrieMap {
  import opened CommonData
  import opened HexPrefix
  import opened Trie
  import opened TrieCanonical

  /** The tree answers every lookup as the map does, and holds no key of half a byte. */
  ghost predicate Stores(t: Tree, m: map<Bytes, Bytes>)
    requires Formed(t)
  {
    && (forall key: Bytes :: Get(t, Unpack(key)) == if key in m then m[key] else [])
    && (forall q: Nibbles :: |q| % 2 == 1 ==> Get(t, q) == [])
    && forall key <- m :: m[key] != []
  }

  lemma StoredAt(t: Tree, m: map<Bytes, Bytes>, key: Bytes)
    requires Formed(t) && Stores(t, m)
    ensures Get(t, Unpack(key)) == if key in m then m[key] else []
    ensures key in m ==> m[key] != []
  {
  }

  lemma StoresInsert(t: Tree, m: map<Bytes, Bytes>, key: Bytes, v: Bytes)
    requires Formed(t) && Stores(t, m) && v != []
    ensures Stores(Inserted(t, Unpack(key), v), m[key := v])
  {
    hide Inserted, Get, Unpack;
    var t', m' := Inserted(t, Unpack(key), v), m[key := v];
    forall other: Bytes ensures Get(t', Unpack(other)) == if other in m' then m'[other] else [] {
      GetInsert(t, Unpack(key), v, Unpack(other));
      if Unpack(other) == Unpack(key) {
        UnpackInjective(other, key);
      }
    }
    forall q: Nibbles | |q| % 2 == 1 ensures Get(t', q) == [] {
      GetInsert(t, Unpack(key), v, q);
    }
  }

  lemma StoresDelete(t: Tree, m: map<Bytes, Bytes>, key: Bytes)
    requires Canonical(t) && Formed(t) && Stores(t, m)
    ensures if Get(t, Unpack(key)) == [] then m - {key} == m
            else Formed(Deleted(t, Unpack(key))) && Stores(Deleted(t, Unpack(key)), m - {key})
  {
    hide *;
    var k := Unpack(key);
    StoredAt(t, m, key);
    if Get(t, k) != [] {
      GetDelete(t, k, k);
      forall q: Nibbles ensures Get(Deleted(t, k), q) == if q == k then [] else Get(t, q) {
        GetDelete(t, k, q);
      }
      StoresWithout(t, Deleted(t, k), m, key);
    }
  }

  lemma StoresWithout(t: Tree, t': Tree, m: map<Bytes, Bytes>, key: Bytes)
    requires Formed(t) && Formed(t') && Stores(t, m)
    requires forall q: Nibbles :: Get(t', q) == if q == Unpack(key) then [] else Get(t, q)
    ensures Stores(t', m - {key})
  {
    hide Get, Unpack, Formed;
    forall other: Bytes ensures Unpack(other) == Unpack(key) ==> other == key {
      if Unpack(other) == Unpack(key) {
        UnpackInjective(other, key);
      }
    }
  }

  /** Two canonical trees that store one map are one tree. */
  lemma SameMapSameTree(s: Tree, t: Tree, m: map<Bytes, Bytes>)
    requires Canonical(s) && Canonical(t) && Formed(s) && Formed(t) && Stores(s, m) && Stores(t, m)
    ensures s == t
  {
    hide Get, Pack, Unpack;
    forall q ensures Get(s, q) == Get(t, q) {
      if |q| % 2 == 0 {
        UnpackPack(q);
        StoredAt(s, m, Pack(q));
        StoredAt(t, m, Pack(q));
      }
    }
    Unique(s, t);
  }

  lemma StoresSame(t: Tree, m: map<Bytes, Bytes>, m': map<Bytes, Bytes>)
    requires Formed(t) && Stores(t, m) && Stores(t, m')
    ensures m == m'
  {
    hide Get;
    assert forall key :: key in m <==> Get(t, Unpack(key)) != [];
    assert forall key :: key in m' <==> Get(t, Unpack(key)) != [];
  }
}
