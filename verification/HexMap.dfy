/** Entries sorted by key: what a std::map from nibble strings holds, in the order it iterates. */
module HexMap {
  import opened CommonData
  import opened HexPrefix

  datatype Pair = Pair(key: Nibbles, value: Bytes)

  // ------------------------------------------------------------------ The order of keys

  lemma {:induction false} LessIrreflexive(a: Nibbles)
    ensures !Less(a, a)
  {
    if a != [] {
      LessIrreflexive(a[1..]);
    }
  }

  lemma {:induction false} LessTransitive(a: Nibbles, b: Nibbles, c: Nibbles)
    requires Less(a, b) && Less(b, c)
    ensures Less(a, c)
  {
    if a != [] && a[0] == b[0] == c[0] {
      LessTransitive(a[1..], b[1..], c[1..]);
    }
  }

  lemma {:induction false} LessTotal(a: Nibbles, b: Nibbles)
    ensures a == b || Less(a, b) || Less(b, a)
  {
    if a != [] && b != [] && a[0] == b[0] {
      LessTotal(a[1..], b[1..]);
      assert a == [a[0]] + a[1..] && b == [b[0]] + b[1..];
    }
  }

  lemma {:induction false} LessUnder(p: Nibbles, a: Nibbles, b: Nibbles)
    ensures Less(p + a, p + b) <==> Less(a, b)
  {
    if p == [] {
      assert p + a == a && p + b == b;
    } else {
      LessUnder(p[1..], a, b);
      assert (p + a)[1..] == p[1..] + a && (p + b)[1..] == p[1..] + b;
    }
  }

  lemma NotBelow(p: Nibbles, k: Nibbles, q: Nibbles, key: Nibbles)
    requires p + k <= key && !(k <= q)
    ensures key != p + q
  {
    assert (p + q)[|p|..] == q;
    assert key[|p|..][..|k|] == k;
  }

  lemma NotBefore(p: Nibbles, a: Nibbles)
    requires p <= a
    ensures !Less(a, p)
  {
    LessUnder(p, a[|p|..], []);
    assert p + a[|p|..] == a && p + [] == p;
  }

  // ------------------------------------------------------------------ Sorted entries

  predicate Sorted(e: seq<Pair>) {
    forall i, j | 0 <= i < j < |e| :: Less(e[i].key, e[j].key)
  }

  /** The value under a key, empty if there is none. */
  function Find(e: seq<Pair>, k: Nibbles): Bytes {
    if e == [] then [] else if e[0].key == k then e[0].value else Find(e[1..], k)
  }

  lemma {:induction false} FindAt(e: seq<Pair>, i: nat)
    requires Sorted(e) && i < |e|
    ensures Find(e, e[i].key) == e[i].value
  {
    if i > 0 {
      LessIrreflexive(e[i].key);
      FindAt(e[1..], i - 1);
    }
  }

  lemma {:induction false} FindNone(e: seq<Pair>, k: Nibbles)
    requires forall i | 0 <= i < |e| :: e[i].key != k
    ensures Find(e, k) == []
  {
    if e != [] {
      FindNone(e[1..], k);
    }
  }

  /** Where the entries with some property lie together, looking there is looking everywhere. */
  lemma FindWithin(e: seq<Pair>, from: nat, to: nat, k: Nibbles)
    requires Sorted(e) && from <= to <= |e|
    requires forall i | 0 <= i < |e| && !(from <= i < to) :: e[i].key != k
    ensures Find(e[from..to], k) == Find(e, k)
  {
    hide Less, Find;
    var r := e[from..to];
    if i :| 0 <= i < |r| && r[i].key == k {
      FindAt(r, i);
      FindAt(e, from + i);
    } else {
      FindNone(r, k);
      forall i | 0 <= i < |e| ensures e[i].key != k {
        if from <= i < to {
          assert e[i] == r[i - from];
        }
      }
      FindNone(e, k);
    }
  }

  // ------------------------------------------------------------------ Inserting

  /** Assigning to a key of the map, new or not. */
  function Assigned(e: seq<Pair>, x: Pair): seq<Pair> {
    if e == [] then [x]
    else if x.key == e[0].key then [x] + e[1..]
    else if Less(x.key, e[0].key) then [x] + e
    else [e[0]] + Assigned(e[1..], x)
  }

  lemma {:induction false} FindAssigned(e: seq<Pair>, x: Pair, k: Nibbles)
    ensures Find(Assigned(e, x), k) == if k == x.key then x.value else Find(e, k)
  {
    if e != [] && x.key != e[0].key && !Less(x.key, e[0].key) {
      FindAssigned(e[1..], x, k);
    }
  }

  lemma {:induction false} AssignedKeys(e: seq<Pair>, x: Pair, y: Pair)
    requires y in Assigned(e, x)
    ensures y == x || y in e
  {
    if e != [] && x.key != e[0].key && !Less(x.key, e[0].key) && y != e[0] {
      AssignedKeys(e[1..], x, y);
    }
  }

  lemma {:induction false} AssignedSorted(e: seq<Pair>, x: Pair)
    requires Sorted(e)
    ensures Sorted(Assigned(e, x))
  {
    if e != [] {
      var r := Assigned(e, x);
      LessTotal(x.key, e[0].key);
      AssignedSorted(e[1..], x);
      forall i | 0 < i < |r| ensures Less(r[0].key, r[i].key) {
        if Less(x.key, e[0].key) && i > 1 {
          LessTransitive(x.key, e[0].key, r[i].key);
        } else if x.key != e[0].key && !Less(x.key, e[0].key) {
          assert r[i] in Assigned(e[1..], x);
          AssignedKeys(e[1..], x, r[i]);
        }
      }
      SortedFrom(r);
    }
  }

  lemma SortedFrom(r: seq<Pair>)
    requires r != [] && Sorted(r[1..]) && forall i | 0 < i < |r| :: Less(r[0].key, r[i].key)
    ensures Sorted(r)
  {
    hide Less;
    forall i, j | 0 <= i < j < |r| ensures Less(r[i].key, r[j].key) {
      if i > 0 {
        assert r[1..][i - 1] == r[i] && r[1..][j - 1] == r[j];
      }
    }
  }
}
