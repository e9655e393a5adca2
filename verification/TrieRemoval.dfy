/** Which keys can be removed: where the descent stays inside key and nodes, told by the tree and told by the map. */
module TrieRemoval {
  import opened CommonData
  import opened HexPrefix
  import opened Trie
  import opened TrieCanonical
  import opened TrieMap

  const HASH_SIZE := 32

  // ------------------------------------------------------------------ Told by the tree

  /** The descent to k takes no leaf's value for a child, and does not read past the end of k. */
  predicate Inside(t: Tree, k: Nibbles)
    requires Formed(t)
    decreases t
  {
    match t
    case Nil => true
    case Leaf(key, _) => !(key < k)
    case Ext(key, c) => key <= k ==> Inside(c, k[|key|..])
    case Branch(kids, value) => if k == [] then value != [] else Inside(kids[k[0]], k[1..])
  }

  /** The value that is left alone in a branch when k is removed, empty if there is none: it is taken for a hash. */
  function Stake(t: Tree, k: Nibbles): Bytes
    requires Formed(t) && Get(t, k) != []
    decreases t
  {
    match t
    case Leaf(_, _) => []
    case Ext(key, c) => Stake(c, k[|key|..])
    case Branch(kids, value) =>
      if k == [] then []
      else if kids[k[0]].Leaf? && UniqueInUse(kids[k[0] := Nil], value, 0) == 16 then value
      else Stake(kids[k[0]], k[1..])
  }

  /** The leaf that goes when k is removed; Nil where k ends in a branch. */
  function Gone(t: Tree, k: Nibbles): Tree
    requires Formed(t) && Get(t, k) != []
    decreases t
  {
    match t
    case Leaf(_, _) => t
    case Ext(key, c) => Gone(c, k[|key|..])
    case Branch(kids, _) => if k == [] then Nil else Gone(kids[k[0]], k[1..])
  }

  predicate Safe(t: Tree, k: Nibbles)
    requires Formed(t)
  {
    Inside(t, k) && (Get(t, k) != [] ==> |Stake(t, k)| <= HASH_SIZE)
  }

  // ------------------------------------------------------------------ Told by the stored keys, nibble by nibble

  /** A stored key that is a proper prefix of k, and of no stored key. */
  ghost predicate Ends(t: Tree, k: Nibbles)
    requires Formed(t)
  {
    exists a :: a < k && Get(t, a) != [] && forall b :: a < b ==> Get(t, b) == []
  }

  /** k is not stored, and two stored keys part just behind it. */
  ghost predicate Forks(t: Tree, k: Nibbles)
    requires Formed(t)
  {
    Get(t, k) == [] && exists b, c :: Parting(k, b, c) && Get(t, b) != [] && Get(t, c) != []
  }

  predicate Parting(k: Nibbles, b: Nibbles, c: Nibbles) {
    k < b && k < c && b[|k|] != c[|k|]
  }

  /** a is stored, and k is the only stored key that goes on behind it. */
  ghost predicate Sole(t: Tree, a: Nibbles, k: Nibbles)
    requires Formed(t)
  {
    a < k && Get(t, a) != [] && forall b :: a < b && b != k ==> Get(t, b) == []
  }

  lemma Behind(p: Nibbles, a: Nibbles, k: Nibbles)
    requires p <= a && p <= k
    ensures a == p + a[|p|..] && (a < k <==> a[|p|..] < k[|p|..]) && (a == k <==> a[|p|..] == k[|p|..])
  {
    assert k == p + k[|p|..];
  }

  lemma GetExt(key: Nibbles, c: Tree, q: Nibbles)
    requires Formed(Ext(key, c))
    ensures Get(Ext(key, c), key + q) == Get(c, q)
  {
    assert (key + q)[|key|..] == q;
  }

  lemma GetKid(kids: seq<Tree>, value: Bytes, i: Nibble, q: Nibbles)
    requires Formed(Branch(kids, value))
    ensures Get(Branch(kids, value), [i] + q) == Get(kids[i], q)
  {
    assert ([i] + q)[1..] == q;
  }

  /** Behind these nibbles t answers as c does. */
  ghost predicate Under(t: Tree, c: Tree, front: Nibbles)
    requires Formed(t) && Formed(c)
  {
    forall q: Nibbles :: Get(t, front + q) == Get(c, q)
  }

  lemma UnderExt(key: Nibbles, c: Tree)
    requires Formed(Ext(key, c))
    ensures Formed(c) && Under(Ext(key, c), c, key)
  {
    forall q: Nibbles ensures Get(Ext(key, c), key + q) == Get(c, q) {
      GetExt(key, c, q);
    }
  }

  lemma UnderKid(kids: seq<Tree>, value: Bytes, i: Nibble)
    requires Formed(Branch(kids, value))
    ensures Formed(kids[i]) && Under(Branch(kids, value), kids[i], [i])
  {
    forall q: Nibbles ensures Get(Branch(kids, value), [i] + q) == Get(kids[i], q) {
      GetKid(kids, value, i, q);
    }
  }

  lemma UnderAt(t: Tree, c: Tree, front: Nibbles, q: Nibbles)
    requires Formed(t) && Formed(c) && Under(t, c, front) && front <= q
    ensures Get(t, q) == Get(c, q[|front|..])
  {
    hide Get, Formed;
    assert q == front + q[|front|..];
  }

  /** What a key further down is in front of, or not. */
  lemma UnderFront(t: Tree, c: Tree, front: Nibbles, a: Nibbles, k: Nibbles)
    requires Formed(t) && Formed(c) && Under(t, c, front) && front <= k
    ensures front <= front + a && (front + a)[|front|..] == a && Get(t, front + a) == Get(c, a)
    ensures (front + a < k <==> a < k[|front|..]) && (k < front + a <==> k[|front|..] < a) && (front + a == k <==> a == k[|front|..])
  {
    hide Get, Formed;
    assert (front + a)[|front|..] == a;
    UnderAt(t, c, front, front + a);
    Behind(front, front + a, k);
    Behind(front, k, front + a);
  }

  lemma FrontOn(a: Nibbles, b: Nibbles, c: Nibbles)
    requires a <= b && b < c
    ensures a <= c
  {
  }

  lemma LeavesUnder(t: Tree, c: Tree, front: Nibbles, k: Nibbles)
    requires Formed(t) && Formed(c) && Under(t, c, front) && front <= k && Get(c, k[|front|..]) == []
    requires Ends(c, k[|front|..]) || Forks(c, k[|front|..])
    ensures Get(t, k) == [] && (Ends(t, k) || Forks(t, k))
  {
    hide Get, Formed, Under, Parting;
    UnderAt(t, c, front, k);
    var rest := k[|front|..];
    if Ends(c, rest) {
      var a :| a < rest && Get(c, a) != [] && forall b :: a < b ==> Get(c, b) == [];
      UnderFront(t, c, front, a, k);
      forall b | front + a < b ensures Get(t, b) == [] {
        FrontOn(front, front + a, b);
        UnderAt(t, c, front, b);
        UnderFront(t, c, front, a, b);
      }
      assert front + a < k && Get(t, front + a) != [];
    } else {
      var b, d :| Parting(rest, b, d) && Get(c, b) != [] && Get(c, d) != [];
      UnderFront(t, c, front, b, k);
      UnderFront(t, c, front, d, k);
      PartingUnder(front, k, b, d);
      assert Parting(k, front + b, front + d);
    }
  }

  lemma PartingUnder(front: Nibbles, k: Nibbles, b: Nibbles, c: Nibbles)
    requires front <= k && Parting(k[|front|..], b, c)
    ensures Parting(k, front + b, front + c)
  {
    assert (front + b)[|front|..] == b && (front + c)[|front|..] == c;
    Behind(front, k, front + b);
    Behind(front, k, front + c);
  }

  lemma SoleUnder(t: Tree, c: Tree, front: Nibbles, a: Nibbles, k: Nibbles)
    requires Formed(t) && Formed(c) && Under(t, c, front) && front <= a && front <= k
    ensures Sole(t, a, k) <==> Sole(c, a[|front|..], k[|front|..])
  {
    hide Get, Formed, Under;
    UnderAt(t, c, front, a);
    Behind(front, a, k);
    if Sole(t, a, k) {
      forall b | a[|front|..] < b && b != k[|front|..] ensures Get(c, b) == [] {
        UnderFront(t, c, front, b, a);
        UnderFront(t, c, front, b, k);
      }
    }
    if Sole(c, a[|front|..], k[|front|..]) {
      forall b | a < b && b != k ensures Get(t, b) == [] {
        FrontOn(front, a, b);
        UnderAt(t, c, front, b);
        Behind(front, a, b);
        Behind(front, b, k);
      }
    }
  }

  /** A stored key on the way to k has another one behind it. */
  lemma {:induction false} GoesOn(t: Tree, k: Nibbles, a: Nibbles) returns (b: Nibbles)
    requires Canonical(t) && Formed(t) && Inside(t, k) && a < k && Get(t, a) != []
    ensures a < b && Get(t, b) != []
    decreases t
  {
    if t.Ext? {
      var n := |t.key|;
      Behind(t.key, a, k);
      var b' := GoesOn(t.child, k[n..], a[n..]);
      b := t.key + b';
      GetExt(t.key, t.child, b');
      Behind(t.key, a, b);
      assert b[n..] == b';
    } else if t.Branch? {
      if a == [] {
        var i, j :| 0 <= i < j <= 16 && Used(t.kids, t.value, i) && Used(t.kids, t.value, j);
        b := SomeKeyIn(t.kids, t.value, i);
      } else {
        var b' := GoesOn(t.kids[k[0]], k[1..], a[1..]);
        b := [k[0]] + b';
        GetKid(t.kids, t.value, k[0], b');
        assert b[1..] == b' && a == [k[0]] + a[1..];
        assert b'[..|a| - 1] == a[1..];
        assert b[..|a|] == a;
      }
    }
  }

  /** No two stored keys part just behind a key that ends inside. */
  lemma {:induction false} NoFork(t: Tree, k: Nibbles, b: Nibbles, c: Nibbles)
    requires Formed(t) && Inside(t, k) && Get(t, k) == [] && Parting(k, b, c)
    ensures Get(t, b) == [] || Get(t, c) == []
    decreases t
  {
    if Get(t, b) != [] && Get(t, c) != [] {
      if t.Ext? && |t.key| <= |k| {
        var n := |t.key|;
        PrefixesOf(t.key, k, b);
        Behind(t.key, k, b);
        Behind(t.key, k, c);
        NoFork(t.child, k[n..], b[n..], c[n..]);
      } else if t.Branch? && k != [] {
        assert b[0] == k[0] == c[0];
        NoFork(t.kids[k[0]], k[1..], b[1..], c[1..]);
      }
    }
  }

  /** Where the descent leaves, a stored key ends or two stored keys part. */
  lemma {:induction false} LeavesAt(t: Tree, k: Nibbles)
    requires Canonical(t) && Formed(t) && !Inside(t, k)
    ensures Get(t, k) == [] && (Ends(t, k) || Forks(t, k))
    decreases t
  {
    match t
    case Leaf(key, _) => assert Get(t, key) != [];
    case Ext(key, c) =>
      LeavesAt(c, k[|key|..]);
      UnderExt(key, c);
      LeavesUnder(t, c, key, k);
    case Branch(kids, value) =>
      if k == [] {
        var i, j :| 0 <= i < j <= 16 && Used(kids, value, i) && Used(kids, value, j);
        var b := SomeKeyIn(kids, value, i);
        var c := SomeKeyIn(kids, value, j);
        assert Parting(k, b, c);
      } else {
        LeavesAt(kids[k[0]], k[1..]);
        UnderKid(kids, value, k[0]);
        LeavesUnder(t, kids[k[0]], [k[0]], k);
      }
  }

  /** The descent stays inside exactly if no stored key ends on the way and no two part at the end. */
  lemma InsideIff(t: Tree, k: Nibbles)
    requires Canonical(t) && Formed(t)
    ensures Inside(t, k) <==> !Ends(t, k) && !Forks(t, k)
  {
    if Inside(t, k) {
      if Ends(t, k) {
        var a :| a < k && Get(t, a) != [] && forall b :: a < b ==> Get(t, b) == [];
        var b := GoesOn(t, k, a);
      }
      if Forks(t, k) {
        var b, c :| Parting(k, b, c) && Get(t, b) != [] && Get(t, c) != [];
        NoFork(t, k, b, c);
      }
    } else {
      LeavesAt(t, k);
    }
  }

  // ------------------------------------------------------------------ What is left alone

  /** A canonical tree with a single key is a leaf. */
  lemma OneKeyIsLeaf(t: Tree, k: Nibbles)
    requires Canonical(t) && Formed(t) && Get(t, k) != [] && forall q :: q != k ==> Get(t, q) == []
    ensures t.Leaf?
  {
    hide Get, Canonical, Formed;
    if t.Nil? {
      NilHasNone(k);
    } else if t.Ext? {
      var q1, q2 := ExtTwoKeys(t);
    } else if t.Branch? {
      var q1, q2 := TwoKeys(t);
    }
  }

  lemma ExtTwoKeys(t: Tree) returns (q1: Nibbles, q2: Nibbles)
    requires Canonical(t) && Formed(t) && t.Ext?
    ensures q1 != q2 && Get(t, q1) != [] && Get(t, q2) != []
  {
    hide Get, Canonical, Formed;
    var r1, r2 := ExtKeys(t);
    q1, q2 := t.key + r1, t.key + r2;
    assert q1[|t.key|..] == r1 && q2[|t.key|..] == r2;
  }

  lemma NilHasNone(k: Nibbles)
    ensures Get(Nil, k) == []
  {
  }

  lemma CanonicalKid(kids: seq<Tree>, value: Bytes, i: nat)
    requires Canonical(Branch(kids, value)) && i < 16
    ensures |kids| == 16 && Canonical(kids[i])
  {
  }

  lemma BranchHasSixteen(kids: seq<Tree>, value: Bytes)
    requires Formed(Branch(kids, value))
    ensures |kids| == 16
  {
  }

  lemma SoleAt(t: Tree, k: Nibbles, q: Nibbles)
    requires Formed(t) && Sole(t, [], k)
    ensures q != [] && q != k ==> Get(t, q) == []
    ensures Get(t, []) != []
  {
    hide Get, Formed;
  }

  lemma AloneInBranch(kids: seq<Tree>, value: Bytes, k: Nibbles)
    requires Canonical(Branch(kids, value)) && Formed(Branch(kids, value)) && k != []
    requires Get(Branch(kids, value), k) != [] && Sole(Branch(kids, value), [], k)
    ensures kids[k[0]].Leaf? && UniqueInUse(kids[k[0] := Nil], value, 0) == 16
  {
    hide *;
    var t, i := Branch(kids, value), k[0];
    BranchHasSixteen(kids, value);
    CanonicalKid(kids, value, i);
    UnderKid(kids, value, i);
    assert [i] <= k;
    UnderAt(t, kids[i], [i], k);
    forall q | q != k[1..] ensures Get(kids[i], q) == [] {
      UnderFront(t, kids[i], [i], q, k);
      SoleAt(t, k, [i] + q);
    }
    OneKeyIsLeaf(kids[i], k[1..]);
    forall j | 0 <= j < 16 && j != i ensures kids[j] == Nil {
      OtherKidsNil(kids, value, k, j);
    }
    ValueOnly(kids, value, k);
  }

  lemma OtherKidsNil(kids: seq<Tree>, value: Bytes, k: Nibbles, j: nat)
    requires Canonical(Branch(kids, value)) && Formed(Branch(kids, value)) && k != [] && |kids| == 16
    requires Sole(Branch(kids, value), [], k) && j < 16 && j != k[0]
    ensures kids[j] == Nil
  {
    if kids[j] != Nil {
      var q := SomeKeyIn(kids, value, j);
      hide *;
      SoleAt(Branch(kids, value), k, q);
    }
  }

  lemma ValueOnly(kids: seq<Tree>, value: Bytes, k: Nibbles)
    requires Formed(Branch(kids, value)) && k != [] && |kids| == 16
    requires Sole(Branch(kids, value), [], k) && forall j | 0 <= j < 16 && j != k[0] :: kids[j] == Nil
    ensures UniqueInUse(kids[k[0] := Nil], value, 0) == 16
  {
    SoleAt(Branch(kids, value), k, []);
    var kids' := kids[k[0] := Nil];
    UniqueInUseIs(kids', value, 0);
    hide UniqueInUse;
    assert Used(kids', value, 16);
  }

  /** The value of the one key that k alone goes on behind is the one left alone, by a leaf just under it. */
  lemma {:induction false} SoleIsStake(t: Tree, a: Nibbles, k: Nibbles)
    requires Canonical(t) && Formed(t) && Get(t, k) != [] && Sole(t, a, k)
    ensures Stake(t, k) == Get(t, a) && Gone(t, k) == Leaf(k[|a| + 1..], Get(t, k))
    decreases t
  {
    match t
    case Leaf(_, _) =>
    case Ext(key, c) =>
      UnderExt(key, c);
      SoleUnder(t, c, key, a, k);
      SoleIsStake(c, a[|key|..], k[|key|..]);
      assert k[|key|..][|a| - |key| + 1..] == k[|a| + 1..];
    case Branch(kids, value) =>
      if a == [] {
        AloneInBranch(kids, value, k);
      } else {
        UnderKid(kids, value, k[0]);
        SoleUnder(t, kids[k[0]], [k[0]], a, k);
        SoleIsStake(kids[k[0]], a[1..], k[1..]);
        assert k[1..][|a|..] == k[|a| + 1..];
      }
  }

  /** What is left alone is the value of such a key. */
  lemma {:induction false} StakeIsSole(t: Tree, k: Nibbles) returns (a: Nibbles)
    requires Canonical(t) && Formed(t) && Get(t, k) != [] && Stake(t, k) != []
    ensures Sole(t, a, k)
    decreases t
  {
    match t
    case Ext(key, c) =>
      var a' := StakeIsSole(c, k[|key|..]);
      a := key + a';
      assert a[|key|..] == a';
      UnderExt(key, c);
      SoleUnder(t, c, key, a, k);
    case Branch(kids, value) =>
      if kids[k[0]].Leaf? && UniqueInUse(kids[k[0] := Nil], value, 0) == 16 {
        a := [];
        SoleInBranch(kids, value, k);
      } else {
        var a' := StakeIsSole(kids[k[0]], k[1..]);
        a := [k[0]] + a';
        assert a[1..] == a';
        UnderKid(kids, value, k[0]);
        SoleUnder(t, kids[k[0]], [k[0]], a, k);
      }
  }

  lemma SoleInBranch(kids: seq<Tree>, value: Bytes, k: Nibbles)
    requires Formed(Branch(kids, value)) && k != [] && Get(Branch(kids, value), k) != []
    requires kids[k[0]].Leaf? && UniqueInUse(kids[k[0] := Nil], value, 0) == 16
    ensures Sole(Branch(kids, value), [], k)
  {
    var t, others := Branch(kids, value), kids[k[0] := Nil];
    UniqueInUseIs(others, value, 0);
    hide UniqueInUse;
    forall b: Nibbles | [] < b && b != k ensures Get(t, b) == [] {
      if b[0] == k[0] {
        assert b == [b[0]] + b[1..] && k == [k[0]] + k[1..];
      } else {
        assert !Used(others, value, b[0]);
      }
    }
  }

  // ------------------------------------------------------------------ Told by the map

  /** Key b goes on behind key with some nibble, key c with another. */
  predicate PartBehind(key: Bytes, b: Bytes, c: Bytes) {
    key < b && key < c && b[|key|] / 16 != c[|key|] / 16
  }

  /** Stored keys that are proper prefixes of the key are so of stored keys too, and no two part just behind it. */
  ghost predicate Passable(m: map<Bytes, Bytes>, key: Bytes) {
    && (forall a <- m :: a < key ==> exists b <- m :: a < b)
    && forall b <- m, c <- m :: !PartBehind(key, b, c)
  }

  /** The key is the only one that goes on behind the stored key a. */
  ghost predicate Alone(m: map<Bytes, Bytes>, a: Bytes, key: Bytes) {
    a in m && a < key && forall b <- m :: a < b ==> b == key
  }

  /** The leaf that holds the key under the branch in which a ends. */
  function LeafBehind(m: map<Bytes, Bytes>, a: Bytes, key: Bytes): Tree
    requires key in m && a < key
  {
    Leaf(Unpack(key)[2 * |a| + 1..], m[key])
  }

  lemma AloneBefore(m: map<Bytes, Bytes>, a: Bytes, key: Bytes)
    requires Alone(m, a, key)
    ensures a < key && |Unpack(a)| == 2 * |a| < |Unpack(key)| == 2 * |key|
  {
  }

  /** What the map must be like for a key to be removed, or to be seen to be missing. */
  ghost predicate Removable(m: map<Bytes, Bytes>, key: Bytes) {
    if key in m then forall a <- m :: Alone(m, a, key) ==> |m[a]| <= HASH_SIZE else Passable(m, key)
  }

  lemma {:induction false} UnpackConcat(a: Bytes, b: Bytes)
    ensures Unpack(a + b) == Unpack(a) + Unpack(b)
  {
    hide *;
    if a == [] {
      assert a + b == b && Unpack(a) + Unpack(b) == Unpack(b);
    } else {
      UnpackConcat(a[1..], b);
      UnpackFirst(a);
      UnpackFirst(a + b);
      assert (a + b)[1..] == a[1..] + b && (a + b)[0] == a[0];
    }
  }

  lemma UnpackFirst(a: Bytes)
    requires a != []
    ensures Unpack(a) == [a[0] / 16, a[0] % 16] + Unpack(a[1..])
  {
  }

  /** Prefixes of bytes are prefixes of nibbles. */
  lemma {:induction false} PrefixUnpack(a: Bytes, b: Bytes)
    ensures a <= b <==> Unpack(a) <= Unpack(b)
    ensures a < b <==> Unpack(a) < Unpack(b)
  {
    if a <= b {
      UnpackConcat(a, b[|a|..]);
      assert a + b[|a|..] == b;
    } else if |a| <= |b| {
      UnpackConcat(b[..|a|], b[|a|..]);
      assert b[..|a|] + b[|a|..] == b;
      if Unpack(a) <= Unpack(b) {
        assert Unpack(a) == Unpack(b)[..2 * |a|] == Unpack(b[..|a|]);
        UnpackInjective(a, b[..|a|]);
      }
    }
  }

  lemma FirstHalf(b: Bytes, i: nat)
    requires i < |b|
    ensures Unpack(b)[2 * i] == b[i] / 16
  {
    hide Unpack;
    UnpackAt(b, 2 * i);
    Twice(i);
  }

  lemma Twice(i: nat)
    ensures 2 * i % 2 == 0 && 2 * i / 2 == i
  {
  }

  lemma PartUnpack(key: Bytes, b: Bytes, c: Bytes)
    ensures PartBehind(key, b, c) <==> Parting(Unpack(key), Unpack(b), Unpack(c))
  {
    hide Unpack;
    PrefixUnpack(key, b);
    PrefixUnpack(key, c);
    if key < b && key < c {
      FirstHalf(b, |key|);
      FirstHalf(c, |key|);
    }
  }

  /** Every stored nibble key is that of a key in the map. */
  lemma StoredKey(t: Tree, m: map<Bytes, Bytes>, q: Nibbles) returns (key: Bytes)
    requires Formed(t) && Stores(t, m) && Get(t, q) != []
    ensures Unpack(key) == q && key in m && m[key] == Get(t, q)
  {
    key := Pack(q);
    assert |q| % 2 == 0;
    UnpackPack(q);
    StoredAt(t, m, key);
  }

  lemma EndsIff(t: Tree, m: map<Bytes, Bytes>, key: Bytes)
    requires Formed(t) && Stores(t, m)
    ensures Ends(t, Unpack(key)) <==> exists a <- m :: a < key && forall b <- m :: !(a < b)
  {
    hide Get, Unpack, Pack;
    var k := Unpack(key);
    if Ends(t, k) {
      var q :| q < k && Get(t, q) != [] && forall b :: q < b ==> Get(t, b) == [];
      var a := StoredKey(t, m, q);
      PrefixUnpack(a, key);
      forall b <- m ensures !(a < b) {
        PrefixUnpack(a, b);
        StoredAt(t, m, b);
      }
    }
    if a :| a in m && a < key && forall b <- m :: !(a < b) {
      PrefixUnpack(a, key);
      StoredAt(t, m, a);
      forall q | Unpack(a) < q ensures Get(t, q) == [] {
        if Get(t, q) != [] {
          var b := StoredKey(t, m, q);
          PrefixUnpack(a, b);
        }
      }
    }
  }

  lemma ForksIff(t: Tree, m: map<Bytes, Bytes>, key: Bytes)
    requires Formed(t) && Stores(t, m) && key !in m
    ensures Forks(t, Unpack(key)) <==> exists b, c :: b in m && c in m && PartBehind(key, b, c)
  {
    hide Get, Unpack, Pack, PartBehind, Parting;
    var k := Unpack(key);
    StoredAt(t, m, key);
    if Forks(t, k) {
      var q, r :| Parting(k, q, r) && Get(t, q) != [] && Get(t, r) != [];
      var b := StoredKey(t, m, q);
      var c := StoredKey(t, m, r);
      PartUnpack(key, b, c);
    }
    if b, c :| b in m && c in m && PartBehind(key, b, c) {
      PartUnpack(key, b, c);
      StoredAt(t, m, b);
      StoredAt(t, m, c);
    }
  }

  lemma SoleIff(t: Tree, m: map<Bytes, Bytes>, a: Bytes, key: Bytes)
    requires Formed(t) && Stores(t, m)
    ensures Sole(t, Unpack(a), Unpack(key)) <==> Alone(m, a, key)
  {
    hide Get, Unpack, Pack;
    PrefixUnpack(a, key);
    StoredAt(t, m, a);
    if Sole(t, Unpack(a), Unpack(key)) {
      forall b <- m | a < b ensures b == key {
        PrefixUnpack(a, b);
        StoredAt(t, m, b);
        if Unpack(b) == Unpack(key) {
          UnpackInjective(b, key);
        }
      }
    }
    if Alone(m, a, key) {
      forall q | Unpack(a) < q && q != Unpack(key) ensures Get(t, q) == [] {
        if Get(t, q) != [] {
          var b := StoredKey(t, m, q);
          PrefixUnpack(a, b);
        }
      }
    }
  }

  /** What is left alone when a stored key goes is the value of the key it alone goes on behind. */
  lemma StakeIff(t: Tree, m: map<Bytes, Bytes>, key: Bytes)
    requires Canonical(t) && Formed(t) && Stores(t, m) && key in m
    ensures Get(t, Unpack(key)) != []
    ensures var v := Stake(t, Unpack(key));
            && (forall a <- m :: Alone(m, a, key) ==> m[a] == v && a < key && Gone(t, Unpack(key)) == LeafBehind(m, a, key))
            && (v != [] ==> exists a <- m :: Alone(m, a, key))
  {
    hide Get, Unpack, Pack, Stake, Gone, Alone, Sole;
    StoredAt(t, m, key);
    var k := Unpack(key);
    forall a <- m | Alone(m, a, key) ensures m[a] == Stake(t, k) && a < key && Gone(t, k) == LeafBehind(m, a, key) {
      AloneBefore(m, a, key);
      SoleIff(t, m, a, key);
      SoleIsStake(t, Unpack(a), k);
      StoredAt(t, m, a);
    }
    if Stake(t, k) != [] {
      var q := StakeIsSole(t, k);
      SoleStored(t, q, k);
      var a := StoredKey(t, m, q);
      SoleIff(t, m, a, key);
    }
  }

  lemma SoleStored(t: Tree, a: Nibbles, k: Nibbles)
    requires Formed(t) && Sole(t, a, k)
    ensures Get(t, a) != []
  {
  }

  /** A stored key is always found. */
  lemma StoredInside(t: Tree, k: Nibbles)
    requires Canonical(t) && Formed(t) && Get(t, k) != []
    ensures Inside(t, k)
  {
    InsideIff(t, k);
  }

  /** The descent of a removal stays inside exactly if the map lets it. */
  lemma SafeIff(t: Tree, m: map<Bytes, Bytes>, key: Bytes)
    requires Canonical(t) && Formed(t) && Stores(t, m)
    ensures Safe(t, Unpack(key)) <==> Removable(m, key)
  {
    var k := Unpack(key);
    hide Get, Unpack, Pack, Inside, Stake, Alone, Ends, Forks, PartBehind;
    StoredAt(t, m, key);
    if key in m {
      StoredInside(t, k);
      StakeIff(t, m, key);
    } else {
      InsideIff(t, k);
      EndsIff(t, m, key);
      ForksIff(t, m, key);
    }
  }

  // ------------------------------------------------------------------ When every key can be removed

  /** No stored key, and not the key itself, is a proper prefix of another of them. */
  predicate PrefixFree(m: map<Bytes, Bytes>, key: Bytes) {
    forall a, b :: a in m.Keys + {key} && b in m.Keys + {key} ==> !(a < b)
  }

  /** Keys none of which begins another can be removed, and so can keys of one length. */
  lemma PrefixFreeRemovable(m: map<Bytes, Bytes>, key: Bytes)
    requires PrefixFree(m, key)
    ensures Removable(m, key)
  {
    assert key in m.Keys + {key};
    assert forall a <- m :: a in m.Keys + {key};
  }

  lemma OneLengthPrefixFree(m: map<Bytes, Bytes>, key: Bytes)
    requires forall a <- m :: |a| == |key|
    ensures PrefixFree(m, key)
  {
  }

  /** Where values are short enough to be taken for hashes, every stored key can be removed. */
  lemma ShortValuesRemovable(m: map<Bytes, Bytes>, key: Bytes)
    requires key in m && forall a <- m :: |m[a]| <= HASH_SIZE
    ensures Removable(m, key)
  {
  }

  /** Three ways to go wrong: behind a stored key, where keys part, and with a long value left alone. */
  lemma RemovalGoesAstray(long: Bytes)
    requires |long| > HASH_SIZE
    ensures !Removable(map[[1] := [7]], [1, 2])
    ensures !Removable(map[[1, 0x20] := [7], [1, 0x30] := [8]], [1])
    ensures !Removable(map[[1] := long, [1, 2] := [7]], [1, 2])
  {
    var one: map<Bytes, Bytes> := map[[1] := [7]];
    assert [1] in one && [1] < [1, 2];
    var m: map<Bytes, Bytes> := map[[1, 0x20] := [7], [1, 0x30] := [8]];
    assert [1, 0x20] in m && [1, 0x30] in m && PartBehind([1], [1, 0x20], [1, 0x30]);
    assert Alone(map[[1] := long, [1, 2] := [7]], [1], [1, 2]);
  }
}
