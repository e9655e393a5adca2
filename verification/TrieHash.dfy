/** The one-pass builder: a sorted map of nibble strings straight to the encoding of its tree. */
module TrieHash {
  import opened CommonData
  import opened Rlp
  import opened RlpStream
  import opened HexPrefix
  import opened HexMap
  import opened Trie
  import opened TrieNode
  import opened TrieMap

  /** Key lengths are cast to a 32-bit unsigned. */
  const UNSIGNED_MAX := 0xffff_ffff

  // ------------------------------------------------------------------ What a tree for some entries is

  /** All of these entries have keys that begin with p. */
  predicate Under(e: seq<Pair>, p: Nibbles) {
    forall i | 0 <= i < |e| :: p <= e[i].key
  }

  predicate InRange(e: seq<Pair>, n: nat) {
    forall i | 0 <= i < |e| :: |e[i].key| <= n && e[i].value != [] && |e[i].value| < MAX_SIZE
  }

  /** Below the common beginning p, the tree answers as the entries do. */
  ghost predicate Denotes(t: Tree, e: seq<Pair>, p: Nibbles)
    requires Formed(t)
  {
    forall q :: Get(t, q) == Find(e, p + q)
  }

  lemma DenotesNone(p: Nibbles)
    ensures Denotes(Nil, [], p)
  {
  }

  lemma DenotesOne(x: Pair, p: Nibbles)
    requires p <= x.key && x.value != []
    ensures Denotes(Leaf(x.key[|p|..], x.value), [x], p)
  {
    var t := Leaf(x.key[|p|..], x.value);
    forall q ensures Get(t, q) == Find([x], p + q) {
      assert x.key == p + x.key[|p|..];
      assert (p + q)[|p|..] == q;
      assert [x][1..] == [];
    }
  }

  /** An extension over the longer common beginning. */
  lemma DenotesExt(c: Tree, e: seq<Pair>, p: Nibbles, p': Nibbles)
    requires Formed(c) && c != Nil && Denotes(c, e, p') && Under(e, p') && p < p'
    ensures Denotes(Ext(p'[|p|..], c), e, p)
  {
    var k := p'[|p|..];
    assert p' == p + k;
    forall q ensures Get(Ext(k, c), q) == Find(e, p + q) {
      if k <= q {
        assert q == k + q[|k|..];
        assert p + q == p' + q[|k|..];
        assert Get(c, q[|k|..]) == Find(e, p' + q[|k|..]);
      } else {
        hide Find;
        forall i | 0 <= i < |e| ensures e[i].key != p + q {
          NotBelow(p, k, q, e[i].key);
        }
        FindNone(e, p + q);
      }
    }
  }

  /** Boundaries cut the entries from the first boundary on by their nibble after p. */
  ghost predicate Cut(s: seq<Pair>, p: Nibbles, bounds: seq<nat>, upTo: nat) {
    && |bounds| == upTo + 1 <= 17
    && (forall j | 0 <= j < upTo :: bounds[j] <= bounds[j + 1])
    && (forall j | 0 <= j <= upTo :: bounds[j] <= |s|)
    && forall j, i | 0 <= j < upTo && bounds[j] <= i < bounds[j + 1] && 0 <= i < |s| ::
         |s[i].key| > |p| && s[i].key[|p|] == j
  }

  function Slot(s: seq<Pair>, bounds: seq<nat>, j: nat): seq<Pair>
    requires j + 1 < |bounds| && bounds[j] <= bounds[j + 1] <= |s|
  {
    s[bounds[j]..bounds[j + 1]]
  }

  lemma {:induction false} Bounded(bounds: seq<nat>, i: nat, j: nat)
    requires i <= j < |bounds| && forall k | 0 <= k < |bounds| - 1 :: bounds[k] <= bounds[k + 1]
    ensures bounds[i] <= bounds[j]
    decreases j
  {
    if i < j {
      Bounded(bounds, i, j - 1);
    }
  }

  /** Every index from the first boundary to the last lies in the range of its nibble. */
  lemma {:induction false} InItsRange(s: seq<Pair>, p: Nibbles, bounds: seq<nat>, upTo: nat, i: nat)
    requires Cut(s, p, bounds, upTo) && bounds[0] <= i < bounds[upTo]
    ensures |s[i].key| > |p| && s[i].key[|p|] < upTo
    ensures bounds[s[i].key[|p|]] <= i < bounds[s[i].key[|p|] + 1]
    decreases upTo
  {
    if upTo > 0 && i < bounds[upTo - 1] {
      InItsRange(s, p, bounds[..upTo], upTo - 1, i);
    }
  }

  /** A branch over sixteen ranges and, before them, at most the entry that ends here. */
  lemma DenotesBranch(kids: seq<Tree>, value: Bytes, s: seq<Pair>, begin: nat, end: nat, p: Nibbles, bounds: seq<nat>)
    requires Sorted(s) && begin <= end <= |s| && Cut(s, p, bounds, 16) && bounds[16] == end
    requires Formed(Branch(kids, value))
    requires forall j: Nibble :: Denotes(kids[j], Slot(s, bounds, j), p + [j])
    requires if begin < end && s[begin].key == p then bounds[0] == begin + 1 && value == s[begin].value
             else bounds[0] == begin && value == []
    ensures Denotes(Branch(kids, value), s[begin..end], p)
  {
    var e := s[begin..end];
    hide Sorted, Find, Less;
    forall q: Nibbles ensures Get(Branch(kids, value), q) == Find(e, p + q) {
      if q == [] {
        assert p + q == p;
        AtBranch(s, begin, end, p, bounds);
      } else {
        assert p + q == p + [q[0]] + q[1..];
        var j: Nibble := q[0];
        assert Denotes(kids[j], Slot(s, bounds, j), p + [j]);
        InBranch(s, begin, end, p, bounds, q);
      }
    }
  }

  lemma SortedRange(s: seq<Pair>, begin: nat, end: nat)
    requires Sorted(s) && begin <= end <= |s|
    ensures Sorted(s[begin..end])
  {
    hide Less;
  }

  lemma AtBranch(s: seq<Pair>, begin: nat, end: nat, p: Nibbles, bounds: seq<nat>)
    requires Sorted(s) && begin <= end <= |s| && Cut(s, p, bounds, 16) && bounds[16] == end
    requires bounds[0] == if begin < end && s[begin].key == p then begin + 1 else begin
    ensures Find(s[begin..end], p) == if begin < end && s[begin].key == p then s[begin].value else []
  {
    var e := s[begin..end];
    SortedRange(s, begin, end);
    if begin < end && s[begin].key == p {
      FindAt(e, 0);
    } else {
      forall i | 0 <= i < |e| ensures e[i].key != p {
        InItsRange(s, p, bounds, 16, begin + i);
      }
      FindNone(e, p);
    }
  }

  lemma InBranch(s: seq<Pair>, begin: nat, end: nat, p: Nibbles, bounds: seq<nat>, q: Nibbles)
    requires Sorted(s) && begin <= end <= |s| && Cut(s, p, bounds, 16) && bounds[16] == end && q != []
    requires bounds[0] == if begin < end && s[begin].key == p then begin + 1 else begin
    ensures Find(Slot(s, bounds, q[0]), p + q) == Find(s[begin..end], p + q)
  {
    hide Sorted, Find, Less, Cut;
    var j: nat := q[0];
    BoundedAround(s, p, bounds, begin, end, j);
    SortedRange(s, begin, end);
    OutOfSlot(s, begin, end, p, bounds, q);
    SubRange(s, begin, end, bounds[j], bounds[j + 1]);
    FindWithin(s[begin..end], bounds[j] - begin, bounds[j + 1] - begin, p + q);
  }

  lemma BoundedAround(s: seq<Pair>, p: Nibbles, bounds: seq<nat>, begin: nat, end: nat, j: nat)
    requires Cut(s, p, bounds, 16) && bounds[16] == end && begin <= bounds[0] && j < 16
    ensures |bounds| == 17 && begin <= bounds[j] <= bounds[j + 1] <= end
  {
    Bounded(bounds, 0, j);
    Bounded(bounds, j + 1, 16);
  }

  /** No entry outside the range of a nibble continues with that nibble. */
  lemma OutOfSlot(s: seq<Pair>, begin: nat, end: nat, p: Nibbles, bounds: seq<nat>, q: Nibbles)
    requires begin <= end <= |s| && Cut(s, p, bounds, 16) && bounds[16] == end && q != []
    requires bounds[0] == if begin < end && s[begin].key == p then begin + 1 else begin
    ensures forall i | 0 <= i < end - begin && !(bounds[q[0]] <= begin + i < bounds[q[0] + 1]) :: s[begin..end][i].key != p + q
  {
    assert (p + q)[|p|] == q[0];
    forall i | 0 <= i < end - begin && !(bounds[q[0]] <= begin + i < bounds[q[0] + 1]) ensures s[begin..end][i].key != p + q {
      if begin + i >= bounds[0] {
        InItsRange(s, p, bounds, 16, begin + i);
      }
    }
  }

  lemma SubRange(s: seq<Pair>, begin: nat, end: nat, from: nat, to: nat)
    requires begin <= from <= to <= end <= |s|
    ensures s[begin..end][from - begin..to - begin] == s[from..to]
  {
    var r := s[begin..end];
    forall i | 0 <= i < to - from ensures r[from - begin..to - begin][i] == s[from..to][i] {
      assert r[from - begin + i] == s[from + i];
    }
  }

  // ------------------------------------------------------------------ The common prefix

  /** How much of k all of the entries share. */
  function CommonLen(k: Nibbles, e: seq<Pair>): (n: nat)
    ensures n <= |k|
  {
    if e == [] then |k| else Min(CommonLen(k, e[..|e| - 1]), Shared(k, e[|e| - 1].key))
  }

  lemma {:induction false} CommonIsShared(k: Nibbles, e: seq<Pair>, i: nat)
    requires i < |e|
    ensures CommonLen(k, e) <= Shared(k, e[i].key) && CommonLen(k, e) <= |e[i].key|
    ensures k[..CommonLen(k, e)] <= e[i].key
  {
    if i < |e| - 1 {
      CommonIsShared(k, e[..|e| - 1], i);
    }
    hide Shared;
    var c, n := CommonLen(k, e), Shared(k, e[i].key);
    assert k[..n][..c] == k[..c] && e[i].key[..n][..c] == e[i].key[..c];
  }

  lemma {:induction false} CommonReached(k: Nibbles, e: seq<Pair>) returns (i: nat)
    requires e != []
    ensures i < |e| && Shared(k, e[i].key) == CommonLen(k, e)
  {
    i := |e| - 1;
    if |e| == 1 {
      assert CommonLen(k, e[..0]) == |k|;
    } else if CommonLen(k, e) != Shared(k, e[i].key) {
      i := CommonReached(k, e[..|e| - 1]);
    }
  }

  lemma {:induction false} CommonAtLeast(k: Nibbles, e: seq<Pair>, p: Nibbles)
    requires p <= k && Under(e, p)
    ensures |p| <= CommonLen(k, e)
  {
    if e != [] {
      CommonAtLeast(k, e[..|e| - 1], p);
      SharedAtLeast(k, e[|e| - 1].key, p);
    }
  }

  lemma {:induction false} SharedAtLeast(a: Nibbles, b: Nibbles, p: Nibbles)
    requires p <= a && p <= b
    ensures |p| <= Shared(a, b)
  {
    if p != [] {
      SharedAtLeast(a[1..], b[1..], p[1..]);
    }
  }

  lemma {:induction false} SharedAtMost(a: Nibbles, b: Nibbles, n: nat)
    requires n < |a| && n < |b| && a[n] != b[n]
    ensures Shared(a, b) <= n
  {
    if a[0] == b[0] {
      SharedAtMost(a[1..], b[1..], n - 1);
    }
  }

  /** The inner loop: how far two keys agree, looking from a place where they do and no further than x. */
  method AgreeUpTo(a: Nibbles, b: Nibbles, from: nat, x: nat) returns (shared: nat)
    requires from <= x <= |a| && x <= |b| && a[..from] == b[..from]
    ensures shared == Min(Shared(a, b), x)
  {
    hide Shared;
    shared := from;
    while shared < x && a[shared] == b[shared]
      invariant from <= shared <= x && a[..shared] == b[..shared]
    {
      shared := shared + 1;
    }
    SharedIs(a, b, shared, x);
  }

  lemma SharedIs(a: Nibbles, b: Nibbles, n: nat, x: nat)
    requires n <= x <= |a| && x <= |b| && a[..n] == b[..n] && (n < x ==> a[n] != b[n])
    ensures n == Min(Shared(a, b), x)
  {
    SharedAtLeast(a, b, a[..n]);
    if n < x {
      SharedAtMost(a, b, n);
    }
  }

  /** The sharedPre loop: the number of nibbles all keys of the range share. */
  method SharedPrefix(s: seq<Pair>, begin: nat, end: nat, preLen: nat) returns (sharedPre: nat)
    requires begin + 2 <= end <= |s| && preLen <= |s[begin].key|
    requires forall i | begin <= i < end :: s[begin].key[..preLen] <= s[i].key && |s[i].key| < UNSIGNED_MAX
    ensures sharedPre == CommonLen(s[begin].key, s[begin + 1..end])
  {
    hide Shared, CommonLen;
    var first := s[begin].key;
    ghost var p := first[..preLen];
    sharedPre := UNSIGNED_MAX;
    var i := begin + 1;
    while i != end && sharedPre != 0
      invariant begin < i <= end
      invariant sharedPre == if i == begin + 1 then UNSIGNED_MAX else CommonLen(first, s[begin + 1..i])
      invariant preLen <= sharedPre
      decreases end - i
    {
      var x := Min(sharedPre, Min(|first|, |s[i].key|));
      assert s[i].key[..preLen] == first[..preLen];
      var shared := AgreeUpTo(first, s[i].key, preLen, x);
      CommonSnoc(first, s, begin + 1, i);
      SharedAtLeast(first, s[i].key, p);
      sharedPre := Min(shared, sharedPre);
      i := i + 1;
    }
    if i != end {
      CommonShrinks(first, s[begin + 1..i], s[i..end]);
      assert s[begin + 1..i] + s[i..end] == s[begin + 1..end];
    }
  }

  lemma CommonSnoc(k: Nibbles, s: seq<Pair>, from: nat, i: nat)
    requires from <= i < |s|
    ensures CommonLen(k, s[from..i + 1]) == Min(CommonLen(k, s[from..i]), Shared(k, s[i].key))
    ensures i == from ==> CommonLen(k, s[from..i]) == |k|
  {
    hide *;
    OneFurther(s, from, i);
    CommonLast(k, s[from..i], s[i]);
    CommonNone(k);
  }

  lemma OneFurther<T>(s: seq<T>, from: nat, i: nat)
    requires from <= i < |s|
    ensures s[from..i + 1] == s[from..i] + [s[i]] && (i == from ==> s[from..i] == [])
  {
  }

  lemma CommonLast(k: Nibbles, e: seq<Pair>, x: Pair)
    ensures CommonLen(k, e + [x]) == Min(CommonLen(k, e), Shared(k, x.key))
  {
    hide Shared;
    assert (e + [x])[..|e|] == e;
  }

  lemma CommonNone(k: Nibbles)
    ensures CommonLen(k, []) == |k|
  {
  }

  lemma {:induction false} CommonShrinks(k: Nibbles, a: seq<Pair>, b: seq<Pair>)
    ensures CommonLen(k, a + b) <= CommonLen(k, a)
  {
    if b == [] {
      assert a + b == a;
    } else {
      CommonShrinks(k, a, b[..|b| - 1]);
      assert (a + b)[..|a + b| - 1] == a + b[..|b| - 1];
    }
  }

  // ------------------------------------------------------------------ Streaming into one open list

  /** The stream after its only open list takes x. */
  function Took(wanted: nat, items: seq<Item>, x: Item): Forest
    requires wanted > 0
  {
    if wanted == 1 then Forest([List(items + [x])], []) else Forest([], [Open(wanted - 1, items + [x])])
  }

  lemma NotedOne(wanted: nat, items: seq<Item>, x: Item)
    requires wanted > 0 && |EncodeAll(items)| + |Encode(x)| < PAYLOAD_LIMIT
    ensures Noted(Forest([], [Open(wanted, items)]), [x]) == Some(Took(wanted, items, x))
  {
    EncodeAllConcat(items, [x]);
    EncodeAllOne(x);
    hide EncodeAll, Encode;
    var f := Forest([], [Open(wanted, items)]);
    assert f.Outer() == EMPTY_FOREST;
    NotedTop(List(items + [x]));
    assert f.open[..0] + [Open(wanted - 1, items + [x])] == [Open(wanted - 1, items + [x])];
  }

  lemma NotedTop(x: Item)
    ensures Noted(EMPTY_FOREST, [x]) == Some(Forest([x], []))
  {
    assert EMPTY_FOREST.done + [x] == [x];
  }

  /** Appends a string while one list is open. */
  method Put(rlp: RLPStream, d: Bytes, ghost wanted: nat, ghost items: seq<Item>)
    requires rlp.Valid() && rlp.forest == Forest([], [Open(wanted, items)]) && wanted > 0
    requires |EncodeAll(items)| < MAX_SIZE + 0x1000 && |d| < MAX_SIZE + 0x1000
    modifies rlp
    ensures rlp.Valid() && rlp.forest == Took(wanted, items, Str(d))
  {
    StringSize(d);
    NotedOne(wanted, items, Str(d));
    hide *;
    var ok := rlp.Append(d);
  }

  lemma RefsSnoc(sha3: Hasher, kids: seq<Tree>, t: Tree)
    ensures RefsOf(sha3, kids + [t]) == RefsOf(sha3, kids) + [RefOf(sha3, t)]
  {
    hide RefOf;
  }

  lemma RefsBound(sha3: Hasher, kids: seq<Tree>)
    requires |kids| <= 16
    ensures |EncodeAll(RefsOf(sha3, kids))| < MAX_SIZE < MAX_SIZE + 0x1000 && 0 < MAX_SIZE
  {
    var refs := RefsOf(sha3, kids);
    forall i | 0 <= i < |refs| ensures |Encode(refs[i])| <= 33 { RefSize(sha3, kids[i]); }
    hide Encode, RefOf;
    EncodeAllBound(refs, 33);
  }

  // ------------------------------------------------------------------ The builder

  /** The entries begin .. end are sorted, share the beginning p, and are in play. */
  ghost predicate Ready(s: seq<Pair>, begin: nat, end: nat, p: Nibbles, n: nat) {
    && Sorted(s) && begin <= end <= |s| && |p| <= n < UNSIGNED_MAX
    && Under(s[begin..end], p) && InRange(s[begin..end], n)
  }

  /** What the builder promises of the tree it wrote for begin .. end. */
  ghost predicate Built(t: Tree, s: seq<Pair>, begin: nat, end: nat, p: Nibbles)
    requires begin <= end <= |s|
  {
    && Canonical(t) && Formed(t) && Denotes(t, s[begin..end], p)
    && (t == Nil <==> begin == end)
    && (end - begin >= 2 && CommonLen(s[begin].key, s[begin + 1..end]) == |p| ==> t.Branch?)
  }

  lemma ReadyParts(s: seq<Pair>, begin: nat, end: nat, p: Nibbles, n: nat)
    requires Ready(s, begin, end, p, n)
    ensures Sorted(s) && begin <= end <= |s| && |p| <= n < UNSIGNED_MAX < 0x1_0000_0000
    ensures forall i | begin <= i < end ::
              && p <= s[i].key && |p| <= |s[i].key| <= n && s[i].key[..|p|] == p
              && s[i].value != [] && |s[i].value| < MAX_SIZE
    ensures 0 < PAYLOAD_LIMIT
  {
    forall i | begin <= i < end ensures p <= s[i].key && |s[i].key| <= n && s[i].value != [] && |s[i].value| < MAX_SIZE {
      assert s[begin..end][i - begin] == s[i];
    }
  }

  lemma ReadyFrom(s: seq<Pair>, begin: nat, end: nat, p: Nibbles, n: nat)
    requires Sorted(s) && begin <= end <= |s| && |p| <= n < UNSIGNED_MAX
    requires forall i | begin <= i < end :: p <= s[i].key && |s[i].key| <= n && s[i].value != [] && |s[i].value| < MAX_SIZE
    ensures Ready(s, begin, end, p, n)
  {
  }

  lemma BuiltNone(sha3: Hasher, s: seq<Pair>, begin: nat, p: Nibbles)
    requires begin <= |s|
    ensures Built(Nil, s, begin, begin, p) && ItemOf(sha3, Nil) == RefOf(sha3, Nil) == Str([])
  {
    assert s[begin..begin] == [];
    assert Enc(sha3, Nil) == [DATA_START];
    DenotesNone(p);
  }

  lemma BuiltOne(sha3: Hasher, s: seq<Pair>, begin: nat, p: Nibbles, n: nat)
    requires Ready(s, begin, begin + 1, p, n)
    ensures p <= s[begin].key
    ensures var key, v := s[begin].key[|p|..], s[begin].value;
            && key == s[begin].key[|p|..|s[begin].key|] && |HexPrefixOf(key, true)| < 0x1_0000_0000
            && Built(Leaf(key, v), s, begin, begin + 1, p)
            && ItemOf(sha3, Leaf(key, v)) == List([Str(HexPrefixOf(key, true)), Str(v)])
  {
    ReadyParts(s, begin, begin + 1, p, n);
    var x := s[begin];
    HexPrefixRoundTrip(x.key[|p|..], true);
    hide HexPrefixOf;
    DenotesOne(x, p);
    assert s[begin..begin + 1] == [x];
  }

  lemma CommonStarts(s: seq<Pair>, begin: nat, end: nat)
    requires begin < end <= |s|
    ensures var k := s[begin].key; forall i | begin <= i < end :: k[..CommonLen(k, s[begin + 1..end])] <= s[i].key
  {
    var k, rest := s[begin].key, s[begin + 1..end];
    hide CommonLen;
    forall i | begin <= i < end ensures k[..CommonLen(k, rest)] <= s[i].key {
      if i > begin {
        CommonIsShared(k, rest, i - begin - 1);
        assert rest[i - begin - 1] == s[i];
      }
    }
  }

  lemma CommonFacts(s: seq<Pair>, begin: nat, end: nat, p: Nibbles, n: nat, sharedPre: nat)
    requires Ready(s, begin, end, p, n) && begin + 2 <= end
    requires sharedPre == CommonLen(s[begin].key, s[begin + 1..end])
    ensures |p| <= sharedPre <= |s[begin].key|
    ensures p <= s[begin].key[..sharedPre] && s[begin].key[|p|..sharedPre] == s[begin].key[..sharedPre][|p|..]
    ensures |HexPrefixOf(s[begin].key[|p|..sharedPre], false)| < 0x1_0000_0000
    ensures Ready(s, begin, end, s[begin].key[..sharedPre], n)
  {
    ReadyParts(s, begin, end, p, n);
    var k, rest := s[begin].key, s[begin + 1..end];
    hide CommonLen, HexPrefixOf, Sorted;
    forall i | 0 <= i < |rest| ensures p <= rest[i].key { assert rest[i] == s[begin + 1 + i]; }
    CommonAtLeast(k, rest, p);
    HexPrefixRoundTrip(k[|p|..sharedPre], false);
    CommonStarts(s, begin, end);
    ReadyFrom(s, begin, end, k[..sharedPre], n);
  }

  lemma BuiltExt(sha3: Hasher, c: Tree, s: seq<Pair>, begin: nat, end: nat, p: Nibbles, p': Nibbles, n: nat)
    requires Ready(s, begin, end, p', n) && begin + 2 <= end && p < p'
    requires CommonLen(s[begin].key, s[begin + 1..end]) == |p'|
    requires Built(c, s, begin, end, p')
    ensures Built(Ext(p'[|p|..], c), s, begin, end, p)
    ensures ItemOf(sha3, Ext(p'[|p|..], c)) == List([Str(HexPrefixOf(p'[|p|..], false)), RefOf(sha3, c)])
  {
    hide CommonLen, HexPrefixOf, Denotes, Sorted, InRange, RefOf;
    DenotesExt(c, s[begin..end], p, p');
  }

  /** What two strings, or a string and a child, leave of a list of two. */
  lemma TwoItems(a: Bytes, x: Item)
    requires |a| < 0x1_0000_0000
    ensures Took(2, [], Str(a)) == Forest([], [Open(1, [Str(a)])])
    ensures |EncodeAll([Str(a)])| < MAX_SIZE < MAX_SIZE + 0x1000 && |a| < MAX_SIZE + 0x1000
    ensures Took(1, [Str(a)], x) == Forest([List([Str(a), x])], [])
  {
    StringSize(a);
    EncodeAllOne(Str(a));
    assert [] + [Str(a)] == [Str(a)] && [Str(a)] + [x] == [Str(a), x];
  }

  lemma Opened(n: nat)
    ensures Forest(EMPTY_FOREST.done, EMPTY_FOREST.open + [Open(n, [])]) == Forest([], [Open(n, [])])
    ensures |EncodeAll([])| < MAX_SIZE + 0x1000
  {
  }

  /** A finished child as it goes into the list above it. */
  lemma OutIsNode(sha3: Hasher, t: Tree, wanted: nat, items: seq<Item>)
    requires wanted > 0 && |EncodeAll(items)| < MAX_SIZE
    ensures EncodeAll([ItemOf(sha3, t)]) == Enc(sha3, t)
    ensures RefOf(sha3, t) == if |Enc(sha3, t)| < 32 then ItemOf(sha3, t) else Str(sha3(Enc(sha3, t)))
    ensures Noted(Forest([], [Open(wanted, items)]), [RefOf(sha3, t)]) == Some(Took(wanted, items, RefOf(sha3, t)))
    ensures 32 < PAYLOAD_LIMIT
  {
    EncodeAllOne(ItemOf(sha3, t));
    RefSize(sha3, t);
    NotedOne(wanted, items, RefOf(sha3, t));
  }

  // ------------------------------------------------------------------ The sixteen ranges

  lemma NibbleOrder(p: Nibbles, a: Nibbles, b: Nibbles)
    requires p <= a && p <= b && |p| < |a| && |p| < |b| && Less(a, b)
    ensures a[|p|] <= b[|p|]
  {
    LessUnder(p, a[|p|..], b[|p|..]);
    assert p + a[|p|..] == a && p + b[|p|..] == b;
  }

  /** Only the first key can be p itself. */
  lemma LongerThan(s: seq<Pair>, begin: nat, end: nat, p: Nibbles, n: nat)
    requires Ready(s, begin, end, p, n) && begin + 2 <= end
    ensures |s[begin].key| >= |p| && (|s[begin].key| == |p| <==> s[begin].key == p)
    ensures forall j | begin < j < end :: |s[j].key| > |p|
    ensures |p| < n
  {
    ReadyParts(s, begin, end, p, n);
    hide Less;
    forall j | begin < j < end ensures |s[j].key| > |p| {
      assert Less(s[begin].key, s[j].key);
      NotBefore(p, s[begin].key);
      assert s[j].key != p;
    }
    assert |s[begin + 1].key| > |p|;
  }

  lemma CutNone(s: seq<Pair>, p: Nibbles, b: nat)
    requires b <= |s|
    ensures Cut(s, p, [b], 0)
  {
  }

  /** The range of nibble i is ready for the recursion, and what is left lies above it. */
  lemma RangeFacts(s: seq<Pair>, begin: nat, end: nat, b: nat, m: nat, p: Nibbles, i: Nibble, n: nat)
    requires Ready(s, begin, end, p, n) && begin <= b <= m <= end
    requires forall j | b <= j < end :: |s[j].key| > |p| && s[j].key[|p|] >= i
    requires forall j | b <= j < m :: s[j].key[|p|] == i
    requires m < end ==> s[m].key[|p|] != i
    requires |p| < n
    ensures Ready(s, b, m, p + [i], n)
    ensures forall j | m <= j < end :: |s[j].key| > |p| && s[j].key[|p|] >= i + 1
  {
    ReadyParts(s, begin, end, p, n);
    hide Less;
    forall j | b <= j < m ensures p + [i] <= s[j].key {
      assert s[j].key[..|p|] == p && s[j].key[..|p| + 1] == p + [i];
    }
    ReadyFrom(s, b, m, p + [i], n);
    forall j | m <= j < end ensures s[j].key[|p|] >= i + 1 {
      if m < j {
        NibbleOrder(p, s[m].key, s[j].key);
      }
    }
  }

  /** The kids built so far, each for its range. */
  ghost predicate KidsBuilt(kids: seq<Tree>, s: seq<Pair>, bounds: seq<nat>, p: Nibbles)
    requires |bounds| == |kids| + 1 && Cut(s, p, bounds, |kids|)
  {
    forall j: Nibble :: j < |kids| ==> Built(kids[j], s, bounds[j], bounds[j + 1], p + [j])
  }

  lemma OneMore(s: seq<Pair>, p: Nibbles, kids: seq<Tree>, bounds: seq<nat>, kid: Tree, b: nat, m: nat)
    requires |bounds| == |kids| + 1 <= 16 && Cut(s, p, bounds, |kids|) && KidsBuilt(kids, s, bounds, p)
    requires bounds[|kids|] == b <= m <= |s| && forall j | b <= j < m :: |s[j].key| > |p| && s[j].key[|p|] == |kids|
    requires Built(kid, s, b, m, p + [|kids|])
    ensures Cut(s, p, bounds + [m], |kids| + 1) && KidsBuilt(kids + [kid], s, bounds + [m], p)
  {
    hide Built;
    var bounds', kids' := bounds + [m], kids + [kid];
    assert Cut(s, p, bounds', |kids'|);
    forall j: Nibble | j < |kids'| ensures Built(kids'[j], s, bounds'[j], bounds'[j + 1], p + [j]) {
      if j < |kids| {
        assert bounds'[j] == bounds[j] && bounds'[j + 1] == bounds[j + 1];
      }
    }
  }

  /** The kid for an entry's nibble is there. */
  lemma KidThere(kids: seq<Tree>, s: seq<Pair>, bounds: seq<nat>, p: Nibbles, i: nat)
    requires |kids| == 16 && |bounds| == 17 && Cut(s, p, bounds, 16) && KidsBuilt(kids, s, bounds, p)
    requires bounds[0] <= i < bounds[16]
    ensures |s[i].key| > |p| && kids[s[i].key[|p|]] != Nil
  {
    InItsRange(s, p, bounds, 16, i);
    var j: Nibble := s[i].key[|p|];
    assert Built(kids[j], s, bounds[j], bounds[j + 1], p + [j]);
  }

  lemma TwoKids(kids: seq<Tree>, value: Bytes, s: seq<Pair>, begin: nat, end: nat, p: Nibbles, bounds: seq<nat>, n: nat)
    requires Ready(s, begin, end, p, n) && begin + 2 <= end
    requires CommonLen(s[begin].key, s[begin + 1..end]) == |p|
    requires |kids| == 16 && |bounds| == 17 && |p| < n && Cut(s, p, bounds, 16) && KidsBuilt(kids, s, bounds, p)
    requires bounds[16] == end && bounds[0] == begin + (if |s[begin].key| == |p| then 1 else 0)
    requires |s[begin].key| == |p| ==> value != []
    ensures TwoUsed(kids, value)
  {
    LongerThan(s, begin, end, p, n);
    hide Built, Cut, KidsBuilt, Ready;
    if |s[begin].key| == |p| {
      KidThere(kids, s, bounds, p, begin + 1);
      Two(kids, value, s[begin + 1].key[|p|], 16);
    } else {
      var e := s[begin + 1..end];
      var i := CommonReached(s[begin].key, e);
      var other := begin + 1 + i;
      assert e[i] == s[other];
      KidThere(kids, s, bounds, p, begin);
      KidThere(kids, s, bounds, p, other);
      Two(kids, value, s[begin].key[|p|], s[other].key[|p|]);
    }
  }

  lemma KidOf(kids: seq<Tree>, s: seq<Pair>, bounds: seq<nat>, p: Nibbles, j: Nibble)
    requires |kids| == 16 && |bounds| == 17 && Cut(s, p, bounds, 16) && KidsBuilt(kids, s, bounds, p)
    ensures bounds[j] <= bounds[j + 1] <= |s|
    ensures Canonical(kids[j]) && Formed(kids[j])
    ensures Denotes(kids[j], Slot(s, bounds, j), p + [j])
  {
    assert Built(kids[j], s, bounds[j], bounds[j + 1], p + [j]);
  }

  lemma KidsHave(kids: seq<Tree>, s: seq<Pair>, bounds: seq<nat>, p: Nibbles)
    requires |kids| == 16 && |bounds| == 17 && Cut(s, p, bounds, 16) && KidsBuilt(kids, s, bounds, p)
    ensures forall j: Nibble :: Canonical(kids[j]) && Formed(kids[j])
    ensures forall j: Nibble :: Denotes(kids[j], Slot(s, bounds, j), p + [j])
  {
    forall j: Nibble ensures Canonical(kids[j]) && Formed(kids[j]) {
      KidOf(kids, s, bounds, p, j);
    }
    forall j: Nibble ensures Denotes(kids[j], Slot(s, bounds, j), p + [j]) {
      KidOf(kids, s, bounds, p, j);
    }
  }

  lemma BuiltBranch(sha3: Hasher, kids: seq<Tree>, value: Bytes, s: seq<Pair>, begin: nat, end: nat, p: Nibbles, bounds: seq<nat>, n: nat)
    requires Ready(s, begin, end, p, n) && begin + 2 <= end
    requires CommonLen(s[begin].key, s[begin + 1..end]) == |p|
    requires |kids| == 16 && |bounds| == 17 && |p| < n && Cut(s, p, bounds, 16) && KidsBuilt(kids, s, bounds, p)
    requires bounds[16] == end && bounds[0] == begin + (if |s[begin].key| == |p| then 1 else 0)
    requires value == if |s[begin].key| == |p| then s[begin].value else []
    ensures Built(Branch(kids, value), s, begin, end, p)
    ensures ItemOf(sha3, Branch(kids, value)) == List(RefsOf(sha3, kids) + [Str(value)])
    ensures |value| < MAX_SIZE + 0x1000
  {
    var t := Branch(kids, value);
    ReadyParts(s, begin, end, p, n);
    LongerThan(s, begin, end, p, n);
    TwoKids(kids, value, s, begin, end, p, bounds, n);
    KidsHave(kids, s, bounds, p);
    hide Denotes, Cut, KidsBuilt, Ready, Sorted, TwoUsed, CommonLen, Slot;
    assert Formed(t) && Canonical(t);
    assert |EncodeAll([])| == 0;
    hide Canonical, Formed;
    DenotesBranch(kids, value, s, begin, end, p, bounds);
  }

  lemma TookMore(wanted: nat, items: seq<Item>, x: Item)
    requires wanted > 0
    ensures Took(wanted, items, x) ==
              if wanted == 1 then Forest([List(items + [x])], []) else Forest([], [Open(wanted - 1, items + [x])])
  {
  }

  // ------------------------------------------------------------------ The builder's three steps

  /** The entries with nibble i after the prefix. */
  method RangeEnd(s: seq<Pair>, b: nat, end: nat, preLen: nat, i: nat) returns (m: nat)
    requires b <= end <= |s| && forall j | b <= j < end :: |s[j].key| > preLen
    ensures b <= m <= end
    ensures forall j | b <= j < m :: s[j].key[preLen] == i
    ensures m < end ==> s[m].key[preLen] != i
  {
    m := b;
    while m != end && s[m].key[preLen] == i
      invariant b <= m <= end
      invariant forall j | b <= j < m :: s[j].key[preLen] == i
      decreases end - m
    {
      m := m + 1;
    }
  }

  method Hash256Rlp(sha3: Hasher, s: seq<Pair>, begin: nat, end: nat, preLen: nat, rlp: RLPStream,
                    ghost p: Nibbles, ghost n: nat) returns (ghost t: Tree)
    requires Ready(s, begin, end, p, n) && preLen == |p| <= n
    requires rlp.Valid() && rlp.forest == EMPTY_FOREST
    modifies rlp
    ensures rlp.Valid() && rlp.forest == Forest([ItemOf(sha3, t)], [])
    ensures Built(t, s, begin, end, p)
    decreases n - preLen, 1
  {
    hide *;
    ReadyParts(s, begin, end, p, n);
    if begin == end {
      BuiltNone(sha3, s, begin, p);
      NotedTop(Str([]));
      t := Nil;
      var ok := rlp.Append([]);
    } else if begin + 1 == end {
      t := Leaf(s[begin].key[preLen..], s[begin].value);
      BuiltOne(sha3, s, begin, p, n);
      var key := EncodeHexVector(s[begin].key, true, preLen, -1);
      TwoItems(key, Str(s[begin].value));
      Opened(2);
      var ok := rlp.AppendList(2);
      Put(rlp, key, 2, []);
      Put(rlp, s[begin].value, 1, [Str(key)]);
    } else {
      var sharedPre := SharedPrefix(s, begin, end, preLen);
      CommonFacts(s, begin, end, p, n, sharedPre);
      if sharedPre > preLen {
        t := Hash256Ext(sha3, s, begin, end, preLen, sharedPre, rlp, p, n);
      } else {
        t := Hash256Branch(sha3, s, begin, end, preLen, rlp, p, n);
      }
    }
  }

  /** Where all go on alike: a pair of the shared key and one child. */
  method Hash256Ext(sha3: Hasher, s: seq<Pair>, begin: nat, end: nat, preLen: nat, sharedPre: nat, rlp: RLPStream,
                    ghost p: Nibbles, ghost n: nat) returns (ghost t: Tree)
    requires Ready(s, begin, end, p, n) && preLen == |p| <= n && begin + 2 <= end <= |s|
    requires sharedPre == CommonLen(s[begin].key, s[begin + 1..end]) > preLen
    requires rlp.Valid() && rlp.forest == EMPTY_FOREST
    modifies rlp
    ensures rlp.Valid() && rlp.forest == Forest([ItemOf(sha3, t)], [])
    ensures Built(t, s, begin, end, p)
    decreases n - preLen, 0
  {
    hide *;
    ReadyParts(s, begin, end, p, n);
    CommonFacts(s, begin, end, p, n, sharedPre);
    ghost var p' := s[begin].key[..sharedPre];
    ReadyParts(s, begin, end, p', n);
    var key := EncodeHexVector(s[begin].key, false, preLen, sharedPre);
    Opened(2);
    var ok := rlp.AppendList(2);
    TwoItems(key, Str([]));
    Put(rlp, key, 2, []);
    ghost var c := Hash256Aux(sha3, s, begin, end, sharedPre, rlp, p', n, 1, [Str(key)]);
    TwoItems(key, RefOf(sha3, c));
    BuiltExt(sha3, c, s, begin, end, p, p', n);
    t := Ext(p'[preLen..], c);
  }

  method Hash256Aux(sha3: Hasher, s: seq<Pair>, begin: nat, end: nat, preLen: nat, rlp: RLPStream,
                    ghost p: Nibbles, ghost n: nat,
                    ghost wanted: nat, ghost items: seq<Item>) returns (ghost t: Tree)
    requires Ready(s, begin, end, p, n) && preLen == |p| <= n
    requires rlp.Valid() && rlp.forest == Forest([], [Open(wanted, items)]) && wanted > 0
    requires |EncodeAll(items)| < MAX_SIZE
    modifies rlp
    ensures rlp.Valid() && rlp.forest == Took(wanted, items, RefOf(sha3, t))
    ensures Built(t, s, begin, end, p)
    decreases n - preLen, 2
  {
    hide *;
    ReadyParts(s, begin, end, p, n);
    var inner := new RLPStream();
    t := Hash256Rlp(sha3, s, begin, end, preLen, inner, p, n);
    var out := inner.Out();
    OutIsNode(sha3, t, wanted, items);
    if |out.value| < 32 {
      var ok := rlp.AppendRaw(out.value, [ItemOf(sha3, t)]);
    } else {
      var ok := rlp.Append(sha3(out.value));
    }
  }

  /** Where they part: sixteen children and a value. */
  method Hash256Branch(sha3: Hasher, s: seq<Pair>, begin: nat, end: nat, preLen: nat, rlp: RLPStream,
                       ghost p: Nibbles, ghost n: nat) returns (ghost t: Tree)
    requires Ready(s, begin, end, p, n) && preLen == |p| <= n && begin + 2 <= end <= |s|
    requires CommonLen(s[begin].key, s[begin + 1..end]) == preLen
    requires rlp.Valid() && rlp.forest == EMPTY_FOREST
    modifies rlp
    ensures rlp.Valid() && rlp.forest == Forest([ItemOf(sha3, t)], [])
    ensures Built(t, s, begin, end, p)
    decreases n - preLen, 0
  {
    hide *;
    ReadyParts(s, begin, end, p, n);
    LongerThan(s, begin, end, p, n);
    Opened(17);
    var ok := rlp.AppendList(17);
    var b := begin;
    if preLen == |s[b].key| {
      b := b + 1;
    }
    ghost var kids, bounds;
    kids, bounds := Hash256Kids(sha3, s, begin, b, end, preLen, rlp, p, n);
    ghost var value := if preLen == |s[begin].key| then s[begin].value else [];
    BuiltBranch(sha3, kids, value, s, begin, end, p, bounds, n);
    RefsBound(sha3, kids);
    TookMore(1, RefsOf(sha3, kids), Str(value));
    if preLen == |s[begin].key| {
      Put(rlp, s[begin].value, 1, RefsOf(sha3, kids));
    } else {
      Put(rlp, [], 1, RefsOf(sha3, kids));
    }
    t := Branch(kids, value);
  }

  /** The loop over the sixteen nibbles. */
  method Hash256Kids(sha3: Hasher, s: seq<Pair>, ghost begin: nat, first: nat, end: nat, preLen: nat, rlp: RLPStream,
                     ghost p: Nibbles, ghost n: nat)
    returns (ghost kids: seq<Tree>, ghost bounds: seq<nat>)
    requires Ready(s, begin, end, p, n) && preLen == |p| < n && begin <= first <= end <= |s|
    requires forall j | first <= j < end :: |s[j].key| > preLen
    requires rlp.Valid() && rlp.forest == Forest([], [Open(17, [])])
    modifies rlp
    ensures rlp.Valid() && rlp.forest == Forest([], [Open(1, RefsOf(sha3, kids))])
    ensures |kids| == 16 && |bounds| == 17 && Cut(s, p, bounds, 16) && KidsBuilt(kids, s, bounds, p)
    ensures bounds[0] == first && bounds[16] == end
    decreases n - preLen, 0, 0
  {
    hide *;
    ReadyParts(s, begin, end, p, n);
    CutNone(s, p, first);
    NoKids(sha3, s, [first], p);
    kids, bounds := [], [first];
    var b := first;
    for i := 0 to 16
      invariant rlp.Valid() && |kids| == i && rlp.forest == Forest([], [Open(17 - i, RefsOf(sha3, kids))])
      invariant first <= b <= end && |bounds| == i + 1 && bounds[i] == b && bounds[0] == first
      invariant Cut(s, p, bounds, i) && KidsBuilt(kids, s, bounds, p)
      invariant forall j | b <= j < end :: |s[j].key| > preLen && s[j].key[preLen] >= i
    {
      var m := RangeEnd(s, b, end, preLen, i);
      RangeFacts(s, begin, end, b, m, p, i, n);
      RefsBound(sha3, kids);
      ghost var kid := Nil;
      if b == m {
        BuiltNone(sha3, s, b, p + [i]);
        Put(rlp, [], 17 - i, RefsOf(sha3, kids));
      } else {
        kid := Hash256Aux(sha3, s, b, m, preLen + 1, rlp, p + [i], n, 17 - i, RefsOf(sha3, kids));
      }
      RefsSnoc(sha3, kids, kid);
      TookMore(17 - i, RefsOf(sha3, kids), RefOf(sha3, kid));
      OneMore(s, p, kids, bounds, kid, b, m);
      kids, bounds := kids + [kid], bounds + [m];
      b := m;
    }
    NibblesEnd(s, b, end, preLen);
  }

  lemma NibblesEnd(s: seq<Pair>, b: nat, end: nat, preLen: nat)
    requires b <= end <= |s| && forall j | b <= j < end :: |s[j].key| > preLen
    ensures b < end ==> s[b].key[preLen] < 16
  {
  }

  lemma NoKids(sha3: Hasher, s: seq<Pair>, bounds: seq<nat>, p: Nibbles)
    requires |bounds| == 1 && Cut(s, p, bounds, 0)
    ensures KidsBuilt([], s, bounds, p) && RefsOf(sha3, []) == []
  {
  }

  // ------------------------------------------------------------------ From a map of byte strings

  /** What the code can be given: keys whose nibbles 32 bits can count, and values that are there. */
  predicate Hashable(m: map<Bytes, Bytes>) {
    forall key <- m :: 2 * |key| < UNSIGNED_MAX - 1 && m[key] != [] && |m[key]| < MAX_SIZE
  }

  /** The sorted entries of the keys taken so far. */
  ghost predicate Collected(s: seq<Pair>, m: map<Bytes, Bytes>, done: set<Bytes>)
    requires done <= m.Keys
  {
    && Sorted(s)
    && (forall key :: Find(s, Unpack(key)) == if key in done then m[key] else [])
    && forall x <- s :: Pack(x.key) in done && Unpack(Pack(x.key)) == x.key && x.value == m[Pack(x.key)]
  }

  lemma CollectedMore(s: seq<Pair>, m: map<Bytes, Bytes>, done: set<Bytes>, key: Bytes)
    requires key in m && done <= m.Keys && Collected(s, m, done)
    ensures Collected(Assigned(s, Pair(Unpack(key), m[key])), m, done + {key})
  {
    hide Sorted, Find, Assigned, Unpack, Pack;
    var x := Pair(Unpack(key), m[key]);
    var s', done' := Assigned(s, x), done + {key};
    AssignedSorted(s, x);
    forall other ensures Find(s', Unpack(other)) == if other in done' then m[other] else [] {
      FindAssigned(s, x, Unpack(other));
      if Unpack(other) == Unpack(key) {
        UnpackInjective(other, key);
      }
    }
    forall y <- s' ensures Pack(y.key) in done' && Unpack(Pack(y.key)) == y.key && y.value == m[Pack(y.key)] {
      AssignedKeys(s, x, y);
      PackUnpack(key);
    }
  }

  lemma CollectedAll(s: seq<Pair>, m: map<Bytes, Bytes>)
    requires Collected(s, m, m.Keys) && Hashable(m)
    ensures UNSIGNED_MAX > 0 && Ready(s, 0, |s|, [], UNSIGNED_MAX - 1)
  {
    hide Sorted, Find, Unpack, Pack;
    forall i | 0 <= i < |s| ensures |s[i].key| < UNSIGNED_MAX - 1 && s[i].value != [] && |s[i].value| < MAX_SIZE {
      assert s[i] in s;
      assert |Unpack(Pack(s[i].key))| == 2 * |Pack(s[i].key)|;
    }
    ReadyFrom(s, 0, |s|, [], UNSIGNED_MAX - 1);
  }

  lemma DenotesAt(t: Tree, e: seq<Pair>, p: Nibbles, q: Nibbles)
    requires Formed(t) && Denotes(t, e, p)
    ensures Get(t, q) == Find(e, p + q)
  {
  }

  lemma DenotesWhole(t: Tree, s: seq<Pair>, q: Nibbles)
    requires Formed(t) && Denotes(t, s[0..|s|], [])
    ensures Get(t, q) == Find(s, q)
  {
    hide Denotes, Get, Find;
    assert s[0..|s|] == s;
    DenotesAt(t, s, [], q);
    assert [] + q == q;
  }

  lemma NoHalfBytes(s: seq<Pair>, m: map<Bytes, Bytes>, q: Nibbles)
    requires Collected(s, m, m.Keys) && |q| % 2 == 1
    ensures Find(s, q) == []
  {
    hide Find, Sorted, Unpack, Pack;
    forall i | 0 <= i < |s| ensures s[i].key != q {
      assert s[i] in s;
      assert |Unpack(Pack(s[i].key))| == 2 * |Pack(s[i].key)|;
    }
    FindNone(s, q);
  }

  lemma CollectedStored(t: Tree, s: seq<Pair>, m: map<Bytes, Bytes>)
    requires Collected(s, m, m.Keys) && Hashable(m) && Built(t, s, 0, |s|, [])
    ensures Canonical(t) && Formed(t) && Stores(t, m)
  {
    hide Sorted, Find, Unpack, Pack, Get, Denotes, Canonical, Formed;
    forall key: Bytes ensures Get(t, Unpack(key)) == if key in m then m[key] else [] {
      DenotesWhole(t, s, Unpack(key));
    }
    forall q: Nibbles | |q| % 2 == 1 ensures Get(t, q) == [] {
      DenotesWhole(t, s, q);
      NoHalfBytes(s, m, q);
    }
  }

  lemma NothingStored(sha3: Hasher)
    ensures Canonical(Nil) && Formed(Nil) && Stores(Nil, map[]) && EncodeAll([Str([])]) == Enc(sha3, Nil)
  {
    EncodeAllOne(EMPTY);
  }

  /** Sorts the entries, taking the keys in any order. */
  method Collect(m: map<Bytes, Bytes>) returns (hexMap: seq<Pair>)
    ensures Collected(hexMap, m, m.Keys)
  {
    hide Sorted, Find, Assigned, Unpack, Pack;
    assert Sorted([]) && forall key :: Find([], Unpack(key)) == [] by { NoEntries(); }
    hexMap := [];
    var rest := m.Keys;
    while rest != {}
      invariant rest <= m.Keys && Collected(hexMap, m, m.Keys - rest)
      decreases |rest|
    {
      var key :| key in rest;
      CollectedMore(hexMap, m, m.Keys - rest, key);
      assert m.Keys - rest + {key} == m.Keys - (rest - {key});
      hexMap := Assigned(hexMap, Pair(Unpack(key), m[key]));
      rest := rest - {key};
    }
    assert m.Keys - {} == m.Keys;
  }

  lemma NoEntries()
    ensures Sorted([]) && forall k :: Find([], k) == []
  {
  }

  /** rlp256: the bytes of the root node of the one tree that stores the map. */
  method Rlp256(sha3: Hasher, m: map<Bytes, Bytes>) returns (r: Bytes)
    requires Hashable(m)
    ensures exists t :: Canonical(t) && Formed(t) && Stores(t, m) && r == Enc(sha3, t)
  {
    hide *;
    var s := new RLPStream();
    if m == map[] {
      NotedTop(Str([]));
      NothingStored(sha3);
      Constants();
      var ok := s.Append([]);
      var out := s.Out();
      assert Stores(Nil, m) && out.value == Enc(sha3, Nil);
      return out.value;
    }
    var hexMap := Collect(m);
    CollectedAll(hexMap, m);
    ghost var t := Hash256Rlp(sha3, hexMap, 0, |hexMap|, 0, s, [], UNSIGNED_MAX - 1);
    CollectedStored(t, hexMap, m);
    AsBytes(sha3, t);
    var out := s.Out();
    return out.value;
  }

  lemma AsBytes(sha3: Hasher, t: Tree)
    ensures EncodeAll([ItemOf(sha3, t)]) == Enc(sha3, t)
  {
    EncodeAllOne(ItemOf(sha3, t));
  }

  /** hash256: whatever canonical tree stores the map, this is the hash of its root node. */
  method Hash256(sha3: Hasher, m: map<Bytes, Bytes>) returns (h: H256)
    requires Hashable(m)
    ensures forall t :: Canonical(t) && Formed(t) && Stores(t, m) ==> h == sha3(Enc(sha3, t))
    ensures exists t :: Canonical(t) && Formed(t) && Stores(t, m)
  {
    hide *;
    var r := Rlp256(sha3, m);
    h := sha3(r);
    ghost var t :| Canonical(t) && Formed(t) && Stores(t, m) && r == Enc(sha3, t);
    forall t' | Canonical(t') && Formed(t') && Stores(t', m) ensures h == sha3(Enc(sha3, t')) {
      SameMapSameTree(t, t', m);
    }
  }
}
