/** The two ways to a root: node by node in GenericTrieDB, and in one pass in hash256. */
module TrieRoots {
  import opened CommonData
  import opened Trie
  import opened TrieNode
  import opened TrieMap
  import opened TrieSteps
  import opened TrieHash
  import opened StateCacheDB
  import opened TrieDB
  import opened TrieExamples

  /** The incremental root of a trie is the one-pass hash of the map it is bound to. */
  method RootIsHash256(trie: GenericTrieDB, m: map<Bytes, Bytes>) returns (h: H256)
    requires trie.Valid() && trie.contents == m && Hashable(m)
    ensures h == trie.m_root
  {
    hide *;
    trie.RootFacts(trie.tree);
    h := Hash256(trie.sha3, m);
  }

  /** The root of a trie bound to nothing, to one short pair, or to two long values under keys that share a nibble. */
  lemma ExampleRoots(trie: GenericTrieDB, v: Bytes, w: Bytes)
    requires trie.Valid() && |v| == |w| == 40
    ensures trie.contents == map[] ==> trie.m_root == trie.sha3([0x80])
    ensures trie.contents == map[[0x01] := [0x07]] ==> trie.m_root == trie.sha3([0xc4, 0x82, 0x20, 0x01, 0x07])
    ensures trie.contents == map[[0x11] := v, [0x12] := w] ==>
              var first, second := trie.sha3([0xea, 0x20, 0xa8] + v), trie.sha3([0xea, 0x20, 0xa8] + w);
              var branch := trie.sha3([0xf8, 81] + ([0x80] + ([0xa0] + first) + ([0xa0] + second) + Eighties(14)));
              trie.m_root == trie.sha3([0xe2, 0x11, 0xa0] + branch)
  {
    hide *;
    trie.RootFacts(trie.tree);
    if trie.contents == map[] {
      EmptyRoot(trie.sha3, trie.tree);
    }
    if trie.contents == map[[0x01] := [0x07]] {
      OneKeyRoot(trie.sha3, trie.tree);
    }
    if trie.contents == map[[0x11] := v, [0x12] := w] {
      TwoKeyRoot(trie.sha3, trie.tree, v, w);
    }
  }

  /** After every run from the empty trie that goes through both builders give one root. */
  method TwoBuildersAgree(sha3: Hasher, db: DB, ops: seq<Op>) returns (ok: bool, incremental: H256, onePass: H256)
    requires db.Valid() && db.m_main == map[]
    requires Legal(ops) && Hashable(Applied(map[], ops)) && ToldApart(sha3, NodesFromEmpty(sha3, ops))
    modifies db`m_main, db`refs
    ensures ok ==> incremental == onePass
    ensures NoMistakes(sha3, NodesFromEmpty(sha3, ops), map[], ops) ==> (ok <==> AllRemovable(map[], ops))
  {
    hide Stores, Canonical, Formed, ToldApart, Applied, Hashable, Held, Sound, Below, Known, RunNodes, AllRemovable, NoMistakes;
    hide StoresOfRun, GoesThrough, AfterAll;
    var trie := new GenericTrieDB(sha3, db);
    ghost var stores: seq<Table>;
    ok, stores := trie.Run(ops);
    incremental := trie.m_root;
    if ok {
      onePass := RootIsHash256(trie, Applied(map[], ops));
    } else {
      onePass := Hash256(sha3, Applied(map[], ops));
    }
  }
}
