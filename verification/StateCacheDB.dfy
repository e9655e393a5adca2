/** The reference-counted node store. */
module StateCacheDB {
  import opened CommonData
  import opened TrieNode

  function CountOf(main: Table, h: H256): nat {
    if h in main then main[h].count else 0
  }

  /** The counts as a multiset of hashes. */
  ghost predicate Counts(main: Table, refs: multiset<H256>) {
    forall h: H256 :: refs[h] == CountOf(main, h)
  }

  class DB {
    var m_main: Table
    var m_enforceRefs: bool
    ghost var refs: multiset<H256>

    ghost predicate Valid()
      reads this
    {
      Counts(m_main, refs)
    }

    constructor ()
      ensures Valid() && m_main == map[] && refs == multiset{} && !m_enforceRefs
    {
      m_main, m_enforceRefs := map[], false;
      refs := multiset{};
    }

    /** A node is seen if it is there and, when references are enforced, still referred to. */
    predicate Sees(h: H256)
      reads this
    {
      h in m_main && (!m_enforceRefs || m_main[h].count > 0)
    }

    method Lookup(h: H256) returns (b: Bytes)
      ensures b == if Sees(h) then m_main[h].bytes else []
    {
      if h in m_main {
        if !m_enforceRefs || m_main[h].count > 0 {
          return m_main[h].bytes;
        }
      }
      return [];
    }

    method Insert(h: H256, v: Bytes)
      requires Valid()
      modifies this`m_main, this`refs
      ensures Valid() && refs == old(refs) + multiset{h}
      ensures h in m_main && m_main[h].bytes == v && m_main.Keys == old(m_main).Keys + {h}
      ensures forall g <- old(m_main) :: g != h ==> m_main[g] == old(m_main)[g]
    {
      if h in m_main {
        m_main := m_main[h := Entry(v, m_main[h].count + 1)];
      } else {
        m_main := m_main[h := Entry(v, 1)];
      }
      refs := refs + multiset{h};
    }

    /** Counts down, and stops at zero. */
    method Kill(h: H256) returns (r: bool)
      requires Valid()
      modifies this`m_main, this`refs
      ensures Valid() && refs == old(refs) - multiset{h} && r == (h in old(refs))
      ensures m_main.Keys == old(m_main).Keys
      ensures forall g <- m_main :: m_main[g].bytes == old(m_main)[g].bytes
    {
      r := false;
      if h in m_main {
        if m_main[h].count > 0 {
          m_main := m_main[h := Entry(m_main[h].bytes, m_main[h].count - 1)];
          r := true;
        }
      }
      refs := refs - multiset{h};
    }

    /** Erases what nothing refers to, in whatever order the entries come. */
    method Purge()
      requires Valid()
      modifies this`m_main
      ensures Valid()
      ensures m_main == map h | h in old(m_main) && old(m_main)[h].count > 0 :: old(m_main)[h]
    {
      var todo := m_main.Keys;
      while todo != {}
        invariant todo <= m_main.Keys <= old(m_main).Keys
        invariant forall h <- m_main :: m_main[h] == old(m_main)[h]
        invariant forall h <- old(m_main) :: h in m_main <==> h in todo || old(m_main)[h].count > 0
        decreases |todo|
      {
        var h :| h in todo;
        todo := todo - {h};
        if m_main[h].count == 0 {
          m_main := m_main - {h};
        }
      }
    }

    /** The hashes something refers to. */
    method Keys() returns (r: set<H256>)
      requires Valid()
      ensures forall h: H256 :: h in r <==> h in refs
    {
      r := {};
      var todo := m_main.Keys;
      while todo != {}
        invariant todo <= m_main.Keys
        invariant forall h: H256 :: h in r <==> h in m_main && h !in todo && m_main[h].count > 0
        decreases |todo|
      {
        var h :| h in todo;
        todo := todo - {h};
        if m_main[h].count > 0 {
          r := r + {h};
        }
      }
    }
  }
}
