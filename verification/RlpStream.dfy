/** The RLPStream class: lists are opened with a count and their headers shifted in once the count is met. */
module RlpStream {
  import opened CommonData
  import opened Rlp

  /** An open list: how many items it still wants, and those it has. */
  datatype Open = Open(wanted: nat, items: seq<Item>)

  /** What a stream holds: finished items, and the lists still open, innermost last. */
  datatype Forest = Forest(done: seq<Item>, open: seq<Open>) {
    function Outer(): Forest
      requires open != []
    { Forest(done, open[..|open| - 1]) }

    function Inner(): Open
      requires open != []
    { open[|open| - 1] }
  }

  const EMPTY_FOREST := Forest([], [])

  /** No list is written whose payload length needs more than eight bytes. */
  const PAYLOAD_LIMIT := 0x1_0000_0000_0000_0000

  /** The forest after xs arrive at its innermost list, closing what they fill; None where the stream throws. */
  function Noted(f: Forest, xs: seq<Item>): Option<Forest>
    decreases |f.open|
  {
    if xs == [] then Some(f)
    else if f.open == [] then Some(Forest(f.done + xs, []))
    else
      var inner := f.Inner();
      var items := inner.items + xs;
      if inner.wanted < |xs| then None
      else if inner.wanted > |xs| then Some(Forest(f.done, f.open[..|f.open| - 1] + [Open(inner.wanted - |xs|, items)]))
      else if |EncodeAll(items)| >= PAYLOAD_LIMIT then None
      else Noted(f.Outer(), [List(items)])
  }

  /** The bytes of a forest: nothing marks an open list yet. */
  function Flat(f: Forest): Bytes
    decreases |f.open|
  {
    if f.open == [] then EncodeAll(f.done) else Flat(f.Outer()) + EncodeAll(f.Inner().items)
  }

  /** The list stack of a forest: for each open list what it wants and where it began. */
  function StackOf(f: Forest): (stack: seq<(nat, nat)>)
    ensures |stack| == |f.open|
    decreases |f.open|
  {
    if f.open == [] then [] else StackOf(f.Outer()) + [(f.Inner().wanted, |Flat(f.Outer())|)]
  }

  predicate Wanting(f: Forest) {
    forall o <- f.open :: o.wanted > 0
  }

  // ------------------------------------------------------------------ Writing numbers backwards

  /** The lowest byte goes to the last index and the others before it, until nothing is left of the number. */
  method WriteBackwards(buffer: Bytes, last: int, n: nat) returns (r: Bytes)
    requires |ToBigEndian(n)| <= last + 1 <= |buffer|
    ensures r == buffer[..last + 1 - |ToBigEndian(n)|] + ToBigEndian(n) + buffer[last + 1..]
  {
    hide ToBigEndian;
    r := buffer;
    var b, rest := last, n;
    ghost var tail: Bytes := [];
    BytesLeft(0);
    while rest != 0
      invariant |ToBigEndian(rest)| <= b + 1
      invariant ToBigEndian(n) == ToBigEndian(rest) + tail
      invariant b + 1 + |tail| == last + 1
      invariant r == buffer[..b + 1] + tail + buffer[last + 1..]
    {
      BytesLeft(rest);
      Behind(ToBigEndian(rest / 256), [rest % 256], tail);
      OneLess(buffer, b, tail, buffer[last + 1..], rest % 256);
      r := r[b := rest % 256];
      tail := [rest % 256] + tail;
      b, rest := b - 1, rest / 256;
    }
  }

  lemma BytesLeft(n: nat)
    ensures ToBigEndian(n) == if n == 0 then [] else ToBigEndian(n / 256) + [n % 256]
  {
  }

  lemma OneLess(buffer: Bytes, b: nat, tail: Bytes, after: Bytes, x: Byte)
    requires b < |buffer|
    ensures (buffer[..b + 1] + tail + after)[b := x] == buffer[..b] + ([x] + tail) + after
  {
  }

  /** memmove of everything from p on, after growing the buffer. */
  method ShiftUp(buffer: Bytes, p: nat, shift: nat) returns (r: Bytes)
    requires p <= |buffer|
    ensures |r| == |buffer| + shift && r[..p] == buffer[..p] && r[p + shift..] == buffer[p..]
  {
    var grown := buffer + seq(shift, _ => 0);
    r := grown[..p + shift] + grown[p..|buffer|];
  }

  lemma LongPayload(n: nat)
    ensures n >= PAYLOAD_LIMIT <==> |ToBigEndian(n)| > 8
  {
    assert Pow256(4) == 0x1_0000_0000;
    assert Pow256(5) == 256 * Pow256(4) && Pow256(6) == 256 * Pow256(5);
    assert Pow256(7) == 256 * Pow256(6) && Pow256(8) == 256 * Pow256(7);
    BigEndianSize(n, 8);
  }

  lemma ListHeader(n: nat)
    ensures n < IMMEDIATE ==> Header(LIST_START, n) == [LIST_START + n]
    ensures n >= IMMEDIATE && |ToBigEndian(n)| <= 8 ==> Header(LIST_START, n) == [LIST_LONG + |ToBigEndian(n)|] + ToBigEndian(n)
  {
    hide ToBigEndian;
  }

  /** The first byte of a header is put into the gap. */
  lemma FirstPut(buffer: Bytes, out: Bytes, p: nat, gap: nat, x: Byte)
    requires p <= |buffer| && gap > 0
    requires |out| == |buffer| + gap && out[..p] == buffer[..p] && out[p + gap..] == buffer[p..]
    ensures out[p := x][..p + 1] == buffer[..p] + [x] && out[p := x][p + gap..] == buffer[p..]
    ensures gap == 1 ==> out[p := x] == out[p := x][..p + 1] + out[p := x][p + 1..]
  {
  }

  lemma Joined(buffer: Bytes, p: nat, first: Bytes, rest: Bytes, out: Bytes)
    requires p <= |buffer| && out == buffer[..p] + first + rest + buffer[p..]
    ensures out == buffer[..p] + (first + rest) + buffer[p..] && first + [] == first
  {
    assert buffer[..p] + first + rest == buffer[..p] + (first + rest);
  }

  /** Puts the header of a finished list in front of the payload that begins at p. */
  method InsertHeader(buffer: Bytes, p: nat) returns (r: Option<Bytes>)
    requires p <= |buffer|
    ensures r == if |buffer| - p >= PAYLOAD_LIMIT then None
                 else Some(buffer[..p] + Header(LIST_START, |buffer| - p) + buffer[p..])
  {
    hide ToBigEndian, Header;
    var s := |buffer| - p;
    var brs := BytesRequired(s);
    LongPayload(s);
    ListHeader(s);
    var encodeSize := if s < IMMEDIATE then 1 else 1 + brs;
    var out := ShiftUp(buffer, p, encodeSize);
    if s < IMMEDIATE {
      FirstPut(buffer, out, p, 1, LIST_START + s);
      out := out[p := LIST_START + s];
    } else if LIST_LONG + brs <= 0xff {
      FirstPut(buffer, out, p, encodeSize, LIST_LONG + brs);
      out := out[p := LIST_LONG + brs];
      out := WriteBackwards(out, p + brs, s);
      Joined(buffer, p, [LIST_LONG + brs], ToBigEndian(s), out);
    } else {
      return None;
    }
    return Some(out);
  }

  // ------------------------------------------------------------------ Between appending bytes and noting them

  /** The stream holds the forest f, and behind it the bytes of ys, which no list has been told of. */
  ghost predicate Mid(out: Bytes, stack: seq<(nat, nat)>, f: Forest, ys: seq<Item>) {
    out == Flat(f) + EncodeAll(ys) && stack == StackOf(f) && Wanting(f)
  }

  lemma MidAppended(out: Bytes, stack: seq<(nat, nat)>, f: Forest, b: Bytes, ys: seq<Item>)
    requires Mid(out, stack, f, []) && b == EncodeAll(ys)
    ensures Mid(out + b, stack, f, ys)
  {
    assert EncodeAll([]) == [];
  }

  lemma Behind(a: Bytes, b: Bytes, c: Bytes)
    ensures (a + b) + c == a + (b + c)
  {
  }

  lemma NoneNoted(f: Forest)
    ensures Noted(f, []) == Some(f)
  {
  }

  /** At top level nothing wants the items. */
  lemma MidAtTop(out: Bytes, stack: seq<(nat, nat)>, f: Forest, ys: seq<Item>)
    requires Mid(out, stack, f, ys) && stack == [] && ys != []
    ensures var g := Forest(f.done + ys, []); Mid(out, [], g, []) && Noted(f, ys) == Some(g)
  {
    assert f.open == [];
    EncodeAllConcat(f.done, ys);
    assert EncodeAll([]) == [];
  }

  lemma MidInner(out: Bytes, stack: seq<(nat, nat)>, f: Forest, ys: seq<Item>)
    requires Mid(out, stack, f, ys) && stack != []
    ensures f.open != [] && |stack| == |f.open| && stack[|stack| - 1].0 == f.Inner().wanted > 0
    ensures f.Inner().wanted < |ys| ==> Noted(f, ys) == None
  {
    assert f.Inner() in f.open;
  }

  /** An innermost list that took ys and still wants more. */
  function StillOpen(f: Forest, ys: seq<Item>): Forest
    requires f.open != [] && f.Inner().wanted >= |ys|
  {
    Forest(f.done, f.open[..|f.open| - 1] + [Open(f.Inner().wanted - |ys|, f.Inner().items + ys)])
  }

  /** What a forest with an open list is made of. */
  lemma InnerOf(f: Forest)
    requires f.open != []
    ensures Flat(f) == Flat(f.Outer()) + EncodeAll(f.Inner().items)
    ensures StackOf(f) == StackOf(f.Outer()) + [(f.Inner().wanted, |Flat(f.Outer())|)]
    ensures Wanting(f) <==> Wanting(f.Outer()) && f.Inner().wanted > 0
  {
    hide EncodeAll;
    assert f.open == f.Outer().open + [f.Inner()];
  }

  lemma MidWanting(out: Bytes, stack: seq<(nat, nat)>, f: Forest, ys: seq<Item>)
    requires Mid(out, stack, f, ys) && stack != [] && f.open != [] && f.Inner().wanted > |ys| > 0
    ensures var top := |stack| - 1;
            Mid(out, stack[top := (f.Inner().wanted - |ys|, stack[top].1)], StillOpen(f, ys), [])
    ensures Noted(f, ys) == Some(StillOpen(f, ys))
  {
    hide EncodeAll, Flat, StackOf, Wanting, Noted;
    var g := StillOpen(f, ys);
    assert g.Outer() == f.Outer() && g.Inner() == Open(f.Inner().wanted - |ys|, f.Inner().items + ys);
    InnerOf(f);
    InnerOf(g);
    EncodeAllConcat(f.Inner().items, ys);
    NoBytes();
    WantingNoted(f, ys);
    assert Flat(g) == Flat(f.Outer()) + (EncodeAll(f.Inner().items) + EncodeAll(ys));
  }

  lemma NoBytes()
    ensures EncodeAll([]) == []
  {
  }

  lemma WantingNoted(f: Forest, ys: seq<Item>)
    requires f.open != [] && f.Inner().wanted > |ys| > 0
    ensures Noted(f, ys) == Some(StillOpen(f, ys))
  {
  }

  /** The innermost list, once ys fill it, becomes one item of the list around it. */
  lemma MidFilled(out: Bytes, stack: seq<(nat, nat)>, f: Forest, ys: seq<Item>)
    requires Mid(out, stack, f, ys) && stack != [] && f.open != [] && f.Inner().wanted == |ys| > 0
    ensures var p, item := stack[|stack| - 1].1, List(f.Inner().items + ys);
            && p <= |out| && Noted(f, ys) == (if |out| - p >= PAYLOAD_LIMIT then None else Noted(f.Outer(), [item]))
            && Mid(out[..p] + Header(LIST_START, |out| - p) + out[p..], stack[..|stack| - 1], f.Outer(), [item])
  {
    hide EncodeAll, Header, Flat, StackOf, Noted, Wanting;
    InnerOf(f);
    FilledNoted(f, ys);
    EncodeAllConcat(f.Inner().items, ys);
    var items := f.Inner().items + ys;
    OneList(items);
    var before, payload := Flat(f.Outer()), EncodeAll(items);
    assert out == before + payload;
    CutAt(before, payload, Header(LIST_START, |payload|));
  }

  lemma FilledNoted(f: Forest, ys: seq<Item>)
    requires f.open != [] && ys != [] && f.Inner().wanted == |ys|
    ensures var items := f.Inner().items + ys;
            Noted(f, ys) == if |EncodeAll(items)| >= PAYLOAD_LIMIT then None else Noted(f.Outer(), [List(items)])
  {
    hide EncodeAll;
  }

  lemma CutAt(front: Bytes, back: Bytes, middle: Bytes)
    ensures (front + back)[..|front|] == front && (front + back)[|front|..] == back
    ensures front + middle + back == front + (middle + back)
  {
  }

  // ------------------------------------------------------------------ The bytes of one item

  lemma OneString(s: Bytes)
    ensures EncodeAll([Str(s)]) == if |s| == 1 && s[0] < DATA_START then [s[0]] else Header(DATA_START, |s|) + s
    ensures |s| < IMMEDIATE ==> Header(DATA_START, |s|) == [|s| + DATA_START]
  {
    EncodeAllOne(Str(s));
  }

  lemma OneList(xs: seq<Item>)
    ensures var rlp := EncodeAll(xs);
            && EncodeAll([List(xs)]) == Header(LIST_START, |rlp|) + rlp
            && (|rlp| < IMMEDIATE ==> Header(LIST_START, |rlp|) == [|rlp| + LIST_START])
  {
    EncodeAllOne(List(xs));
  }

  lemma OneInt(n: nat)
    ensures var b := ToBigEndian(n);
            && EncodeAll([Str(b)]) == (if n == 0 then [DATA_START] else if n < DATA_START then [n] else Header(DATA_START, |b|) + b)
            && (|b| < IMMEDIATE ==> Header(DATA_START, |b|) == [|b| + DATA_START])
  {
    var b := ToBigEndian(n);
    OneString(b);
    hide EncodeAll;
    if n == 0 {
      assert Header(DATA_START, 0) + [] == [DATA_START];
    } else if n < DATA_START {
      assert b == ToBigEndian(0) + [n];
    } else if |b| == 1 {
      assert b == ToBigEndian(n / 256) + [n % 256];
      assert ToBigEndian(n / 256) == [];
      assert n / 256 == 0;
    }
  }

  lemma Constants()
    ensures DATA_START == 0x80 && LIST_START == 0xc0 && IMMEDIATE == 56 && 0 < PAYLOAD_LIMIT
  {
  }

  // ------------------------------------------------------------------ The stream

  class RLPStream {
    var m_out: Bytes
    var m_listStack: seq<(nat, nat)>
    ghost var forest: Forest

    ghost predicate Valid()
      reads this
    {
      m_out == Flat(forest) && m_listStack == StackOf(forest) && Wanting(forest)
    }

    constructor ()
      ensures Valid() && forest == EMPTY_FOREST
    {
      m_out, m_listStack := [], [];
      forest := EMPTY_FOREST;
    }

    lemma ValidIsMid()
      ensures Valid() <==> Mid(m_out, m_listStack, forest, [])
    {
      assert EncodeAll([]) == [];
    }

    /** Counts the items xs, whose bytes were just put at the end of m_out, and closes the lists they fill. */
    method NoteAppended(itemCount: nat, ghost xs: seq<Item>) returns (ok: bool)
      requires Mid(m_out, m_listStack, forest, xs) && itemCount == |xs|
      modifies this
      ensures ok <==> Noted(old(forest), xs).Some?
      ensures ok ==> Valid() && forest == Noted(old(forest), xs).value
    {
      hide *;
      if itemCount == 0 {
        NoneNoted(forest);
        ValidIsMid();
        return true;
      }
      ghost var ys := xs;
      var count := itemCount;
      while m_listStack != []
        invariant count == |ys| > 0 && Mid(m_out, m_listStack, forest, ys)
        invariant Noted(forest, ys) == Noted(old(forest), xs)
        decreases |m_listStack|
      {
        var top := |m_listStack| - 1;
        MidInner(m_out, m_listStack, forest, ys);
        if m_listStack[top].0 < count {
          return false;
        }
        var left := m_listStack[top].0 - count;
        if left != 0 {
          MidWanting(m_out, m_listStack, forest, ys);
          m_listStack := m_listStack[top := (left, m_listStack[top].1)];
          forest := StillOpen(forest, ys);
          ValidIsMid();
          return true;
        }
        MidFilled(m_out, m_listStack, forest, ys);
        var p := m_listStack[top].1;
        m_listStack := m_listStack[..top];
        var out := InsertHeader(m_out, p);
        if out == None {
          return false;
        }
        m_out := out.value;
        forest, ys := forest.Outer(), [List(forest.Inner().items + ys)];
        count := 1;
      }
      MidAtTop(m_out, m_listStack, forest, ys);
      forest := Forest(forest.done + ys, []);
      ValidIsMid();
      return true;
    }

    /** appendRaw: bytes that are already the encoding of some items. */
    method AppendRaw(s: Bytes, ghost xs: seq<Item>, itemCount: nat := 1) returns (ok: bool)
      requires Valid() && s == EncodeAll(xs) && itemCount == |xs|
      modifies this
      ensures ok <==> Noted(old(forest), xs).Some?
      ensures ok ==> Valid() && forest == Noted(old(forest), xs).value
    {
      hide *;
      ValidIsMid();
      MidAppended(m_out, m_listStack, forest, s, xs);
      m_out := m_out + s;
      ok := NoteAppended(itemCount, xs);
    }

    /** appendList(n): opens a list for n items; a list of none is written at once. */
    method AppendList(items: nat) returns (ok: bool)
      requires Valid()
      modifies this
      ensures items == 0 ==> (ok <==> Noted(old(forest), [List([])]).Some?)
      ensures items == 0 && ok ==> Valid() && forest == Noted(old(forest), [List([])]).value
      ensures items > 0 ==> ok && Valid() && forest == Forest(old(forest).done, old(forest).open + [Open(items, [])])
    {
      if items != 0 {
        m_listStack := m_listStack + [(items, |m_out|)];
        forest := Forest(forest.done, forest.open + [Open(items, [])]);
        assert forest.Outer().open == old(forest).open;
        return true;
      }
      ok := AppendListOf([], []);
    }

    /** appendList(bytes): a whole list given by its payload. */
    method AppendListOf(rlp: Bytes, ghost xs: seq<Item>) returns (ok: bool)
      requires Valid() && rlp == EncodeAll(xs) && |rlp| < PAYLOAD_LIMIT
      modifies this
      ensures ok <==> Noted(old(forest), [List(xs)]).Some?
      ensures ok ==> Valid() && forest == Noted(old(forest), [List(xs)]).value
    {
      hide *;
      ValidIsMid();
      Constants();
      OneList(xs);
      MidAppended(m_out, m_listStack, forest, Header(LIST_START, |rlp|) + rlp, [List(xs)]);
      if |rlp| < IMMEDIATE {
        m_out := m_out + [|rlp| + LIST_START];
      } else {
        PushCount(|rlp|, LIST_START);
      }
      m_out := m_out + rlp;
      assert m_out == old(m_out) + (Header(LIST_START, |rlp|) + rlp);
      ok := NoteAppended(1, [List(xs)]);
    }

    /** append(bytes): a string, written as itself if it is one small byte. */
    method Append(s: Bytes) returns (ok: bool)
      requires Valid() && |s| < PAYLOAD_LIMIT
      modifies this
      ensures ok <==> Noted(old(forest), [Str(s)]).Some?
      ensures ok ==> Valid() && forest == Noted(old(forest), [Str(s)]).value
    {
      hide *;
      ValidIsMid();
      Constants();
      OneString(s);
      MidAppended(m_out, m_listStack, forest, EncodeAll([Str(s)]), [Str(s)]);
      if |s| == 1 && s[0] < DATA_START {
        m_out := m_out + [s[0]];
      } else {
        if |s| < IMMEDIATE {
          m_out := m_out + [|s| + DATA_START];
        } else {
          PushCount(|s|, DATA_START);
        }
        assert m_out == old(m_out) + Header(DATA_START, |s|);
        Behind(old(m_out), Header(DATA_START, |s|), s);
        m_out := m_out + s;
      }
      ok := NoteAppended(1, [Str(s)]);
    }

    /** append(bytes, compact): leading zeros are dropped first. */
    method AppendCompact(s: Bytes) returns (ok: bool)
      requires Valid() && |s| < PAYLOAD_LIMIT
      modifies this
      ensures ok <==> Noted(old(forest), [Str(ToBigEndian(FromBigEndian(s)))]).Some?
      ensures ok ==> Valid() && forest == Noted(old(forest), [Str(ToBigEndian(FromBigEndian(s)))]).value
    {
      var i := 0;
      while i < |s| && s[i] == 0
        invariant i <= |s|
        invariant s[..i] == Zeros(i)
      {
        i := i + 1;
      }
      assert s == Zeros(i) + s[i..];
      FromBigEndianPadded(i, s[i..]);
      CompactRoundTrip(s[i..]);
      ok := Append(s[i..]);
    }

    /** append(bigint): the compact big-endian bytes as a string. */
    method AppendInt(n: nat) returns (ok: bool)
      requires Valid() && |ToBigEndian(n)| < PAYLOAD_LIMIT
      modifies this
      ensures ok <==> Noted(old(forest), [Str(ToBigEndian(n))]).Some?
      ensures ok ==> Valid() && forest == Noted(old(forest), [Str(ToBigEndian(n))]).value
    {
      hide *;
      ValidIsMid();
      Constants();
      OneInt(n);
      MidAppended(m_out, m_listStack, forest, EncodeAll([Str(ToBigEndian(n))]), [Str(ToBigEndian(n))]);
      if n == 0 {
        m_out := m_out + [DATA_START];
      } else if n < DATA_START {
        m_out := m_out + [n];
      } else {
        var br := BytesRequired(n);
        if br < IMMEDIATE {
          m_out := m_out + [br + DATA_START];
        } else {
          PushCount(br, DATA_START);
        }
        PushInt(n, br);
        assert m_out == old(m_out) + (Header(DATA_START, br) + ToBigEndian(n));
      }
      ok := NoteAppended(1, [Str(ToBigEndian(n))]);
    }

    /** pushCount: the header of a long payload; a 64-bit count never makes the first byte overflow. */
    method PushCount(count: nat, start: Byte)
      requires IMMEDIATE <= count < PAYLOAD_LIMIT && start in {DATA_START, LIST_START}
      modifies this`m_out
      ensures m_out == old(m_out) + Header(start, count)
    {
      var br := BytesRequired(count);
      LongPayload(count);
      m_out := m_out + [br + start + IMMEDIATE - 1];
      PushInt(count, br);
    }

    method PushInt(n: nat, br: nat)
      requires br == |ToBigEndian(n)|
      modifies this`m_out
      ensures m_out == old(m_out) + ToBigEndian(n)
    {
      var grown := m_out + seq(br, _ => 0);
      m_out := WriteBackwards(grown, |grown| - 1, n);
    }

    /** out(): the bytes, once no list is open. */
    method Out() returns (r: Option<Bytes>)
      requires Valid()
      ensures r == if forest.open == [] then Some(EncodeAll(forest.done)) else None
    {
      return if m_listStack == [] then Some(m_out) else None;
    }
  }
}
