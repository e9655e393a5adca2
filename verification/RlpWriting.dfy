/** Whole runs of an RLPStream: which sequences of calls write an item, and that they then write its encoding. */
module RlpWriting {
  import opened CommonData
  import opened Rlp
  import opened RlpStream

  /** Calls on a stream: append a string, appendList a count, appendRaw the encodings of some items. */
  datatype Call = Put(data: Bytes) | Start(count: nat) | Copy(items: seq<Item>)

  /** What one call makes of what a stream holds; None where it throws. */
  function Called(f: Forest, c: Call): Option<Forest> {
    match c
    case Put(d) => Noted(f, [Str(d)])
    case Start(n) => if n == 0 then Noted(f, [List([])]) else Some(Forest(f.done, f.open + [Open(n, [])]))
    case Copy(xs) => Noted(f, xs)
  }

  function Run(f: Forest, cs: seq<Call>): Option<Forest> {
    if cs == [] then Some(f)
    else match Run(f, cs[..|cs| - 1])
      case None => None
      case Some(g) => Called(g, cs[|cs| - 1])
  }

  /** The calls that write an item from the outside in, as operator<< on nested data does. */
  function Preorder(x: Item): seq<Call>
    decreases x
  {
    match x
    case Str(d) => [Put(d)]
    case List(xs) => [Start(|xs|)] + PreorderAll(xs)
  }

  function PreorderAll(xs: seq<Item>): seq<Call>
    decreases xs
  {
    if xs == [] then [] else Preorder(xs[0]) + PreorderAll(xs[1..])
  }

  /** Runs without copies, where each copied item is written out instead. */
  function Plain(cs: seq<Call>): seq<Call> {
    if cs == [] then []
    else
      var last := cs[|cs| - 1];
      Plain(cs[..|cs| - 1]) + if last.Copy? then PreorderAll(last.items) else [last]
  }

  /** The calls that lead to what a stream holds. */
  function Trace(f: Forest): seq<Call>
    decreases |f.open|
  {
    if f.open == [] then PreorderAll(f.done)
    else Trace(f.Outer()) + [Start(f.Inner().wanted + |f.Inner().items|)] + PreorderAll(f.Inner().items)
  }

  lemma {:induction false} PreorderAllConcat(xs: seq<Item>, ys: seq<Item>)
    ensures PreorderAll(xs + ys) == PreorderAll(xs) + PreorderAll(ys)
  {
    hide Preorder;
    if xs == [] {
      assert xs + ys == ys;
    } else {
      PreorderAllConcat(xs[1..], ys);
      assert (xs + ys)[1..] == xs[1..] + ys && (xs + ys)[0] == xs[0];
      var a, b, c := Preorder(xs[0]), PreorderAll(xs[1..]), PreorderAll(ys);
      assert a + (b + c) == (a + b) + c;
    }
  }

  lemma PreorderOne(x: Item)
    ensures PreorderAll([x]) == Preorder(x)
  {
    assert [x][1..] == [];
  }

  // ------------------------------------------------------------------ Every run is a preorder

  lemma InnerTrace(f: Forest)
    requires f.open != []
    ensures Trace(f) == Trace(f.Outer()) + [Start(f.Inner().wanted + |f.Inner().items|)] + PreorderAll(f.Inner().items)
    ensures Wanting(f) ==> Wanting(f.Outer()) && f.Inner().wanted > 0
  {
    assert f.Inner() in f.open;
  }

  /** The innermost list with more items in it, whether it still wants some or not. */
  lemma TraceGrown(f: Forest, xs: seq<Item>)
    requires f.open != [] && f.Inner().wanted >= |xs|
    ensures Trace(f) + PreorderAll(xs)
         == Trace(f.Outer()) + [Start(f.Inner().wanted + |f.Inner().items|)] + PreorderAll(f.Inner().items + xs)
  {
    hide Trace, PreorderAll;
    InnerTrace(f);
    PreorderAllConcat(f.Inner().items, xs);
  }

  lemma StillOpenTrace(f: Forest, xs: seq<Item>)
    requires f.open != [] && f.Inner().wanted > |xs| && Wanting(f)
    ensures Wanting(StillOpen(f, xs)) && Trace(StillOpen(f, xs)) == Trace(f) + PreorderAll(xs)
  {
    hide Trace, PreorderAll;
    var g := StillOpen(f, xs);
    assert g.Outer() == f.Outer() && g.Inner() == Open(f.Inner().wanted - |xs|, f.Inner().items + xs);
    InnerTrace(g);
    TraceGrown(f, xs);
  }

  lemma {:induction false} NotedTrace(f: Forest, xs: seq<Item>)
    requires Wanting(f) && Noted(f, xs).Some?
    ensures Wanting(Noted(f, xs).value) && Trace(Noted(f, xs).value) == Trace(f) + PreorderAll(xs)
    decreases |f.open|
  {
    hide Preorder, EncodeAll, Wanting;
    if xs == [] {
    } else if f.open == [] {
      AtTopTrace(f, xs);
    } else {
      hide Trace, PreorderAll;
      var items := f.Inner().items + xs;
      if f.Inner().wanted > |xs| {
        StillOpenTrace(f, xs);
      } else {
        InnerTrace(f);
        NotedTrace(f.Outer(), [List(items)]);
        TraceGrown(f, xs);
        ListTrace(Trace(f.Outer()), items);
      }
    }
  }

  lemma AtTopTrace(f: Forest, xs: seq<Item>)
    requires f.open == []
    ensures Wanting(Forest(f.done + xs, [])) && Trace(Forest(f.done + xs, [])) == Trace(f) + PreorderAll(xs)
  {
    PreorderAllConcat(f.done, xs);
  }

  lemma ListTrace(before: seq<Call>, items: seq<Item>)
    ensures before + PreorderAll([List(items)]) == before + [Start(|items|)] + PreorderAll(items)
  {
    PreorderOne(List(items));
  }

  lemma {:induction false} RunTrace(cs: seq<Call>)
    requires Run(EMPTY_FOREST, cs).Some?
    ensures var f := Run(EMPTY_FOREST, cs).value; Wanting(f) && Trace(f) == Plain(cs)
  {
    if cs != [] {
      var front, last := cs[..|cs| - 1], cs[|cs| - 1];
      RunTrace(front);
      var g := Run(EMPTY_FOREST, front).value;
      CalledTrace(g, last);
    }
  }

  lemma CalledTrace(g: Forest, c: Call)
    requires Wanting(g) && Called(g, c).Some?
    ensures var f := Called(g, c).value;
            Wanting(f) && Trace(f) == Trace(g) + if c.Copy? then PreorderAll(c.items) else [c]
  {
    match c
    case Put(d) =>
      NotedTrace(g, [Str(d)]);
      PreorderOne(Str(d));
    case Copy(xs) => NotedTrace(g, xs);
    case Start(n) =>
      if n == 0 {
        NotedTrace(g, [List([])]);
        PreorderOne(List([]));
        assert Preorder(List([])) == [Start(0)];
      } else {
        var f := Forest(g.done, g.open + [Open(n, [])]);
        assert f.Outer() == g && f.Inner() == Open(n, []);
        assert Trace(f) == Trace(g) + [Start(n)] + PreorderAll([]);
      }
  }

  // ------------------------------------------------------------------ Every preorder runs

  lemma {:induction false} RunConcat(f: Forest, a: seq<Call>, b: seq<Call>)
    ensures Run(f, a + b) == match Run(f, a)
      case None => None
      case Some(g) => Run(g, b)
  {
    if b == [] {
      assert a + b == a;
    } else {
      RunConcat(f, a, b[..|b| - 1]);
      assert (a + b)[..|a + b| - 1] == a + b[..|b| - 1];
    }
  }

  lemma RunOne(f: Forest, c: Call)
    ensures Run(f, [c]) == Called(f, c)
  {
    assert [c][..0] == [];
    assert Run(f, []) == Some(f);
  }

  lemma {:induction false} RunPreorder(f: Forest, x: Item)
    requires |Encode(x)| < PAYLOAD_LIMIT
    ensures Run(f, Preorder(x)) == Noted(f, [x])
    decreases x, 0
  {
    match x
    case Str(d) => RunOne(f, Put(d));
    case List(xs) =>
      RunConcat(f, [Start(|xs|)], PreorderAll(xs));
      RunOne(f, Start(|xs|));
      if xs == [] {
        assert [Start(0)] + PreorderAll([]) == [Start(0)];
      } else {
        EncodedAtLeastPayload(x);
        assert [] + xs == xs;
        RunInside(f, [], xs);
      }
  }

  /** Writing the rest of an open list closes it. */
  lemma {:induction false} RunInside(f: Forest, before: seq<Item>, xs: seq<Item>)
    requires xs != [] && |EncodeAll(before + xs)| < PAYLOAD_LIMIT
    ensures Run(Forest(f.done, f.open + [Open(|xs|, before)]), PreorderAll(xs)) == Noted(f, [List(before + xs)])
    decreases xs, 1
  {
    hide Preorder, Encode, EncodeAll;
    var g := Forest(f.done, f.open + [Open(|xs|, before)]);
    assert g.Outer() == f && g.Inner() == Open(|xs|, before);
    OneOf(before, xs);
    RunPreorder(g, xs[0]);
    RunConcat(g, Preorder(xs[0]), PreorderAll(xs[1..]));
    assert before + [xs[0]] + xs[1..] == before + xs;
    if |xs| == 1 {
      assert before + [xs[0]] == before + xs;
      NotedLast(f, before, xs[0]);
      assert Preorder(xs[0]) + [] == Preorder(xs[0]);
    } else {
      NotedMore(f, |xs|, before, xs[0]);
      RunInside(f, before + [xs[0]], xs[1..]);
    }
  }

  lemma OneOf(before: seq<Item>, xs: seq<Item>)
    requires xs != []
    ensures |Encode(xs[0])| <= |EncodeAll(before + xs)|
  {
    EncodeAllConcat(before, xs);
    assert EncodeAll(xs) == Encode(xs[0]) + EncodeAll(xs[1..]);
  }

  lemma NotedLast(f: Forest, before: seq<Item>, x: Item)
    requires |EncodeAll(before + [x])| < PAYLOAD_LIMIT
    ensures Noted(Forest(f.done, f.open + [Open(1, before)]), [x]) == Noted(f, [List(before + [x])])
  {
    hide EncodeAll;
    var g := Forest(f.done, f.open + [Open(1, before)]);
    assert g.Outer() == f && g.Inner() == Open(1, before);
  }

  lemma NotedMore(f: Forest, wanted: nat, before: seq<Item>, x: Item)
    requires wanted > 1
    ensures Noted(Forest(f.done, f.open + [Open(wanted, before)]), [x])
         == Some(Forest(f.done, f.open + [Open(wanted - 1, before + [x])]))
  {
    hide EncodeAll;
    var g := Forest(f.done, f.open + [Open(wanted, before)]);
    assert g.Outer() == f && g.Inner() == Open(wanted, before);
    assert g.open[..|g.open| - 1] == f.open;
  }

  // ------------------------------------------------------------------ Both directions

  lemma {:induction false} PreorderInjective(x: Item, y: Item, a: seq<Call>, b: seq<Call>)
    requires Preorder(x) + a == Preorder(y) + b
    ensures x == y && a == b
    decreases x
  {
    assert (Preorder(x) + a)[0] == Preorder(x)[0] && (Preorder(y) + b)[0] == Preorder(y)[0];
    if x.List? {
      assert |x.items| == |y.items|;
      assert (Preorder(x) + a)[1..] == PreorderAll(x.items) + a;
      assert (Preorder(y) + b)[1..] == PreorderAll(y.items) + b;
      PreorderAllInjective(x.items, y.items, a, b);
    } else {
      assert (Preorder(x) + a)[1..] == a && (Preorder(y) + b)[1..] == b;
    }
  }

  lemma {:induction false} PreorderAllInjective(xs: seq<Item>, ys: seq<Item>, a: seq<Call>, b: seq<Call>)
    requires |xs| == |ys| && PreorderAll(xs) + a == PreorderAll(ys) + b
    ensures xs == ys && a == b
    decreases xs
  {
    hide Preorder;
    if xs == [] {
      assert PreorderAll(xs) + a == a && PreorderAll(ys) + b == b;
    } else {
      var a', b' := PreorderAll(xs[1..]) + a, PreorderAll(ys[1..]) + b;
      assert PreorderAll(xs) + a == Preorder(xs[0]) + a' && PreorderAll(ys) + b == Preorder(ys[0]) + b';
      PreorderInjective(xs[0], ys[0], a', b');
      PreorderAllInjective(xs[1..], ys[1..], a, b);
      assert xs == [xs[0]] + xs[1..] && ys == [ys[0]] + ys[1..];
    }
  }

  /** A run from an empty stream ends with just the item x and nothing open exactly if it wrote x in preorder. */
  lemma RunsAreItems(cs: seq<Call>, x: Item)
    requires |Encode(x)| < PAYLOAD_LIMIT && forall c <- cs :: !c.Copy?
    ensures Run(EMPTY_FOREST, cs) == Some(Forest([x], [])) <==> cs == Preorder(x)
  {
    hide Preorder, Encode;
    RunPreorder(EMPTY_FOREST, x);
    assert EMPTY_FOREST.done + [x] == [x];
    if Run(EMPTY_FOREST, cs) == Some(Forest([x], [])) {
      RunTrace(cs);
      PreorderOne(x);
      PlainItself(cs);
    }
  }

  lemma {:induction false} PlainItself(cs: seq<Call>)
    requires forall c <- cs :: !c.Copy?
    ensures Plain(cs) == cs
  {
    if cs != [] {
      var front, last := cs[..|cs| - 1], cs[|cs| - 1];
      assert cs == front + [last] && last in cs;
      assert forall c <- front :: c in cs;
      PlainItself(front);
    }
  }

  // ------------------------------------------------------------------ On the stream itself

  /** Makes the calls one after the other, stopping where one throws. */
  method Play(rlp: RLPStream, cs: seq<Call>) returns (ok: bool)
    requires rlp.Valid()
    requires forall c <- cs :: c.Put? ==> |c.data| < PAYLOAD_LIMIT
    modifies rlp
    ensures ok <==> Run(old(rlp.forest), cs).Some?
    ensures ok ==> rlp.Valid() && rlp.forest == Run(old(rlp.forest), cs).value
  {
    hide *;
    ghost var f := rlp.forest;
    RunNone(f);
    for i := 0 to |cs|
      invariant rlp.Valid() && Run(f, cs[..i]) == Some(rlp.forest)
    {
      RunStep(f, cs, i);
      CalledIs(rlp.forest, cs[i]);
      match cs[i] {
        case Put(d) => ok := rlp.Append(d);
        case Start(n) => ok := rlp.AppendList(n);
        case Copy(xs) => ok := rlp.AppendRaw(EncodeAll(xs), xs, |xs|);
      }
      if !ok {
        RunFails(f, cs, i + 1);
        return false;
      }
    }
    assert cs[..|cs|] == cs;
    return true;
  }

  lemma RunNone(f: Forest)
    ensures Run(f, []) == Some(f)
  {
  }

  lemma CalledIs(f: Forest, c: Call)
    ensures c.Put? ==> Called(f, c) == Noted(f, [Str(c.data)])
    ensures c.Start? && c.count == 0 ==> Called(f, c) == Noted(f, [List([])])
    ensures c.Start? && c.count > 0 ==> Called(f, c) == Some(Forest(f.done, f.open + [Open(c.count, [])]))
    ensures c.Copy? ==> Called(f, c) == Noted(f, c.items)
  {
  }

  lemma RunStep(f: Forest, cs: seq<Call>, i: nat)
    requires i < |cs| && Run(f, cs[..i]).Some?
    ensures Run(f, cs[..i + 1]) == Called(Run(f, cs[..i]).value, cs[i])
  {
    assert cs[..i + 1][..i] == cs[..i];
  }

  lemma {:induction false} RunFails(f: Forest, cs: seq<Call>, i: nat)
    requires i <= |cs| && Run(f, cs[..i]) == None
    ensures Run(f, cs) == None
  {
    RunConcat(f, cs[..i], cs[i..]);
    assert cs[..i] + cs[i..] == cs;
  }

  /** Written call by call, an item comes out as its recursive encoding. */
  method Write(x: Item) returns (r: Bytes)
    requires |Encode(x)| < PAYLOAD_LIMIT
    ensures r == Encode(x)
  {
    hide *;
    var rlp := new RLPStream();
    StringsFit(x);
    RunPreorder(EMPTY_FOREST, x);
    EncodeAllOne(x);
    NotedAtTop(x);
    var ok := Play(rlp, Preorder(x));
    var out := rlp.Out();
    r := out.value;
  }

  lemma NotedAtTop(x: Item)
    ensures Noted(EMPTY_FOREST, [x]) == Some(Forest([x], []))
  {
    assert EMPTY_FOREST.done + [x] == [x];
  }

  lemma {:induction false} StringsFit(x: Item)
    requires |Encode(x)| < PAYLOAD_LIMIT
    ensures forall c <- Preorder(x) :: c.Put? ==> |c.data| < PAYLOAD_LIMIT
    decreases x
  {
    EncodedAtLeastPayload(x);
    if x.List? {
      AllStringsFit(x.items);
    }
  }

  lemma {:induction false} AllStringsFit(xs: seq<Item>)
    requires |EncodeAll(xs)| < PAYLOAD_LIMIT
    ensures forall c <- PreorderAll(xs) :: c.Put? ==> |c.data| < PAYLOAD_LIMIT
    decreases xs
  {
    hide Preorder, Encode;
    if xs != [] {
      StringsFit(xs[0]);
      AllStringsFit(xs[1..]);
    }
  }
}
