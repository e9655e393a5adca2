/** The RLP class: a view of bytes with a cache of the last list item looked up. */
module RlpReader {
  import opened CommonData
  import opened Rlp

  const SIZE_MAX := 0x1_0000_0000_0000_0000 - 1

  /** The items of a list payload as views, without looking inside them; None where the reader throws. */
  function Split(p: Bytes): (views: Option<seq<Bytes>>)
    ensures views.Some? ==> |views.value| <= |p|
  {
    if p == [] then Some([])
    else match SizeAsEncoded(p)
      case None => None
      case Some(n) =>
        match Split(p[n..])
        case None => None
        case Some(rest) => Some([p[..n]] + rest)
  }

  predicate IsList(d: Bytes) {
    d != [] && d[0] >= LIST_START
  }

  /** The views of the items of d, if d is a list whose payload splits. */
  function Views(d: Bytes): Option<seq<Bytes>> {
    match Payload(d)
    case None => None
    case Some(p) => Split(p)
  }

  /** Where view i begins in the payload. */
  function Offset(views: seq<Bytes>, i: nat): nat
    requires i <= |views|
  {
    if i == 0 then 0 else |views[0]| + Offset(views[1..], i - 1)
  }

  function EncodeEach(xs: seq<Item>): seq<Bytes> {
    if xs == [] then [] else [Encode(xs[0])] + EncodeEach(xs[1..])
  }

  lemma {:induction false} EncodeEachAt(xs: seq<Item>, i: nat)
    requires i < |xs|
    ensures |EncodeEach(xs)| == |xs| && EncodeEach(xs)[i] == Encode(xs[i])
  {
    if i > 0 {
      EncodeEachAt(xs[1..], i - 1);
    } else if |xs| > 1 {
      EncodeEachAt(xs[1..], 0);
    }
  }

  lemma {:induction false} SplitOfEncodings(xs: seq<Item>)
    requires |EncodeAll(xs)| < SIZE_LIMIT
    ensures Split(EncodeAll(xs)) == Some(EncodeEach(xs))
  {
    if xs != [] {
      EncodedAtLeastPayload(xs[0]);
      hide Encode, PayloadOf, SizeAsEncoded;
      var e, rest := Encode(xs[0]), EncodeAll(xs[1..]);
      EncodedSize(xs[0], rest);
      SplitOfEncodings(xs[1..]);
      assert (e + rest)[..|e|] == e && (e + rest)[|e|..] == rest;
    }
  }

  /** On a fully readable list the views are the encodings of its items. */
  lemma ViewsOfWalked(d: Bytes, xs: seq<Item>)
    requires Walk(d) == Some(List(xs))
    ensures Views(d) == Some(EncodeEach(xs)) && |EncodeEach(xs)| == |xs|
    ensures forall i :: 0 <= i < |xs| ==> Walk(EncodeEach(xs)[i]) == Some(xs[i])
  {
    WalkThenEncode(d);
    EncodedSize(List(xs), []);
    hide Encode, Payload, Walk, Split;
    SplitOfEncodings(xs);
    if xs != [] {
      EncodeEachAt(xs, 0);
    }
    forall i | 0 <= i < |xs| ensures Walk(EncodeEach(xs)[i]) == Some(xs[i]) {
      EncodeEachAt(xs, i);
      ItemFits(xs, i);
      EncodeThenWalk(xs[i]);
    }
  }

  lemma {:induction false} ItemFits(xs: seq<Item>, i: nat)
    requires i < |xs| && |EncodeAll(xs)| < SIZE_LIMIT
    ensures Fits(xs[i])
  {
    EncodedAtLeastPayload(xs[0]);
    hide Encode;
    if i > 0 {
      ItemFits(xs[1..], i - 1);
    }
  }

  // ------------------------------------------------------------------ Facts about splitting

  lemma {:induction false} OffsetStep(views: seq<Bytes>, i: nat)
    requires i < |views|
    ensures Offset(views, i + 1) == Offset(views, i) + |views[i]|
  {
    if i > 0 {
      OffsetStep(views[1..], i - 1);
    }
  }

  /** An item cut off behind its own end measures the same. */
  lemma SizeOfPrefix(d: Bytes, n: nat)
    requires SizeAsEncoded(d) == Some(n)
    ensures SizeAsEncoded(d[..n]) == Some(n)
  {
    var k := LengthSize(d);
    if d != [] && k > 0 {
      assert n >= 1 + k;
      assert d[..n][1..k + 1] == d[1..k + 1];
    }
  }

  // ------------------------------------------------------------------ Payloads that stop being readable

  /** The views of the items before the first that cannot be measured. */
  function Front(p: Bytes): (views: seq<Bytes>)
    ensures |views| <= |p|
  {
    if p == [] || SizeAsEncoded(p) == None then []
    else var n := SizeAsEncoded(p).value; [p[..n]] + Front(p[n..])
  }

  /** Where they end. */
  function FrontEnd(p: Bytes): nat { Offset(Front(p), |Front(p)|) }

  /** The payload is read to its end. */
  predicate Splits(p: Bytes) { FrontEnd(p) == |p| }

  lemma {:induction false} FrontIs(p: Bytes)
    ensures Split(p).Some? <==> Splits(p)
    ensures Split(p).Some? ==> Split(p) == Some(Front(p))
    ensures FrontEnd(p) <= |p|
    ensures !Splits(p) ==> SizeAsEncoded(p[FrontEnd(p)..]) == None
    decreases |p|
  {
    hide SizeAsEncoded;
    if p != [] && SizeAsEncoded(p).Some? {
      var n := SizeAsEncoded(p).value;
      FrontIs(p[n..]);
      assert Front(p)[1..] == Front(p[n..]);
      assert FrontEnd(p) == n + FrontEnd(p[n..]);
      assert p[n..][FrontEnd(p[n..])..] == p[FrontEnd(p)..];
    } else if p != [] {
      assert p[0..] == p;
    }
  }

  lemma {:induction false} FrontFrom(p: Bytes, i: nat)
    requires i <= |Front(p)|
    ensures Offset(Front(p), i) <= |p| && Front(p[Offset(Front(p), i)..]) == Front(p)[i..]
  {
    hide SizeAsEncoded;
    if i == 0 {
      assert p[0..] == p;
    } else {
      var n := |Front(p)[0]|;
      assert Front(p)[1..] == Front(p[n..]);
      FrontFrom(p[n..], i - 1);
      assert p[n..][Offset(Front(p[n..]), i - 1)..] == p[Offset(Front(p), i)..];
      assert Front(p[n..])[i - 1..] == Front(p)[i..];
    }
  }

  /** At the offset of view i the reader measures just that view; behind the last it measures nothing, or throws. */
  lemma FrontStep(p: Bytes, i: nat)
    requires i <= |Front(p)|
    ensures var at := Offset(Front(p), i);
            if i == |Front(p)| then
              at == FrontEnd(p) <= |p| && SizeAsEncoded(p[at..]) == (if Splits(p) then Some(0) else None)
            else
              var view := Front(p)[i];
              && at + |view| == Offset(Front(p), i + 1) <= |p| && |view| > 0
              && SizeAsEncoded(p[at..]) == Some(|view|) && SizeAsEncoded(view) == Some(|view|)
              && view == p[at..at + |view|]
  {
    hide *;
    FrontFrom(p, i);
    FrontIs(p);
    FrontEndIs(p);
    var at := Offset(Front(p), i);
    var tail := p[at..];
    FrontHead(tail);
    if i < |Front(p)| {
      OffsetStep(Front(p), i);
      assert Front(p)[i..][0] == Front(p)[i] == Front(tail)[0];
      assert tail[..|Front(p)[i]|] == p[at..at + |Front(p)[i]|];
      SizeOfPrefix(tail, |Front(p)[i]|);
    }
  }

  lemma FrontEndIs(p: Bytes)
    ensures FrontEnd(p) == Offset(Front(p), |Front(p)|) && (Splits(p) <==> FrontEnd(p) == |p|)
  {
    hide Offset, Front;
  }

  lemma FrontHead(p: Bytes)
    ensures Front(p) != [] ==>
              var n := |Front(p)[0]|; 0 < n <= |p| && SizeAsEncoded(p) == Some(n) && Front(p)[0] == p[..n]
    ensures p == [] ==> SizeAsEncoded(p) == Some(0)
  {
    hide Length, PayloadOffset;
  }

  /** At the offset of view i the reader measures just that view; past the last view nothing is left. */
  lemma SplitStep(p: Bytes, i: nat)
    requires Split(p).Some? && i <= |Split(p).value|
    ensures var views := Split(p).value;
            var at := Offset(views, i);
            if i == |views| then at == |p| && SizeAsEncoded([]) == Some(0)
            else
              && at + |views[i]| == Offset(views, i + 1) <= |p|
              && |views[i]| > 0
              && SizeAsEncoded(p[at..]) == Some(|views[i]|)
              && SizeAsEncoded(views[i]) == Some(|views[i]|)
              && views[i] == p[at..at + |views[i]|]
  {
    FrontIs(p);
    FrontStep(p, i);
  }

  /** All items can be viewed exactly if the payload is read to its end. */
  lemma FrontViews(d: Bytes)
    ensures Payload(d) == None ==> Views(d) == None
    ensures Payload(d).Some? ==> Views(d) == if Splits(Payload(d).value) then Some(Front(Payload(d).value)) else None
  {
    if Payload(d).Some? {
      FrontIs(Payload(d).value);
    }
    hide Payload, Split, Splits;
  }

  // ------------------------------------------------------------------ The loops of the reader

  /** The loop of length() over the bytes of a long length. */
  method ReadLength(d: Bytes) returns (n: Option<nat>)
    ensures n == Length(d)
  {
    if d == [] {
      return Some(0);
    }
    if !Good(d) {
      return None;
    }
    if d[0] < DATA_START {
      return Some(1);
    }
    var lengthSize := LengthSize(d);
    if lengthSize == 0 {
      return Some(d[0] - if d[0] < LIST_START then DATA_START else LIST_START);
    }
    if |d| <= lengthSize || d[1] == 0 {
      return None;
    }
    var ret := 0;
    for i := 0 to lengthSize
      invariant ret == FromBigEndian(d[1..i + 1])
    {
      assert d[1..i + 2][..i] == d[1..i + 1];
      ret := ret * 256 + d[i + 1];
    }
    if ret < IMMEDIATE || ret >= SIZE_LIMIT {
      return None;
    }
    return Some(ret);
  }

  /** Begin and length of a part of some bytes: a pointer and a count. */
  datatype View = View(begin: nat, count: nat) {
    predicate In(d: Bytes) { begin + count <= |d| }
    function Of(d: Bytes): Bytes
      requires In(d)
    { d[begin..begin + count] }
  }

  /** What is behind the last readable item, left where that item should be by an access that threw. */
  predicate Spoilt(p: Bytes, index: nat, item: Bytes) {
    index + 1 == |Front(p)| && FrontEnd(p) < |p| && item == p[FrontEnd(p)..]
  }

  /** The cache holds the item at its index, or what spoilt it, or nothing once it has run past the end or was never used. */
  ghost predicate CacheHolds(p: Bytes, index: nat, end: nat, item: Bytes) {
    if index < |Front(p)| then
      end == Offset(Front(p), index + 1) && (item == Front(p)[index] || Spoilt(p, index, item))
    else
      item == [] && (index == SIZE_MAX || (index == |Front(p)| && Splits(p) && end == |p|))
  }

  lemma CacheFirst(p: Bytes)
    requires |p| < SIZE_MAX
    ensures match SizeAsEncoded(p)
            case None => Front(p) == [] && !Splits(p)
            case Some(n) =>
              && CacheHolds(p, 0, n, Cropped(p, 0, n)) && !Spoilt(p, 0, Cropped(p, 0, n))
              && (Front(p) == [] ==> Splits(p))
  {
    FrontStep(p, 0);
    assert p[0..] == p;
    hide SizeAsEncoded;
    if Front(p) != [] {
      NotSpoilt(p, 0);
    }
  }

  /** A readable item is not what spoils the cache. */
  lemma NotSpoilt(p: Bytes, index: nat)
    requires index < |Front(p)|
    ensures !Spoilt(p, index, Front(p)[index])
  {
    FrontStep(p, index);
    FrontIs(p);
  }

  lemma CacheNext(p: Bytes, index: nat, end: nat, item: Bytes)
    requires |p| < SIZE_MAX && CacheHolds(p, index, end, item) && item != []
    ensures index < |Front(p)| && index + 1 < SIZE_MAX && end <= |p|
    ensures match SizeAsEncoded(p[end..])
            case None => Spoilt(p, index, p[end..]) && CacheHolds(p, index, end, p[end..])
            case Some(n) =>
              var next := Cropped(p[end..], 0, n);
              CacheHolds(p, index + 1, end + |next|, next) && !Spoilt(p, index + 1, next)
  {
    hide SizeAsEncoded, Front, Offset, Split;
    FrontStep(p, index);
    FrontStep(p, index + 1);
    FrontIs(p);
    if index + 1 < |Front(p)| {
      NotSpoilt(p, index + 1);
      assert p[end..][0..|Front(p)[index + 1]|] == p[end..end + |Front(p)[index + 1]|];
    } else if Splits(p) {
      assert p[end..] == [];
    }
  }

  /** Where the loop of operator[] stops, the cached item is the one asked for, or is spoilt. */
  lemma CacheItem(p: Bytes, index: nat, end: nat, item: Bytes, i: nat)
    requires |p| < SIZE_MAX && i <= SIZE_MAX && CacheHolds(p, index, end, item)
    requires index == i || (item == [] && index < i)
    ensures |Front(p)| <= |p|
    ensures if Spoilt(p, index, item) then SizeAsEncoded(item) == None && i + 1 == |Front(p)| == index + 1
            else SizeAsEncoded(item).Some? && item == (if i < |Front(p)| then Front(p)[i] else [])
    ensures i >= |Front(p)| ==> index == SIZE_MAX == i || Splits(p)
  {
    assert SizeAsEncoded([]) == Some(0);
    FrontIs(p);
    if index < |Front(p)| {
      FrontStep(p, index);
      NotSpoilt(p, index);
    }
  }

  lemma PayloadViews(d: Bytes)
    ensures match Payload(d)
      case None => Views(d) == None
      case Some(p) => Views(d) == Split(p) && |p| <= |d|
  {
  }

  class RLP {
    const m_data: Bytes
    var m_lastIndex: nat
    var m_lastEnd: nat
    var m_lastItem: Bytes

    constructor (d: Bytes)
      requires |d| < SIZE_MAX
      ensures m_data == d && CacheAgrees() && Unused()
    {
      m_data := d;
      m_lastIndex, m_lastEnd, m_lastItem := SIZE_MAX, 0, [];
    }

    predicate Unused()
      reads this
    {
      m_lastIndex == SIZE_MAX
    }

    ghost predicate CacheAgrees()
      reads this
    {
      && |m_data| < SIZE_MAX
      && match Payload(m_data)
         case None => Unused() && m_lastItem == []
         case Some(p) => CacheHolds(p, m_lastIndex, m_lastEnd, m_lastItem)
    }

    /** An access that threw has left the last readable item unreadable. */
    predicate IsSpoilt()
      reads this
    {
      Payload(m_data).Some? && Spoilt(Payload(m_data).value, m_lastIndex, m_lastItem)
    }

    /**
     * operator[], on any bytes and however the cache was left: the item at i, or the null view past the end. It throws
     * where the payload cannot be read that far, and then, until an item before it is looked up, at the last item too.
     */
    method Index(i: nat) returns (r: Option<Bytes>)
      requires CacheAgrees() && i <= SIZE_MAX
      modifies this
      ensures CacheAgrees()
      ensures Payload(m_data) == None ==> r == if i < SIZE_MAX then None else Some([])
      ensures Payload(m_data).Some? ==>
                var p := Payload(m_data).value;
                && r == (if i < |Front(p)| then (if old(IsSpoilt()) && i + 1 == |Front(p)| then None else Some(Front(p)[i]))
                         else if Splits(p) || (i == SIZE_MAX && old(Unused())) then Some([]) else None)
                && (IsSpoilt() <==> r == None && Front(p) != [])
      ensures Views(m_data).Some? ==>
                var views := Views(m_data).value;
                r == Some(if i < |views| then views[i] else [])
    {
      hide *;
      var pl := Payload(m_data);
      IndexFacts();
      FrontViews(m_data);
      if i < m_lastIndex {
        if pl == None {
          return None;
        }
        CacheFirst(pl.value);
        var first := SizeAsEncoded(pl.value);
        if first == None {
          return None;
        }
        m_lastEnd, m_lastItem, m_lastIndex := first.value, Cropped(pl.value, 0, first.value), 0;
        MakeAgree();
      }
      while m_lastIndex < i && m_lastItem != []
        invariant CacheAgrees() && m_lastIndex <= i
        invariant IsSpoilt() ==> old(IsSpoilt())
        invariant old(IsSpoilt()) && i == old(m_lastIndex) ==> IsSpoilt()
        invariant old(Unused()) && i == SIZE_MAX ==> Unused()
        invariant Unused() ==> old(Unused())
        decreases i - m_lastIndex
      {
        IndexFacts();
        CacheNext(pl.value, m_lastIndex, m_lastEnd, m_lastItem);
        var chunk := pl.value[m_lastEnd..];
        m_lastItem := chunk;
        var size := SizeAsEncoded(chunk);
        if size == None {
          MakeAgree();
          return None;
        }
        var item := Cropped(chunk, 0, size.value);
        m_lastItem, m_lastEnd, m_lastIndex := item, m_lastEnd + |item|, m_lastIndex + 1;
        MakeAgree();
      }
      IndexFacts();
      if pl.Some? {
        CacheItem(pl.value, m_lastIndex, m_lastEnd, m_lastItem, i);
      }
      return if SizeAsEncoded(m_lastItem).Some? then Some(m_lastItem) else None;
    }

    lemma IndexFacts()
      requires CacheAgrees()
      ensures |m_data| < SIZE_MAX && SizeAsEncoded([]) == Some(0) && (Unused() <==> m_lastIndex == SIZE_MAX)
      ensures Payload(m_data) == None ==> m_lastIndex == SIZE_MAX && m_lastItem == [] && !IsSpoilt() && Views(m_data) == None
      ensures Payload(m_data).Some? ==>
                var p := Payload(m_data).value;
                && |p| < SIZE_MAX && CacheHolds(p, m_lastIndex, m_lastEnd, m_lastItem)
                && (IsSpoilt() <==> Spoilt(p, m_lastIndex, m_lastItem))
                && (IsSpoilt() ==> m_lastIndex + 1 == |Front(p)| && !Splits(p))
    {
      PayloadViews(m_data);
      hide Payload, Views;
    }

    lemma MakeAgree()
      requires |m_data| < SIZE_MAX && Payload(m_data).Some?
      requires CacheHolds(Payload(m_data).value, m_lastIndex, m_lastEnd, m_lastItem)
      ensures CacheAgrees() && (Unused() <==> m_lastIndex == SIZE_MAX)
      ensures IsSpoilt() <==> Spoilt(Payload(m_data).value, m_lastIndex, m_lastItem)
      ensures IsSpoilt() ==> m_lastIndex + 1 == |Front(Payload(m_data).value)| && !Splits(Payload(m_data).value)
    {
    }

    /** items(): the payload shrinks by one item a round. */
    method Items() returns (n: Option<nat>)
      ensures n == if !IsList(m_data) then Some(0)
                   else if Views(m_data).Some? then Some(|Views(m_data).value|) else None
    {
      if !IsList(m_data) {
        return Some(0);
      }
      var pl := Payload(m_data);
      if pl == None {
        return None;
      }
      var d := pl.value;
      var i := 0;
      while d != []
        invariant Split(pl.value).Some? <==> Split(d).Some?
        invariant Split(d).Some? ==> i + |Split(d).value| == |Split(pl.value).value|
        decreases |d|
      {
        var size := SizeAsEncoded(d);
        if size == None {
          return None;
        }
        d := d[size.value..];
        i := i + 1;
      }
      return Some(i);
    }
  }

  /** What the strict constructor lets through as a list: the item fills the bytes. */
  predicate Strict(d: Bytes) {
    IsList(d) ==> ActualSize(d) == Some(|d|)
  }

  /** The bytes the iterator goes over; nothing is not a list. */
  function Content(d: Bytes): Bytes {
    if IsList(d) && Payload(d).Some? then Payload(d).value else []
  }

  /** The iterator: the current item as a view of the parent's data, and what remains behind it. */
  class Iterator {
    const m_data: Bytes
    var m_currentItem: View
    var m_remaining: nat

    /** begin(), where it does not throw; the end iterator is the empty view at the end. */
    constructor Begin(d: Bytes)
      requires Strict(d) && SizeAsEncoded(Content(d)).Some?
      ensures m_data == d && AtItem(0)
    {
      m_data := d;
      if IsList(d) {
        var pl := Payload(d).value;
        var first := SizeAsEncoded(pl).value;
        m_currentItem := View(PayloadOffset(d), first);
        m_remaining := |pl| - first;
      } else {
        m_currentItem := View(|d|, 0);
        m_remaining := 0;
      }
      new;
      ContentPlace(d, 0);
      assert Content(d)[0..] == Content(d);
    }

    function End(): View { View(|m_data|, 0) }

    /** The iterator stands on item i, or at the end. */
    ghost predicate AtItem(i: nat)
      reads this
    {
      Strict(m_data) && StandsOn(Content(m_data), |m_data|, i, m_currentItem, m_remaining)
    }

    /** operator++ on item i: goes to the next, or to the end; false where it throws. */
    method Next(ghost i: nat) returns (ok: bool)
      requires AtItem(i) && i < |Front(Content(m_data))|
      modifies this
      ensures ok <==> i + 1 < |Front(Content(m_data))| || Splits(Content(m_data))
      ensures ok ==> AtItem(i + 1)
    {
      hide Strict, SizeAsEncoded, Offset, Content, Splits, Front;
      ContentPlace(m_data, i);
      ContentPlace(m_data, i + 1);
      var at := m_currentItem.begin + m_currentItem.count;
      if m_remaining > 0 {
        TailIsSlice(m_data, at, m_remaining);
        var size := SizeAsEncoded(View(at, m_remaining).Of(m_data));
        if size == None {
          return false;
        }
        m_currentItem := View(at, size.value);
        m_remaining := m_remaining - size.value;
      } else {
        m_currentItem := View(at, 0);
      }
      return true;
    }
  }

  ghost predicate StandsOn(p: Bytes, size: nat, i: nat, item: View, remaining: nat) {
    if i < |Front(p)| then
      && item.begin == size - |p| + Offset(Front(p), i)
      && item.count == |Front(p)[i]|
      && remaining + item.begin + item.count == size
    else i == |Front(p)| && Splits(p) && item == View(size, 0) && remaining == 0
  }

  lemma TailIsSlice(d: Bytes, at: nat, n: nat)
    requires at + n == |d|
    ensures View(at, n).Of(d) == d[at..]
  {
  }

  lemma ContentIsTail(d: Bytes)
    requires Strict(d)
    ensures |Content(d)| <= |d| && Content(d) == d[|d| - |Content(d)|..]
    ensures IsList(d) ==> Payload(d) == Some(Content(d)) && PayloadOffset(d) == |d| - |Content(d)|
    ensures !IsList(d) ==> Content(d) == []
  {
    if IsList(d) {
      var n := Length(d).value;
      hide Length;
      assert d[PayloadOffset(d)..PayloadOffset(d) + n] == d[PayloadOffset(d)..];
    }
  }

  /** Where item i lies in the data itself, and what the reader measures there. */
  lemma ContentPlace(d: Bytes, i: nat)
    requires Strict(d) && i <= |Front(Content(d))|
    ensures |Content(d)| <= |d|
    ensures IsList(d) ==> Payload(d) == Some(Content(d)) && PayloadOffset(d) == |d| - |Content(d)|
    ensures !IsList(d) ==> Content(d) == [] && Front(Content(d)) == [] && Splits(Content(d))
    ensures var p := Content(d);
            var at := |d| - |p| + Offset(Front(p), i);
            if i == |Front(p)| then at <= |d| && (at == |d| <==> Splits(p)) && (!Splits(p) ==> SizeAsEncoded(d[at..]) == None)
            else
              && at + |Front(p)[i]| == |d| - |p| + Offset(Front(p), i + 1) <= |d|
              && |Front(p)[i]| > 0 && SizeAsEncoded(d[at..]) == Some(|Front(p)[i]|)
              && Front(p)[i] == d[at..at + |Front(p)[i]|]
  {
    hide Content, SizeAsEncoded, Offset, PayloadOffset, Payload, Strict;
    ContentIsTail(d);
    var p := Content(d);
    var o := |d| - |p|;
    FrontStep(p, i);
    FrontIs(p);
    assert p[Offset(Front(p), i)..] == d[o + Offset(Front(p), i)..];
    if i < |Front(p)| {
      var at, n := Offset(Front(p), i), |Front(p)[i]|;
      assert p[at..at + n] == d[o + at..o + at + n];
    }
  }

  /** A loop over the bytes meets the readable items in order, and then stops, or throws where one cannot be measured. */
  method Iterate(d: Bytes) returns (views: seq<Bytes>, ok: bool)
    requires Strict(d)
    ensures views == Front(Content(d)) && (ok <==> Splits(Content(d)))
  {
    hide Strict, ActualSize, SizeAsEncoded, Offset, PayloadOffset, Content, Payload, Front, Splits;
    ghost var all := Front(Content(d));
    views := [];
    ContentPlace(d, 0);
    BeginsAt(d);
    var first := SizeAsEncoded(if IsList(d) then Payload(d).value else []);
    if first == None {
      return views, false;
    }
    var it := new Iterator.Begin(d);
    while it.m_currentItem != it.End()
      invariant fresh(it) && it.m_data == d && |views| <= |all| && views == all[..|views|] && it.AtItem(|views|)
      decreases |all| - |views|
    {
      ContentPlace(d, |views|);
      views := views + [it.m_currentItem.Of(d)];
      var more := it.Next(|views| - 1);
      if !more {
        assert views == all;
        return views, false;
      }
    }
    ContentPlace(d, |views|);
    assert all[..|all|] == all;
    return views, true;
  }

  lemma BeginsAt(d: Bytes)
    requires Strict(d)
    ensures IsList(d) ==> Payload(d) == Some(Content(d))
    ensures !IsList(d) ==> Content(d) == []
    ensures SizeAsEncoded(Content(d)) == None ==> Front(Content(d)) == [] && !Splits(Content(d))
  {
    ContentIsTail(d);
    var p := Content(d);
    hide Content, SizeAsEncoded, Payload, Strict;
    assert SizeAsEncoded([]) == Some(0) by { EmptySize(); }
    if SizeAsEncoded(p) == None {
      assert Front(p) == [] && FrontEnd(p) == 0;
    }
  }

  lemma EmptySize()
    ensures SizeAsEncoded([]) == Some(0)
  {
  }
}
