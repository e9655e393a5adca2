/** Derivation paths: text to the count byte and big-endian words a Ledger takes (BIP 32 indices). */
module LedgerPath {
  import opened CommonData
  import opened Decimals

  const HARDENED := 0x8000_0000
  const UINT32 := 0x1_0000_0000

  /** boost::lexical_cast<uint32_t> on a string of digits; None where it throws. */
  function LexicalCast(s: string): Option<nat>
    requires AllDigits(s)
  {
    if s == "" || Value(s) >= UINT32 then None else Some(Value(s))
  }

  function Word(index: nat, hardened: bool): nat {
    (index + if hardened then HARDENED else 0) % UINT32
  }

  function After(before: seq<nat>, words: Option<seq<nat>>): Option<seq<nat>> {
    match words
    case None => None
    case Some(rest) => Some(before + rest)
  }

  lemma AfterNone(words: Option<seq<nat>>)
    ensures After([], words) == words
  {
    if words.Some? {
      assert [] + words.value == words.value;
    }
  }

  lemma AfterBoth(a: seq<nat>, b: seq<nat>, words: Option<seq<nat>>)
    ensures After(a, After(b, words)) == After(a + b, words)
  {
    if words.Some? {
      assert a + (b + words.value) == a + b + words.value;
    }
  }

  /** The words of a path, reading on with some digits of an index and perhaps its mark already read. */
  function Words(s: string, digits: string, hardened: bool): Option<seq<nat>>
    requires AllDigits(digits)
    decreases |s|
  {
    if s == "" then Some([])
    else
      var digits' := if IsDigit(s[0]) then digits + [s[0]] else digits;
      var hardened' := s[0] == '\'' || hardened;
      if s[0] == '/' || |s| == 1 then
        match LexicalCast(digits')
        case None => None
        case Some(index) => After([Word(index, hardened')], Words(s[1..], "", false))
      else Words(s[1..], digits', hardened')
  }

  /** Four bytes, the highest first. */
  function BigEndian4(w: nat): (b: Bytes)
    ensures |b| == 4
  {
    [w / 0x100_0000 % 256, w / 0x1_0000 % 256, w / 0x100 % 256, w % 256]
  }

  function AsBytes(words: seq<nat>): (b: Bytes)
    ensures |b| == 4 * |words| && |b| % 4 == 0
  {
    if words == [] then [] else AsBytes(words[..|words| - 1]) + BigEndian4(words[|words| - 1])
  }

  function WithoutRoot(path: string): string {
    if |path| >= 2 && path[0] == 'm' && path[1] == '/' then path[2..] else path
  }

  function PathOf(path: string): Option<Bytes> {
    match Words(WithoutRoot(path), "", false)
    case None => None
    case Some(words) => Some([|words| % 256] + AsBytes(words))
  }

  // ------------------------------------------------------------------ The loops

  method ParsePath(unparsedPath: string) returns (ret: Option<Bytes>)
    ensures ret == PathOf(unparsedPath)
  {
    hide AsBytes, Words, LexicalCast, Word, IsDigit;
    var path := unparsedPath;
    if |path| >= 2 && path[0] == 'm' && path[1] == '/' {
      path := path[2..];
    }
    var nDerivations: Byte := 0;
    var indexes: seq<nat>, tmpIndex, isHardened := [], "", false;
    assert path[0..] == path;
    WordsEnd("", false);
    AfterNone(Words(path, "", false));
    for i := 0 to |path|
      invariant nDerivations == |indexes| % 256 && AllDigits(tmpIndex)
      invariant Words(path, "", false) == After(indexes, Words(path[i..], tmpIndex, isHardened))
    {
      WordsStep(path, i, tmpIndex, isHardened);
      if IsDigit(path[i]) {
        tmpIndex := tmpIndex + [path[i]];
      }
      if path[i] == '\'' {
        isHardened := true;
      }
      if path[i] == '/' || i == |path| - 1 {
        nDerivations := (nDerivations as int + 1) % 256;
        var index := LexicalCast(tmpIndex);
        if index == None {
          return None;
        }
        AfterBoth(indexes, [Word(index.value, isHardened)], Words(path[i + 1..], "", false));
        indexes := indexes + [Word(index.value, isHardened)];
        isHardened, tmpIndex := false, "";
      }
    }
    WordsEnd(tmpIndex, isHardened);
    assert path[|path|..] == "" && indexes + [] == indexes;
    var bytes := ToBytes(indexes);
    return Some([nDerivations] + bytes);
  }

  lemma WordsEnd(digits: string, hardened: bool)
    requires AllDigits(digits)
    ensures Words("", digits, hardened) == Some([])
  {
  }

  /** What reading one character does. */
  lemma WordsStep(path: string, i: nat, digits: string, hardened: bool)
    requires i < |path| && AllDigits(digits)
    ensures var digits' := if IsDigit(path[i]) then digits + [path[i]] else digits;
            var hardened' := path[i] == '\'' || hardened;
            && AllDigits(digits')
            && Words(path[i..], digits, hardened) ==
               if path[i] == '/' || i == |path| - 1 then
                 match LexicalCast(digits')
                 case None => None
                 case Some(index) => After([Word(index, hardened')], Words(path[i + 1..], "", false))
               else Words(path[i + 1..], digits', hardened')
  {
    hide LexicalCast, Word, After;
    assert path[i..][1..] == path[i + 1..];
  }

  method ToBytes(words: seq<nat>) returns (b: Bytes)
    ensures b == AsBytes(words)
  {
    b := [];
    for i := 0 to |words|
      invariant b == AsBytes(words[..i])
    {
      assert words[..i + 1][..i] == words[..i];
      b := b + BigEndian4(words[i]);
    }
    assert words[..|words|] == words;
  }

  // ------------------------------------------------------------------ Printing and parsing back

  datatype Component = Component(index: nat, hardened: bool)

  predicate IndexFits(c: Component) { c.index < HARDENED }

  function Shown(c: Component): string {
    Decimal(c.index) + if c.hardened then "'" else ""
  }

  /** Components between slashes. */
  function Joined(cs: seq<Component>): string
    requires cs != []
  {
    if |cs| == 1 then Shown(cs[0]) else Shown(cs[0]) + "/" + Joined(cs[1..])
  }

  function WordsOf(cs: seq<Component>): (ws: seq<nat>)
    ensures |ws| == |cs|
  {
    if cs == [] then [] else [Word(cs[0].index, cs[0].hardened)] + WordsOf(cs[1..])
  }

  /** Digits are taken in one by one. */
  lemma {:induction false} TakeDigits(d: string, digits: string, rest: string)
    requires AllDigits(d) && AllDigits(digits) && rest != ""
    ensures Words(d + rest, digits, false) == Words(rest, digits + d, false)
  {
    hide LexicalCast, Word;
    if d == "" {
      assert d + rest == rest && digits + d == digits;
    } else {
      assert (d + rest)[0] == d[0] && IsDigit(d[0]) && (d + rest)[1..] == d[1..] + rest;
      assert digits + [d[0]] + d[1..] == digits + d;
      TakeDigits(d[1..], digits + [d[0]], rest);
    }
  }

  /** The last digit, if nothing comes after it, ends its index too. */
  lemma TakeLast(d: string)
    requires AllDigits(d) && d != ""
    ensures Words(d, "", false) == match LexicalCast(d) case None => None case Some(i) => After([Word(i, false)], Some([]))
  {
    hide *;
    var front, last := d[..|d| - 1], d[|d| - 1];
    assert d == front + [last] && "" + front == front;
    DigitsOf(front, last);
    TakeDigits(front, "", [last]);
    TakeEnd(last, front);
  }

  lemma DigitsOf(front: string, last: char)
    requires AllDigits(front + [last])
    ensures AllDigits("") && AllDigits(front) && IsDigit(last)
  {
    assert forall c <- front + [last] :: IsDigit(c);
    assert (front + [last])[|front|] == last;
    forall c <- front ensures IsDigit(c) {
      assert c in front + [last];
    }
  }

  lemma TakeEnd(c: char, digits: string)
    requires AllDigits(digits) && IsDigit(c) && AllDigits(digits + [c])
    ensures Words([c], digits, false) ==
            match LexicalCast(digits + [c]) case None => None case Some(i) => After([Word(i, false)], Some([]))
  {
    hide LexicalCast, Word, After;
    assert [c][1..] == "";
  }

  lemma TakeShown(c: Component, rest: string)
    requires IndexFits(c) && (rest == "" || rest[0] == '/')
    ensures Words(Shown(c) + rest, "", false) == After([Word(c.index, c.hardened)], Words(if rest == "" then "" else rest[1..], "", false))
  {
    var d := Decimal(c.index);
    ValueOfDecimal(c.index);
    hide Decimal, Value, Word;
    if c.hardened {
      assert Shown(c) + rest == d + ("'" + rest);
      TakeDigits(d, "", "'" + rest);
      assert "" + d == d && ("'" + rest)[1..] == rest;
    } else if rest == "" {
      assert Shown(c) + rest == d;
      TakeLast(d);
    } else {
      assert Shown(c) + rest == d + rest;
      TakeDigits(d, "", rest);
      assert "" + d == d;
    }
  }

  lemma {:induction false} WordsOfJoined(cs: seq<Component>)
    requires cs != [] && forall c <- cs :: IndexFits(c)
    ensures Words(Joined(cs), "", false) == Some(WordsOf(cs))
  {
    hide Shown, Word;
    if |cs| == 1 {
      TakeShown(cs[0], "");
      assert Shown(cs[0]) + "" == Shown(cs[0]);
      assert WordsOf(cs) == [Word(cs[0].index, cs[0].hardened)] + [];
      assert Words("", "", false) == Some([]);
    } else {
      TakeShown(cs[0], "/" + Joined(cs[1..]));
      assert ("/" + Joined(cs[1..]))[1..] == Joined(cs[1..]);
      assert Shown(cs[0]) + ("/" + Joined(cs[1..])) == Joined(cs);
      WordsOfJoined(cs[1..]);
    }
  }

  lemma FirstIsDigit(cs: seq<Component>)
    requires cs != []
    ensures Joined(cs) != "" && IsDigit(Joined(cs)[0])
  {
    var d := Decimal(cs[0].index);
    assert d <= Shown(cs[0]) <= Joined(cs);
    assert d[0] in d;
  }

  /** What the bytes say: the count, and each index with its mark. */
  function Component4(b: Bytes): Component
    requires |b| == 4
  {
    var w := (((b[0] as int) * 256 + b[1] as int) * 256 + b[2] as int) * 256 + b[3] as int;
    if w >= HARDENED then Component(w - HARDENED, true) else Component(w, false)
  }

  function ComponentsOf(b: Bytes): seq<Component>
    requires |b| % 4 == 0
  {
    if b == [] then [] else ComponentsOf(b[..|b| - 4]) + [Component4(b[|b| - 4..])]
  }

  lemma WordBack(c: Component)
    requires IndexFits(c)
    ensures Component4(BigEndian4(Word(c.index, c.hardened))) == c
  {
    var w := Word(c.index, c.hardened);
    assert w == c.index + if c.hardened then HARDENED else 0;
    FourBytes(w);
  }

  lemma FourBytes(w: nat)
    requires w < UINT32
    ensures ((w / 0x100_0000 % 256 * 256 + w / 0x1_0000 % 256) * 256 + w / 0x100 % 256) * 256 + w % 256 == w
  {
    var a, b, c := w / 256, w / 0x1_0000, w / 0x100_0000;
    assert a == 256 * b + a % 256 && b == 256 * c + b % 256;
  }

  lemma {:induction false} WordsBack(cs: seq<Component>)
    requires forall c <- cs :: IndexFits(c)
    ensures ComponentsOf(AsBytes(WordsOf(cs))) == cs
  {
    hide *;
    if cs == [] {
      NoComponents();
    } else {
      var front, last := cs[..|cs| - 1], cs[|cs| - 1];
      WordsOfSnoc(front, last);
      assert cs == front + [last] && last in cs;
      assert forall c <- front :: c in cs;
      WordsBack(front);
      WordBack(last);
      ComponentSnoc(WordsOf(front), Word(last.index, last.hardened));
    }
  }

  lemma NoComponents()
    ensures ComponentsOf(AsBytes(WordsOf([]))) == []
  {
  }

  lemma {:induction false} WordsOfSnoc(cs: seq<Component>, c: Component)
    ensures WordsOf(cs + [c]) == WordsOf(cs) + [Word(c.index, c.hardened)]
  {
    hide Word;
    if cs == [] {
      assert [c][1..] == [] && cs + [c] == [c];
    } else {
      WordsOfSnoc(cs[1..], c);
      assert (cs + [c])[1..] == cs[1..] + [c];
    }
  }

  lemma ComponentSnoc(words: seq<nat>, w: nat)
    ensures ComponentsOf(AsBytes(words + [w])) == ComponentsOf(AsBytes(words)) + [Component4(BigEndian4(w))]
  {
    hide Component4, BigEndian4;
    var a, b := AsBytes(words), BigEndian4(w);
    assert (words + [w])[..|words|] == words;
    assert AsBytes(words + [w]) == a + b;
    assert (a + b)[..|a + b| - 4] == a && (a + b)[|a + b| - 4..] == b;
  }

  /** A printed path parses to its count, modulo 256, and words that decode to the components it was printed from. */
  lemma PathRoundTrip(cs: seq<Component>)
    requires cs != [] && forall c <- cs :: IndexFits(c)
    ensures PathOf(Joined(cs)) == Some([|cs| % 256] + AsBytes(WordsOf(cs)))
    ensures PathOf("m/" + Joined(cs)) == PathOf(Joined(cs))
    ensures ComponentsOf(AsBytes(WordsOf(cs))) == cs
  {
    hide Words, Joined, AsBytes, ComponentsOf, WordsOf, IndexFits;
    WordsOfJoined(cs);
    FirstIsDigit(cs);
    RootErased(Joined(cs));
    WordsBack(cs);
  }

  lemma RootErased(s: string)
    requires s != "" && IsDigit(s[0])
    ensures WithoutRoot("m/" + s) == s && WithoutRoot(s) == s
  {
    assert ("m/" + s)[2..] == s;
  }

  // ------------------------------------------------------------------ In numbers

  lemma {:induction false} AsBytesAt(words: seq<nat>, i: nat)
    requires i < |words|
    ensures AsBytes(words)[4 * i..4 * i + 4] == BigEndian4(words[i])
  {
    hide BigEndian4;
    if i < |words| - 1 {
      AsBytesAt(words[..|words| - 1], i);
    }
  }

  lemma {:induction false} WordsOfAt(cs: seq<Component>, i: nat)
    requires i < |cs|
    ensures WordsOf(cs)[i] == Word(cs[i].index, cs[i].hardened)
  {
    hide Word;
    if i > 0 {
      WordsOfAt(cs[1..], i - 1);
    }
  }

  lemma LowByte(high: nat, low: Byte)
    ensures (256 * high + low) % 256 == low
  {
  }

  lemma FourDigits(w: nat, a: Byte, b: Byte, c: Byte, d: Byte)
    requires w == 0x100_0000 * (a as nat) + 0x1_0000 * (b as nat) + 0x100 * (c as nat) + d
    ensures BigEndian4(w) == [a, b, c, d]
  {
    QuotientIs(w, 0x100_0000, a, 0x1_0000 * (b as nat) + 0x100 * (c as nat) + d);
    QuotientIs(w, 0x1_0000, 256 * (a as nat) + b, 0x100 * (c as nat) + d);
    QuotientIs(w, 0x100, 0x1_0000 * (a as nat) + 256 * (b as nat) + c, d);
    FourLow(w, a, b, c, d);
  }

  lemma FourLow(w: nat, a: Byte, b: Byte, c: Byte, d: Byte)
    requires w / 0x100_0000 == a && w / 0x1_0000 == 256 * (a as nat) + b && w / 0x100 == 256 * (256 * (a as nat) + b) + c
    requires w == 256 * (256 * (256 * (a as nat) + b) + c) + d
    ensures BigEndian4(w) == [a, b, c, d]
  {
    LowByte(0, a);
    LowByte(a, b);
    LowByte(256 * (a as nat) + b, c);
    LowByte(256 * (256 * (a as nat) + b) + c, d);
  }

  /** The first of the four bytes of a hardened index is 128 more than without the mark. */
  lemma MarkedWord(c: Component)
    requires c.index < 0x8000_0000
    ensures BigEndian4(Word(c.index, c.hardened))
            == [(if c.hardened then 128 else 0) + c.index / 0x100_0000, c.index / 0x1_0000 % 256, c.index / 0x100 % 256, c.index % 256]
  {
    hide *;
    var n := c.index;
    Top(n);
    FourBytes(n);
    WordIs(c);
    FourDigits(Word(n, c.hardened), (if c.hardened then 128 else 0) + n / 0x100_0000, n / 0x1_0000 % 256, n / 0x100 % 256, n % 256);
  }

  lemma Top(n: nat)
    requires n < 0x8000_0000
    ensures n / 0x100_0000 < 128 && n / 0x100_0000 % 256 == n / 0x100_0000 && n < UINT32
  {
  }

  lemma WordIs(c: Component)
    requires c.index < 0x8000_0000
    ensures Word(c.index, c.hardened) == c.index + if c.hardened then 0x8000_0000 else 0
  {
  }

  /** Every byte of a printed path that was parsed. */
  lemma PathBytes(cs: seq<Component>, i: nat)
    requires cs != [] && (forall c <- cs :: c.index < 0x8000_0000) && i < |cs|
    ensures var path, n := PathOf(Joined(cs)), cs[i].index;
            && path.Some? && |path.value| == 1 + 4 * |cs| && path.value[0] == |cs| % 256
            && path.value[1 + 4 * i..5 + 4 * i]
               == [(if cs[i].hardened then 128 else 0) + n / 0x100_0000, n / 0x1_0000 % 256, n / 0x100 % 256, n % 256]
  {
    hide Words, Joined, AsBytes, ComponentsOf, WordsOf, BigEndian4, Word, PathOf;
    PathRoundTrip(cs);
    AsBytesAt(WordsOf(cs), i);
    WordsOfAt(cs, i);
    MarkedWord(cs[i]);
    var b := AsBytes(WordsOf(cs));
    assert ([|cs| % 256] + b)[1 + 4 * i..5 + 4 * i] == b[4 * i..4 * i + 4];
  }

  lemma FirstAccountShown()
    ensures Joined([Component(44, true), Component(60, true), Component(0, true), Component(0, false)]) == "44'/60'/0'/0"
  {
    var cs := [Component(44, true), Component(60, true), Component(0, true), Component(0, false)];
    assert Decimal(4) == "4" && Decimal(6) == "6" && Decimal(0) == "0";
    assert Shown(cs[0]) == "44'" && Shown(cs[1]) == "60'" && Shown(cs[2]) == "0'" && Shown(cs[3]) == "0";
    hide Shown;
    assert cs[1..][1..] == [cs[2], cs[3]] && cs[1..][1..][1..] == [cs[3]];
    assert Joined([cs[3]]) == "0";
    assert Joined([cs[2], cs[3]]) == "0'" + "/" + "0" by { assert [cs[2], cs[3]][1..] == [cs[3]]; }
    assert Joined(cs[1..]) == "60'" + "/" + ("0'" + "/" + "0");
  }

  /** The usual path of the first account, as text and as bytes. */
  lemma FirstAccount()
    ensures PathOf("44'/60'/0'/0")
            == Some([4, 0x80, 0x00, 0x00, 0x2c, 0x80, 0x00, 0x00, 0x3c, 0x80, 0x00, 0x00, 0x00, 0x00, 0x00, 0x00, 0x00])
  {
    hide *;
    var cs := [Component(44, true), Component(60, true), Component(0, true), Component(0, false)];
    FirstAccountShown();
    PathBytes(cs, 0);
    PathBytes(cs, 1);
    PathBytes(cs, 2);
    PathBytes(cs, 3);
    var b := PathOf(Joined(cs)).value;
    Assembled(b);
  }

  lemma Assembled(b: Bytes)
    requires |b| == 17 && b[0] == 4
    requires b[1..5] == [0x80, 0x00, 0x00, 0x2c] && b[5..9] == [0x80, 0x00, 0x00, 0x3c]
    requires b[9..13] == [0x80, 0x00, 0x00, 0x00] && b[13..17] == [0x00, 0x00, 0x00, 0x00]
    ensures b == [4, 0x80, 0x00, 0x00, 0x2c, 0x80, 0x00, 0x00, 0x3c, 0x80, 0x00, 0x00, 0x00, 0x00, 0x00, 0x00, 0x00]
  {
    var x: Bytes := [4];
    assert b == x + b[1..5] + b[5..9] + b[9..13] + b[13..17];
  }
}
