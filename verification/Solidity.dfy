/** ABI packing: heads first, then tails, and every head of a dynamic value the byte position of its tail. */
module Solidity {
  import opened CommonData
  import opened HexPrefix

  // ------------------------------------------------------------------ Hex digits and words

  function Pow16(k: nat): (p: nat)
    ensures p > 0
  {
    if k == 0 then 1 else 16 * Pow16(k - 1)
  }

  /** One past the largest uint256. */
  const U256 := Pow16(64)
  const U64 := 0x1_0000_0000_0000_0000

  /** toHex of a number: no leading zeros, but at least one digit. */
  function HexDigits(n: nat): (d: Nibbles)
    ensures d != []
  {
    if n < 16 then [n] else HexDigits(n / 16) + [n % 16]
  }

  function HexValue(d: Nibbles): nat {
    if d == [] then 0 else HexValue(d[..|d| - 1]) * 16 + d[|d| - 1]
  }

  function ZeroDigits(n: nat): (z: Nibbles)
    ensures |z| == n && forall i | 0 <= i < n :: z[i] == 0
  {
    if n == 0 then [] else [0] + ZeroDigits(n - 1)
  }

  function PadLeft(d: Nibbles, n: nat): Nibbles {
    if n > |d| then ZeroDigits(n - |d|) + d else d
  }

  function PadRight(d: Nibbles, n: nat): Nibbles {
    if n > |d| then d + ZeroDigits(n - |d|) else d
  }

  function Word(n: nat): Nibbles { PadLeft(HexDigits(n), 64) }

  lemma {:induction false} HexDigitsValue(n: nat)
    ensures HexValue(HexDigits(n)) == n
  {
    if n < 16 {
      assert [n][..0] == [];
    } else {
      HexDigitsValue(n / 16);
      assert HexDigits(n)[..|HexDigits(n)| - 1] == HexDigits(n / 16);
    }
  }

  lemma {:induction false} HexDigitsSize(n: nat, k: nat)
    requires n < Pow16(k) && k > 0
    ensures |HexDigits(n)| <= k
  {
    assert Pow16(1) == 16;
    if n >= 16 {
      HexDigitsSize(n / 16, k - 1);
    }
  }

  lemma {:induction false} ValueOfZeros(n: nat, d: Nibbles)
    ensures HexValue(ZeroDigits(n) + d) == HexValue(d)
    decreases n + |d|
  {
    if d == [] {
      assert ZeroDigits(n) + d == ZeroDigits(n);
      if n > 0 {
        assert ZeroDigits(n)[..n - 1] == ZeroDigits(n - 1) + [] by {
          assert forall i | 0 <= i < n - 1 :: ZeroDigits(n)[i] == 0 == ZeroDigits(n - 1)[i];
        }
        ValueOfZeros(n - 1, []);
      }
    } else {
      assert (ZeroDigits(n) + d)[..n + |d| - 1] == ZeroDigits(n) + d[..|d| - 1];
      ValueOfZeros(n, d[..|d| - 1]);
    }
  }

  /** A word has 64 digits and the value it was made of. */
  lemma WordBack(n: nat)
    requires n < U256
    ensures |Word(n)| == 64 && HexValue(Word(n)) == n
  {
    hide HexValue, HexDigits, Pow16, ZeroDigits;
    HexDigitsValue(n);
    HexDigitsSize(n, 64);
    ValueOfZeros(64 - |HexDigits(n)|, HexDigits(n));
  }

  lemma {:induction false} HexDigitAt(n: nat, j: nat)
    ensures j < |HexDigits(n)| ==> HexDigits(n)[|HexDigits(n)| - 1 - j] == n / Pow16(j) % 16
    ensures j >= |HexDigits(n)| ==> n / Pow16(j) == 0
  {
    hide *;
    DigitsStep(n);
    Pow16Step(if j == 0 then 0 else j - 1);
    if j > 0 {
      DividedTwice(n, Pow16(j - 1));
      if n >= 16 {
        HexDigitAt(n / 16, j - 1);
      } else {
        SmallQuotient(n, 16 * Pow16(j - 1));
      }
    }
  }

  lemma DigitsStep(n: nat)
    ensures HexDigits(n) == if n < 16 then [n] else HexDigits(n / 16) + [n % 16]
    ensures n < 16 ==> n % 16 == n
    ensures n / 1 == n
  {
    hide Pow16;
  }

  lemma DividedTwice(n: nat, p: nat)
    requires p > 0
    ensures n / (16 * p) == n / 16 / p
  {
    var q, r := n / (16 * p), n % (16 * p);
    assert n == 16 * (p * q) + r && r / 16 < p;
    assert n / 16 == p * q + r / 16;
    QuotientIs(n / 16, p, q, r / 16);
  }

  lemma SmallQuotient(n: nat, p: nat)
    requires n < p
    ensures n / p == 0
  {
  }

  /** Digit by digit, the last one counting single units. */
  lemma WordDigits(n: nat, j: nat)
    requires n < Pow16(64) && j < 64
    ensures |Word(n)| == 64 && Word(n)[63 - j] == n / Pow16(j) % 16
  {
    hide *;
    HexDigitAt(n, j);
    WordSplit(n);
  }

  lemma WordSplit(n: nat)
    requires n < Pow16(64)
    ensures |HexDigits(n)| <= 64 && Word(n) == ZeroDigits(64 - |HexDigits(n)|) + HexDigits(n)
  {
    hide HexDigits, Pow16, ZeroDigits;
    HexDigitsSize(n, 64);
    if |HexDigits(n)| == 64 {
      assert ZeroDigits(0) == [];
    }
  }

  lemma {:induction false} Pow16More(a: nat, b: nat)
    requires a <= b
    ensures Pow16(a) <= Pow16(b)
    decreases b
  {
    if a < b {
      Pow16More(a, b - 1);
    }
  }

  lemma Wide()
    ensures U64 <= U256
  {
    assert Pow16(4) == 0x1_0000;
    assert Pow16(8) == 0x1_0000 * Pow16(4) by { Pow16Sum(4, 4); }
    Pow16Sum(8, 8);
    Pow16More(16, 64);
  }

  lemma {:induction false} Pow16Sum(a: nat, b: nat)
    ensures Pow16(a + b) == Pow16(a) * Pow16(b)
  {
    hide Pow16;
    if a == 0 {
      Pow16Step(0);
      assert 1 * Pow16(b) == Pow16(b);
    } else {
      Pow16Sum(a - 1, b);
      Pow16Step(a - 1);
      Pow16Step(a - 1 + b);
      Associated(16, Pow16(a - 1), Pow16(b));
    }
  }

  lemma Pow16Step(n: nat)
    ensures Pow16(0) == 1 && Pow16(n + 1) == 16 * Pow16(n)
  {
  }

  lemma Associated(x: nat, y: nat, z: nat)
    ensures x * (y * z) == x * y * z
  {
  }

  // ------------------------------------------------------------------ Tails

  /** The least positive multiple of 64 that is not less. */
  function PaddingFor(length: nat): (p: nat)
    ensures p >= 64 && p >= length && p % 64 == 0
  {
    if length <= 64 then 64 else 64 + PaddingFor(length - 64)
  }

  /** Length in bytes, then the digits filled up to whole words. */
  function TextTail(h: Nibbles): Nibbles {
    Word(|h| / 2) + PadRight(h, PaddingFor(|h|))
  }

  /** An odd first digit gets a zero in front. */
  function Evened(h: Nibbles): (e: Nibbles)
    ensures |e| % 2 == 0
  {
    if |h| % 2 != 0 then [0] + h else h
  }

  function Words(ns: seq<nat>): Nibbles {
    if ns == [] then [] else Words(ns[..|ns| - 1]) + Word(ns[|ns| - 1])
  }

  function NumbersTail(ns: seq<nat>): Nibbles { Word(|ns|) + Words(ns) }

  function TextTails(hs: seq<Nibbles>): Nibbles {
    if hs == [] then [] else TextTails(hs[..|hs| - 1]) + TextTail(Evened(hs[|hs| - 1]))
  }

  /** Where each element lies, counted from behind the word with the number of elements. */
  function Offsets(hs: seq<Nibbles>, count: nat): (os: seq<nat>)
    ensures |os| == |hs|
  {
    if hs == [] then []
    else Offsets(hs[..|hs| - 1], count) + [32 * count + |TextTails(hs[..|hs| - 1])| / 2]
  }

  function TextsTail(hs: seq<Nibbles>): Nibbles {
    Word(|hs|) + Words(Offsets(hs, |hs|)) + TextTails(hs)
  }

  // ------------------------------------------------------------------ Arguments

  /** What the types come down to: uint256, address and bool; bytes and string; arrays of either. */
  datatype Arg =
    | Number(n: nat)
    | Text(h: Nibbles)
    | Numbers(ns: seq<nat>, members: nat)
    | Texts(hs: seq<Nibbles>)
  {
    predicate Dynamic() { !Number? }

    /** Numbers are uint256, and sizes are 64-bit. */
    predicate Valid() {
      match this
      case Number(n) => n < U256
      case Text(h) => |h| < U64
      case Numbers(ns, _) => |ns| < U64 && forall n <- ns :: n < U256
      case Texts(hs) => 32 * |hs| + |TextTails(hs)| < U64 && forall h <- hs :: |h| < U64 - 1
    }

    function Tail(): Nibbles {
      match this
      case Number(_) => []
      case Text(h) => TextTail(h)
      case Numbers(ns, _) => NumbersTail(ns)
      case Texts(hs) => TextsTail(hs)
    }

    /** How much nextOffset moves on: for arrays of numbers by the members of the argument's JSON object. */
    function Step(): nat {
      match this
      case Number(_) => 0
      case Text(_) => 32 * (|Tail()| / 64)
      case Numbers(_, members) => 64 * members
      case Texts(_) => 32 * (|Tail()| / 64)
    }
  }

  function Tails(args: seq<Arg>): Nibbles {
    if args == [] then [] else Tails(args[..|args| - 1]) + args[|args| - 1].Tail()
  }

  /** nextOffset when these arguments have been packed, of so many in all. */
  function NextOffset(args: seq<Arg>, count: nat): nat {
    if args == [] then 32 * count else NextOffset(args[..|args| - 1], count) + args[|args| - 1].Step()
  }

  function Head(arg: Arg, next: nat): Nibbles {
    if arg.Number? then Word(arg.n) else Word(next)
  }

  function Heads(args: seq<Arg>, count: nat): Nibbles {
    if args == [] then []
    else Heads(args[..|args| - 1], count) + Head(args[|args| - 1], NextOffset(args[..|args| - 1], count))
  }

  function Packed(args: seq<Arg>): Nibbles { Heads(args, |args|) + Tails(args) }

  /** Where the tail of argument i really begins, in bytes. */
  function TailAt(args: seq<Arg>, i: nat): nat
    requires i <= |args|
  {
    32 * |args| + |Tails(args[..i])| / 2
  }

  // ------------------------------------------------------------------ Sizes

  lemma {:induction false} WordsSize(ns: seq<nat>)
    requires forall n <- ns :: n < U256
    ensures |Words(ns)| == 64 * |ns|
  {
    hide Word, Pow16;
    if ns != [] {
      var front, last := ns[..|ns| - 1], ns[|ns| - 1];
      assert last in ns && forall n <- front :: n in ns;
      WordsSize(front);
      WordBack(last);
    }
  }

  lemma TextTailSize(h: Nibbles)
    requires |h| / 2 < U256
    ensures |TextTail(h)| == 64 + PaddingFor(|h|) && |TextTail(h)| % 64 == 0
  {
    hide Pow16, Word, PaddingFor, ZeroDigits;
    WordBack(|h| / 2);
    var p := PaddingFor(|h|);
    assert |PadRight(h, p)| == p;
    WholeWords(p);
  }

  lemma WholeWords(p: nat)
    requires p % 64 == 0
    ensures (64 + p) % 64 == 0
  {
  }

  lemma EvenedTailSize(h: Nibbles)
    requires |h| < U64 - 1
    ensures |TextTail(Evened(h))| % 64 == 0 && |Evened(h)| < U64
  {
    hide Pow16, TextTail;
    Wide();
    TextTailSize(Evened(h));
  }

  lemma {:induction false} TextTailsSize(hs: seq<Nibbles>)
    requires forall h <- hs :: |h| < U64 - 1
    ensures |TextTails(hs)| % 64 == 0
  {
    hide TextTail, Pow16, Evened;
    if hs != [] {
      var front, last := hs[..|hs| - 1], hs[|hs| - 1];
      assert last in hs;
      forall h <- front ensures |h| < U64 - 1 { assert h in hs; }
      TextTailsSize(front);
      EvenedTailSize(last);
      assert |TextTails(hs)| == |TextTails(front)| + |TextTail(Evened(last))|;
    }
  }

  lemma {:induction false} TextTailsPrefix(hs: seq<Nibbles>, i: nat)
    requires i <= |hs|
    ensures TextTails(hs[..i]) <= TextTails(hs)
  {
    hide TextTail;
    if i == |hs| {
      assert hs[..i] == hs;
    } else {
      TextTailsPrefix(hs[..|hs| - 1], i);
      assert hs[..|hs| - 1][..i] == hs[..i];
    }
  }

  lemma {:induction false} OffsetAt(hs: seq<Nibbles>, count: nat, i: nat)
    requires i < |hs|
    ensures Offsets(hs, count)[i] == 32 * count + |TextTails(hs[..i])| / 2
  {
    if i < |hs| - 1 {
      OffsetAt(hs[..|hs| - 1], count, i);
      assert hs[..|hs| - 1][..i] == hs[..i];
    }
  }

  lemma OffsetsFit(hs: seq<Nibbles>)
    requires Texts(hs).Valid()
    ensures forall o <- Offsets(hs, |hs|) :: o < U256
  {
    hide Pow16, TextTails;
    Wide();
    forall i | 0 <= i < |hs| ensures Offsets(hs, |hs|)[i] < U256 {
      OffsetAt(hs, |hs|, i);
      TextTailsPrefix(hs, i);
    }
  }

  /** Tails are whole words; how many, for arrays of numbers. */
  lemma TailSize(arg: Arg)
    requires arg.Valid()
    ensures |arg.Tail()| % 64 == 0 && (arg.Numbers? ==> |arg.Tail()| == 64 * (1 + |arg.ns|))
  {
    hide NumbersTail, TextTail, TextsTail, TextTails;
    Wide();
    match arg
    case Number(_) =>
    case Text(h) => TextTailSize(h);
    case Numbers(ns, _) => NumbersTailSize(ns);
    case Texts(hs) => TextsTailSize(hs);
  }

  lemma WordsOnly(n: nat, rest: nat)
    requires rest % 64 == 0
    ensures (64 * n + rest) % 64 == 0 && 64 * n % 64 == 0
  {
  }

  lemma NumbersTailSize(ns: seq<nat>)
    requires |ns| < U256 && forall n <- ns :: n < U256
    ensures |NumbersTail(ns)| == 64 * (1 + |ns|) && |NumbersTail(ns)| % 64 == 0
  {
    hide Word, Words;
    WordBack(|ns|);
    WordsSize(ns);
    WordsOnly(1 + |ns|, 0);
  }

  lemma TextsTailSize(hs: seq<Nibbles>)
    requires Texts(hs).Valid()
    ensures |TextsTail(hs)| % 64 == 0
  {
    hide Word, Words, TextTails, Offsets;
    Wide();
    WordBack(|hs|);
    OffsetsFit(hs);
    WordsSize(Offsets(hs, |hs|));
    TextTailsSize(hs);
    WordsOnly(1 + |hs|, |TextTails(hs)|);
  }

  /** nextOffset moves on by the size of the tail, except that it takes an array's members for half its words. */
  lemma StepIs(arg: Arg)
    requires arg.Valid()
    ensures arg.Step() == |arg.Tail()| / 2 <==> (arg.Numbers? ==> 2 * arg.members == 1 + |arg.ns|)
  {
    hide Pow16, TextTail, TextsTail, NumbersTail;
    TailSize(arg);
  }

  // ------------------------------------------------------------------ Offsets are tail positions

  predicate Fit(args: seq<Arg>) {
    32 * |args| + |Tails(args)| < U64 && forall a <- args :: a.Valid()
  }

  predicate OffsetsTrue(args: seq<Arg>) {
    forall i | 0 <= i < |args| && args[i].Dynamic() :: NextOffset(args[..i], |args|) == TailAt(args, i)
  }

  /** No array of numbers comes before a dynamic argument, unless its JSON object has half as many members as it has words. */
  predicate Countable(args: seq<Arg>) {
    forall i, j | 0 <= i < j < |args| && args[i].Numbers? && args[j].Dynamic() :: 2 * args[i].members == 1 + |args[i].ns|
  }

  lemma {:induction false} TailsWhole(args: seq<Arg>)
    requires forall i | 0 <= i < |args| :: args[i].Valid()
    ensures |Tails(args)| % 64 == 0
  {
    hide TextTail, TextsTail, NumbersTail, Pow16, TextTails, Words, Word, Offsets;
    if args != [] {
      var front, last := args[..|args| - 1], args[|args| - 1];
      TailsWhole(front);
      TailSize(last);
      SumWhole(|Tails(front)|, |last.Tail()|);
    }
  }

  lemma SumWhole(a: nat, b: nat)
    requires a % 64 == 0 && b % 64 == 0
    ensures (a + b) % 64 == 0
  {
  }

  lemma TailsOneMore(args: seq<Arg>, i: nat)
    requires i < |args|
    ensures Tails(args[..i + 1]) == Tails(args[..i]) + args[i].Tail()
    ensures forall count :: NextOffset(args[..i + 1], count) == NextOffset(args[..i], count) + args[i].Step()
  {
    assert args[..i + 1][..i] == args[..i];
  }

  lemma NoArgs(args: seq<Arg>, count: nat)
    ensures Tails(args[..0]) == [] && NextOffset(args[..0], count) == 32 * count
  {
  }

  lemma {:induction false} NextIsTrue(args: seq<Arg>, i: nat)
    requires i <= |args| && (forall k | 0 <= k < |args| :: args[k].Valid())
    requires forall k | 0 <= k < i :: args[k].Step() == |args[k].Tail()| / 2
    ensures NextOffset(args[..i], |args|) == 32 * |args| + |Tails(args[..i])| / 2
  {
    hide *;
    NoArgs(args, |args|);
    if i > 0 {
      NextIsTrue(args, i - 1);
      TailsOneMore(args, i - 1);
      TailsWhole(args[..i - 1]);
      TailSize(args[i - 1]);
    }
  }

  /** Plain numbers in between move nothing. */
  lemma {:induction false} OnlyNumbers(args: seq<Arg>, i: nat, j: nat)
    requires i <= j <= |args| && forall k | i <= k < j :: args[k].Number?
    ensures Tails(args[..j]) == Tails(args[..i]) && NextOffset(args[..j], |args|) == NextOffset(args[..i], |args|)
  {
    if i < j {
      OnlyNumbers(args, i, j - 1);
      TailsOneMore(args, j - 1);
    }
  }

  lemma {:induction false} NextDynamic(args: seq<Arg>, i: nat, j: nat) returns (m: nat)
    requires i < j < |args| && args[j].Dynamic()
    ensures i < m <= j && args[m].Dynamic() && forall k | i < k < m :: args[k].Number?
    decreases j - i
  {
    m := i + 1;
    while !args[m].Dynamic()
      invariant i < m <= j && forall k | i < k < m :: args[k].Number?
      decreases j - m
    {
      m := m + 1;
    }
  }

  /** Every head of a dynamic argument is the true position of its tail, exactly if no miscounted array comes before one. */
  lemma OffsetsTrueIff(args: seq<Arg>)
    requires forall a <- args :: a.Valid()
    ensures OffsetsTrue(args) <==> Countable(args)
  {
    if Countable(args) {
      forall i | 0 <= i < |args| && args[i].Dynamic() ensures NextOffset(args[..i], |args|) == TailAt(args, i) {
        forall k | 0 <= k < i ensures args[k].Step() == |args[k].Tail()| / 2 {
          StepIs(args[k]);
        }
        NextIsTrue(args, i);
      }
    }
    if OffsetsTrue(args) {
      forall i, j | 0 <= i < j < |args| && args[i].Numbers? && args[j].Dynamic() ensures 2 * args[i].members == 1 + |args[i].ns| {
        TrueStep(args, i, j);
      }
    }
  }

  lemma TrueStep(args: seq<Arg>, i: nat, j: nat)
    requires (forall a <- args :: a.Valid()) && OffsetsTrue(args)
    requires i < j < |args| && args[i].Numbers? && args[j].Dynamic()
    ensures 2 * args[i].members == 1 + |args[i].ns|
  {
    hide TextTail, TextsTail, NumbersTail, Pow16;
    var m := NextDynamic(args, i, j);
    OnlyNumbers(args, i + 1, m);
    TailsOneMore(args, i);
    TailsWhole(args[..i]);
    TailSize(args[i]);
    StepIs(args[i]);
  }

  /** An array of two numbers before a string, with the usual two members: the string's offset is 32 bytes too far. */
  lemma ShortArrayMisplaces(h: Nibbles)
    requires Text(h).Valid()
    ensures !OffsetsTrue([Numbers([1, 2], 2), Text(h)])
  {
    var args := [Numbers([1, 2], 2), Text(h)];
    Wide();
    hide Pow16;
    OffsetsTrueIff(args);
    assert args[0].Numbers? && args[1].Dynamic();
  }

  // ------------------------------------------------------------------ Reading back (Contract ABI Specification)

  /** The word at a byte position. */
  function At(s: Nibbles, pos: nat): Option<nat> {
    if 2 * pos + 64 <= |s| then Some(HexValue(s[2 * pos..2 * pos + 64])) else None
  }

  function TextAt(s: Nibbles, pos: nat): Option<Nibbles> {
    match At(s, pos)
    case None => None
    case Some(length) =>
      var from := 2 * (pos + 32);
      if from + 2 * length <= |s| then Some(s[from..from + 2 * length]) else None
  }

  function NumbersAt(s: Nibbles, pos: nat, n: nat): Option<seq<nat>> {
    if n == 0 then Some([])
    else match NumbersAt(s, pos, n - 1)
      case None => None
      case Some(front) => match At(s, pos + 32 * (n - 1))
        case None => None
        case Some(last) => Some(front + [last])
  }

  function TextsAt(s: Nibbles, base: nat, n: nat): Option<seq<Nibbles>> {
    if n == 0 then Some([])
    else match TextsAt(s, base, n - 1)
      case None => None
      case Some(front) => match At(s, base + 32 * (n - 1))
        case None => None
        case Some(offset) => match TextAt(s, base + offset)
          case None => None
          case Some(last) => Some(front + [last])
  }

  datatype Kind = KNumber | KText | KNumbers | KTexts

  function KindOf(a: Arg): Kind {
    match a case Number(_) => KNumber case Text(_) => KText case Numbers(_, _) => KNumbers case Texts(_) => KTexts
  }

  function Recover(s: Nibbles, i: nat, kind: Kind): Option<Arg> {
    match At(s, 32 * i)
    case None => None
    case Some(head) =>
      match kind
      case KNumber => Some(Number(head))
      case KText => (match TextAt(s, head) case None => None case Some(h) => Some(Text(h)))
      case KNumbers => (match At(s, head)
        case None => None
        case Some(n) => match NumbersAt(s, head + 32, n) case None => None case Some(ns) => Some(Numbers(ns, 0)))
      case KTexts => (match At(s, head)
        case None => None
        case Some(n) => match TextsAt(s, head + 32, n) case None => None case Some(hs) => Some(Texts(hs)))
  }

  function AllEvened(hs: seq<Nibbles>): (es: seq<Nibbles>)
    ensures |es| == |hs|
  {
    if hs == [] then [] else AllEvened(hs[..|hs| - 1]) + [Evened(hs[|hs| - 1])]
  }

  /** What of an argument its packing says. */
  function Content(a: Arg): Arg {
    match a
    case Number(_) => a
    case Text(h) => Text(h[..2 * (|h| / 2)])
    case Numbers(ns, _) => Numbers(ns, 0)
    case Texts(hs) => Texts(AllEvened(hs))
  }

  /** What it should say: an odd first digit is a byte of its own, as it is in arrays of bytes. */
  function Meaning(a: Arg): Arg {
    if a.Text? then Text(Evened(a.h)) else Content(a)
  }

  lemma AtPlace(a: Nibbles, n: nat, b: Nibbles)
    requires |a| % 2 == 0 && n < U256
    ensures At(a + Word(n) + b, |a| / 2) == Some(n)
  {
    hide HexValue, Word, Pow16;
    WordBack(n);
    var s := a + Word(n) + b;
    assert s[|a|..|a| + 64] == Word(n);
  }

  lemma TextAtPlace(a: Nibbles, h: Nibbles, b: Nibbles)
    requires |a| % 2 == 0 && |h| < U64
    ensures TextAt(a + TextTail(h) + b, |a| / 2) == Some(h[..2 * (|h| / 2)])
  {
    hide HexValue, Word, Pow16, At;
    Wide();
    WordBack(|h| / 2);
    var w, d := Word(|h| / 2), PadRight(h, PaddingFor(|h|));
    var s := a + TextTail(h) + b;
    assert s == a + w + (d + b);
    AtPlace(a, |h| / 2, d + b);
    assert |a + w| == |a| + 64;
    var read := h[..2 * (|h| / 2)];
    assert d == read + d[|read|..];
    assert s == a + w + read + (d[|read|..] + b);
    Middle(a + w, read, d[|read|..] + b);
  }

  lemma Middle(a: Nibbles, h: Nibbles, b: Nibbles)
    ensures |a + h| <= |a + h + b| && (a + h + b)[|a|..|a| + |h|] == h
  {
  }

  lemma {:induction false} WordsPrefix(ns: seq<nat>, i: nat)
    requires i < |ns|
    ensures Words(ns[..i]) + Word(ns[i]) <= Words(ns)
  {
    hide Word;
    if i < |ns| - 1 {
      WordsPrefix(ns[..|ns| - 1], i);
      assert ns[..|ns| - 1][..i] == ns[..i];
    }
  }

  lemma Around(a: Nibbles, all: Nibbles, b: Nibbles, before: Nibbles, own: Nibbles) returns (after: Nibbles)
    requires before + own <= all
    ensures a + all + b == (a + before) + own + (after + b)
  {
    after := all[|before + own|..];
    assert all == before + own + after;
  }

  /** Number i of a row of words. */
  lemma WordAtPlace(a: Nibbles, ns: seq<nat>, b: Nibbles, i: nat)
    requires |a| % 2 == 0 && i < |ns| && forall n <- ns :: n < U256
    ensures At(a + Words(ns) + b, |a| / 2 + 32 * i) == Some(ns[i])
  {
    hide *;
    WordsPrefix(ns, i);
    assert forall n <- ns[..i] :: n in ns;
    WordsSize(ns[..i]);
    assert ns[i] in ns;
    var before, w := Words(ns[..i]), Word(ns[i]);
    var after := Around(a, Words(ns), b, before, w);
    Halves(|a|, i, 0);
    AtPlace(a + before, ns[i], after + b);
  }

  lemma {:induction false} NumbersAtPlace(a: Nibbles, ns: seq<nat>, b: Nibbles, n: nat)
    requires |a| % 2 == 0 && n <= |ns| && forall n <- ns :: n < U256
    ensures NumbersAt(a + Words(ns) + b, |a| / 2, n) == Some(ns[..n])
  {
    hide Words, At, Pow16;
    if n > 0 {
      NumbersAtPlace(a, ns, b, n - 1);
      WordAtPlace(a, ns, b, n - 1);
      assert ns[..n] == ns[..n - 1] + [ns[n - 1]];
    }
  }

  lemma {:induction false} TextTailsAround(hs: seq<Nibbles>, i: nat)
    requires i < |hs|
    ensures TextTails(hs[..i]) + TextTail(Evened(hs[i])) <= TextTails(hs)
  {
    hide TextTail, Evened;
    if i < |hs| - 1 {
      TextTailsAround(hs[..|hs| - 1], i);
      assert hs[..|hs| - 1][..i] == hs[..i];
    }
  }

  lemma Regrouped(a: Nibbles, offsets: Nibbles, all: Nibbles, before: Nibbles, own: Nibbles, b: Nibbles) returns (after: Nibbles)
    requires before + own <= all
    ensures a + offsets + all + b == (a + offsets + before) + own + (after + b)
    ensures |a + offsets + before| == |a| + |offsets| + |before|
  {
    after := all[|before + own|..];
    assert all == before + own + after;
  }

  lemma OffsetFacts(hs: seq<Nibbles>, i: nat)
    requires Texts(hs).Valid() && i < |hs|
    ensures |Words(Offsets(hs, |hs|))| == 64 * |hs| && |TextTails(hs[..i])| % 64 == 0
    ensures Offsets(hs, |hs|)[i] == 32 * |hs| + |TextTails(hs[..i])| / 2
    ensures |Evened(hs[i])| < U64
  {
    hide Words, TextTails, TextTail, Pow16, Offsets, Evened;
    OffsetAt(hs, |hs|, i);
    OffsetsFit(hs);
    WordsSize(Offsets(hs, |hs|));
    forall h <- hs[..i] ensures |h| < U64 - 1 { assert h in hs; }
    TextTailsSize(hs[..i]);
    assert hs[i] in hs;
    EvenedTailSize(hs[i]);
  }

  lemma Halves(a: nat, n: nat, b: nat)
    requires a % 2 == 0 && b % 64 == 0
    ensures (a + 64 * n + b) / 2 == a / 2 + (32 * n + b / 2) && (a + 64 * n + b) % 2 == 0
  {
    var h, w := a / 2, b / 64;
    Multiple(a, 2);
    Multiple(b, 64);
    Half(h + 32 * n + 32 * w);
    Half(32 * w);
    assert a + 64 * n + b == 2 * (h + 32 * n + 32 * w) && b == 2 * (32 * w);
  }

  lemma Multiple(a: nat, n: nat)
    requires n > 0 && a % n == 0
    ensures a == n * (a / n)
  {
  }

  lemma Half(n: nat)
    ensures 2 * n / 2 == n && 2 * n % 2 == 0
  {
  }

  /** Element i of an array of texts, by its offset. */
  lemma ElementAtPlace(a: Nibbles, hs: seq<Nibbles>, b: Nibbles, i: nat)
    requires |a| % 2 == 0 && Texts(hs).Valid() && i < |hs|
    ensures TextAt(a + Words(Offsets(hs, |hs|)) + TextTails(hs) + b, |a| / 2 + Offsets(hs, |hs|)[i]) == Some(Evened(hs[i]))
  {
    hide *;
    OffsetFacts(hs, i);
    TextTailsAround(hs, i);
    var offsets, before, own := Words(Offsets(hs, |hs|)), TextTails(hs[..i]), TextTail(Evened(hs[i]));
    var s := a + offsets + TextTails(hs) + b;
    var after := Regrouped(a, offsets, TextTails(hs), before, own, b);
    var front := a + offsets + before;
    Halves(|a|, |hs|, |before|);
    TextAtPlace(front, Evened(hs[i]), after + b);
    EvenedWhole(hs[i]);
    assert s == front + own + (after + b);
  }

  lemma EvenedWhole(h: Nibbles)
    ensures Evened(h)[..2 * (|Evened(h)| / 2)] == Evened(h)
  {
  }

  lemma TextsAtMore(s: Nibbles, base: nat, n: nat)
    ensures TextsAt(s, base, 0) == Some([])
    ensures n > 0 && TextsAt(s, base, n - 1).Some? && At(s, base + 32 * (n - 1)).Some?
              && TextAt(s, base + At(s, base + 32 * (n - 1)).value).Some? ==>
            TextsAt(s, base, n)
              == Some(TextsAt(s, base, n - 1).value + [TextAt(s, base + At(s, base + 32 * (n - 1)).value).value])
  {
    hide At, TextAt;
  }

  lemma {:induction false} EvenedAt(hs: seq<Nibbles>, i: nat)
    requires i < |hs|
    ensures AllEvened(hs)[i] == Evened(hs[i])
  {
    hide Evened;
    if i < |hs| - 1 {
      EvenedAt(hs[..|hs| - 1], i);
    }
  }

  lemma OneMore<T>(s: seq<T>, n: nat)
    requires n <= |s|
    ensures s[..0] == [] && s[..|s|] == s
    ensures n > 0 ==> s[..n] == s[..n - 1] + [s[n - 1]]
  {
  }

  lemma {:induction false} TextsAtPlace(a: Nibbles, hs: seq<Nibbles>, b: Nibbles, n: nat)
    requires |a| % 2 == 0 && Texts(hs).Valid() && n <= |hs|
    ensures TextsAt(a + Words(Offsets(hs, |hs|)) + TextTails(hs) + b, |a| / 2, n) == Some(AllEvened(hs)[..n])
  {
    hide *;
    TextsAtMore(a + Words(Offsets(hs, |hs|)) + TextTails(hs) + b, |a| / 2, n);
    OneMore(AllEvened(hs), n);
    if n > 0 {
      EvenedAt(hs, n - 1);
      TextsAtPlace(a, hs, b, n - 1);
      OffsetsFit(hs);
      var offsets := Offsets(hs, |hs|);
      assert a + Words(offsets) + TextTails(hs) + b == a + Words(offsets) + (TextTails(hs) + b);
      WordAtPlace(a, offsets, TextTails(hs) + b, n - 1);
      ElementAtPlace(a, hs, b, n - 1);
    }
  }

  lemma Regrouped4(a: Nibbles, w: Nibbles, x: Nibbles, b: Nibbles)
    ensures a + (w + x) + b == a + w + (x + b) == (a + w) + x + b
  {
  }

  lemma Regrouped5(a: Nibbles, w: Nibbles, x: Nibbles, y: Nibbles, b: Nibbles)
    ensures a + (w + x + y) + b == a + w + (x + y + b) == (a + w) + x + y + b
  {
  }

  lemma WordAfter(a: Nibbles, n: nat)
    requires n < U256 && |a| % 2 == 0
    ensures |a + Word(n)| % 2 == 0 && |a + Word(n)| / 2 == |a| / 2 + 32
  {
    hide *;
    WordBack(n);
    Halves(|a|, 1, 0);
  }

  lemma NumbersTailIs(ns: seq<nat>)
    ensures NumbersTail(ns) == Word(|ns|) + Words(ns)
  {
    hide Word, Words;
  }

  lemma NumbersBack(a: Nibbles, ns: seq<nat>, b: Nibbles)
    requires |a| % 2 == 0 && |ns| < U64 && forall n <- ns :: n < U256
    ensures var s := a + NumbersTail(ns) + b;
            At(s, |a| / 2) == Some(|ns|) && NumbersAt(s, |a| / 2 + 32, |ns|) == Some(ns)
  {
    hide *;
    Wide();
    NumbersTailIs(ns);
    WordAfter(a, |ns|);
    Regrouped4(a, Word(|ns|), Words(ns), b);
    AtPlace(a, |ns|, Words(ns) + b);
    NumbersAtPlace(a + Word(|ns|), ns, b, |ns|);
    OneMore(ns, |ns|);
  }

  lemma TextsBack(a: Nibbles, hs: seq<Nibbles>, b: Nibbles)
    requires |a| % 2 == 0 && Texts(hs).Valid()
    ensures var s := a + TextsTail(hs) + b;
            At(s, |a| / 2) == Some(|hs|) && TextsAt(s, |a| / 2 + 32, |hs|) == Some(AllEvened(hs))
  {
    hide At, TextsAt, Words, Word, TextTails, Offsets, Pow16, HexValue, AllEvened, Evened;
    Wide();
    WordAfter(a, |hs|);
    var offsets := Words(Offsets(hs, |hs|));
    Regrouped5(a, Word(|hs|), offsets, TextTails(hs), b);
    AtPlace(a, |hs|, offsets + TextTails(hs) + b);
    TextsAtPlace(a + Word(|hs|), hs, b, |hs|);
    OneMore(AllEvened(hs), |hs|);
  }

  /** A tail is read back from wherever its head says it is. */
  lemma TailBack(a: Nibbles, arg: Arg, b: Nibbles, s: Nibbles, i: nat)
    requires |a| % 2 == 0 && arg.Valid() && arg.Dynamic() && s == a + arg.Tail() + b && At(s, 32 * i) == Some(|a| / 2)
    ensures Recover(s, i, KindOf(arg)) == Some(Content(arg))
  {
    hide At, TextAt, NumbersAt, TextsAt, TextTail, NumbersTail, TextsTail, TextTails, AllEvened, Pow16;
    match arg
    case Text(h) => TextAtPlace(a, h, b);
    case Numbers(ns, _) => NumbersBack(a, ns, b);
    case Texts(hs) => TextsBack(a, hs, b);
  }

  // ------------------------------------------------------------------ What fills a text up

  /** The least positive multiple of 64, by division. */
  lemma {:induction false} PaddingIsRounded(length: nat)
    ensures PaddingFor(length) == if length == 0 then 64 else 64 * ((length + 63) / 64)
  {
    if length > 64 {
      PaddingIsRounded(length - 64);
    }
  }

  /** The length in bytes, the digits, and zeros up to a whole number of words. */
  lemma TextTailDigits(h: Nibbles)
    requires |h| < U64
    ensures |TextTail(h)| == 64 + if |h| == 0 then 64 else 64 * ((|h| + 63) / 64)
    ensures HexValue(TextTail(h)[..64]) == |h| / 2
    ensures forall k | 64 <= k < 64 + |h| :: TextTail(h)[k] == h[k - 64]
    ensures forall k | 64 + |h| <= k < |TextTail(h)| :: TextTail(h)[k] == 0
  {
    hide Pow16, Word, HexValue, PaddingFor;
    Wide();
    WordBack(|h| / 2);
    PaddingIsRounded(|h|);
    var w := Word(|h| / 2);
    assert TextTail(h)[..64] == w;
    assert forall k | 64 <= k < |TextTail(h)| :: TextTail(h)[k] == PadRight(h, PaddingFor(|h|))[k - 64];
  }

  lemma Shifted(a: Nibbles, t: Nibbles, b: Nibbles, s: Nibbles)
    requires s == a + t + b
    ensures |a| + |t| <= |s| && forall k | |a| <= k < |a| + |t| :: s[k] == t[k - |a|]
  {
  }

  /** The digits lie there, and zeros behind them up to the next whole word. */
  predicate FilledUp(s: Nibbles, from: nat, h: Nibbles) {
    var size := if |h| == 0 then 64 else 64 * ((|h| + 63) / 64);
    && from + |h| <= from + size <= |s|
    && s[from..from + |h|] == h
    && forall k | from + |h| <= k < from + size :: s[k] == 0
  }

  lemma FilledUpParts(s: Nibbles, from: nat, h: Nibbles)
    requires FilledUp(s, from, h)
    ensures var size := if |h| == 0 then 64 else 64 * ((|h| + 63) / 64);
            && from + |h| <= from + size <= |s|
            && s[from..from + |h|] == h
            && forall k | from + |h| <= k < from + size :: s[k] == 0
  {
  }

  /** A text within a packing, from behind its length on. */
  lemma TextWithin(a: Nibbles, h: Nibbles, b: Nibbles)
    requires |h| < U64
    ensures FilledUp(a + TextTail(h) + b, |a| + 64, h)
  {
    hide TextTail, PaddingFor, HexValue;
    TextTailDigits(h);
    Shifted(a, TextTail(h), b, a + TextTail(h) + b);
    RoundedUp(|h|);
  }

  lemma TextLength(a: Nibbles, h: Nibbles, b: Nibbles)
    requires |h| < U64 && |a| % 2 == 0
    ensures At(a + TextTail(h) + b, |a| / 2) == Some(|h| / 2)
  {
    hide Word, At, PadRight, PaddingFor;
    Wide();
    var d := PadRight(h, PaddingFor(|h|));
    AtPlace(a, |h| / 2, d + b);
    assert a + (Word(|h| / 2) + d) + b == a + Word(|h| / 2) + (d + b);
  }

  lemma RoundedUp(n: nat)
    ensures n <= if n == 0 then 64 else 64 * ((n + 63) / 64)
  {
  }

  // ------------------------------------------------------------------ Heads, and the whole

  lemma {:induction false} HeadsSize(args: seq<Arg>, count: nat, n: nat)
    requires n <= |args| && (forall a <- args :: a.Valid())
    requires forall i | 0 <= i < n && args[i].Dynamic() :: NextOffset(args[..i], count) < U256
    ensures |Heads(args[..n], count)| == 64 * n
  {
    hide Word, Pow16, NextOffset;
    if n > 0 {
      HeadsSize(args, count, n - 1);
      assert args[..n][..n - 1] == args[..n - 1];
      HeadSize(args[n - 1], NextOffset(args[..n - 1], count));
    }
  }

  lemma HeadSize(arg: Arg, next: nat)
    requires arg.Valid() && (arg.Dynamic() ==> next < U256)
    ensures |Head(arg, next)| == 64
  {
    hide Pow16, Word;
    WordBack(if arg.Number? then arg.n else next);
  }

  lemma {:induction false} HeadsPrefix(args: seq<Arg>, count: nat, i: nat, n: nat)
    requires i < n <= |args|
    ensures Heads(args[..i], count) + Head(args[i], NextOffset(args[..i], count)) <= Heads(args[..n], count)
    decreases n
  {
    hide Head, NextOffset;
    assert args[..n][..n - 1] == args[..n - 1];
    if i < n - 1 {
      HeadsPrefix(args, count, i, n - 1);
    }
  }

  lemma {:induction false} TailsPrefix(args: seq<Arg>, i: nat, n: nat)
    requires i < n <= |args|
    ensures Tails(args[..i]) + args[i].Tail() <= Tails(args[..n])
    decreases n
  {
    assert args[..n][..n - 1] == args[..n - 1];
    if i < n - 1 {
      TailsPrefix(args, i, n - 1);
    }
  }

  lemma TruePositions(args: seq<Arg>)
    requires Fit(args) && OffsetsTrue(args)
    ensures forall i | 0 <= i < |args| && args[i].Dynamic() :: NextOffset(args[..i], |args|) < U256
    ensures |Heads(args, |args|)| == 64 * |args|
  {
    hide Tails, Heads, NextOffset, Pow16;
    Wide();
    forall i | 0 <= i < |args| && args[i].Dynamic() ensures NextOffset(args[..i], |args|) < U256 {
      TailsPrefix(args, i, |args|);
      assert args[..|args|] == args;
    }
    HeadsSize(args, |args|, |args|);
    assert args[..|args|] == args;
  }

  lemma Split3(all: Nibbles, before: Nibbles, own: Nibbles, a: Nibbles, b: Nibbles) returns (after: Nibbles)
    requires before + own <= all
    ensures a + all + b == (a + before) + own + (after + b)
    ensures all + b == before + own + (after + b)
  {
    after := all[|before + own|..];
    assert all == before + own + after;
  }

  /** The head of argument i. */
  lemma HeadBack(args: seq<Arg>, i: nat)
    requires Fit(args) && OffsetsTrue(args) && i < |args|
    ensures At(Packed(args), 32 * i) == Some(if args[i].Number? then args[i].n else TailAt(args, i))
  {
    hide *;
    TruePositions(args);
    FitParts(args, i);
    TrueAt(args, i);
    HeadsPrefix(args, |args|, i, |args|);
    HeadsSize(args, |args|, i);
    OneMore(args, 0);
    var next := NextOffset(args[..i], |args|);
    HeadIs(args[i], next);
    var before := Heads(args[..i], |args|);
    HalfOfWords(i);
    var after := Split3(Heads(args, |args|), before, Head(args[i], next), [], Tails(args));
    AtPlace(before, if args[i].Number? then args[i].n else next, after + Tails(args));
  }

  lemma HalfOfWords(n: nat)
    ensures 64 * n % 2 == 0 && 64 * n / 2 == 32 * n
  {
  }

  lemma TrueAt(args: seq<Arg>, i: nat)
    requires OffsetsTrue(args) && i < |args|
    ensures args[i].Dynamic() ==> NextOffset(args[..i], |args|) == TailAt(args, i)
    ensures Packed(args) == Heads(args, |args|) + Tails(args)
  {
  }

  lemma HeadIs(arg: Arg, next: nat)
    ensures Head(arg, next) == Word(if arg.Number? then arg.n else next)
  {
    hide Word;
  }

  /** The tail of a dynamic argument within the packing. */
  lemma TailPlace(args: seq<Arg>, i: nat) returns (a: Nibbles, b: Nibbles)
    requires Fit(args) && OffsetsTrue(args) && i < |args|
    ensures Packed(args) == a + args[i].Tail() + b && |a| % 2 == 0 && |a| / 2 == TailAt(args, i)
  {
    hide Tails, Heads, NextOffset, Pow16, TextTail, TextsTail, NumbersTail;
    TruePositions(args);
    TailsPrefix(args, i, |args|);
    OneMore(args, 0);
    TailsWhole(args[..i]);
    var heads, before := Heads(args, |args|), Tails(args[..i]);
    a := heads + before;
    var after := Split3(Tails(args), before, args[i].Tail(), heads, []);
    b := after + [];
    Halves(0, |args|, |before|);
    assert heads + Tails(args) + [] == Packed(args);
  }

  /** Reading a packing by its heads recovers every argument. */
  lemma PackingRecovered(args: seq<Arg>, i: nat)
    requires Fit(args) && Countable(args) && i < |args|
    ensures Recover(Packed(args), i, KindOf(args[i])) == Some(Content(args[i]))
  {
    hide *;
    FitParts(args, i);
    OffsetsTrueIff(args);
    HeadBack(args, i);
    if args[i].Number? {
      NumberBack(args[i], Packed(args), i);
    } else {
      var a, b := TailPlace(args, i);
      TailBack(a, args[i], b, Packed(args), i);
    }
  }

  /** The words of a text in a packing: its digits, and behind the last of them zeros. */
  lemma TextFilledUp(args: seq<Arg>, i: nat)
    requires Fit(args) && Countable(args) && i < |args| && args[i].Text?
    ensures var s, h := Packed(args), args[i].h;
            && At(s, 32 * i).Some? && At(s, At(s, 32 * i).value) == Some(|h| / 2)
            && var from, size := 2 * At(s, 32 * i).value + 64, if |h| == 0 then 64 else 64 * ((|h| + 63) / 64);
            && from + |h| <= from + size <= |s|
            && s[from..from + |h|] == h
            && forall k | from + |h| <= k < from + size :: s[k] == 0
  {
    hide *;
    FitParts(args, i);
    OffsetsTrueIff(args);
    HeadBack(args, i);
    var a, b := TailPlace(args, i);
    TextParts(args[i]);
    TextWithin(a, args[i].h, b);
    TextLength(a, args[i].h, b);
    Multiple(|a|, 2);
    FilledUpParts(Packed(args), |a| + 64, args[i].h);
  }

  lemma TextParts(arg: Arg)
    requires arg.Valid()
    ensures arg.Text? ==> |arg.h| < U64 && arg.Tail() == TextTail(arg.h)
    ensures arg.Texts? ==> Texts(arg.hs).Valid() && arg.Tail() == TextsTail(arg.hs)
  {
    hide TextTail, TextsTail;
  }

  /** Where an element lies whose offset is counted from behind the word with the number of elements. */
  lemma ElementPlace(a: Nibbles, hs: seq<Nibbles>, b: Nibbles, j: nat) returns (p: Nibbles, q: Nibbles)
    requires |a| % 2 == 0 && Texts(hs).Valid() && j < |hs|
    ensures a + TextsTail(hs) + b == p + TextTail(Evened(hs[j])) + q && |Evened(hs[j])| < U64
    ensures |p| == |a| + 64 + 2 * Offsets(hs, |hs|)[j]
  {
    hide *;
    Wide();
    TextsCount(hs);
    WordSize(|hs|);
    TextsTailWords(hs);
    OffsetFacts(hs, j);
    TextTailsAround(hs, j);
    var w, offsets := Word(|hs|), Words(Offsets(hs, |hs|));
    Regrouped5(a, w, offsets, TextTails(hs), b);
    q := Regrouped(a + w, offsets, TextTails(hs), TextTails(hs[..j]), TextTail(Evened(hs[j])), b);
    p := a + w + offsets + TextTails(hs[..j]);
    q := q + b;
    Doubled(|hs|, |TextTails(hs[..j])|);
  }

  lemma WordSize(n: nat)
    requires n < U256
    ensures |Word(n)| == 64
  {
    hide *;
    WordBack(n);
  }

  lemma TextsTailWords(hs: seq<Nibbles>)
    ensures TextsTail(hs) == Word(|hs|) + Words(Offsets(hs, |hs|)) + TextTails(hs)
  {
    hide Word, Words, TextTails, Offsets;
  }

  lemma Doubled(n: nat, rest: nat)
    requires rest % 64 == 0
    ensures 2 * (32 * n + rest / 2) == 64 * n + rest
  {
    var w := rest / 64;
    Multiple(rest, 64);
    Half(32 * w);
    assert rest == 2 * (32 * w);
  }

  /** The word with an element's offset. */
  lemma OffsetWord(a: Nibbles, hs: seq<Nibbles>, b: Nibbles, j: nat)
    requires |a| % 2 == 0 && Texts(hs).Valid() && j < |hs|
    ensures At(a + TextsTail(hs) + b, |a| / 2 + 32 + 32 * j) == Some(Offsets(hs, |hs|)[j])
  {
    hide *;
    Wide();
    TextsCount(hs);
    WordAfter(a, |hs|);
    TextsTailWords(hs);
    OffsetsFit(hs);
    var offsets := Offsets(hs, |hs|);
    Regrouped5(a, Word(|hs|), Words(offsets), TextTails(hs), b);
    assert a + Word(|hs|) + Words(offsets) + TextTails(hs) + b == a + Word(|hs|) + Words(offsets) + (TextTails(hs) + b);
    WordAtPlace(a + Word(|hs|), offsets, TextTails(hs) + b, j);
  }

  lemma TextsCount(hs: seq<Nibbles>)
    requires Texts(hs).Valid()
    ensures |hs| < U64
  {
    hide TextTails;
  }

  lemma ElementFilledUp(args: seq<Arg>, i: nat, j: nat) returns (head: nat, offset: nat)
    requires Fit(args) && Countable(args) && i < |args| && args[i].Texts? && j < |args[i].hs|
    ensures At(Packed(args), 32 * i) == Some(head) && At(Packed(args), head + 32 + 32 * j) == Some(offset)
    ensures At(Packed(args), head + 32 + offset) == Some(|Evened(args[i].hs[j])| / 2)
    ensures FilledUp(Packed(args), 2 * (head + 32 + offset) + 64, Evened(args[i].hs[j]))
  {
    hide *;
    FitParts(args, i);
    OffsetsTrueIff(args);
    HeadBack(args, i);
    var hs := args[i].hs;
    var a, b := TailPlace(args, i);
    TextParts(args[i]);
    head, offset := |a| / 2, Offsets(hs, |hs|)[j];
    OffsetWord(a, hs, b, j);
    var p, q := ElementPlace(a, hs, b, j);
    TextWithin(p, Evened(hs[j]), q);
    Multiple(|a|, 2);
    Half(|a| / 2 + 32 + offset);
    TextLength(p, Evened(hs[j]), q);
  }

  /** The words of every element of an array of texts, whose offsets count from behind the word with their number. */
  lemma TextsFilledUp(args: seq<Arg>, i: nat, j: nat, h: Nibbles) returns (head: nat, offset: nat)
    requires Fit(args) && Countable(args) && i < |args| && args[i].Texts? && j < |args[i].hs|
    requires h == if |args[i].hs[j]| % 2 == 1 then [0] + args[i].hs[j] else args[i].hs[j]
    ensures At(Packed(args), 32 * i) == Some(head) && At(Packed(args), head + 32 + 32 * j) == Some(offset)
    ensures At(Packed(args), head + 32 + offset) == Some(|h| / 2)
    ensures var s, from, size := Packed(args), 2 * (head + 32 + offset) + 64, if |h| == 0 then 64 else 64 * ((|h| + 63) / 64);
            && from + |h| <= from + size <= |s|
            && s[from..from + |h|] == h
            && forall k | from + |h| <= k < from + size :: s[k] == 0
  {
    hide *;
    head, offset := ElementFilledUp(args, i, j);
    EvenedIs(args[i].hs[j]);
    FilledUpParts(Packed(args), 2 * (head + 32 + offset) + 64, h);
  }

  /** It recovers what every argument stands for but a single bytes argument with an odd number of digits, whose last digit is lost. */
  lemma MeaningRecoveredIff(args: seq<Arg>, i: nat)
    requires Fit(args) && Countable(args) && i < |args|
    ensures (Recover(Packed(args), i, KindOf(args[i])) == Some(Meaning(args[i]))) == !(args[i].Text? && |args[i].h| % 2 == 1)
  {
    hide Packed, Recover, Fit, Countable, AllEvened;
    PackingRecovered(args, i);
    if args[i].Text? {
      WholeDigits(args[i].h);
    }
  }

  lemma WholeDigits(h: Nibbles)
    ensures h[..2 * (|h| / 2)] == Evened(h) <==> |h| % 2 == 0
  {
    assert |h[..2 * (|h| / 2)]| == 2 * (|h| / 2);
  }

  lemma FitParts(args: seq<Arg>, i: nat)
    requires Fit(args) && i < |args|
    ensures (forall a <- args :: a.Valid()) && args[i].Valid() && (args[i].Dynamic() <==> !args[i].Number?)
  {
    assert args[i] in args;
  }

  lemma NumberBack(arg: Arg, s: Nibbles, i: nat)
    requires arg.Number? && At(s, 32 * i) == Some(arg.n)
    ensures Recover(s, i, KindOf(arg)) == Some(Content(arg))
  {
  }

  // ------------------------------------------------------------------ The loops

  method RoundUp(length: nat) returns (padding: nat)
    ensures padding == PaddingFor(length)
  {
    padding := 64;
    while padding < length
      invariant padding % 64 == 0 && padding >= 64
      invariant padding - 64 < length || padding == 64
      decreases length - padding
    {
      padding := padding + 64;
    }
    PaddingIs(length, padding);
  }

  lemma {:induction false} PaddingIs(length: nat, p: nat)
    requires p % 64 == 0 && p >= 64 && length <= p && (p == 64 || p - 64 < length)
    ensures PaddingFor(length) == p
  {
    if length > 64 {
      PaddingIs(length - 64, p - 64);
    }
  }

  /** packBytes: an offset of one word, the length and the filled-up digits. packMulti takes all but the offset. */
  method PackBytes(hexStrip: Nibbles) returns (r: Nibbles)
    ensures r == Word(32) + TextTail(hexStrip)
    ensures |hexStrip| < U64 ==> 128 + |hexStrip| <= |r| && r[128..128 + |hexStrip|] == hexStrip
    ensures |hexStrip| < U64 ==> forall k | 128 + |hexStrip| <= k < |r| :: r[k] == 0
  {
    hide Word, Pow16, HexValue;
    var padding := RoundUp(|hexStrip|);
    r := Word(32) + Word(|hexStrip| / 2) + PadRight(hexStrip, padding);
    SkipOffset(TextTail(hexStrip));
    if |hexStrip| < U64 {
      Wide();
      WordSize(|hexStrip| / 2);
    }
  }

  /** packUintArray; addresses and booleans are packed alike once they are numbers. */
  method PackUintArray(numV: seq<nat>) returns (r: Nibbles)
    ensures r == Word(32) + NumbersTail(numV)
  {
    hide Word;
    var arrData: Nibbles := [];
    for i := 0 to |numV|
      invariant arrData == Words(numV[..i])
    {
      assert numV[..i + 1][..i] == numV[..i];
      arrData := arrData + Word(numV[i]);
    }
    assert numV[..|numV|] == numV;
    r := Word(32) + Word(|numV|) + arrData;
  }

  /** packBytesArray and packStringArray: offsets first, then each length with its digits. */
  method PackBytesArray(hexV: seq<Nibbles>) returns (r: Nibbles)
    requires Texts(hexV).Valid()
    ensures r == Word(32) + TextsTail(hexV)
  {
    hide *;
    var offsets: Nibbles, datas: Nibbles, totalPaddings := [], [], 0;
    NoTexts(hexV);
    for i := 0 to |hexV|
      invariant offsets == Words(Offsets(hexV[..i], |hexV|)) && datas == TextTails(hexV[..i])
      invariant |datas| == 64 * i + 64 * totalPaddings
    {
      OneMoreText(hexV, i);
      EvenedIs(hexV[i]);
      var hS := hexV[i];
      if |hS| % 2 != 0 {
        hS := [0] + hS;
      }
      var hO := 32 * |hexV| + 32 * i + 32 * totalPaddings;
      var padding := RoundUp(|hS|);
      totalPaddings := totalPaddings + padding / 64;
      offsets := offsets + Word(hO);
      datas := datas + (Word(|hS| / 2) + PadRight(hS, padding));
    }
    assert hexV[..|hexV|] == hexV;
    r := Word(32) + Word(|hexV|) + offsets + datas;
    TextsTailIs(hexV);
  }

  lemma NoTexts(hs: seq<Nibbles>)
    ensures Words(Offsets(hs[..0], |hs|)) == [] && TextTails(hs[..0]) == []
  {
  }

  lemma EvenedIs(h: Nibbles)
    ensures Evened(h) == if |h| % 2 != 0 then [0] + h else h
    ensures TextTail(Evened(h)) == Word(|Evened(h)| / 2) + PadRight(Evened(h), PaddingFor(|Evened(h)|))
    ensures PaddingFor(|Evened(h)|) % 64 == 0
  {
    hide Word;
  }

  lemma TextsTailIs(hs: seq<Nibbles>)
    ensures Word(32) + TextsTail(hs) == Word(32) + Word(|hs|) + Words(Offsets(hs, |hs|)) + TextTails(hs)
  {
    hide Word, Words, TextTails, Offsets;
  }

  lemma OneMoreText(hs: seq<Nibbles>, i: nat)
    requires Texts(hs).Valid() && i < |hs|
    ensures |TextTail(Evened(hs[i]))| == 64 + PaddingFor(|Evened(hs[i])|)
    ensures Words(Offsets(hs[..i + 1], |hs|)) == Words(Offsets(hs[..i], |hs|)) + Word(32 * |hs| + |TextTails(hs[..i])| / 2)
    ensures TextTails(hs[..i + 1]) == TextTails(hs[..i]) + TextTail(Evened(hs[i]))
  {
    hide *;
    assert hs[..i + 1][..i] == hs[..i] && hs[..i + 1][i] == hs[i];
    ValidText(hs, i);
    Wide();
    EvenedTailSize(hs[i]);
    TextTailSize(Evened(hs[i]));
    OneMoreOffset(hs[..i + 1], |hs|);
    OneMoreTail(hs[..i + 1]);
  }

  lemma ValidText(hs: seq<Nibbles>, i: nat)
    requires Texts(hs).Valid() && i < |hs|
    ensures |hs[i]| < U64 - 1
  {
    assert hs[i] in hs;
  }

  lemma OneMoreTail(hs: seq<Nibbles>)
    requires hs != []
    ensures TextTails(hs) == TextTails(hs[..|hs| - 1]) + TextTail(Evened(hs[|hs| - 1]))
  {
    hide TextTail, Evened;
  }

  lemma OneMoreOffset(hs: seq<Nibbles>, count: nat)
    requires hs != []
    ensures Words(Offsets(hs, count))
         == Words(Offsets(hs[..|hs| - 1], count)) + Word(32 * count + |TextTails(hs[..|hs| - 1])| / 2)
  {
    hide *;
    OffsetsLast(hs, count);
    WordsLast(Offsets(hs[..|hs| - 1], count), 32 * count + |TextTails(hs[..|hs| - 1])| / 2);
  }

  lemma OffsetsLast(hs: seq<Nibbles>, count: nat)
    requires hs != []
    ensures Offsets(hs, count) == Offsets(hs[..|hs| - 1], count) + [32 * count + |TextTails(hs[..|hs| - 1])| / 2]
  {
    hide TextTails;
  }

  lemma WordsLast(ns: seq<nat>, n: nat)
    ensures Words(ns + [n]) == Words(ns) + Word(n)
  {
    hide Word;
    assert (ns + [n])[..|ns|] == ns;
  }

  /** What is left without the offset word in front. */
  lemma SkipOffset(tail: Nibbles)
    ensures |Word(32)| == 64 && (Word(32) + tail)[64..] == tail
  {
    Wide();
    hide Pow16, Word;
    WordBack(32);
  }

  /** packMulti on a list of arguments whose types have been checked: heads in ret, tails in arrToAppend. */
  method PackMulti(args: seq<Arg>) returns (ret: Nibbles)
    requires Fit(args)
    ensures ret == Packed(args)
  {
    hide Word, Pow16, TextTail, TextsTail, NumbersTail;
    ret := [];
    var nextOffset := 32 * |args|;
    var arrToAppend: Nibbles := [];
    assert args[..0] == [];
    for i := 0 to |args|
      invariant ret == Heads(args[..i], |args|) && arrToAppend == Tails(args[..i]) && nextOffset == NextOffset(args[..i], |args|)
    {
      assert args[..i + 1][..i] == args[..i] && args[i] in args;
      SkipOffset(args[i].Tail());
      if args[i].Number? {
        ret := ret + Word(args[i].n);
        assert arrToAppend + [] == arrToAppend;
      } else {
        ret := ret + Word(nextOffset);
        var packed := PackOne(args[i]);
        packed := packed[64..];
        nextOffset := nextOffset + if args[i].Numbers? then 64 * args[i].members else 32 * (|packed| / 64);
        arrToAppend := arrToAppend + packed;
      }
    }
    assert args[..|args|] == args;
    ret := ret + arrToAppend;
  }

  /** The packer of a dynamic type. */
  method PackOne(arg: Arg) returns (r: Nibbles)
    requires arg.Valid() && arg.Dynamic()
    ensures r == Word(32) + arg.Tail()
  {
    hide Word, Pow16, TextTail, TextsTail, NumbersTail;
    match arg
    case Text(h) => r := PackBytes(h);
    case Numbers(ns, _) => r := PackUintArray(ns);
    case Texts(hs) => r := PackBytesArray(hs);
  }

  /** A packer by itself gives what packMulti gives for that one argument. */
  lemma PackedAlone(arg: Arg)
    requires arg.Dynamic()
    ensures Word(32) + arg.Tail() == Packed([arg])
  {
    hide Word, TextTail, TextsTail, NumbersTail;
    var args := [arg];
    assert args[..0] == [];
    assert Heads([], 1) == [] && Tails([]) == [] && NextOffset([], 1) == 32;
    assert Heads(args, 1) == [] + Head(arg, 32) && Tails(args) == [] + arg.Tail();
  }
}
