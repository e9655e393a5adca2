/** encodeSignEthMessage: a path and a transaction cut into USB reports, three to a chunk of at most 150 bytes. */
module LedgerEncoding {
  import opened CommonData
  import LedgerPath

  const FIRST := 52
  const SECOND := 59
  const THIRD := 39
  const CHUNK := 150
  const REPORT := 65

  lemma Sizes()
    ensures CHUNK == 150 && FIRST == 52 && SECOND == 59 && THIRD == 39 && REPORT == 65
  {
  }

  lemma MinIs(a: nat, b: nat)
    ensures Min(a, b) == if a < b then a else b
  {
  }

  /** A fixed array that starts with these bytes. */
  function Filled(b: Bytes, n: nat): (r: Bytes)
    requires |b| <= n
    ensures |r| == n && r[..|b|] == b
  {
    b + Zeros(n - |b|)
  }

  /** At most n bytes of s from a place on. */
  function Part(s: Bytes, from: nat, n: nat): (p: Bytes)
    ensures |p| <= n
  {
    s[Min(from, |s|)..Min(from + n, |s|)]
  }

  datatype Payload = Payload(payloadSize: nat, isHIDFirstMessage: bool,
                             isFirstMessageEmpty: bool, isSecondMessageEmpty: bool, isThirdMessageEmpty: bool,
                             firstMessage: Bytes, secondMessage: Bytes, thirdMessage: Bytes)
  {
    predicate Valid() {
      |firstMessage| == FIRST && |secondMessage| == SECOND && |thirdMessage| == THIRD && payloadSize <= CHUNK
    }
  }

  /** One chunk, spread over its three messages. */
  function PayloadOf(c: Bytes, first: bool): (p: Payload)
    requires 0 < |c| <= CHUNK
    ensures p.Valid()
  {
    Payload(|c|, first, false, |c| <= FIRST, |c| <= FIRST + SECOND,
            Filled(Part(c, 0, FIRST), FIRST), Filled(Part(c, FIRST, SECOND), SECOND), Filled(Part(c, FIRST + SECOND, THIRD), THIRD))
  }

  /** The chunks of a stream of bytes. */
  function PayloadsOf(s: Bytes, first: bool): seq<Payload>
    decreases |s|
  {
    if s == [] then [] else [PayloadOf(Part(s, 0, CHUNK), first)] + PayloadsOf(s[Min(CHUNK, |s|)..], false)
  }

  /** What of the path is sent: all of it, or what fits the first message, or nothing of an overlong one. */
  function Head(path: Bytes): (h: Bytes)
    ensures |h| <= FIRST
  {
    if |path| >= CHUNK then [] else path[..Min(FIRST, |path|)]
  }

  function Payloads(path: Bytes, rlp: Bytes): seq<Payload> {
    if rlp == [] then [] else PayloadsOf(Head(path) + rlp, |path| < CHUNK)
  }

  // ------------------------------------------------------------------ Reports

  function FirstReport(p: Payload): (r: Bytes)
    requires p.Valid()
    ensures |r| == REPORT
  {
    [0x00] + [0x01, 0x01] + [0x05] + [0x00, 0x00] + [0x00, 5 + p.payloadSize]
      + [0xe0, 0x04, if p.isHIDFirstMessage then 0x00 else 0x80, 0x00, p.payloadSize] + p.firstMessage
  }

  function LaterReport(index: Byte, message: Bytes): (r: Bytes)
    requires |message| <= SECOND
    ensures |r| == REPORT
  {
    Filled([0x00] + [0x01, 0x01] + [0x05] + [0x00, index] + message, REPORT)
  }

  function ReportsOf(p: Payload): (rs: seq<Bytes>)
    requires p.Valid()
  {
    (if p.isFirstMessageEmpty then [] else [FirstReport(p)])
    + (if p.isSecondMessageEmpty then [] else [LaterReport(1, p.secondMessage)])
    + (if p.isThirdMessageEmpty then [] else [LaterReport(2, p.thirdMessage)])
  }

  function Reports(ps: seq<Payload>): seq<Bytes>
    requires forall p <- ps :: p.Valid()
  {
    if ps == [] then [] else ReportsOf(ps[0]) + Reports(ps[1..])
  }

  // ------------------------------------------------------------------ Reading them, as the device does: three to a package

  /** The command in a package: byte 8 on of its first report, byte 6 on of the others, cut at the length in bytes 6 and 7. */
  function CommandOf(package: seq<Bytes>): Bytes
    requires package != [] && forall r <- package :: |r| == REPORT
  {
    var all := package[0][8..] + (if |package| > 1 then package[1][6..] else []) + if |package| > 2 then package[2][6..] else [];
    var n := 256 * (package[0][6] as nat) + package[0][7];
    if n <= |all| then all[..n] else all
  }

  /** The data of all commands, without the five bytes in front of each. */
  function Rejoined(rs: seq<Bytes>): Bytes
    requires forall r <- rs :: |r| == REPORT
    decreases |rs|
  {
    if rs == [] then []
    else
      var command := CommandOf(rs[..Min(3, |rs|)]);
      command[Min(5, |command|)..] + Rejoined(rs[Min(3, |rs|)..])
  }

  /** P1 of each package. */
  function FlagsOf(rs: seq<Bytes>): seq<Byte>
    requires forall r <- rs :: |r| == REPORT
    decreases |rs|
  {
    if rs == [] then [] else [rs[0][10]] + FlagsOf(rs[Min(3, |rs|)..])
  }

  lemma {:induction false} PayloadsValid(s: Bytes, first: bool)
    ensures forall p <- PayloadsOf(s, first) :: p.Valid()
    decreases |s|
  {
    hide PayloadOf;
    if s != [] {
      PayloadsValid(s[Min(CHUNK, |s|)..], false);
    }
  }

  lemma ReportSizes(p: Payload)
    requires p.Valid()
    ensures forall r <- ReportsOf(p) :: |r| == REPORT
  {
    hide FirstReport, LaterReport;
  }

  lemma {:induction false} AllReportSizes(ps: seq<Payload>)
    requires forall p <- ps :: p.Valid()
    ensures forall r <- Reports(ps) :: |r| == REPORT
  {
    hide ReportsOf;
    if ps != [] {
      ReportSizes(ps[0]);
      AllReportSizes(ps[1..]);
    }
  }

  lemma CommandOfPackage(one: Bytes, more: seq<Bytes>, command: Bytes, all: Bytes)
    requires |one| == REPORT && |more| <= 2 && forall r <- more :: |r| == REPORT
    requires all == one[8..] + (if |more| > 0 then more[0][6..] else []) + if |more| > 1 then more[1][6..] else []
    requires 256 * (one[6] as nat) + one[7] == |command| <= |all| && all[..|command|] == command
    ensures (forall r <- [one] + more :: |r| == REPORT) && CommandOf([one] + more) == command
  {
    forall r <- [one] + more ensures |r| == REPORT {
      if r != one {
        assert r in more;
      }
    }
    var rs := [one] + more;
    assert rs[0] == one && (|more| > 0 ==> rs[1] == more[0]) && (|more| > 1 ==> rs[2] == more[1]);
  }

  lemma Prefixed(h: Bytes, data: Bytes, c: Bytes)
    requires |c| <= |data| && data[..|c|] == c
    ensures (h + data)[..|h + c|] == h + c
  {
  }

  lemma Associated(a: Bytes, b: Bytes, c: Bytes, d: Bytes)
    ensures a + b + c + d == a + (b + c + d) && a + b + c == a + (b + c)
    ensures a + b + [] == a + b && a + [] + [] == a
  {
  }

  /** The package of one chunk. */
  lemma PackageBack(c: Bytes, first: bool)
    requires 0 < |c| <= CHUNK
    ensures var rs := ReportsOf(PayloadOf(c, first));
            && (forall r <- rs :: |r| == REPORT) && 0 < |rs| <= 3 && (|c| == CHUNK ==> |rs| == 3)
            && CommandOf(rs) == [0xe0, 0x04, if first then 0x00 else 0x80, 0x00, |c|] + c
            && rs[0][10] == if first then 0x00 else 0x80
  {
    hide FirstReport, LaterReport, PayloadOf, Filled, Part, CommandOf, Zeros;
    var p := PayloadOf(c, first);
    ReportSizes(p);
    ReportParts(p);
    PayloadParts(c, first);
    MessagesJoin(c, p);
    var one, two, three := FirstReport(p), LaterReport(1, p.secondMessage), LaterReport(2, p.thirdMessage);
    var header: Bytes := [0xe0, 0x04, if first then 0x00 else 0x80, 0x00, |c|];
    var tail := p.thirdMessage + Zeros(SECOND - THIRD);
    Associated(header, p.firstMessage, p.secondMessage, tail);
    if |c| <= FIRST {
      assert ReportsOf(p) == [one] + [];
      Prefixed(header, p.firstMessage, c);
      Associated(one[8..], [], [], []);
      CommandOfPackage(one, [], header + c, header + p.firstMessage);
    } else if |c| <= FIRST + SECOND {
      assert ReportsOf(p) == [one] + [two];
      Prefixed(header, p.firstMessage + p.secondMessage, c);
      Associated(one[8..], two[6..], [], []);
      CommandOfPackage(one, [two], header + c, header + (p.firstMessage + p.secondMessage));
    } else {
      assert ReportsOf(p) == [one] + [two, three];
      Prefixed(header, p.firstMessage + p.secondMessage + tail, c);
      CommandOfPackage(one, [two, three], header + c, header + (p.firstMessage + p.secondMessage + tail));
    }
  }

  lemma PayloadParts(c: Bytes, first: bool)
    requires 0 < |c| <= CHUNK
    ensures PayloadOf(c, first).isHIDFirstMessage == first
  {
  }

  lemma ReportParts(p: Payload)
    requires p.Valid()
    ensures var one, two, three := FirstReport(p), LaterReport(1, p.secondMessage), LaterReport(2, p.thirdMessage);
            && one[8..] == [0xe0, 0x04, if p.isHIDFirstMessage then 0x00 else 0x80, 0x00, p.payloadSize] + p.firstMessage
            && one[6] == 0x00 && one[7] == 5 + p.payloadSize && one[10] == (if p.isHIDFirstMessage then 0x00 else 0x80)
            && two[6..] == p.secondMessage && three[6..] == p.thirdMessage + Zeros(SECOND - THIRD)
  {
    assert Zeros(0) == [];
  }

  lemma MessagesJoin(c: Bytes, p: Payload)
    requires 0 < |c| <= CHUNK && p == PayloadOf(c, p.isHIDFirstMessage)
    ensures p.payloadSize == |c| && !p.isFirstMessageEmpty
    ensures p.isSecondMessageEmpty == (|c| <= FIRST) && p.isThirdMessageEmpty == (|c| <= FIRST + SECOND)
    ensures |c| <= FIRST ==> p.firstMessage[..|c|] == c
    ensures FIRST < |c| <= FIRST + SECOND ==> (p.firstMessage + p.secondMessage)[..|c|] == c
    ensures FIRST + SECOND < |c| ==> (p.firstMessage + p.secondMessage + (p.thirdMessage + Zeros(SECOND - THIRD)))[..|c|] == c
  {
    if |c| <= FIRST {
      assert Part(c, 0, FIRST) == c;
    } else if |c| <= FIRST + SECOND {
      assert Part(c, 0, FIRST) == c[..FIRST] && Part(c, FIRST, SECOND) == c[FIRST..];
      FullArray(c[..FIRST]);
      Rejoin(c[..FIRST], c[FIRST..], Zeros(FIRST + SECOND - |c|));
    } else {
      assert Part(c, 0, FIRST) == c[..FIRST] && Part(c, FIRST, SECOND) == c[FIRST..FIRST + SECOND];
      assert Part(c, FIRST + SECOND, THIRD) == c[FIRST + SECOND..];
      FullArray(c[..FIRST]);
      FullArray(c[FIRST..FIRST + SECOND]);
      var pad := Zeros(CHUNK - |c|) + Zeros(SECOND - THIRD);
      Rejoin(c[..FIRST] + c[FIRST..FIRST + SECOND], c[FIRST + SECOND..], pad);
      assert p.thirdMessage + Zeros(SECOND - THIRD) == c[FIRST + SECOND..] + pad;
    }
  }

  lemma FullArray(b: Bytes)
    ensures Filled(b, |b|) == b
  {
    assert b + Zeros(0) == b;
  }

  lemma Rejoin(a: Bytes, b: Bytes, pad: Bytes)
    ensures (a + (b + pad))[..|a + b|] == a + b
  {
  }

  /** Rejoining the packages of a stream gives the stream; only the first is marked as first. */
  lemma {:induction false} ReportsBack(s: Bytes, first: bool)
    ensures forall p <- PayloadsOf(s, first) :: p.Valid()
    ensures var rs := Reports(PayloadsOf(s, first));
            && (forall r <- rs :: |r| == REPORT) && Rejoined(rs) == s
            && (s == [] ==> FlagsOf(rs) == [])
            && (s != [] ==> FlagsOf(rs) != [] && FlagsOf(rs)[0] == (if first then 0x00 else 0x80)
                            && forall i | 0 < i < |FlagsOf(rs)| :: FlagsOf(rs)[i] == 0x80)
    decreases |s|
  {
    hide *;
    PayloadsValid(s, first);
    AllReportSizes(PayloadsOf(s, first));
    NothingSent();
    if s != [] {
      Sizes();
      MinIs(CHUNK, |s|);
      var c, rest := s[..Min(CHUNK, |s|)], s[Min(CHUNK, |s|)..];
      ReportsStep(s, first);
      PackageBack(c, first);
      ReportsBack(rest, false);
      RejoinedStep(ReportsOf(PayloadOf(c, first)), Reports(PayloadsOf(rest, false)));
      MinIs(5, |CommandOf(ReportsOf(PayloadOf(c, first)))|);
      Stripped([0xe0, 0x04, if first then 0x00 else 0x80, 0x00, |c|], c);
      assert c + rest == s;
    }
  }

  lemma Stripped(h: Bytes, c: Bytes)
    requires |h| == 5
    ensures |h + c| >= 5 && (h + c)[5..] == c
  {
  }

  lemma NothingSent()
    ensures PayloadsOf([], true) == PayloadsOf([], false) == [] && Reports([]) == [] && Rejoined([]) == [] && FlagsOf([]) == []
  {
  }

  lemma RejoinedStep(a: seq<Bytes>, b: seq<Bytes>)
    requires (forall r <- a :: |r| == REPORT) && (forall r <- b :: |r| == REPORT)
    requires |a| == 3 || (0 < |a| < 3 && b == [])
    ensures forall r <- a + b :: |r| == REPORT
    ensures Rejoined(a + b) == CommandOf(a)[Min(5, |CommandOf(a)|)..] + Rejoined(b)
    ensures FlagsOf(a + b) == [a[0][10]] + FlagsOf(b)
  {
    hide CommandOf;
    var rs := a + b;
    assert rs[..Min(3, |rs|)] == a && rs[Min(3, |rs|)..] == b;
  }

  /** Nothing is lost exactly if the path fits the first message. */
  lemma NothingLost(path: Bytes, rlp: Bytes)
    requires rlp != []
    ensures forall p <- Payloads(path, rlp) :: p.Valid()
    ensures var rs := Reports(Payloads(path, rlp));
            && (forall r <- rs :: |r| == REPORT)
            && (Rejoined(rs) == path + rlp <==> |path| <= FIRST)
            && FlagsOf(rs) != [] && FlagsOf(rs)[0] == (if |path| < CHUNK then 0x00 else 0x80)
            && forall i | 0 < i < |FlagsOf(rs)| :: FlagsOf(rs)[i] == 0x80
  {
    hide PayloadsOf, Reports, Rejoined, FlagsOf;
    var s := Head(path) + rlp;
    ReportsBack(s, |path| < CHUNK);
    assert |s| != |path + rlp| <==> |path| > FIRST;
    assert |path| <= FIRST ==> Head(path) == path;
  }

  /** For a printed path: nothing is lost exactly if it has at most twelve components. The thirteenth makes 53 bytes. */
  lemma PrintedPathFits(cs: seq<LedgerPath.Component>, rlp: Bytes)
    requires cs != [] && (forall c <- cs :: LedgerPath.IndexFits(c)) && rlp != []
    ensures var path := LedgerPath.PathOf(LedgerPath.Joined(cs));
            && path.Some? && |path.value| == 1 + 4 * |cs|
            && (forall p <- Payloads(path.value, rlp) :: p.Valid())
            && var rs := Reports(Payloads(path.value, rlp));
            && (forall r <- rs :: |r| == REPORT)
            && (Rejoined(rs) == path.value + rlp <==> |cs| <= 12)
  {
    hide LedgerPath.AsBytes, LedgerPath.WordsOf, LedgerPath.PathOf, LedgerPath.Joined, Payloads, Reports, Rejoined;
    LedgerPath.PathRoundTrip(cs);
    NothingLost(LedgerPath.PathOf(LedgerPath.Joined(cs)).value, rlp);
  }

  // ------------------------------------------------------------------ Every byte of every report

  lemma ZerosSum(m: nat, n: nat)
    ensures Zeros(m) + Zeros(n) == Zeros(m + n)
  {
    hide Zeros;
  }

  lemma FirstReportBytes(p: Payload)
    requires p.Valid()
    ensures FirstReport(p) == [0x00, 0x01, 0x01, 0x05, 0x00, 0x00, 0x00, 5 + p.payloadSize, 0xe0, 0x04,
                               if p.isHIDFirstMessage then 0x00 else 0x80, 0x00, p.payloadSize] + p.firstMessage
  {
  }

  lemma LaterHeader(index: Byte)
    ensures [0x00] + [0x01, 0x01] + [0x05] + [0x00, index] == [0x00, 0x01, 0x01, 0x05, 0x00, index]
  {
  }

  lemma LaterReportIs(index: Byte, message: Bytes)
    requires |message| <= 59
    ensures LaterReport(index, message) == Filled([0x00, 0x01, 0x01, 0x05, 0x00, index] + message, 65)
  {
    hide Zeros, Filled;
    LaterHeader(index);
  }

  lemma FilledIs(b: Bytes, n: nat)
    requires |b| <= n
    ensures Filled(b, n) == b + Zeros(n - |b|)
  {
    hide Zeros;
  }

  lemma TwiceFilled(h: Bytes, message: Bytes, y: Bytes, z: Bytes)
    ensures h + (message + y) + z == h + (message + (y + z))
  {
  }

  lemma LaterReportBytes(index: Byte, message: Bytes, n: nat)
    requires |message| <= n <= 59
    ensures LaterReport(index, Filled(message, n)) == [0x00, 0x01, 0x01, 0x05, 0x00, index] + (message + Zeros(59 - |message|))
  {
    hide *;
    LaterReportIs(index, Filled(message, n));
    FilledIs([0x00, 0x01, 0x01, 0x05, 0x00, index] + Filled(message, n), 65);
    FilledIs(message, n);
    ZerosSum(n - |message|, 59 - n);
    TwiceFilled([0x00, 0x01, 0x01, 0x05, 0x00, index], message, Zeros(n - |message|), Zeros(59 - n));
  }

  lemma PayloadBytes(c: Bytes, first: bool)
    requires 0 < |c| <= 150
    ensures var p := PayloadOf(c, first);
            && p.payloadSize == |c| && p.isHIDFirstMessage == first
            && !p.isFirstMessageEmpty && p.isSecondMessageEmpty == (|c| <= 52) && p.isThirdMessageEmpty == (|c| <= 111)
            && p.firstMessage == c[..Min(52, |c|)] + Zeros(52 - Min(52, |c|))
            && (|c| > 52 ==> p.secondMessage == Filled(c[52..Min(111, |c|)], 59))
            && (|c| > 111 ==> p.thirdMessage == Filled(c[111..], 39))
  {
    hide Zeros;
  }

  lemma ReportList(p: Payload)
    requires p.Valid() && !p.isFirstMessageEmpty && (p.isSecondMessageEmpty ==> p.isThirdMessageEmpty)
    ensures |ReportsOf(p)| == if p.isSecondMessageEmpty then 1 else if p.isThirdMessageEmpty then 2 else 3
    ensures ReportsOf(p)[0] == FirstReport(p)
    ensures !p.isSecondMessageEmpty ==> ReportsOf(p)[1] == LaterReport(1, p.secondMessage)
    ensures !p.isThirdMessageEmpty ==> ReportsOf(p)[2] == LaterReport(2, p.thirdMessage)
  {
    hide FirstReport, LaterReport;
  }

  lemma FirstOf(c: Bytes, first: bool)
    requires 0 < |c| <= 150
    ensures FirstReport(PayloadOf(c, first))
            == [0x00, 0x01, 0x01, 0x05, 0x00, 0x00, 0x00, 5 + |c|, 0xe0, 0x04, if first then 0x00 else 0x80, 0x00, |c|]
               + (c[..Min(52, |c|)] + Zeros(52 - Min(52, |c|)))
  {
    hide *;
    Sizes();
    PayloadBytes(c, first);
    FirstReportBytes(PayloadOf(c, first));
  }

  lemma SecondOf(c: Bytes, first: bool, r: Bytes)
    requires 52 < |c| <= 150 && r == LaterReport(1, PayloadOf(c, first).secondMessage)
    ensures r == [0x00, 0x01, 0x01, 0x05, 0x00, 0x01] + (c[52..Min(111, |c|)] + Zeros(111 - Min(111, |c|)))
  {
    hide *;
    Sizes();
    MinIs(111, |c|);
    PayloadBytes(c, first);
    LaterReportBytes(1, c[52..Min(111, |c|)], 59);
  }

  lemma ThirdOf(c: Bytes, first: bool, r: Bytes)
    requires 111 < |c| <= 150 && r == LaterReport(2, PayloadOf(c, first).thirdMessage)
    ensures r == [0x00, 0x01, 0x01, 0x05, 0x00, 0x02] + (c[111..] + Zeros(170 - |c|))
  {
    hide *;
    Sizes();
    PayloadBytes(c, first);
    LaterReportBytes(2, c[111..], 39);
  }

  /** The reports of one chunk. */
  lemma PackageBytes(c: Bytes, first: bool, rs: seq<Bytes>)
    requires 0 < |c| <= 150 && rs == ReportsOf(PayloadOf(c, first))
    ensures |rs| == if |c| <= 52 then 1 else if |c| <= 111 then 2 else 3
    ensures rs[0] == [0x00, 0x01, 0x01, 0x05, 0x00, 0x00, 0x00, 5 + |c|, 0xe0, 0x04, if first then 0x00 else 0x80, 0x00, |c|]
                     + (c[..Min(52, |c|)] + Zeros(52 - Min(52, |c|)))
    ensures |c| > 52 ==> rs[1] == [0x00, 0x01, 0x01, 0x05, 0x00, 0x01] + (c[52..Min(111, |c|)] + Zeros(111 - Min(111, |c|)))
    ensures |c| > 111 ==> rs[2] == [0x00, 0x01, 0x01, 0x05, 0x00, 0x02] + (c[111..] + Zeros(170 - |c|))
  {
    hide *;
    Sizes();
    PackageParts(c, first);
    if |c| > 52 {
      SecondOf(c, first, rs[1]);
    }
    if |c| > 111 {
      ThirdOf(c, first, rs[2]);
    }
    FirstOf(c, first);
  }

  lemma PackageParts(c: Bytes, first: bool)
    requires 0 < |c| <= 150
    ensures var p, rs := PayloadOf(c, first), ReportsOf(PayloadOf(c, first));
            && |rs| == (if |c| <= 52 then 1 else if |c| <= 111 then 2 else 3)
            && rs[0] == FirstReport(p)
            && (|c| > 52 ==> rs[1] == LaterReport(1, p.secondMessage))
            && (|c| > 111 ==> rs[2] == LaterReport(2, p.thirdMessage))
  {
    hide *;
    Sizes();
    PayloadBytes(c, first);
    ReportList(PayloadOf(c, first));
  }

  /** The reports of a stream are those of its first chunk, and then those of what follows it. */
  lemma ReportsStep(s: Bytes, first: bool)
    requires s != []
    ensures (forall p <- PayloadsOf(s, first) :: p.Valid()) && (forall p <- PayloadsOf(s[Min(150, |s|)..], false) :: p.Valid())
    ensures Reports(PayloadsOf(s, first))
            == ReportsOf(PayloadOf(s[..Min(150, |s|)], first)) + Reports(PayloadsOf(s[Min(150, |s|)..], false))
  {
    hide PayloadOf, ReportsOf;
    PayloadsValid(s, first);
    PayloadsValid(s[Min(150, |s|)..], false);
    assert Part(s, 0, 150) == s[..Min(150, |s|)];
    assert PayloadsOf(s, first)[1..] == PayloadsOf(s[Min(150, |s|)..], false);
  }

  lemma NoBytes(s: Bytes, first: bool)
    ensures forall p <- PayloadsOf(s, first) :: p.Valid()
    ensures s == [] ==> Reports(PayloadsOf(s, first)) == []
  {
    PayloadsValid(s, first);
  }

  lemma OneChunkOff(n: nat)
    ensures n >= 150 ==> n / 150 == 1 + (n - 150) / 150 && n % 150 == (n - 150) % 150
    ensures n < 150 ==> n / 150 == 0 && n % 150 == n
  {
  }

  /** Three reports to every 150 bytes, and for the rest as many as it takes. */
  lemma {:induction false} ReportCount(s: Bytes, first: bool)
    ensures forall p <- PayloadsOf(s, first) :: p.Valid()
    ensures var rest := |s| % 150;
            |Reports(PayloadsOf(s, first))|
            == 3 * (|s| / 150) + if rest == 0 then 0 else if rest <= 52 then 1 else if rest <= 111 then 2 else 3
    decreases |s|
  {
    hide ReportsOf, PayloadOf, Zeros, Reports, PayloadsOf;
    NoBytes(s, first);
    OneChunkOff(|s|);
    if s != [] {
      ReportsStep(s, first);
      PackageBytes(s[..Min(150, |s|)], first, ReportsOf(PayloadOf(s[..Min(150, |s|)], first)));
      ReportCount(s[Min(150, |s|)..], false);
    }
  }

  /** Chunk k begins 150 * k bytes into the stream and goes out in reports 3 * k on: every byte of them. */
  lemma {:induction false} ReportBytes(s: Bytes, first: bool, rs: seq<Bytes>, k: nat, c: Bytes)
    requires (forall p <- PayloadsOf(s, first) :: p.Valid()) && rs == Reports(PayloadsOf(s, first))
    requires 150 * k < |s| && c == s[150 * k..Min(150 * k + 150, |s|)]
    ensures 3 * k + (if |c| <= 52 then 1 else if |c| <= 111 then 2 else 3) <= |rs|
    ensures rs[3 * k]
            == [0x00, 0x01, 0x01, 0x05, 0x00, 0x00, 0x00, 5 + |c|, 0xe0, 0x04, if first && k == 0 then 0x00 else 0x80, 0x00, |c|]
               + (c[..Min(52, |c|)] + Zeros(52 - Min(52, |c|)))
    ensures |c| > 52 ==>
              rs[3 * k + 1] == [0x00, 0x01, 0x01, 0x05, 0x00, 0x01] + (c[52..Min(111, |c|)] + Zeros(111 - Min(111, |c|)))
    ensures |c| > 111 ==> rs[3 * k + 2] == [0x00, 0x01, 0x01, 0x05, 0x00, 0x02] + (c[111..] + Zeros(170 - |c|))
    decreases k
  {
    hide Zeros, FirstReport, LaterReport, PayloadOf, Filled, ReportsOf, Part, Payload.Valid, Reports, PayloadsOf;
    ReportsStep(s, first);
    var head, rest := s[..Min(150, |s|)], s[Min(150, |s|)..];
    var a, b := ReportsOf(PayloadOf(head, first)), Reports(PayloadsOf(rest, false));
    PackageBytes(head, first, a);
    if k == 0 {
      assert c == head;
    } else {
      SliceOfDrop(s, 150, 150 * (k - 1), Min(150 * (k - 1) + 150, |rest|));
      ReportBytes(rest, false, b, k - 1, c);
    }
  }

  lemma SliceOfDrop(s: Bytes, n: nat, i: nat, j: nat)
    requires i <= j && n + j <= |s|
    ensures s[n..][i..j] == s[n + i..n + j]
  {
  }

  lemma ChunkOfReport(n: nat, i: nat)
    requires i < 3 * (n / 150) + if n % 150 == 0 then 0 else if n % 150 <= 52 then 1 else if n % 150 <= 111 then 2 else 3
    ensures var size := if n < 150 * (i / 3) + 150 then n - 150 * (i / 3) else 150;
            && i == 3 * (i / 3) + i % 3 && 0 < size <= 150
            && (i % 3 == 1 ==> size > 52) && (i % 3 == 2 ==> size > 111)
  {
    var k, q := i / 3, n / 150;
    assert n == 150 * q + n % 150;
  }

  /** Every report begins 00 01 01 05 00 and its number within its package. */
  lemma ReportNumber(s: Bytes, first: bool, rs: seq<Bytes>, i: nat)
    requires (forall p <- PayloadsOf(s, first) :: p.Valid()) && rs == Reports(PayloadsOf(s, first)) && i < |rs|
    ensures |rs[i]| == 65 && rs[i][..6] == [0x00, 0x01, 0x01, 0x05, 0x00, i % 3]
  {
    hide *;
    ReportCount(s, first);
    ChunkOfReport(|s|, i);
    var k := i / 3;
    MinIs(150 * k + 150, |s|);
    var c := s[150 * k..Min(150 * k + 150, |s|)];
    MinIs(52, |c|);
    MinIs(111, |c|);
    ReportBytes(s, first, rs, k, c);
  }

  lemma PayloadsAre(path: Bytes, rlp: Bytes)
    requires rlp != []
    ensures Payloads(path, rlp) == PayloadsOf((if |path| < 150 then path[..Min(52, |path|)] else []) + rlp, |path| < 150)
  {
    hide PayloadsOf;
  }

  /** What goes out for a path and a transaction: what of the path fits the first report, and the transaction, byte for byte. */
  lemma SentBytes(path: Bytes, rlp: Bytes, rs: seq<Bytes>, s: Bytes, k: nat, c: Bytes)
    requires rlp != [] && (forall p <- Payloads(path, rlp) :: p.Valid()) && rs == Reports(Payloads(path, rlp))
    requires s == (if |path| < 150 then path[..Min(52, |path|)] else []) + rlp
    requires 150 * k < |s| && c == s[150 * k..Min(150 * k + 150, |s|)]
    ensures 3 * k + (if |c| <= 52 then 1 else if |c| <= 111 then 2 else 3) <= |rs|
    ensures rs[3 * k]
            == [0x00, 0x01, 0x01, 0x05, 0x00, 0x00, 0x00, 5 + |c|, 0xe0, 0x04, if |path| < 150 && k == 0 then 0x00 else 0x80, 0x00, |c|]
               + (c[..Min(52, |c|)] + Zeros(52 - Min(52, |c|)))
    ensures |c| > 52 ==>
              rs[3 * k + 1] == [0x00, 0x01, 0x01, 0x05, 0x00, 0x01] + (c[52..Min(111, |c|)] + Zeros(111 - Min(111, |c|)))
    ensures |c| > 111 ==> rs[3 * k + 2] == [0x00, 0x01, 0x01, 0x05, 0x00, 0x02] + (c[111..] + Zeros(170 - |c|))
  {
    hide *;
    PayloadsAre(path, rlp);
    ReportBytes(s, |path| < 150, rs, k, c);
  }

  // ------------------------------------------------------------------ The loops that fill a chunk

  /** The first message: the path, in the first chunk, and then the transaction. */
  method FillFirst(path: Bytes, isFirst: bool, rlp: Bytes, start: nat) returns (message: Bytes, index: nat, size: nat)
    requires start < |rlp|
    ensures var src := (if isFirst then path[..Min(FIRST, |path|)] else []) + rlp[start..];
            && size == Min(FIRST, |src|) && message == Filled(src[..size], FIRST)
            && index == start + size - if isFirst then Min(FIRST, |path|) else 0
  {
    ghost var src := (if isFirst then path[..Min(FIRST, |path|)] else []) + rlp[start..];
    ghost var lead := if isFirst then Min(FIRST, |path|) else 0;
    hide Filled, Zeros;
    message, index, size := Zeros(FIRST), start, 0;
    FilledNone(src, FIRST);
    var i := 0;
    while i < FIRST && index < |rlp|
      invariant i == size <= FIRST && size <= |src| && start <= index <= |rlp|
      invariant index == start + if size <= lead then 0 else size - lead
      invariant message == Filled(src[..size], FIRST)
    {
      var x := if isFirst && i < |path| then path[i] else rlp[index];
      assert x == src[size];
      FilledMore(src, size, FIRST);
      message := message[i := x];
      if !(isFirst && i < |path|) {
        index := index + 1;
      }
      size := size + 1;
      i := i + 1;
    }
  }

  lemma FilledNone(s: Bytes, n: nat)
    ensures Filled(s[..0], n) == Zeros(n)
  {
    assert s[..0] + Zeros(n) == Zeros(n);
  }

  lemma FilledMore(s: Bytes, k: nat, n: nat)
    requires k < |s| && k < n
    ensures Filled(s[..k], n)[k := s[k]] == Filled(s[..k + 1], n)
  {
  }

  /** The second and the third message: more of the transaction. */
  method FillMore(n: nat, rlp: Bytes, start: nat) returns (message: Bytes, index: nat)
    requires start <= |rlp|
    ensures index == Min(start + n, |rlp|) && message == Filled(rlp[start..index], n)
  {
    hide Filled, Zeros;
    message, index := Zeros(n), start;
    FilledNone(rlp[start..], n);
    assert rlp[start..start] == rlp[start..][..0];
    var i := 0;
    while i < n && index < |rlp|
      invariant start <= index <= |rlp| && i == index - start <= n
      invariant message == Filled(rlp[start..index], n)
    {
      FilledMore(rlp[start..], i, n);
      assert rlp[start..][..i] == rlp[start..index] && rlp[start..][..i + 1] == rlp[start..index + 1];
      message := message[i := rlp[index]];
      index := index + 1;
      i := i + 1;
    }
  }

  lemma PayloadsStep(s: Bytes, pos: nat, first: bool)
    requires pos < |s|
    ensures var taken := Min(CHUNK, |s| - pos);
            PayloadsOf(s[pos..], first) == [PayloadOf(Part(s[pos..], 0, CHUNK), first)] + PayloadsOf(s[pos + taken..], false)
  {
    hide PayloadOf;
    assert s[pos..][Min(CHUNK, |s| - pos)..] == s[pos + Min(CHUNK, |s| - pos)..];
  }

  lemma NothingLeft(s: Bytes)
    ensures s[0..] == s && s[|s|..] == [] && PayloadsOf([], false) == []
  {
  }

  /** What there is to send from the start of a chunk. */
  lemma LeftToSend(path: Bytes, rlp: Bytes, index: nat, pos: nat, isFirst: bool)
    requires index <= |rlp| && if isFirst then index == pos == 0 && |path| < CHUNK else pos == |Head(path)| + index
    ensures pos <= |Head(path) + rlp|
    ensures (if isFirst then path[..Min(FIRST, |path|)] else []) + rlp[index..] == (Head(path) + rlp)[pos..]
  {
  }

  /** All chunks. */
  method FillPayloads(path: Bytes, rlp: Bytes) returns (ps: seq<Payload>)
    ensures ps == Payloads(path, rlp)
  {
    hide Filled, PayloadOf, PayloadsOf, Part;
    ps := [];
    var index := 0;
    ghost var s := Head(path) + rlp;
    ghost var pos := 0;
    NothingLeft(s);
    while index < |rlp|
      invariant index <= |rlp| && pos <= |s| && (rlp == [] ==> ps == [])
      invariant ps == [] ==> pos == 0 && index == 0
      invariant ps != [] ==> pos == |Head(path)| + index && (index == |rlp| || index + |path| >= CHUNK)
      invariant PayloadsOf(s, |path| < CHUNK) == ps + PayloadsOf(s[pos..], ps == [] && |path| < CHUNK)
      decreases |rlp| - index
    {
      var isFirst := index + |path| < CHUNK;
      LeftToSend(path, rlp, index, pos, isFirst);
      var p, after := FillPayload(path, isFirst, rlp, index, s[pos..]);
      PayloadsStep(s, pos, isFirst);
      ps := ps + [p];
      pos := pos + Min(CHUNK, |s| - pos);
      index := after;
    }
  }

  /** One chunk: its three messages one after the other. */
  method FillPayload(path: Bytes, isFirst: bool, rlp: Bytes, start: nat, ghost src: Bytes) returns (p: Payload, after: nat)
    requires start < |rlp| && src == (if isFirst then path[..Min(FIRST, |path|)] else []) + rlp[start..]
    ensures p == PayloadOf(Part(src, 0, CHUNK), isFirst)
    ensures start < after <= |rlp| && after == start + Min(CHUNK, |src|) - if isFirst then Min(FIRST, |path|) else 0
    ensures after == |rlp| <==> |src| <= CHUNK
  {
    hide Filled, PayloadOf, Part;
    var one, second, size := FillFirst(path, isFirst, rlp, start);
    var two, third := FillMore(SECOND, rlp, second);
    var three;
    three, after := FillMore(THIRD, rlp, third);
    p := Payload(size + (third - second) + (after - third), isFirst, false, second == third, third == after, one, two, three);
    assert src[size..] == rlp[second..];
    ChunkFilled(src, rlp, size, second, third, after, p);
  }

  /** What the three loops leave is the chunk at the front of what was to send. */
  lemma ChunkFilled(src: Bytes, rlp: Bytes, size: nat, second: nat, third: nat, after: nat, p: Payload)
    requires src != [] && size == Min(FIRST, |src|) && second <= |rlp| && src[size..] == rlp[second..]
    requires third == Min(second + SECOND, |rlp|) && after == Min(third + THIRD, |rlp|)
    requires p == Payload(size + (third - second) + (after - third), p.isHIDFirstMessage, false, second == third, third == after,
                          Filled(src[..size], FIRST), Filled(rlp[second..third], SECOND), Filled(rlp[third..after], THIRD))
    ensures p == PayloadOf(Part(src, 0, CHUNK), p.isHIDFirstMessage)
    ensures Min(CHUNK, |src|) == size + after - second
  {
    hide *;
    Sizes();
    MinIs(FIRST, |src|);
    MinIs(FIRST + SECOND, |src|);
    MinIs(CHUNK, |src|);
    MinIs(second + SECOND, |rlp|);
    MinIs(third + THIRD, |rlp|);
    assert |src| == size + (|rlp| - second);
    var middle, end := size + (third - second), size + (after - second);
    SliceOfRest(src, rlp, size, second, size, middle);
    SliceOfRest(src, rlp, size, second, middle, end);
    ChunkParts(src, size, middle, end, p.isHIDFirstMessage);
  }

  /** The messages of the chunk at the front of a stream. */
  lemma ChunkParts(src: Bytes, size: nat, middle: nat, end: nat, first: bool)
    requires src != [] && size == Min(52, |src|) && middle == Min(111, |src|) && end == Min(150, |src|)
    ensures PayloadOf(Part(src, 0, 150), first)
            == Payload(end, first, false, end <= 52, end <= 111,
                       Filled(src[..size], 52), Filled(src[size..middle], 59), Filled(src[middle..end], 39))
  {
    hide Filled;
    var c := Part(src, 0, 150);
    assert c == src[..end];
    assert Part(c, 0, FIRST) == src[..size];
    assert Part(c, FIRST, SECOND) == src[size..middle];
    assert Part(c, FIRST + SECOND, THIRD) == src[middle..end];
  }

  lemma SliceSlice(s: Bytes, from: nat, i: nat, j: nat)
    requires i <= j && from + j <= |s|
    ensures s[from..][i..j] == s[from + i..from + j]
  {
    var a, b := s[from..][i..j], s[from + i..from + j];
    assert |a| == |b|;
    forall k | 0 <= k < |a| ensures a[k] == b[k] {
    }
  }

  lemma SliceOfRest(src: Bytes, rlp: Bytes, size: nat, second: nat, from: nat, to: nat)
    requires size <= |src| && second <= |rlp| && src[size..] == rlp[second..] && size <= from <= to <= |src|
    ensures src[from..to] == rlp[second + from - size..second + to - size]
  {
    SliceSlice(src, size, from - size, to - size);
    SliceSlice(rlp, second, from - size, to - size);
  }

  // ------------------------------------------------------------------ The loops that write reports

  /** The copying loop into a buffer of zeros. */
  method ToBuffer(v: Bytes) returns (buffer: Bytes)
    requires |v| <= REPORT
    ensures buffer == Filled(v, REPORT)
  {
    buffer := Zeros(REPORT);
    FilledNone(v, REPORT);
    assert v[..|v|] == v;
    for i := 0 to |v|
      invariant buffer == Filled(v[..i], REPORT)
    {
      FilledMore(v, i, REPORT);
      buffer := buffer[i := v[i]];
    }
  }

  /** encodeSignEthMessage, on the encoded path and transaction. */
  method EncodeSignEthMessage(path: Bytes, rlp: Bytes) returns (ret: seq<Bytes>)
    ensures (forall p <- Payloads(path, rlp) :: p.Valid()) && ret == Reports(Payloads(path, rlp))
    ensures rlp != [] ==>
              var n := (if |path| < 150 then Min(52, |path|) else 0) + |rlp|;
              |ret| == 3 * (n / 150) + if n % 150 == 0 then 0 else if n % 150 <= 52 then 1 else if n % 150 <= 111 then 2 else 3
    ensures forall i | 0 <= i < |ret| :: |ret[i]| == 65 && ret[i][..6] == [0x00, 0x01, 0x01, 0x05, 0x00, i % 3]
  {
    hide Payloads, PayloadsOf, FirstReport, LaterReport, Reports;
    var ps := FillPayloads(path, rlp);
    AllValid(path, rlp);
    ret := [];
    NoReports(ps);
    for i := 0 to |ps|
      invariant ret == Reports(ps[..i])
    {
      ReportsMore(ps, i);
      var p := ps[i];
      assert p.Valid() by { assert p in ps; }
      if !p.isFirstMessageEmpty {
        var buffer := WriteFirst(p);
        ret := ret + [buffer];
      }
      if !p.isSecondMessageEmpty {
        var buffer := WriteLater(1, p.secondMessage);
        ret := ret + [buffer];
      }
      if !p.isThirdMessageEmpty {
        var buffer := WriteLater(2, p.thirdMessage);
        ret := ret + [buffer];
      }
    }
    assert ps[..|ps|] == ps;
    ReportsNumbered(path, rlp, ret);
  }

  lemma ReportsNumbered(path: Bytes, rlp: Bytes, rs: seq<Bytes>)
    requires (forall p <- Payloads(path, rlp) :: p.Valid()) && rs == Reports(Payloads(path, rlp))
    ensures rlp != [] ==>
              var n := (if |path| < 150 then Min(52, |path|) else 0) + |rlp|;
              |rs| == 3 * (n / 150) + if n % 150 == 0 then 0 else if n % 150 <= 52 then 1 else if n % 150 <= 111 then 2 else 3
    ensures forall i | 0 <= i < |rs| :: |rs[i]| == 65 && rs[i][..6] == [0x00, 0x01, 0x01, 0x05, 0x00, i % 3]
  {
    hide *;
    NothingSent();
    if rlp == [] {
      NoPayloads(path);
    } else {
      MinIs(52, |path|);
      var s := (if |path| < 150 then path[..Min(52, |path|)] else []) + rlp;
      PayloadsAre(path, rlp);
      ReportCount(s, |path| < 150);
      forall i | 0 <= i < |rs| ensures |rs[i]| == 65 && rs[i][..6] == [0x00, 0x01, 0x01, 0x05, 0x00, i % 3] {
        ReportNumber(s, |path| < 150, rs, i);
      }
    }
  }

  lemma NoPayloads(path: Bytes)
    ensures Payloads(path, []) == []
  {
  }

  lemma AllValid(path: Bytes, rlp: Bytes)
    ensures forall p <- Payloads(path, rlp) :: p.Valid()
  {
    PayloadsValid(Head(path) + rlp, |path| < CHUNK);
  }

  lemma NoReports(ps: seq<Payload>)
    ensures Reports([]) == [] && ps[..0] == []
  {
  }

  method WriteFirst(p: Payload) returns (buffer: Bytes)
    requires p.Valid()
    ensures buffer == FirstReport(p)
  {
    var v: Bytes := [0x00];
    v := v + [0x01, 0x01];
    v := v + [0x05];
    v := v + [0x00, 0x00];
    v := v + [0x00, 5 + p.payloadSize];
    v := v + [0xe0, 0x04, if p.isHIDFirstMessage then 0x00 else 0x80, 0x00, p.payloadSize] + p.firstMessage;
    buffer := ToBuffer(v);
    assert v + Zeros(0) == v;
  }

  method WriteLater(index: Byte, message: Bytes) returns (buffer: Bytes)
    requires |message| <= SECOND
    ensures buffer == LaterReport(index, message)
  {
    var v: Bytes := [0x00];
    v := v + [0x01, 0x01];
    v := v + [0x05];
    v := v + [0x00, index];
    v := v + message;
    buffer := ToBuffer(v);
  }

  lemma {:induction false} ReportsMore(ps: seq<Payload>, i: nat)
    requires i < |ps| && forall p <- ps :: p.Valid()
    ensures Reports(ps[..i + 1]) == Reports(ps[..i]) + ReportsOf(ps[i])
  {
    hide ReportsOf;
    if i == 0 {
      assert ps[..1][1..] == [] && ps[..0] == [];
    } else {
      ReportsMore(ps[1..], i - 1);
      assert ps[..i + 1][1..] == ps[1..][..i] && ps[..i][1..] == ps[1..][..i - 1];
    }
  }
}
