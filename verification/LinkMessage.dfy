/**
 The messages of the half-duplex link and their byte form: the printer
 (`to_string(Msg&)`) and the parser (`parse_input`) of halfduplex/Half_duplex.cpp.
 */
module LinkMessage {
  import opened Bytes

  const MAX_PREFIX_LEN := 15
  const MAX_MESSAGE_LEN := 1550
  const RAW_READ_BUFFER_SIZE := 8192

  const SOH: Byte := 1
  const STX: Byte := 2
  const ETX: Byte := 3
  const EOT: Byte := 4
  const ENQ: Byte := 5
  const ACK: Byte := 6
  const DLE: Byte := 16
  const NAK: Byte := 21

  /** The characters that may introduce a message. */
  const START: set<Byte> := {SOH, STX, EOT, ENQ, ACK, DLE, NAK}

  datatype MsgType = NoMsg | Ack | Nak | Eot | DleEot | Enq | Info | Malformed

  datatype Msg = Msg(typ: MsgType, prefix: seq<Byte>, header: seq<Byte>, body: seq<Byte>)

  function Simple(typ: MsgType, prefix: seq<Byte>): Msg {
    Msg(typ, prefix, [], [])
  }

  function InfoMsg(header: seq<Byte>, body: seq<Byte>): Msg {
    Msg(Info, [], header, body)
  }

  const NOTHING := Simple(NoMsg, [])

  /* ---------- printer ---------- */

  /** The single character of a supervisory message. */
  function Code(t: MsgType): Byte {
    match t
    case Ack => ACK
    case Nak => NAK
    case Eot => EOT
    case _ => ENQ
  }

  function Sum(s: seq<Byte>): nat {
    if s == [] then 0 else Sum(s[..|s| - 1]) + s[|s| - 1]
  }

  /** The block-check character of the bytes it covers. */
  function BlockCheck(s: seq<Byte>): Byte {
    (Sum(s) % 256 + 1) % 256
  }

  /** `to_string` reaches `abort()` on every other type. */
  predicate Printable(m: Msg) {
    m.typ != NoMsg && m.typ != Malformed
  }

  /** What a block check covers, that is, the message between its introducer and the check. */
  function Block(header: seq<Byte>, body: seq<Byte>): seq<Byte> {
    (if header == [] then [] else header + [STX]) + body + [ETX]
  }

  function Print(m: Msg): seq<Byte> {
    m.prefix +
    match m.typ
    case NoMsg => []
    case Malformed => []
    case DleEot => [DLE, EOT]
    case Info =>
      [if m.header == [] then STX else SOH] + Block(m.header, m.body) + [BlockCheck(Block(m.header, m.body))]
    case _ => [Code(m.typ)]
  }

  function PrintAll(ms: seq<Msg>): seq<Byte> {
    if ms == [] then [] else Print(ms[0]) + PrintAll(ms[1..])
  }

  lemma PrintAllAppend(a: seq<Msg>, b: seq<Msg>)
    ensures PrintAll(a + b) == PrintAll(a) + PrintAll(b)
  {
    if a == [] {
      assert a + b == b;
    } else {
      assert (a + b)[1..] == a[1..] + b;
      PrintAllAppend(a[1..], b);
    }
  }

  lemma LowByte(m: nat, r: nat)
    ensures (256 * m + r) % 256 == r % 256
  {
  }

  /** The 32-bit running sum and the 8-bit fold agree with the sum modulo 256. */
  lemma WrapKeepsLowByte(a: nat)
    ensures a % 0x1_0000_0000 % 256 == a % 256
  {
    LowByte(a / 0x1_0000_0000 * 0x100_0000, a % 0x1_0000_0000);
  }

  /** The summing loop of the printer, on a 32-bit accumulator. */
  method SumCheck(covered: seq<Byte>) returns (check: Byte)
    ensures check == BlockCheck(covered) == (1 + Total(covered)) % 256
  {
    var sum: nat := 0;
    for i := 0 to |covered|
      invariant sum == Sum(covered[..i]) % 0x1_0000_0000
    {
      assert covered[..i + 1][..i] == covered[..i];
      sum := (sum + covered[i]) % 0x1_0000_0000;
    }
    assert covered[..|covered|] == covered;
    WrapKeepsLowByte(Sum(covered));
    CheckIsTotal(covered);
    check := (sum % 256 + 1) % 256;
  }

  /** The INFO branch of the printer: the bytes behind the prefix. */
  method InfoString(header: seq<Byte>, body: seq<Byte>) returns (out: seq<Byte>)
    ensures out == Print(InfoMsg(header, body))
  {
    out := [];
    var bccStart;
    if header != [] {
      out := out + [SOH];
      bccStart := |out|;
      out := out + header + [STX];
    } else {
      out := out + [STX];
      bccStart := |out|;
    }
    if body != [] {
      out := out + body;
    }
    out := out + [ETX];
    assert out[bccStart..] == Block(header, body);
    var check := SumCheck(out[bccStart..]);
    assert out == [if header == [] then STX else SOH] + Block(header, body);
    out := out + [check];
  }

  /** The printer as the program runs it; `None` is the `abort()`. */
  method ToString(m: Msg) returns (r: Option<seq<Byte>>)
    ensures r.None? <==> m.typ == NoMsg || m.typ == Malformed
    ensures r.Some? ==> r.value == Print(m) && Written(m, r.value)
  {
    var out := [];
    if m.prefix != [] {
      out := out + m.prefix;
    }
    match m.typ {
      case NoMsg => return None;
      case Malformed => return None;
      case Ack => out := out + [ACK];
      case Nak => out := out + [NAK];
      case Eot => out := out + [EOT];
      case Enq => out := out + [ENQ];
      case DleEot => out := out + [DLE] + [EOT];
      case Info =>
        var frame := InfoString(m.header, m.body);
        out := out + frame;
    }
    r := Some(out);
    WireForm(m);
  }

  /* ---------- the bytes on the line, in numbers ---------- */

  /** The sum of some bytes, counted from the front. */
  function Total(s: seq<Byte>): nat {
    if s == [] then 0 else s[0] + Total(s[1..])
  }

  lemma {:induction false} TotalNext(s: seq<Byte>, x: Byte)
    ensures Total(s + [x]) == Total(s) + x
  {
    if s == [] {
      assert s + [x] == [x];
      assert Total([x]) == x + Total([x][1..]) == x;
    } else {
      assert (s + [x])[1..] == s[1..] + [x];
      TotalNext(s[1..], x);
    }
  }

  lemma {:induction false} SumIsTotal(s: seq<Byte>)
    ensures Sum(s) == Total(s)
  {
    if s != [] {
      var n := |s| - 1;
      SumIsTotal(s[..n]);
      TotalNext(s[..n], s[n]);
      assert s == s[..n] + [s[n]];
    }
  }

  /** The block check is one more than the sum of what it covers, in eight bits. */
  lemma CheckIsTotal(s: seq<Byte>)
    ensures BlockCheck(s) == (1 + Total(s)) % 256
  {
    hide Sum, Total;
    SumIsTotal(s);
    LowByte(Total(s) / 256, Total(s) % 256 + 1);
  }

  /** So it starts at 1, and every further byte is added to it. */
  lemma BlockCheckLaws(s: seq<Byte>, x: Byte)
    ensures BlockCheck([]) == 1 && BlockCheck(s + [x]) == (BlockCheck(s) + x) % 256
  {
    CheckIsTotal([]);
    CheckIsTotal(s);
    CheckIsTotal(s + [x]);
    TotalNext(s, x);
    assert Total([]) == 0;
    hide BlockCheck, Total;
    AddLow(1 + Total(s), x);
  }

  lemma AddLow(a: nat, x: nat)
    ensures (a % 256 + x) % 256 == (a + x) % 256
  {
    LowByte(a / 256, a % 256 + x);
  }

  /** What the line carries for a printable message; an INFO has no prefix of its own. */
  predicate Written(m: Msg, out: seq<Byte>) {
    match m.typ
    case Ack => out == m.prefix + [6]
    case Nak => out == m.prefix + [21]
    case Eot => out == m.prefix + [4]
    case Enq => out == m.prefix + [5]
    case DleEot => out == m.prefix + [16, 4]
    case Info =>
      var covered := if m.header == [] then m.body + [3] else m.header + [2] + m.body + [3];
      out == m.prefix + [if m.header == [] then 2 else 1] + covered + [(1 + Total(covered)) % 256]
    case _ => out == m.prefix
  }

  lemma WireForm(m: Msg)
    ensures Written(m, Print(m))
  {
    hide BlockCheck, Total;
    if m.typ == Info {
      var block := Block(m.header, m.body);
      assert block == if m.header == [] then m.body + [3] else m.header + [2] + m.body + [3];
      CheckIsTotal(block);
      var intro: seq<Byte> := [if m.header == [] then 2 else 1];
      Assoc(m.prefix, intro + block, [BlockCheck(block)]);
      Assoc(m.prefix, intro, block);
    }
  }

  /* ---------- parser ---------- */

  /** `isgraph` of the C locale. */
  predicate Graphic(c: Byte) {
    33 <= c <= 126
  }

  predicate AllGraphic(s: seq<Byte>) {
    forall i :: 0 <= i < |s| ==> Graphic(s[i])
  }

  /** `t` is what is left of `s` when some of its front is taken off. */
  predicate IsTail(t: seq<Byte>, s: seq<Byte>) {
    |t| <= |s| && t == s[|s| - |t|..]
  }

  datatype Parsed = Parsed(msg: Msg, rest: seq<Byte>) | Abort

  /** `parse_input` on the unprocessed bytes: the message found and the bytes left. */
  function ParseInput(buf: seq<Byte>): (p: Parsed)
    ensures p.Parsed? ==> p.msg.typ != DleEot
    ensures p.Parsed? ==> if p.msg.typ == NoMsg then p == Parsed(NOTHING, buf) else |p.rest| < |buf|
    ensures p.Parsed? ==> IsTail(p.rest, buf)
  {
    assert buf[0..] == buf;
    assert buf[|buf|..] == [];
    if buf == [] then Parsed(NOTHING, buf)
    else
      var intro := FindAny(buf, START);
      if intro == |buf| then
        if |buf| > MAX_PREFIX_LEN then Parsed(Simple(Malformed, []), []) else Parsed(NOTHING, buf)
      else if !AllGraphic(buf[..intro]) then Parsed(Simple(Malformed, []), [])
      else
        var prefix := buf[..intro];
        var c := buf[intro];
        if c == ENQ then Parsed(Simple(Enq, prefix), buf[intro + 1..])
        else if c == EOT then Parsed(Simple(Eot, prefix), buf[intro + 1..])
        else if c == ACK then Parsed(Simple(Ack, prefix), buf[intro + 1..])
        else if c == NAK then Parsed(Simple(Nak, prefix), buf[intro + 1..])
        else if c != SOH && c != STX then Abort
        else if prefix != [] then Parsed(Simple(Malformed, prefix), [])
        else ParseInfo(buf)
  }

  /** The part of `parse_input` after an SOH or STX introducer at the front. */
  function ParseInfo(buf: seq<Byte>): (p: Parsed)
    requires buf != [] && (buf[0] == SOH || buf[0] == STX)
    ensures p.Parsed? && (p.msg.typ == NoMsg || p.msg.typ == Info || p.msg.typ == Malformed)
    ensures if p.msg.typ == NoMsg then p == Parsed(NOTHING, buf) else |p.rest| < |buf|
    ensures IsTail(p.rest, buf)
  {
    assert buf[0..] == buf;
    assert buf[|buf|..] == [];
    var stx := if buf[0] == STX then 0 else FindAny(buf, {STX});
    var etx := FindAny(buf, {ETX});
    if etx == |buf| then
      if |buf| > MAX_MESSAGE_LEN then Parsed(Simple(Malformed, []), []) else Parsed(NOTHING, buf)
    else if stx == |buf| || stx > etx then Parsed(Simple(Malformed, []), [])
    else if |buf| == etx + 1 then Parsed(NOTHING, buf)
    else if etx > MAX_MESSAGE_LEN then Parsed(Simple(Malformed, []), [])
    else Parsed(InfoMsg(if stx > 0 then buf[1..stx] else [], buf[stx + 1..etx]), buf[etx + 2..])
  }

  /* ---------- parser against printer ---------- */

  /** Exactly the INFO messages that survive printing and parsing. */
  predicate InfoOk(header: seq<Byte>, body: seq<Byte>) {
    && 2 !in header && 3 !in header && 3 !in body
    && |header| + |body| + (if header == [] then 1 else 2) <= 1550
  }

  /** The messages that survive any chunking of the line. */
  predicate Sendable(m: Msg) {
    match m.typ
    case Info => m.prefix == [] && InfoOk(m.header, m.body)
    case Ack => m.header == [] && m.body == [] && AllGraphic(m.prefix) && |m.prefix| <= MAX_PREFIX_LEN
    case Nak => m.header == [] && m.body == [] && AllGraphic(m.prefix) && |m.prefix| <= MAX_PREFIX_LEN
    case Eot => m.header == [] && m.body == [] && AllGraphic(m.prefix) && |m.prefix| <= MAX_PREFIX_LEN
    case Enq => m.header == [] && m.body == [] && AllGraphic(m.prefix) && |m.prefix| <= MAX_PREFIX_LEN
    case _ => false
  }

  predicate AllSendable(ms: seq<Msg>) {
    forall i :: 0 <= i < |ms| ==> Sendable(ms[i])
  }

  /** A supervisory message comes back from the parser if and only if its prefix is graphic. */
  lemma SimpleRoundTrip(t: MsgType, prefix: seq<Byte>, tail: seq<Byte>)
    requires t == Ack || t == Nak || t == Eot || t == Enq
    ensures ParseInput(Print(Simple(t, prefix)) + tail) == Parsed(Simple(t, prefix), tail) <==> AllGraphic(prefix)
  {
    var buf := prefix + [Code(t)] + tail;
    assert Print(Simple(t, prefix)) + tail == buf;
    hide Print, ParseInput, AllGraphic;
    if AllGraphic(prefix) {
      SimpleParsed(t, prefix, tail);
    } else if ParseInput(buf).Parsed? {
      ParsedPrefix(buf);
    }
  }

  lemma SimpleParsed(t: MsgType, prefix: seq<Byte>, tail: seq<Byte>)
    requires t == Ack || t == Nak || t == Eot || t == Enq
    requires AllGraphic(prefix)
    ensures ParseInput(prefix + [Code(t)] + tail) == Parsed(Simple(t, prefix), tail)
  {
    hide ParseInfo;
    var buf := prefix + [Code(t)] + tail;
    assert buf[..|prefix|] == prefix && buf[|prefix|] == Code(t) && buf[|prefix| + 1..] == tail;
    assert forall j :: 0 <= j < |prefix| ==> buf[j] == prefix[j] && Graphic(prefix[j]) && buf[j] !in START;
    assert FindAny(buf, START) == |prefix|;
  }

  /** A supervisory message never comes out with a prefix that is not graphic. */
  lemma ParsedPrefix(buf: seq<Byte>)
    requires ParseInput(buf).Parsed?
    ensures ParseInput(buf).msg.typ in {Ack, Nak, Eot, Enq} ==> AllGraphic(ParseInput(buf).msg.prefix)
  {
    hide ParseInfo, AllGraphic;
  }

  /** Where the STX and the closing ETX of a printed INFO message stand. */
  function StxAt(h: seq<Byte>): nat {
    if h == [] then 0 else 1 + |h|
  }

  function EtxAt(h: seq<Byte>, b: seq<Byte>): nat {
    StxAt(h) + 1 + |b|
  }

  /** The bytes of `buf` are laid out as the INFO message of `h` and `b`, followed by `tail`. */
  predicate LaidOut(buf: seq<Byte>, h: seq<Byte>, b: seq<Byte>, tail: seq<Byte>) {
    var s, e := StxAt(h), EtxAt(h, b);
    && |buf| == e + 2 + |tail|
    && buf[0] == (if h == [] then STX else SOH) && buf[s] == STX && buf[e] == ETX
    && (h != [] ==> buf[1..s] == h) && buf[s + 1..e] == b && buf[e + 2..] == tail
  }

  lemma InfoLayout(h: seq<Byte>, b: seq<Byte>, tail: seq<Byte>)
    ensures LaidOut(Print(InfoMsg(h, b)) + tail, h, b, tail)
    ensures |Print(InfoMsg(h, b))| == EtxAt(h, b) + 2 && |Block(h, b)| == EtxAt(h, b)
  {
    var block := Block(h, b);
    var check := BlockCheck(block);
    hide BlockCheck;
    assert Print(InfoMsg(h, b)) == [if h == [] then STX else SOH] + block + [check];
    if h == [] {
      assert block == b + [ETX];
      Frame0(b, check, tail);
    } else {
      assert block == h + [STX] + b + [ETX];
      Frame1(h, b, check, tail);
    }
  }

  lemma Frame0(b: seq<Byte>, check: Byte, tail: seq<Byte>)
    ensures LaidOut([STX] + (b + [ETX]) + [check] + tail, [], b, tail)
  {
  }

  lemma Frame1(h: seq<Byte>, b: seq<Byte>, check: Byte, tail: seq<Byte>)
    requires h != []
    ensures LaidOut([SOH] + (h + [STX] + b + [ETX]) + [check] + tail, h, b, tail)
  {
    var buf := [SOH] + (h + [STX] + b + [ETX]) + [check] + tail;
    assert buf == [SOH] + h + [STX] + b + [ETX] + [check] + tail;
  }

  /** The first ETX is the closing one exactly when neither part holds an ETX. */
  lemma FirstEtx(buf: seq<Byte>, h: seq<Byte>, b: seq<Byte>, tail: seq<Byte>)
    requires LaidOut(buf, h, b, tail)
    ensures FindAny(buf, {ETX}) <= EtxAt(h, b)
    ensures FindAny(buf, {ETX}) == EtxAt(h, b) <==> ETX !in h && ETX !in b
  {
    var s, e := StxAt(h), EtxAt(h, b);
    if ETX in h {
      var k :| 0 <= k < |h| && h[k] == ETX;
      assert buf[1..s][k] == buf[k + 1];
    }
    if ETX in b {
      var k :| 0 <= k < |b| && b[k] == ETX;
      assert buf[s + 1..e][k] == buf[s + 1 + k];
    }
    if ETX !in h && ETX !in b {
      forall j | 0 <= j < e ensures buf[j] != ETX {
        if 0 < j < s {
          assert buf[j] == buf[1..s][j - 1];
        } else if s < j {
          assert buf[j] == buf[s + 1..e][j - s - 1];
        }
      }
    }
  }

  /** Behind an SOH, the first STX ends the header exactly when the header holds no STX. */
  lemma FirstStx(buf: seq<Byte>, h: seq<Byte>, b: seq<Byte>, tail: seq<Byte>)
    requires LaidOut(buf, h, b, tail)
    requires h != []
    ensures FindAny(buf, {STX}) == StxAt(h) <==> STX !in h
  {
    var s := StxAt(h);
    if STX in h {
      var k :| 0 <= k < |h| && h[k] == STX;
      assert buf[1..s][k] == buf[k + 1];
    } else {
      forall j | 0 <= j < s ensures buf[j] != STX {
        if 0 < j {
          assert buf[j] == buf[1..s][j - 1];
        }
      }
    }
  }

  lemma InfoAtFront(buf: seq<Byte>)
    requires buf != [] && (buf[0] == SOH || buf[0] == STX)
    ensures ParseInput(buf) == ParseInfo(buf)
  {
    assert FindAny(buf, START) == 0;
  }

  /** What `ParseInfo` gives on bytes laid out as a message, in terms of its two searches. */
  lemma ParseLaidOut(buf: seq<Byte>, h: seq<Byte>, b: seq<Byte>, tail: seq<Byte>)
    requires LaidOut(buf, h, b, tail)
    ensures ParseInfo(buf) == Parsed(InfoMsg(h, b), tail) <==>
            && FindAny(buf, {ETX}) == EtxAt(h, b)
            && (h == [] || FindAny(buf, {STX}) == StxAt(h))
            && EtxAt(h, b) <= MAX_MESSAGE_LEN
  {
    LaidOutIntro(buf, h, b, tail);
    hide LaidOut, ParseInfo, FindAny;
    if ParseInfo(buf) == Parsed(InfoMsg(h, b), tail) {
      ParsedSearches(buf, h, b, tail);
    }
    if FindAny(buf, {ETX}) == EtxAt(h, b) && (h == [] || FindAny(buf, {STX}) == StxAt(h)) {
      SearchesParse(buf, h, b, tail);
    }
  }

  lemma SearchesParse(buf: seq<Byte>, h: seq<Byte>, b: seq<Byte>, tail: seq<Byte>)
    requires LaidOut(buf, h, b, tail) && FindAny(buf, {ETX}) == EtxAt(h, b)
    requires h == [] || FindAny(buf, {STX}) == StxAt(h)
    ensures EtxAt(h, b) <= MAX_MESSAGE_LEN ==> ParseInfo(buf) == Parsed(InfoMsg(h, b), tail)
  {
    var stx, etx := StxAt(h), EtxAt(h, b);
    assert |buf| >= etx + 2 && stx < etx && buf[stx + 1..etx] == b && buf[etx + 2..] == tail;
    assert (if stx > 0 then buf[1..stx] else []) == h;
    assert stx == if buf[0] == STX then 0 else FindAny(buf, {STX});
    hide LaidOut, FindAny, StxAt, EtxAt;
  }

  lemma ParsedSearches(buf: seq<Byte>, h: seq<Byte>, b: seq<Byte>, tail: seq<Byte>)
    requires LaidOut(buf, h, b, tail) && ParseInfo(buf) == Parsed(InfoMsg(h, b), tail)
    ensures FindAny(buf, {ETX}) == EtxAt(h, b) <= MAX_MESSAGE_LEN
    ensures h == [] || FindAny(buf, {STX}) == StxAt(h)
  {
    hide FindAny;
    var p := ParseInfo(buf);
    assert |p.rest| == |tail|;
    assert |p.msg.header| == |h|;
  }

  /** An INFO message comes back from the parser if and only if `InfoOk`, whatever follows it. */
  lemma InfoRoundTrip(h: seq<Byte>, b: seq<Byte>, tail: seq<Byte>)
    ensures ParseInput(Print(InfoMsg(h, b)) + tail) == Parsed(InfoMsg(h, b), tail) <==> InfoOk(h, b)
  {
    InfoLayout(h, b, tail);
    var buf := Print(InfoMsg(h, b)) + tail;
    InfoAtFront(buf);
    ParseLaidOut(buf, h, b, tail);
    FirstEtx(buf, h, b, tail);
    if h != [] {
      FirstStx(buf, h, b, tail);
    }
  }

  /** A body that holds an ETX never comes back. */
  lemma EtxCutsBody(header: seq<Byte>, body: seq<Byte>, tail: seq<Byte>)
    requires ETX in body
    ensures ParseInput(Print(InfoMsg(header, body)) + tail) != Parsed(InfoMsg(header, body), tail)
  {
    hide ParseInput, Print;
    InfoRoundTrip(header, body, tail);
  }

  /** The block check is never compared: any byte in its place will do. */
  lemma BlockCheckIgnored(h: seq<Byte>, b: seq<Byte>, check: Byte, tail: seq<Byte>)
    requires InfoOk(h, b)
    ensures ParseInput([if h == [] then STX else SOH] + Block(h, b) + [check] + tail) == Parsed(InfoMsg(h, b), tail)
  {
    hide ParseInput, ParseInfo, LaidOut;
    var buf := [if h == [] then STX else SOH] + Block(h, b) + [check] + tail;
    if h == [] {
      assert Block(h, b) == b + [ETX];
      Frame0(b, check, tail);
    } else {
      assert Block(h, b) == h + [STX] + b + [ETX];
      Frame1(h, b, check, tail);
      FirstStx(buf, h, b, tail);
    }
    FirstEtx(buf, h, b, tail);
    ParseLaidOut(buf, h, b, tail);
    BlockLength(h, b);
    LaidOutIntro(buf, h, b, tail);
    InfoAtFront(buf);
  }

  lemma BlockLength(h: seq<Byte>, b: seq<Byte>)
    ensures |Block(h, b)| == EtxAt(h, b)
  {
  }

  lemma LaidOutIntro(buf: seq<Byte>, h: seq<Byte>, b: seq<Byte>, tail: seq<Byte>)
    requires LaidOut(buf, h, b, tail)
    ensures buf != [] && (buf[0] == SOH || buf[0] == STX)
  {
  }

  /** The first introducer of the buffer is a DLE, behind nothing but graphic characters. */
  predicate DleFirst(buf: seq<Byte>) {
    var intro := FindAny(buf, {1, 2, 4, 5, 6, 16, 21});
    intro < |buf| && buf[intro] == 16 && AllGraphic(buf[..intro])
  }

  /** Exactly then the parser reaches `abort()`. */
  lemma AbortExactly(buf: seq<Byte>)
    ensures ParseInput(buf).Abort? <==> DleFirst(buf)
  {
    hide ParseInfo;
    assert START == {1, 2, 4, 5, 6, 16, 21};
    var intro := FindAny(buf, START);
    assert intro < |buf| ==> buf[intro] in START;
  }

  /** The printed form of a clear request is itself such a buffer, whatever follows it. */
  lemma ClearRequestAborts(prefix: seq<Byte>, tail: seq<Byte>)
    requires AllGraphic(prefix)
    ensures ParseInput(Print(Simple(DleEot, prefix)) + tail).Abort?
  {
    hide ParseInput;
    var buf := prefix + [DLE] + ([EOT] + tail);
    assert Print(Simple(DleEot, prefix)) + tail == buf;
    assert buf[|prefix|] == DLE && buf[..|prefix|] == prefix;
    assert forall j :: 0 <= j < |prefix| ==> buf[j] == prefix[j] && Graphic(prefix[j]);
    assert FindAny(buf, {1, 2, 4, 5, 6, 16, 21}) == |prefix|;
    AbortExactly(buf);
  }

  /* ---------- exactly what the parser makes of every buffer, in numbers ---------- */

  /** The first byte of `buf` that is one of `cs` stands at `i`. */
  predicate FirstAt(buf: seq<Byte>, cs: set<Byte>, i: nat) {
    i < |buf| && buf[i] in cs && forall j :: 0 <= j < i ==> buf[j] !in cs
  }

  lemma FirstIsFound(buf: seq<Byte>, cs: set<Byte>, i: nat)
    ensures FirstAt(buf, cs, i) <==> i < |buf| && FindAny(buf, cs) == i
  {
  }

  /** The characters from '!' to '~'. */
  predicate Visible(s: seq<Byte>) {
    forall i :: 0 <= i < |s| ==> '!' <= s[i] as char <= '~'
  }

  lemma VisibleIs(s: seq<Byte>)
    ensures Visible(s) <==> AllGraphic(s)
  {
    assert forall i :: 0 <= i < |s| ==> (Graphic(s[i]) <==> '!' <= s[i] as char <= '~');
  }

  /** The character of a supervisory message, by its number. */
  function CodeNumber(t: MsgType): Byte
    requires t == Ack || t == Nak || t == Eot || t == Enq
  {
    match t
    case Ack => 6
    case Nak => 21
    case Eot => 4
    case Enq => 5
  }

  /**
   A supervisory message comes out of exactly the buffers that open with its printed form: a
   graphic prefix and its character; and the bytes behind it are left.
   */
  lemma SupervisoryExactly(buf: seq<Byte>, t: MsgType, prefix: seq<Byte>, rest: seq<Byte>)
    requires t == Ack || t == Nak || t == Eot || t == Enq
    ensures ParseInput(buf) == Parsed(Simple(t, prefix), rest) <==>
            Visible(prefix) && buf == prefix + [CodeNumber(t)] + rest
  {
    VisibleIs(prefix);
    hide ParseInfo, Visible;
    if AllGraphic(prefix) && buf == prefix + [CodeNumber(t)] + rest {
      SimpleParsed(t, prefix, rest);
    }
  }

  /** The bytes of an INFO message up to its ETX; an SOH may be followed by an empty header. */
  predicate InfoFront(front: seq<Byte>, h: seq<Byte>, b: seq<Byte>) {
    || (h == [] && front == [2] + b)
    || (2 !in h && front == [1] + h + [2] + b)
  }

  /**
   An INFO message comes out of exactly the buffers that open with an STX and its body, or an SOH,
   its header, an STX and its body, then the first ETX of the buffer, at place 1550 at the latest,
   and any byte at all for the block check.
   */
  lemma InfoExactly(buf: seq<Byte>, h: seq<Byte>, b: seq<Byte>, rest: seq<Byte>)
    ensures ParseInput(buf) == Parsed(InfoMsg(h, b), rest) <==>
            exists e: nat :: && e <= 1550 && e + 1 < |buf| && FirstAt(buf, {3}, e)
                             && InfoFront(buf[..e], h, b) && rest == buf[e + 2..]
  {
    hide ParseInput, ParseInfo;
    if ParseInput(buf) == Parsed(InfoMsg(h, b), rest) {
      InfoHasIntro(buf);
      InfoAtFront(buf);
      ParsedInfo(buf, h, b, rest);
    }
    if e: nat :| && e <= 1550 && e + 1 < |buf| && FirstAt(buf, {3}, e)
                 && InfoFront(buf[..e], h, b) && rest == buf[e + 2..] {
      assert buf[0] == buf[..e][0];
      InfoAtFront(buf);
      InfoParsed(buf, h, b, rest, e);
    }
  }

  lemma InfoHasIntro(buf: seq<Byte>)
    requires ParseInput(buf).Parsed? && ParseInput(buf).msg.typ == Info
    ensures buf != [] && (buf[0] == SOH || buf[0] == STX)
  {
    hide ParseInfo;
  }

  /** The INFO branch in terms of its two searches. */
  lemma InfoParts(buf: seq<Byte>, s: nat, e: nat)
    requires buf != [] && (buf[0] == SOH || buf[0] == STX)
    requires s == (if buf[0] == STX then 0 else FindAny(buf, {STX})) && e == FindAny(buf, {ETX})
    ensures ParseInfo(buf).msg.typ == Info <==> s < e <= 1550 && e + 1 < |buf|
    ensures s < e <= 1550 && e + 1 < |buf| ==>
              ParseInfo(buf) == Parsed(InfoMsg(if s > 0 then buf[1..s] else [], buf[s + 1..e]), buf[e + 2..])
  {
    assert s < |buf| ==> buf[s] == STX;
    assert e < |buf| ==> buf[e] == ETX;
    hide FindAny, ParseInfo;
    if s < e <= 1550 && e + 1 < |buf| {
      InfoFits(buf, s, e, if s > 0 then buf[1..s] else [], buf[s + 1..e], buf[e + 2..]);
    } else {
      InfoFails(buf, s, e);
    }
  }

  lemma InfoFits(buf: seq<Byte>, s: nat, e: nat, h: seq<Byte>, b: seq<Byte>, rest: seq<Byte>)
    requires buf != [] && (buf[0] == SOH || buf[0] == STX)
    requires s == (if buf[0] == STX then 0 else FindAny(buf, {STX})) && e == FindAny(buf, {ETX})
    requires s < e <= 1550 && e + 1 < |buf|
    requires h == (if s > 0 then buf[1..s] else []) && b == buf[s + 1..e] && rest == buf[e + 2..]
    ensures ParseInfo(buf) == Parsed(InfoMsg(h, b), rest)
  {
    hide FindAny;
    if buf[0] == STX {
      assert s == 0;
      assert ParseInfo(buf) == Parsed(InfoMsg([], b), rest);
    } else {
      assert FindAny(buf, {STX}) == s;
      assert s > 0;
      assert ParseInfo(buf).msg == InfoMsg(h, b);
    }
  }

  lemma InfoFails(buf: seq<Byte>, s: nat, e: nat)
    requires buf != [] && (buf[0] == SOH || buf[0] == STX)
    requires s == (if buf[0] == STX then 0 else FindAny(buf, {STX})) && e == FindAny(buf, {ETX})
    requires (s < |buf| ==> buf[s] == STX) && (e < |buf| ==> buf[e] == ETX)
    requires !(s < e <= 1550 && e + 1 < |buf|)
    ensures ParseInfo(buf).msg.typ != Info
  {
    hide FindAny;
  }

  lemma ParsedInfo(buf: seq<Byte>, h: seq<Byte>, b: seq<Byte>, rest: seq<Byte>)
    requires buf != [] && (buf[0] == SOH || buf[0] == STX)
    requires ParseInfo(buf) == Parsed(InfoMsg(h, b), rest)
    ensures
      var e := FindAny(buf, {3});
      && e <= 1550 && e + 1 < |buf| && FirstAt(buf, {3}, e)
      && InfoFront(buf[..e], h, b) && rest == buf[e + 2..]
  {
    hide ParseInfo, FindAny, InfoFront;
    var e := FindAny(buf, {3});
    var s := if buf[0] == STX then 0 else FindAny(buf, {2});
    InfoParts(buf, s, e);
    assert buf[s] == 2;
    FrontIs(buf, s, e);
  }

  lemma FrontIs(buf: seq<Byte>, s: nat, e: nat)
    requires s < e < |buf| && buf[s] == 2 && (s > 0 ==> buf[0] == 1)
    requires forall j :: 0 < j < s ==> buf[j] != 2
    ensures InfoFront(buf[..e], if s > 0 then buf[1..s] else [], buf[s + 1..e])
  {
    var h, b := if s > 0 then buf[1..s] else [], buf[s + 1..e];
    if s == 0 {
      assert buf[..e] == [2] + b;
    } else {
      assert buf[..e] == [1] + h + [2] + b;
      assert forall j :: 0 <= j < |h| ==> h[j] == buf[j + 1];
    }
  }

  lemma InfoParsed(buf: seq<Byte>, h: seq<Byte>, b: seq<Byte>, rest: seq<Byte>, e: nat)
    requires e <= 1550 && e + 1 < |buf| && FirstAt(buf, {3}, e) && InfoFront(buf[..e], h, b) && rest == buf[e + 2..]
    requires buf[0] == SOH || buf[0] == STX
    ensures ParseInfo(buf) == Parsed(InfoMsg(h, b), rest)
  {
    hide ParseInfo, FindAny, InfoFront, FirstAt;
    FirstIsFound(buf, {3}, e);
    var s := FrontStx(buf, h, b, e);
    if s > 0 {
      FirstIsFound(buf, {2}, s);
    }
    InfoParts(buf, s, e);
  }

  lemma FrontStx(buf: seq<Byte>, h: seq<Byte>, b: seq<Byte>, e: nat) returns (s: nat)
    requires e < |buf| && InfoFront(buf[..e], h, b)
    ensures s < e && b == buf[s + 1..e] && h == if s > 0 then buf[1..s] else []
    ensures if s == 0 then buf[0] == 2 else buf[0] == 1 && FirstAt(buf, {2}, s)
  {
    var front := buf[..e];
    assert forall j :: 0 <= j < e ==> buf[j] == front[j];
    if h == [] && front == [2] + b {
      s := 0;
    } else {
      s := 1 + |h|;
      assert front[0] == 1 && front[s] == 2 && front[1..s] == h && front[s + 1..] == b;
      assert forall j :: 0 < j < s ==> front[j] == h[j - 1];
    }
    assert buf[s + 1..e] == front[s + 1..];
    assert s > 0 ==> buf[1..s] == front[1..s];
  }

  /** What is wrong with a buffer that opens with an SOH or STX. */
  ghost predicate BadInfo(buf: seq<Byte>) {
    || (3 !in buf && |buf| > 1550)
    || exists e: nat :: FirstAt(buf, {3}, e) && BadAt(buf, e)
  }

  /** ... given its first ETX: no STX ended the header, or the ETX comes too late. */
  predicate BadAt(buf: seq<Byte>, e: nat)
    requires e < |buf|
  {
    (buf[0] != 2 && 2 !in buf[..e]) || (e + 1 < |buf| && e > 1550)
  }

  /** What is wrong with a buffer, given its first start character. */
  ghost predicate BadStart(buf: seq<Byte>, i: nat)
    requires i < |buf|
  {
    || !Visible(buf[..i])
    || (buf[i] <= 2 && i > 0)
    || (buf[i] <= 2 && i == 0 && BadInfo(buf))
  }

  /** The buffers the parser refuses. */
  ghost predicate Defective(buf: seq<Byte>) {
    || (|buf| > 15 && forall i :: 0 <= i < |buf| ==> buf[i] !in {1, 2, 4, 5, 6, 16, 21})
    || exists i: nat :: FirstAt(buf, {1, 2, 4, 5, 6, 16, 21}, i) && BadStart(buf, i)
  }

  /**
   MALFORMED comes out of exactly the defective buffers; then nothing is left of the buffer, and
   the message holds no more than the graphic prefix of an INFO message that may not have one.
   */
  lemma MalformedExactly(buf: seq<Byte>)
    ensures
      var p := ParseInput(buf);
      && (p.Parsed? && p.msg.typ == Malformed <==> Defective(buf))
      && (Defective(buf) ==>
            && p.rest == [] && p.msg == Simple(Malformed, p.msg.prefix)
            && (p.msg.prefix != [] ==> Visible(p.msg.prefix) && p.msg.prefix < buf && buf[|p.msg.prefix|] <= 2)
            && (p.msg.prefix == [] ==> forall i: nat :: FirstAt(buf, {1, 2, 4, 5, 6, 16, 21}, i) ==>
                                         i == 0 || !Visible(buf[..i])))
  {
    hide ParseInput, BadStart, Visible;
    var cs: set<Byte> := {1, 2, 4, 5, 6, 16, 21};
    var i := FindAny(buf, cs);
    forall k: nat ensures FirstAt(buf, cs, k) <==> i < |buf| && i == k {
      FirstIsFound(buf, cs, k);
    }
    if i < |buf| {
      assert Defective(buf) <==> BadStart(buf, i);
      MalformedAt(buf, i);
      if BadStart(buf, i) {
        LatePrefix(buf, i);
      }
    } else {
      assert forall j :: 0 <= j < |buf| ==> buf[j] !in cs;
      MalformedLong(buf);
    }
  }

  lemma LatePrefix(buf: seq<Byte>, i: nat)
    requires i < |buf| && BadStart(buf, i)
    ensures Visible(buf[..i]) ==> buf[i] <= 2
  {
    hide BadInfo, Visible;
  }

  lemma MalformedLong(buf: seq<Byte>)
    requires FindAny(buf, {1, 2, 4, 5, 6, 16, 21}) == |buf|
    ensures ParseInput(buf) == if |buf| > 15 then Parsed(Simple(Malformed, []), []) else Parsed(NOTHING, buf)
  {
    assert START == {1, 2, 4, 5, 6, 16, 21};
  }

  lemma MalformedAt(buf: seq<Byte>, i: nat)
    requires i < |buf| && i == FindAny(buf, {1, 2, 4, 5, 6, 16, 21})
    ensures
      var p := ParseInput(buf);
      && (p.Parsed? && p.msg.typ == Malformed <==> BadStart(buf, i))
      && (BadStart(buf, i) ==>
            p == Parsed(Simple(Malformed, if Visible(buf[..i]) then buf[..i] else []), []))
  {
    hide ParseInput, ParseInfo, BadInfo, AllGraphic, Visible, IsTail, FindAny;
    VisibleIs(buf[..i]);
    ParseStart(buf, i);
    if i == 0 && buf[0] <= 2 {
      MalformedInfo(buf);
    }
  }

  /** The parser from the first start character on. */
  lemma ParseStart(buf: seq<Byte>, i: nat)
    requires i < |buf| && i == FindAny(buf, {1, 2, 4, 5, 6, 16, 21})
    ensures
      var p := ParseInput(buf);
      && 1 <= buf[i]
      && (!AllGraphic(buf[..i]) ==> i > 0 && p == Parsed(Simple(Malformed, []), []))
      && (AllGraphic(buf[..i]) && buf[i] > 2 ==> p.Abort? || p.msg.typ in {Ack, Nak, Eot, Enq})
      && (AllGraphic(buf[..i]) && buf[i] <= 2 && i > 0 ==> p == Parsed(Simple(Malformed, buf[..i]), []))
      && (i == 0 && buf[0] <= 2 ==> p == ParseInfo(buf))
  {
    hide ParseInfo, IsTail;
    assert START == {1, 2, 4, 5, 6, 16, 21} && buf[i] in START;
    hide FindAny;
  }

  lemma MalformedInfo(buf: seq<Byte>)
    requires buf != [] && (buf[0] == SOH || buf[0] == STX)
    ensures ParseInfo(buf).msg.typ == Malformed <==> BadInfo(buf)
    ensures BadInfo(buf) ==> ParseInfo(buf) == Parsed(Simple(Malformed, []), [])
  {
    var e, s := FindAny(buf, {3}), FindAny(buf, {2});
    forall k: nat ensures FirstAt(buf, {3}, k) <==> e < |buf| && e == k {
      FirstIsFound(buf, {3}, k);
    }
    assert 3 in buf <==> e < |buf|;
    if e < |buf| {
      assert BadInfo(buf) <==> BadAt(buf, e);
      assert 2 in buf[..e] <==> s < e by {
        if s < e {
          assert buf[..e][s] == 2;
        }
      }
    }
  }

  /** What a buffer that opens with an SOH or STX lacks: its ETX, or only the block check behind it. */
  ghost predicate InfoUnfinished(buf: seq<Byte>)
    requires buf != []
  {
    || (3 !in buf && |buf| <= 1550)
    || (FirstAt(buf, {3}, |buf| - 1) && (buf[0] == 2 || 2 in buf))
  }

  /** The parser waits, and leaves the buffer alone, on exactly the buffers that are unfinished. */
  lemma WaitsExactly(buf: seq<Byte>)
    ensures ParseInput(buf) == Parsed(NOTHING, buf) <==>
            || (|buf| <= 15 && forall i :: 0 <= i < |buf| ==> buf[i] !in {1, 2, 4, 5, 6, 16, 21})
            || (buf != [] && buf[0] in {1, 2} && InfoUnfinished(buf))
  {
    hide ParseInput, InfoUnfinished;
    var cs: set<Byte> := {1, 2, 4, 5, 6, 16, 21};
    var i := FindAny(buf, cs);
    if i == |buf| {
      MalformedLong(buf);
      assert buf != [] ==> buf[0] !in cs;
    } else {
      assert buf[i] in cs;
      if i == 0 && buf[0] <= 2 {
        InfoAtFront(buf);
        InfoWaits(buf);
      } else {
        WaitsNot(buf, i);
      }
    }
  }

  lemma WaitsNot(buf: seq<Byte>, i: nat)
    requires i < |buf| && i == FindAny(buf, {1, 2, 4, 5, 6, 16, 21}) && (i > 0 || buf[0] > 2)
    ensures ParseInput(buf) != Parsed(NOTHING, buf)
  {
    hide ParseInput, Visible, BadInfo, IsTail;
    MalformedAt(buf, i);
    CutAt(buf, i);
    if Visible(buf[..i]) && buf[i] > 2 {
      VisibleIs(buf[..i]);
      assert buf[i] in {4, 5, 6, 16, 21};
      hide FindAny;
      if buf[i] == 16 {
        AbortExactly(buf);
      } else {
        var t := if buf[i] == 4 then Eot else if buf[i] == 5 then Enq else if buf[i] == 6 then Ack else Nak;
        SupervisoryExactly(buf, t, buf[..i], buf[i + 1..]);
      }
    }
  }

  lemma CutAt(buf: seq<Byte>, i: nat)
    requires i < |buf|
    ensures buf == buf[..i] + [buf[i]] + buf[i + 1..]
  {
  }

  lemma InfoWaits(buf: seq<Byte>)
    requires buf != [] && (buf[0] == SOH || buf[0] == STX)
    ensures ParseInfo(buf) == Parsed(NOTHING, buf) <==> InfoUnfinished(buf)
  {
    hide ParseInfo, IsTail;
    var e := FindAny(buf, {3});
    var s := if buf[0] == STX then 0 else FindAny(buf, {2});
    forall k: nat ensures FirstAt(buf, {3}, k) <==> e < |buf| && e == k {
      FirstIsFound(buf, {3}, k);
    }
    MalformedInfo(buf);
    InfoParts(buf, s, e);
    StxBefore(buf, s, e);
    hide FindAny, FirstAt;
    assert e < |buf| ==> (BadInfo(buf) <==> BadAt(buf, e));
  }

  lemma StxBefore(buf: seq<Byte>, s: nat, e: nat)
    requires buf != [] && e == FindAny(buf, {3}) && s == if buf[0] == STX then 0 else FindAny(buf, {2})
    ensures 3 in buf <==> e < |buf|
    ensures buf[0] == 2 || 2 in buf[..e] <==> s < e
    ensures e == |buf| - 1 ==> (2 in buf <==> 2 in buf[..e])
  {
    hide FindAny;
    FoundBefore(buf, 3, |buf|);
    FoundBefore(buf, 2, e);
    FoundBefore(buf, 2, |buf|);
    assert buf[..|buf|] == buf;
    if e == |buf| - 1 {
      assert buf == buf[..e] + [3];
    }
  }

  lemma FoundBefore(buf: seq<Byte>, c: Byte, e: nat)
    requires e <= |buf|
    ensures c in buf[..e] <==> FindAny(buf, {c}) < e
  {
    var k := FindAny(buf, {c});
    if k < e {
      assert buf[..e][k] == c;
    }
  }
}
