/**
 Packed text messages (udptoserial/parser.c): a bracketed frame of a protocol letter, two ports and
 the payload length in hexadecimal, the payload in base64, and a CRC.
 */
module PackedMessage {
  import opened Bytes
  import Base64
  import Crc16

  const HEADER_LEN := 10
  const MAX_LEN := HEADER_LEN + 0xFFFF + 10
  const MIN_LEN := HEADER_LEN + 4 + 10

  const START_OF_HEADER: Byte := 91   // '['
  const START_OF_TEXT: Byte := 124    // '|'
  const END_OF_TEXT: Byte := 93       // ']'
  const UDP: Byte := 85               // 'U'
  const TCP: Byte := 84               // 'T'
  const CRLF: seq<Byte> := [13, 10]

  type Word = w: int | 0 <= w < 0x1_0000

  /** `unpacked_msg_t`; the data pointer may be null. */
  datatype Message = Message(
    valid: bool,
    protocol: Byte,
    inputPort: Word,
    outputPort: Word,
    len: nat,
    data: Option<seq<Byte>>,
    crc: Word)

  /* ---------- hexadecimal ---------- */

  function HexChar(d: nat): Byte
    requires d < 16
  {
    if d < 10 then 48 + d else 87 + d
  }

  /** `hexdigit_to_val` where `isxdigit` holds. */
  function HexValue(c: Byte): Option<nat> {
    if 48 <= c <= 57 then Some(c - 48)
    else if 97 <= c <= 102 then Some(c - 87)
    else if 65 <= c <= 70 then Some(c - 55)
    else None
  }

  /** "%04x" of a 16-bit number. */
  function Hex4(n: Word): (s: seq<Byte>)
    ensures |s| == 4
  {
    [HexChar(n / 4096), HexChar(n / 256 % 16), HexChar(n / 16 % 16), HexChar(n % 16)]
  }

  /** "%04x" of any number. */
  function Hex(n: nat): (s: seq<Byte>)
    ensures |s| >= 4 && (n >= 0x1_0000 ==> |s| > 4)
  {
    if n < 0x1_0000 then Hex4(n) else Hex(n / 16) + [HexChar(n % 16)]
  }

  /** `extract_hexword`; `None` is the -1. */
  function HexWord(s: seq<Byte>): Option<Word>
    requires |s| == 4
  {
    var a, b, c, d := HexValue(s[0]), HexValue(s[1]), HexValue(s[2]), HexValue(s[3]);
    if a.Some? && b.Some? && c.Some? && d.Some? then
      HexBelow(s[0]);
      HexBelow(s[1]);
      HexBelow(s[2]);
      HexBelow(s[3]);
      Some(a.value * 4096 + b.value * 256 + c.value * 16 + d.value)
    else None
  }

  lemma HexBelow(c: Byte)
    ensures HexValue(c).Some? ==> HexValue(c).value < 16
  {
  }

  lemma HexValueChar(d: nat)
    requires d < 16
    ensures HexValue(HexChar(d)) == Some(d)
  {
  }

  lemma HexRoundTrip(n: Word)
    ensures HexWord(Hex4(n)) == Some(n)
  {
    hide HexChar, HexValue;
    HexValueChar(n / 4096);
    HexValueChar(n / 256 % 16);
    HexValueChar(n / 16 % 16);
    HexValueChar(n % 16);
    FourDigits(n);
  }

  lemma FourDigits(n: nat)
    ensures n / 4096 * 4096 + n / 256 % 16 * 256 + n / 16 % 16 * 16 + n % 16 == n
  {
    var a, b := n / 16, n / 256;
    assert a / 16 == b && b / 16 == n / 4096;
    assert n == a * 16 + n % 16 && a == b * 16 + a % 16 && b == b / 16 * 16 + b % 16;
  }

  lemma SubSlice(buf: seq<Byte>, from: nat, to: nat, i: nat, j: nat)
    requires i <= j && from + j <= to <= |buf|
    ensures buf[from..to][i..j] == buf[from + i..from + j]
  {
    var a, b := buf[from..to][i..j], buf[from + i..from + j];
    forall k | 0 <= k < j - i ensures a[k] == b[k] {
      assert a[k] == buf[from..to][i + k] == buf[from + (i + k)];
    }
  }

  /* ---------- CRC ---------- */

  /** The CRC of a text as the number that is printed and compared. */
  function CrcWord(text: seq<Byte>): Word {
    Crc16.Crc(text) as int
  }

  lemma CrcWordTells(s: seq<Byte>, t: seq<Byte>)
    requires CrcWord(s) == CrcWord(t)
    ensures Crc16.Crc(s) == Crc16.Crc(t)
  {
    Crc16.SameWord(Crc16.Crc(s), Crc16.Crc(t));
  }

  method ComputeCrcWord(text: seq<Byte>) returns (w: Word)
    ensures w == CrcWord(text)
  {
    var crc := Crc16.ComputeCrc(text);
    w := crc as int;
  }

  /* ---------- unpacking ---------- */

  /** The first place of `c` at or after `i` and below `n`, or `n`. */
  function Scan(buf: seq<Byte>, c: Byte, i: nat, n: nat): (k: nat)
    requires i <= n <= |buf|
    ensures i <= k <= n
    ensures forall j :: i <= j < k ==> buf[j] != c
    ensures k < n ==> buf[k] == c
    decreases n - i
  {
    if i == n || buf[i] == c then i else Scan(buf, c, i + 1, n)
  }

  method ScanFor(buf: seq<Byte>, c: Byte, i: nat, n: nat) returns (k: nat)
    requires i <= n <= |buf|
    ensures k == Scan(buf, c, i, n)
  {
    k := i;
    while k < n
      invariant i <= k <= n && Scan(buf, c, k, n) == Scan(buf, c, i, n)
    {
      if buf[k] == c {
        break;
      }
      k := k + 1;
    }
  }

  /** The checks on the fields of a frame, from its '[' through its ']', and what they fill in. */
  function CheckBehind(m1: Message, body: seq<Byte>): (r: Message)
    requires |body| >= MIN_LEN && !m1.valid
  {
    var e := |body| - 1;
    var iport := HexWord(body[2..6]);
    if iport.None? then m1
    else
      var m2 := m1.(inputPort := iport.value);
      var oport := HexWord(body[6..10]);
      if oport.None? then m2
      else
        var m3 := m2.(outputPort := oport.value);
        var dlen := HexWord(body[11..15]);
        if dlen.None? || e - 19 != dlen.value then m3
        else
          var crc := HexWord(body[e - 4..e]);
          if crc.None? || crc.value != CrcWord(body[..e - 4]) then m3
          else m3.(crc := crc.value, len := dlen.value, data := Base64.Decode(body[15..e - 4]), valid := true)
  }

  /** All checks on a frame; the delimiters and the protocol come first. */
  function Check(m: Message, body: seq<Byte>): (r: Message)
    requires |body| >= MIN_LEN && !m.valid
  {
    var e := |body| - 1;
    if Scan(body, START_OF_TEXT, 0, e) != HEADER_LEN then m
    else if body[1] != UDP && body[1] != TCP then m
    else CheckBehind(m.(protocol := body[1]), body)
  }

  /** The number of bytes processed, and the message. */
  datatype Unpacked = Unpacked(count: nat, msg: Message)

  function Unpack(m: Message, buf: seq<Byte>): (u: Unpacked)
    requires buf != []
  {
    var m0 := m.(valid := false);
    var n := |buf|;
    var soh := Scan(buf, START_OF_HEADER, 0, n);
    if soh == n then Unpacked(n, m0)
    else
      var etx := Scan(buf, END_OF_TEXT, soh + 1, n);
      if etx == n then Unpacked(if n - soh + 1 > MAX_LEN then n + 1 else soh, m0)
      else if etx - soh + 1 < MIN_LEN then Unpacked(etx + 1, m0)
      else Unpacked(etx + 1, Check(m0, buf[soh..etx + 1]))
  }

  method UnpackMessage(msg: Message, buf: seq<Byte>) returns (count: nat, r: Message)
    requires buf != []
    ensures Unpacked(count, r) == Unpack(msg, buf)
  {
    hide Scan, Check;
    r := msg.(valid := false);
    var soh := ScanFor(buf, START_OF_HEADER, 0, |buf|);
    if soh == |buf| {
      return soh, r;
    }
    var etx := ScanFor(buf, END_OF_TEXT, soh + 1, |buf|);
    if etx == |buf| {
      if etx - soh + 1 > MAX_LEN {
        return etx + 1, r;
      }
      return soh, r;
    }
    if etx - soh + 1 < MIN_LEN {
      return etx + 1, r;
    }
    count := etx + 1;
    r := CheckFrame(r, buf, soh, etx);
  }

  /** The part of `unpack_message` that looks inside a frame. */
  method CheckFrame(msg: Message, buf: seq<Byte>, soh: nat, etx: nat) returns (r: Message)
    requires soh + MIN_LEN <= etx + 1 <= |buf| && !msg.valid
    ensures r == Check(msg, buf[soh..etx + 1])
  {
    hide Scan, HexWord;
    r := msg;
    var stx := ScanFor(buf, START_OF_TEXT, soh, etx);
    ScanShift(buf, START_OF_TEXT, soh, etx);
    if stx == etx || stx - soh != HEADER_LEN {
      return;
    }
    var protocol := buf[soh + 1];
    if protocol != UDP && protocol != TCP {
      return;
    }
    r := CheckFields(r.(protocol := protocol), buf, soh, stx, etx);
  }

  method CheckFields(msg: Message, buf: seq<Byte>, soh: nat, stx: nat, etx: nat) returns (r: Message)
    requires soh + MIN_LEN <= etx + 1 <= |buf| && stx == soh + HEADER_LEN && !msg.valid
    ensures r == CheckBehind(msg, buf[soh..etx + 1])
  {
    hide HexWord;
    SubSlice(buf, soh, etx + 1, 2, 6);
    SubSlice(buf, soh, etx + 1, 6, 10);
    SubSlice(buf, soh, etx + 1, 11, 15);
    r := msg;
    var iport := HexWord(buf[soh + 2..soh + 6]);
    if iport.None? {
      return;
    }
    r := r.(inputPort := iport.value);
    var oport := HexWord(buf[soh + 6..soh + 10]);
    if oport.None? {
      return;
    }
    r := r.(outputPort := oport.value);
    var dlen := HexWord(buf[stx + 1..stx + 5]);
    if dlen.None? || etx - stx - 9 != dlen.value {
      return;
    }
    r := CheckCrc(r, buf, soh, stx, etx, dlen.value);
  }

  lemma CrcSlices(buf: seq<Byte>, soh: nat, etx: nat)
    requires soh + MIN_LEN <= etx + 1 <= |buf|
    ensures
      var body := buf[soh..etx + 1];
      var e := |body| - 1;
      && body[e - 4..e] == buf[etx - 4..etx] && body[..e - 4] == buf[soh..etx - 4]
      && body[15..e - 4] == buf[soh + 15..etx - 4]
  {
    var body := buf[soh..etx + 1];
    SubSlice(buf, soh, etx + 1, etx - soh - 4, etx - soh);
    SubSlice(buf, soh, etx + 1, 0, etx - soh - 4);
    SubSlice(buf, soh, etx + 1, 15, etx - soh - 4);
    assert body[..etx - soh - 4] == body[0..etx - soh - 4];
  }

  method CheckCrc(msg: Message, buf: seq<Byte>, soh: nat, stx: nat, etx: nat, dlen: Word) returns (r: Message)
    requires soh + MIN_LEN <= etx + 1 <= |buf| && stx == soh + HEADER_LEN
    ensures
      var body := buf[soh..etx + 1];
      var e := |body| - 1;
      var crc := HexWord(body[e - 4..e]);
      r == if crc.None? || crc.value != CrcWord(body[..e - 4]) then msg
           else msg.(crc := crc.value, len := dlen, data := Base64.Decode(body[15..e - 4]), valid := true)
  {
    hide HexWord, CrcWord, Base64.Decode;
    CrcSlices(buf, soh, etx);
    r := msg;
    var expected := HexWord(buf[etx - 4..etx]);
    if expected.None? {
      return;
    }
    var measured := ComputeCrcWord(buf[soh..etx - 4]);
    if expected.value != measured {
      return;
    }
    var data := Base64.Base64Decode(buf[stx + 5..etx - 4]);
    r := r.(crc := expected.value, len := dlen, data := data, valid := true);
  }

  /** A scan inside a frame, in the coordinates of the frame. */
  lemma ScanShift(buf: seq<Byte>, c: Byte, soh: nat, etx: nat)
    requires soh <= etx < |buf|
    ensures Scan(buf, c, soh, etx) == soh + Scan(buf[soh..etx + 1], c, 0, etx - soh)
  {
    var body := buf[soh..etx + 1];
    var k := Scan(body, c, 0, etx - soh);
    assert forall j :: soh <= j < etx + 1 ==> buf[j] == body[j - soh];
    var q := Scan(buf, c, soh, etx);
    assert q < etx ==> body[q - soh] == c;
    assert k < etx - soh ==> buf[soh + k] == c;
  }

  /** `unpack_message` promises a number of bytes processed; it exceeds the buffer in exactly one case. */
  lemma CountWithinBuffer(m: Message, buf: seq<Byte>)
    requires buf != []
    ensures
      var soh := Scan(buf, START_OF_HEADER, 0, |buf|);
      Unpack(m, buf).count > |buf| <==>
        soh + MAX_LEN <= |buf| && END_OF_TEXT !in buf[soh + 1..]
  {
    var soh := Scan(buf, START_OF_HEADER, 0, |buf|);
    if soh < |buf| {
      var etx := Scan(buf, END_OF_TEXT, soh + 1, |buf|);
      if etx < |buf| {
        assert buf[soh + 1..][etx - soh - 1] == END_OF_TEXT;
      }
    }
  }

  /** ... which a long run of text behind a '[' brings about. */
  lemma CountBeyondBuffer(m: Message)
    ensures
      var buf: seq<Byte> := [START_OF_HEADER] + seq(MAX_LEN - 1, _ => 65);
      Unpack(m, buf).count == |buf| + 1
  {
    var buf: seq<Byte> := [START_OF_HEADER] + seq(MAX_LEN - 1, _ => 65);
    assert forall i :: 0 < i < |buf| ==> buf[i] == 65;
    assert Scan(buf, START_OF_HEADER, 0, |buf|) == 0;
    assert Scan(buf, END_OF_TEXT, 1, |buf|) == |buf|;
  }

  /* ---------- packing ---------- */

  /** A C string ends at its first NUL. */
  function CString(s: seq<Byte>): (t: seq<Byte>)
    ensures t <= s && 0 !in t
    ensures 0 !in s ==> t == s
    ensures |t| < |s| ==> s[|t|] == 0
  {
    if s == [] || s[0] == 0 then [] else [s[0]] + CString(s[1..])
  }

  /** The text up to the CRC, for a payload already in base64. */
  function Text(protocol: Byte, inputPort: Word, outputPort: Word, payload: seq<Byte>): seq<Byte> {
    [START_OF_HEADER, protocol] + Hex4(inputPort) + Hex4(outputPort) + [START_OF_TEXT] + Hex(|payload|) + payload
  }

  /** A text with its CRC and terminator. */
  function Sealed(text: seq<Byte>): seq<Byte> {
    text + Hex4(CrcWord(text)) + [END_OF_TEXT]
  }

  /** The whole packed form; a protocol of 0 would end the C string right after the '['. */
  function PackedForm(m: Message): seq<Byte>
    requires m.data.Some? && m.len <= |m.data.value|
  {
    Sealed(CString(Text(m.protocol, m.inputPort, m.outputPort, Base64.Encode(m.data.value[..m.len])))) + CRLF
  }

  /** What `pack_message` does to a buffer of this size. */
  datatype PackResult =
    | Refused                       // invalid or empty: returns 0, the buffer stays as it is
    | AssertionFailed               // the packed form does not fit: the process ends
    | Wrote(text: seq<Byte>)        // the packed form is at the front of the buffer

  function Pack(m: Message, space: nat): PackResult
    requires m.valid && m.len > 0 ==> m.data.Some? && m.len <= |m.data.value|
  {
    if !m.valid || m.len == 0 then Refused
    else
      var text := PackedForm(m);
      if |text| >= space then AssertionFailed else Wrote(text)
  }

  /** `strncpy` of the packed form: the rest of the buffer keeps what an earlier message left there. */
  method PackMessage(msg: Message, buf: array<Byte>) returns (r: PackResult, after: Message)
    requires buf.Length > 0
    requires msg.valid && msg.len > 0 ==> msg.data.Some? && msg.len <= |msg.data.value|
    modifies buf
    ensures r == Pack(msg, buf.Length)
    ensures r.Refused? <==> !msg.valid || msg.len == 0
    ensures r.AssertionFailed? <==> msg.valid && msg.len > 0 && |PackedForm(msg)| >= buf.Length
    ensures buf[..] == if r.Wrote? then r.text + old(buf[..])[|r.text|..] else old(buf[..])
    ensures after == if r.Wrote? && CString(buf[..]) != [] then Unpack(msg, CString(buf[..])).msg else msg
  {
    after := msg;
    if !msg.valid || msg.len == 0 {
      return Refused, after;
    }
    var payload := Base64.Base64Encode(msg.data.value[..msg.len]);
    var text := CString([START_OF_HEADER, msg.protocol] + Hex4(msg.inputPort) + Hex4(msg.outputPort)
                        + [START_OF_TEXT] + Hex(|payload|) + payload);
    var crc := ComputeCrcWord(text);
    text := text + Hex4(crc) + [END_OF_TEXT] + CRLF;
    assert text == PackedForm(msg);
    if |text| >= buf.Length {
      return AssertionFailed, after;
    }
    CopyFront(buf, text);
    var whole := CString(buf[..]);
    if whole != [] {
      var n, m := UnpackMessage(msg, whole);
      after := m;
    }
    r := Wrote(text);
  }

  method CopyFront(buf: array<Byte>, text: seq<Byte>)
    requires |text| <= buf.Length
    modifies buf
    ensures buf[..] == text + old(buf[..])[|text|..]
  {
    for i := 0 to |text|
      invariant forall j :: 0 <= j < i ==> buf[j] == text[j]
      invariant forall j :: i <= j < buf.Length ==> buf[j] == old(buf[j])
    {
      buf[i] := text[i];
    }
  }

  /* ---------- the shape of a packed text ---------- */

  predicate IsHexChar(c: Byte) {
    48 <= c <= 57 || 97 <= c <= 102
  }

  lemma {:induction false} HexChars(n: nat)
    ensures forall i :: 0 <= i < |Hex(n)| ==> IsHexChar(Hex(n)[i])
    decreases n
  {
    if n >= 0x1_0000 {
      HexChars(n / 16);
      var s := Hex(n / 16);
      forall i | 0 <= i < |Hex(n)| ensures IsHexChar(Hex(n)[i]) {
        if i < |s| {
          assert Hex(n)[i] == s[i];
        }
      }
    }
  }

  /** A character of the fields or of the payload: none of the delimiters, and not NUL. */
  predicate Inner(c: Byte) {
    c != START_OF_HEADER && c != END_OF_TEXT && c != START_OF_TEXT && c != 0
  }

  predicate AllInner(s: seq<Byte>) {
    forall i :: 0 <= i < |s| ==> Inner(s[i])
  }

  lemma InnerHex(n: nat)
    ensures AllInner(Hex(n)) && (n < 0x1_0000 ==> Hex(n) == Hex4(n))
  {
    HexChars(n);
  }

  lemma InnerPayload(data: seq<Byte>)
    ensures AllInner(Base64.Encode(data))
  {
    Base64.EncodeSymbols(data);
    var t := Base64.Encode(data);
    forall i | 0 <= i < |t| ensures Inner(t[i]) {
      assert Base64.IsSymbol(t[i]);
    }
  }

  /** A text of `11 + fields` characters in which the delimiters stand only where they should. */
  predicate Framed(t: seq<Byte>) {
    && |t| >= 15 && t[0] == START_OF_HEADER && t[HEADER_LEN] == START_OF_TEXT
    && (forall i :: 0 < i < |t| && i != HEADER_LEN ==> Inner(t[i]))
  }

  /** The parts of a text, by their places. */
  lemma TextParts(p: Byte, ip: Word, op: Word, payload: seq<Byte>)
    ensures
      var t, h := Text(p, ip, op, payload), Hex(|payload|);
      && |t| == 11 + |h| + |payload| && t[0] == START_OF_HEADER && t[1] == p && t[10] == START_OF_TEXT
      && t[2..6] == Hex4(ip) && t[6..10] == Hex4(op)
      && t[11..11 + |h|] == h && t[11 + |h|..] == payload
  {
    hide Hex, Hex4;
  }

  lemma TextFramed(p: Byte, ip: Word, op: Word, payload: seq<Byte>)
    requires Inner(p) && AllInner(payload)
    ensures
      var t := Text(p, ip, op, payload);
      && Framed(t) && 0 !in t && |t| == 11 + |Hex(|payload|)| + |payload|
      && t[1] == p && t[2..6] == Hex4(ip) && t[6..10] == Hex4(op)
      && t[11..15] == Hex(|payload|)[..4] && t[11 + |Hex(|payload|)|..] == payload
  {
    InnerHex(ip);
    InnerHex(op);
    InnerHex(|payload|);
    hide Hex, Hex4, Inner, Text;
    var h := Hex(|payload|);
    var t := Text(p, ip, op, payload);
    TextParts(p, ip, op, payload);
    forall i | 0 < i < |t| && i != HEADER_LEN ensures Inner(t[i]) {
      if i == 1 {
      } else if i < 6 {
        assert t[i] == Hex4(ip)[i - 2];
      } else if i < 10 {
        assert t[i] == Hex4(op)[i - 6];
      } else if i < 11 + |h| {
        assert t[i] == h[i - 11];
      } else {
        assert t[i] == payload[i - 11 - |h|];
      }
    }
    assert h[..4] == t[11..15];
    FramedNoNul(t);
  }

  lemma FramedNoNul(t: seq<Byte>)
    requires Framed(t)
    ensures 0 !in t
  {
    assert forall i :: 0 <= i < |t| ==> i == 0 || i == HEADER_LEN || Inner(t[i]);
  }

  /* ---------- the characters, and exactly what is accepted ---------- */

  /** `c` is the hexadecimal digit `d`, in either case. */
  predicate Digit(c: Byte, d: nat) {
    && d < 16
    && if d < 10 then c as char == '0' + d as char
       else c as char == 'a' + (d - 10) as char || c as char == 'A' + (d - 10) as char
  }

  /** Numbers are printed with lower-case digits, the most significant one first. */
  lemma HexCharIs(d: nat)
    requires d < 16
    ensures Digit(HexChar(d), d) && (d >= 10 ==> HexChar(d) as char >= 'a')
  {
  }

  lemma HexValueIs(c: Byte, d: nat)
    ensures HexValue(c) == Some(d) <==> Digit(c, d)
  {
  }

  /** The number that lower-case digits stand for. */
  function ReadHex(s: seq<Byte>): int {
    if s == [] then 0
    else
      var c := s[|s| - 1] as char;
      ReadHex(s[..|s| - 1]) * 16 + if c <= '9' then c as int - '0' as int else c as int - 'a' as int + 10
  }

  /** What "%04x" promises: the number itself, in at least four digits, no further zero in front. */
  lemma {:induction false} HexPrints(n: nat)
    ensures ReadHex(Hex(n)) == n && |Hex(n)| >= 4 && (|Hex(n)| > 4 ==> Hex(n)[0] as char != '0')
    decreases n
  {
    if n < 0x1_0000 {
      PrintsFour(n);
    } else {
      HexPrints(n / 16);
      var s := Hex(n / 16);
      assert Hex(n) == s + [HexChar(n % 16)];
      if n / 16 < 0x1_0000 {
        LeadingDigit(n / 16);
      }
      hide Hex, HexChar, ReadHex;
      ReadNext(s, n % 16);
    }
  }

  lemma PrintsFour(n: Word)
    ensures ReadHex(Hex4(n)) == n
  {
    hide HexChar, HexValue, ReadHex, IsHexChar;
    DigitBack(n / 4096);
    DigitBack(n / 256 % 16);
    DigitBack(n / 16 % 16);
    DigitBack(n % 16);
    ReadFour(HexChar(n / 4096), HexChar(n / 256 % 16), HexChar(n / 16 % 16), HexChar(n % 16));
    FourDigits(n);
  }

  lemma DigitBack(d: nat)
    requires d < 16
    ensures IsHexChar(HexChar(d)) && HexValue(HexChar(d)) == Some(d)
  {
  }

  lemma LeadingDigit(n: Word)
    requires n >= 4096
    ensures Hex(n)[0] as char != '0'
  {
  }

  lemma ReadNext(s: seq<Byte>, d: nat)
    requires d < 16
    ensures ReadHex(s + [HexChar(d)]) == ReadHex(s) * 16 + d
  {
    assert (s + [HexChar(d)])[..|s|] == s;
  }

  lemma ReadFour(a: Byte, b: Byte, c: Byte, d: Byte)
    requires IsHexChar(a) && IsHexChar(b) && IsHexChar(c) && IsHexChar(d)
    ensures ReadHex([a, b, c, d]) == HexValue(a).value * 4096 + HexValue(b).value * 256
                                     + HexValue(c).value * 16 + HexValue(d).value
  {
    var s := [a, b, c, d];
    assert s[..3] == [a, b, c] && [a, b, c][..2] == [a, b] && [a, b][..1] == [a] && [a][..0] == [];
    assert ReadHex([a]) == HexValue(a).value;
    assert ReadHex([a, b]) == HexValue(a).value * 16 + HexValue(b).value;
    assert ReadHex([a, b, c]) == ReadHex([a, b]) * 16 + HexValue(c).value;
  }

  /** Four characters are read as a number exactly when they are hexadecimal digits, in either case. */
  lemma HexWordExactly(s: seq<Byte>, w: Word)
    requires |s| == 4
    ensures HexWord(s) == Some(w) <==>
            exists a: nat, b: nat, c: nat, d: nat ::
              && Digit(s[0], a) && Digit(s[1], b) && Digit(s[2], c) && Digit(s[3], d)
              && w == a * 4096 + b * 256 + c * 16 + d
  {
    hide HexValue, Digit;
    forall c: Byte, d: nat ensures HexValue(c) == Some(d) <==> Digit(c, d) {
      HexValueIs(c, d);
    }
    if HexWord(s) == Some(w) {
      var a, b, c, d := HexValue(s[0]).value, HexValue(s[1]).value, HexValue(s[2]).value, HexValue(s[3]).value;
      assert Digit(s[0], a) && Digit(s[1], b) && Digit(s[2], c) && Digit(s[3], d);
      assert w == a * 4096 + b * 256 + c * 16 + d;
    }
  }

  /** The bar stands in place 10 of the frame and nowhere before, behind the letter U or T. */
  predicate GoodHeader(body: seq<Byte>)
    requires |body| >= 24
  {
    && body[10] as char == '|' && (forall i :: 0 <= i < 10 ==> body[i] as char != '|')
    && (body[1] as char == 'U' || body[1] as char == 'T')
  }

  lemma GoodHeaderIs(body: seq<Byte>)
    requires |body| >= 24
    ensures GoodHeader(body) <==>
            Scan(body, START_OF_TEXT, 0, |body| - 1) == HEADER_LEN && (body[1] == UDP || body[1] == TCP)
  {
  }

  /**
   Exactly which frames are accepted, and what is filled in on the way to a refusal: the letter
   once the header is good, each port once it and all before it are, and nothing else.
   */
  lemma CheckExactly(m: Message, body: seq<Byte>)
    requires |body| >= 24 && !m.valid
    ensures
      var r, e := Check(m, body), |body| - 1;
      var ip, op := HexWord(body[2..6]), HexWord(body[6..10]);
      && (r.valid <==> GoodHeader(body) && ip.Some? && op.Some? && HexWord(body[11..15]) == Some(e - 19)
                       && HexWord(body[e - 4..e]) == Some(CrcWord(body[..e - 4])))
      && r.protocol == (if GoodHeader(body) then body[1] else m.protocol)
      && r.inputPort == (if GoodHeader(body) && ip.Some? then ip.value else m.inputPort)
      && r.outputPort == (if GoodHeader(body) && ip.Some? && op.Some? then op.value else m.outputPort)
      && (r.valid ==> r.len == e - 19 && r.crc == CrcWord(body[..e - 4]) && r.data == Base64.Decode(body[15..e - 4]))
      && (!r.valid ==> r.len == m.len && r.crc == m.crc && r.data == m.data)
  {
    hide Scan, GoodHeader, HexWord, CrcWord, Base64.Decode;
    GoodHeaderIs(body);
  }

  lemma ScanBehind(junk: seq<Byte>, rest: seq<Byte>, c: Byte, i: nat)
    requires i <= |rest|
    ensures Scan(junk + rest, c, |junk| + i, |junk| + |rest|) == |junk| + Scan(rest, c, i, |rest|)
  {
    var all := junk + rest;
    assert forall j :: 0 <= j < |rest| ==> all[|junk| + j] == rest[j];
    var k, q := Scan(rest, c, i, |rest|), Scan(all, c, |junk| + i, |all|);
    assert q < |all| ==> rest[q - |junk|] == c;
    assert k < |rest| ==> all[|junk| + k] == c;
  }

  lemma ScanPast(junk: seq<Byte>, rest: seq<Byte>, c: Byte)
    requires c !in junk
    ensures Scan(junk + rest, c, 0, |junk| + |rest|) == |junk| + Scan(rest, c, 0, |rest|)
  {
    var all := junk + rest;
    ScanBehind(junk, rest, c, 0);
    assert forall j :: 0 <= j < |junk| ==> all[j] == junk[j];
    assert forall j :: 0 <= j < |rest| ==> all[|junk| + j] == rest[j];
    var k, q := Scan(rest, c, 0, |rest|), Scan(all, c, 0, |all|);
    assert q >= |junk|;
    assert q < |all| ==> rest[q - |junk|] == c;
    assert k < |rest| ==> all[|junk| + k] == c;
  }

  /** Junk without a '[' in front of anything changes the count and nothing else. */
  lemma JunkSkipped(m: Message, junk: seq<Byte>, rest: seq<Byte>)
    requires 91 !in junk && rest != []
    ensures
      var u, v := Unpack(m, junk + rest), Unpack(m, rest);
      u.msg == v.msg && u.count == |junk| + v.count
  {
    hide Scan, Check;
    var n, all := |junk|, junk + rest;
    ScanPast(junk, rest, START_OF_HEADER);
    var soh := Scan(rest, START_OF_HEADER, 0, |rest|);
    if soh < |rest| {
      ScanBehind(junk, rest, END_OF_TEXT, soh + 1);
      var etx := Scan(rest, END_OF_TEXT, soh + 1, |rest|);
      if etx < |rest| {
        BehindSlice(junk, rest, soh, etx + 1);
      }
    }
  }

  lemma BehindSlice(junk: seq<Byte>, rest: seq<Byte>, i: nat, j: nat)
    requires i <= j <= |rest|
    ensures (junk + rest)[|junk| + i..|junk| + j] == rest[i..j]
  {
  }

  /** `buf` holds a '[' at `soh`, and it is the first one. */
  predicate OpensAt(buf: seq<Byte>, soh: nat) {
    soh < |buf| && buf[soh] as char == '[' && forall i :: 0 <= i < soh ==> buf[i] as char != '['
  }

  /**
   The number of bytes processed, in every case: all of them without a '['; up to and with the
   first ']' behind the first '['; and, while there is no ']' yet, only what is in front of the
   '[', until 65555 bytes have come together without one.  A frame below 24 bytes is not looked at.
   */
  lemma CountExactly(m: Message, buf: seq<Byte>, soh: nat)
    requires buf != []
    ensures 91 !in buf ==> Unpack(m, buf) == Unpacked(|buf|, m.(valid := false))
    ensures OpensAt(buf, soh) ==>
              && (93 !in buf[soh + 1..] ==>
                    Unpack(m, buf) == Unpacked(if |buf| - soh < 65555 then soh else |buf| + 1, m.(valid := false)))
              && (93 in buf[soh + 1..] ==>
                    var n := Unpack(m, buf).count;
                    && soh + 1 < n <= |buf| && buf[n - 1] == 93 && 93 !in buf[soh + 1..n - 1]
                    && Unpack(m, buf).msg == if n - soh < 24 then m.(valid := false)
                                             else Check(m.(valid := false), buf[soh..n]))
  {
    hide Check;
    if OpensAt(buf, soh) {
      assert Scan(buf, START_OF_HEADER, 0, |buf|) == soh;
      var etx := Scan(buf, END_OF_TEXT, soh + 1, |buf|);
      var tail := buf[soh + 1..];
      assert forall i :: 0 <= i < |tail| ==> tail[i] == buf[soh + 1 + i];
      if etx < |buf| {
        assert tail[etx - soh - 1] == 93;
      }
      hide Scan;
      assert 93 in tail <==> etx < |buf|;
    }
  }

  /** So an unfinished frame is kept, and is found again when the rest of it has come. */
  lemma UnfinishedResumes(m: Message, buf: seq<Byte>, soh: nat, more: seq<Byte>)
    requires OpensAt(buf, soh) && 93 !in buf[soh + 1..] && |buf| - soh < 65555
    ensures
      var n := Unpack(m, buf).count;
      && n == soh
      && Unpack(m, buf[n..] + more).msg == Unpack(m, buf + more).msg
      && n + Unpack(m, buf[n..] + more).count == Unpack(m, buf + more).count
  {
    hide Unpack;
    CountExactly(m, buf, soh);
    JunkSkipped(m, buf[..soh], buf[soh..] + more);
    assert buf[..soh] + (buf[soh..] + more) == buf + more;
  }
}
