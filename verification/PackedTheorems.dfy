/** What packing and unpacking promise to each other. */
module PackedTheorems {
  import opened Bytes
  import opened PackedMessage
  import Base64
  import Crc16

  const BLANK := Message(false, 0, 0, 0, 0, None, 0)

  /* ---------- finding a frame ---------- */

  /** A frame: '[' first, ']' last and nowhere before. */
  predicate IsFrame(body: seq<Byte>) {
    && |body| >= MIN_LEN && body[0] == START_OF_HEADER && body[|body| - 1] == END_OF_TEXT
    && (forall i :: 0 < i < |body| - 1 ==> body[i] != END_OF_TEXT)
  }

  lemma ScanIs(buf: seq<Byte>, c: Byte, i: nat, n: nat, k: nat)
    requires i <= k < n <= |buf| && buf[k] == c && forall j :: i <= j < k ==> buf[j] != c
    ensures Scan(buf, c, i, n) == k
  {
  }

  /** The first frame behind any junk is the one that is looked at, whatever follows it. */
  lemma FindsFrame(m: Message, junk: seq<Byte>, body: seq<Byte>, rest: seq<Byte>)
    requires START_OF_HEADER !in junk && IsFrame(body)
    ensures
      Unpack(m, junk + body + rest) == Unpacked(|junk| + |body|, Check(m.(valid := false), body))
  {
    hide Check;
    var buf := junk + body + rest;
    var k, e := |junk|, |junk| + |body| - 1;
    assert forall i :: 0 <= i < |body| ==> buf[k + i] == body[i];
    forall j | 0 <= j < k ensures buf[j] != START_OF_HEADER {
      assert buf[j] == junk[j];
    }
    assert buf[k] == body[0];
    ScanIs(buf, START_OF_HEADER, 0, |buf|, k);
    forall j | k + 1 <= j < e ensures buf[j] != END_OF_TEXT {
      assert buf[j] == body[j - k];
    }
    assert buf[e] == body[e - k];
    ScanIs(buf, END_OF_TEXT, k + 1, |buf|, e);
    assert buf[k..e + 1] == body;
  }

  /* ---------- exactly what survives ---------- */

  /** A text with its seal is a frame, and its parts are where the checks look for them. */
  lemma SealedFrame(t: seq<Byte>)
    requires Framed(t) && |t| >= 19
    ensures
      var body := Sealed(t);
      var e := |body| - 1;
      && e == |t| + 4 && IsFrame(body)
      && body[..e - 4] == t && HexWord(body[e - 4..e]) == Some(CrcWord(t))
      && (forall i :: 0 <= i < |t| ==> body[i] == t[i])
      && Scan(body, START_OF_TEXT, 0, e) == HEADER_LEN
  {
    var crc := CrcWord(t);
    hide Hex4, HexWord, CrcWord, Inner, Hex;
    HexRoundTrip(crc);
    InnerHex(crc);
    var d := Hex4(crc);
    var body := Sealed(t);
    var e := |t| + 4;
    assert body[e - 4..e] == d;
    assert forall i :: 0 <= i < |t| ==> body[i] == t[i];
    forall i | 0 < i < e ensures body[i] != END_OF_TEXT {
      if i < |t| {
        assert i != HEADER_LEN ==> Inner(t[i]);
        InnerIsNoDelimiter(t[i]);
      } else {
        assert body[i] == d[i - |t|];
        InnerIsNoDelimiter(d[i - |t|]);
      }
    }
    forall j | 0 <= j < HEADER_LEN ensures body[j] != START_OF_TEXT {
      if j > 0 {
        assert Inner(t[j]);
        InnerIsNoDelimiter(t[j]);
      }
    }
    ScanIs(body, START_OF_TEXT, 0, e, HEADER_LEN);
  }

  lemma InnerIsNoDelimiter(c: Byte)
    ensures Inner(c) ==> c != START_OF_HEADER && c != END_OF_TEXT && c != START_OF_TEXT
  {
  }

  /** A sealed text passes all checks, and its payload is decoded as it is. */
  lemma SealedPasses(m: Message, p: Byte, ip: Word, op: Word, payload: seq<Byte>)
    requires !m.valid && (p == UDP || p == TCP) && AllInner(payload) && 4 <= |payload| <= 0xFFFF
    ensures
      var t := Text(p, ip, op, payload);
      && Framed(t) && 0 !in t && IsFrame(Sealed(t))
      && Check(m, Sealed(t)) == Message(true, p, ip, op, |payload|, Base64.Decode(payload), CrcWord(t))
  {
    var t := Text(p, ip, op, payload);
    hide Text, Sealed, Hex, Hex4, HexWord, Scan, Framed, Base64.Decode, CrcWord, IsFrame, AllInner;
    assert Inner(p);
    TextFramed(p, ip, op, payload);
    InnerHex(|payload|);
    SealedFrame(t);
    var body := Sealed(t);
    var e := |body| - 1;
    assert body[2..6] == t[2..6] && body[6..10] == t[6..10] && body[11..15] == t[11..15];
    assert body[15..e - 4] == t[15..] == payload;
    HexRoundTrip(ip);
    HexRoundTrip(op);
    HexRoundTrip(|payload|);
    assert Hex4(|payload|)[..4] == Hex4(|payload|);
  }

  /** A packed message passes all checks with its own fields. */
  lemma ChecksPass(m: Message, p: Byte, ip: Word, op: Word, data: seq<Byte>)
    requires !m.valid && (p == UDP || p == TCP) && data != [] && |Base64.Encode(data)| <= 0xFFFF
    ensures
      var payload := Base64.Encode(data);
      var t := Text(p, ip, op, payload);
      && Framed(t) && 0 !in t && IsFrame(Sealed(t))
      && Check(m, Sealed(t)) == Message(true, p, ip, op, |payload|, Some(data), CrcWord(t))
  {
    hide Text, Sealed, Framed, Base64.Encode, Base64.Decode, CrcWord, IsFrame, Check, AllInner;
    InnerPayload(data);
    SealedPasses(m, p, ip, op, Base64.Encode(data));
    Base64.DecodeEncode(data);
  }

  predicate Packable(m: Message) {
    m.valid && m.len > 0 && m.data.Some? && m.len <= |m.data.value|
  }

  /** A known protocol, and a payload whose base64 length has four hexadecimal digits. */
  predicate Portable(m: Message) {
    (m.protocol == UDP || m.protocol == TCP) && (m.len + 2) / 3 * 4 <= 0xFFFF
  }

  /** What a receiver makes of a portable message. */
  function Arrived(m: Message): Message
    requires Packable(m)
  {
    var payload := Base64.Encode(m.data.value[..m.len]);
    Message(true, m.protocol, m.inputPort, m.outputPort, |payload|, Some(m.data.value[..m.len]),
            CrcWord(Text(m.protocol, m.inputPort, m.outputPort, payload)))
  }

  /** The frame inside the packed form of a portable message. */
  function FrameOf(m: Message): seq<Byte>
    requires Packable(m)
  {
    Sealed(Text(m.protocol, m.inputPort, m.outputPort, Base64.Encode(m.data.value[..m.len])))
  }

  /**
   Pack and unpack, with resynchronisation: behind any junk without a '[' and before anything at
   all, a packed message comes back with its protocol, ports and payload, and exactly the bytes
   through its ']' are consumed.
   */
  lemma UnpackPacked(m: Message, msg: Message, junk: seq<Byte>, rest: seq<Byte>)
    requires Packable(msg) && Portable(msg) && START_OF_HEADER !in junk
    ensures PackedForm(msg) == FrameOf(msg) + CRLF
    ensures Unpack(m, junk + FrameOf(msg) + rest) == Unpacked(|junk| + |FrameOf(msg)|, Arrived(msg))
  {
    var data := msg.data.value[..msg.len];
    ChecksPass(m.(valid := false), msg.protocol, msg.inputPort, msg.outputPort, data);
    hide Check, Sealed, Text, Unpack, IsFrame;
    FindsFrame(m, junk, FrameOf(msg), rest);
  }

  /** ... and the condition on the message is exact: no other packed message is ever taken for valid. */
  lemma ValidExactly(m: Message, msg: Message)
    requires Packable(msg)
    ensures Unpack(m, PackedForm(msg)).msg.valid <==> Portable(msg)
  {
    if Portable(msg) {
      UnpackPacked(m, msg, [], CRLF);
      assert [] + FrameOf(msg) + CRLF == PackedForm(msg);
    } else if Unpack(m, PackedForm(msg)).msg.valid {
      ValidSecond(m, PackedForm(msg));
      PackedSecond(msg);
      OversizeRefused(m, msg);
    }
  }

  /** The packed form, part by part: numbers in hexadecimal, the payload in base64, all in ASCII. */
  lemma PackedLayout(msg: Message)
    requires Packable(msg) && msg.protocol != 0
    ensures
      var payload := Base64.Encode(msg.data.value[..msg.len]);
      var text := [91, msg.protocol] + Hex4(msg.inputPort) + Hex4(msg.outputPort) + [124]
                  + Hex(|payload|) + payload;
      PackedForm(msg) == text + Hex4(CrcWord(text)) + [93] + [13, 10]
  {
    var payload := Base64.Encode(msg.data.value[..msg.len]);
    InnerPayload(msg.data.value[..msg.len]);
    InnerHex(msg.inputPort);
    InnerHex(msg.outputPort);
    InnerHex(|payload|);
    hide Base64.Encode, Hex, Hex4, CrcWord, CString;
    var t := Text(msg.protocol, msg.inputPort, msg.outputPort, payload);
    assert 0 !in t;
    assert CString(t) == t;
  }

  /** For instance: the letter A from port 4000 to port 42420. */
  lemma PackedExample()
    ensures PackedForm(Message(true, 85, 4000, 42420, 1, Some([65]), 0)) ==
            [91, 85, 48, 102, 97, 48, 97, 53, 98, 52, 124, 48, 48, 48, 52, 81, 81, 61, 61]
            + [98, 100, 53, 100] + [93, 13, 10]
  {
    var text: seq<Byte> := [91, 85, 48, 102, 97, 48, 97, 53, 98, 52, 124, 48, 48, 48, 52, 81, 81, 61, 61];
    hide *;
    ExampleJoin();
    ExampleEncoding();
    ExampleDigits();
    ExampleCrc();
    LayoutIs(85, 4000, 42420, [65], [81, 81, 61, 61], [48, 102, 97, 48], [97, 53, 98, 52], [48, 48, 48, 52], text,
             [98, 100, 53, 100]);
  }

  lemma LayoutIs(p: Byte, ip: Word, op: Word, data: seq<Byte>, payload: seq<Byte>, a: seq<Byte>, b: seq<Byte>,
                 n: seq<Byte>, text: seq<Byte>, crc: seq<Byte>)
    requires p != 0 && data != [] && Base64.Encode(data) == payload
    requires Hex4(ip) == a && Hex4(op) == b && Hex(|payload|) == n && Hex4(CrcWord(text)) == crc
    requires text == [91, p] + a + b + [124] + n + payload
    ensures PackedForm(Message(true, p, ip, op, |data|, Some(data), 0)) == text + crc + [93, 13, 10]
  {
    hide Base64.Encode, Hex, Hex4, CrcWord, PackedForm;
    PackedLayout(Message(true, p, ip, op, |data|, Some(data), 0));
    assert data[..|data|] == data;
    assert text + crc + [93] + [13, 10] == text + crc + [93, 13, 10];
  }

  lemma ExampleJoin()
    ensures [91, 85, 48, 102, 97, 48, 97, 53, 98, 52, 124, 48, 48, 48, 52, 81, 81, 61, 61] ==
            [91, 85] + [48, 102, 97, 48] + [97, 53, 98, 52] + [124] + [48, 48, 48, 52] + [81, 81, 61, 61]
  {
  }

  lemma ExampleEncoding()
    ensures Base64.Encode([65]) == [81, 81, 61, 61]
  {
    assert Base64.Encode([65]) == Base64.Tail([65]);
  }

  lemma ExampleDigits()
    ensures Hex4(4000) == [48, 102, 97, 48] && Hex4(42420) == [97, 53, 98, 52]
    ensures Hex(4) == [48, 48, 48, 52] && Hex4(0xBD5D) == [98, 100, 53, 100]
  {
  }

  lemma ExampleCrc()
    ensures CrcWord([91, 85, 48, 102, 97, 48, 97, 53, 98, 52, 124, 48, 48, 48, 52, 81, 81, 61, 61]) == 0xBD5D
  {
    hide Crc16.Step, Crc16.ByteBits;
    var states: seq<bv16> :=
      [0xFFFF, 0x0A6E, 0xC51A, 0xA5BA, 0x532F, 0x3911, 0x8029, 0xC40F, 0xF03E, 0x9DFB,
       0xDFC3, 0x4689, 0x9751, 0x940D, 0xF86E, 0x76C0, 0x9485, 0x0CE9, 0xCF72, 0xBD5D];
    Crc16.StepValue(0xFFFF, 91, 91, 0x0A6E);
    Crc16.StepValue(0x0A6E, 85, 85, 0xC51A);
    Crc16.StepValue(0xC51A, 48, 48, 0xA5BA);
    Crc16.StepValue(0xA5BA, 102, 102, 0x532F);
    Crc16.StepValue(0x532F, 97, 97, 0x3911);
    Crc16.StepValue(0x3911, 48, 48, 0x8029);
    Crc16.StepValue(0x8029, 97, 97, 0xC40F);
    Crc16.StepValue(0xC40F, 53, 53, 0xF03E);
    Crc16.StepValue(0xF03E, 98, 98, 0x9DFB);
    Crc16.StepValue(0x9DFB, 52, 52, 0xDFC3);
    Crc16.StepValue(0xDFC3, 124, 124, 0x4689);
    Crc16.StepValue(0x4689, 48, 48, 0x9751);
    Crc16.StepValue(0x9751, 48, 48, 0x940D);
    Crc16.StepValue(0x940D, 48, 48, 0xF86E);
    Crc16.StepValue(0xF86E, 52, 52, 0x76C0);
    Crc16.StepValue(0x76C0, 81, 81, 0x9485);
    Crc16.StepValue(0x9485, 81, 81, 0x0CE9);
    Crc16.StepValue(0x0CE9, 61, 61, 0xCF72);
    Crc16.StepValue(0xCF72, 61, 61, 0xBD5D);
    Crc16.TraceEnd(states, [91, 85, 48, 102, 97, 48, 97, 53, 98, 52, 124, 48, 48, 48, 52, 81, 81, 61, 61]);
  }

  /** The smallest payload that does not come back. */
  lemma OversizeExample(m: Message)
    ensures
      var data: seq<Byte> := seq(49150, _ => 0);
      !Unpack(m, PackedForm(Message(true, UDP, 1, 2, 49150, Some(data), 0))).msg.valid
  {
    hide Unpack, PackedForm;
    var data: seq<Byte> := seq(49150, _ => 0);
    ValidExactly(m, Message(true, UDP, 1, 2, 49150, Some(data), 0));
  }

  /** A valid message at the front of a buffer has its protocol letter in second place. */
  lemma ValidSecond(m: Message, buf: seq<Byte>)
    requires buf != [] && buf[0] == START_OF_HEADER && Unpack(m, buf).msg.valid
    ensures |buf| > 1 && (buf[1] == UDP || buf[1] == TCP)
  {
    hide CheckBehind;
    assert Scan(buf, START_OF_HEADER, 0, |buf|) == 0;
  }

  lemma PackedSecond(msg: Message)
    requires Packable(msg)
    ensures
      var s := PackedForm(msg);
      && |s| > 1 && s[0] == START_OF_HEADER
      && (s[1] == UDP || s[1] == TCP ==> msg.protocol == s[1])
  {
    var payload := Base64.Encode(msg.data.value[..msg.len]);
    var t := Text(msg.protocol, msg.inputPort, msg.outputPort, payload);
    var c := CString(t);
    assert t[0] == START_OF_HEADER && t[1] == msg.protocol;
    assert |c| >= 1 && c[0] == t[0];
    InnerHex(CrcWord(c));
    HexChars(CrcWord(c));
    var d := Hex4(CrcWord(c));
    assert d == Hex(CrcWord(c));
    assert IsHexChar(d[0]);
    if msg.protocol == 0 {
      assert |c| == 1;
      assert PackedForm(msg)[1] == d[0];
    } else {
      assert |c| >= 2 && c[1] == t[1];
      assert PackedForm(msg)[1] == t[1];
    }
  }

  /** With five or more digits the length field no longer says what follows it. */
  lemma OversizeRefused(m: Message, msg: Message)
    requires Packable(msg) && (msg.protocol == UDP || msg.protocol == TCP) && (msg.len + 2) / 3 * 4 > 0xFFFF
    ensures !Unpack(m, PackedForm(msg)).msg.valid
  {
    hide Base64.Encode, Text, Sealed, Hex, Framed, IsFrame, CrcWord, CString, Check, Unpack, Scan, HexWord;
    var payload := Base64.Encode(msg.data.value[..msg.len]);
    var t := Text(msg.protocol, msg.inputPort, msg.outputPort, payload);
    InnerPayload(msg.data.value[..msg.len]);
    TextFramed(msg.protocol, msg.inputPort, msg.outputPort, payload);
    SealedFrame(t);
    var body := Sealed(t);
    assert CString(t) == t;
    assert [] + body == body;
    FindsFrame(m, [], body, CRLF);
    LengthMismatch(m.(valid := false), body);
  }

  lemma LengthMismatch(m: Message, body: seq<Byte>)
    requires |body| >= MIN_LEN && !m.valid && |body| - 20 > 0xFFFF
    ensures !Check(m, body).valid
  {
    hide Scan;
  }

  /* ---------- valid without data ---------- */

  /** Where the payload of the frame that is found in a buffer lies. */
  function Payload(body: seq<Byte>): seq<Byte>
    requires |body| >= MIN_LEN
  {
    body[15..|body| - 5]
  }

  lemma CheckedData(m: Message, body: seq<Byte>)
    requires |body| >= MIN_LEN && !m.valid && Check(m, body).valid
    ensures Check(m, body).data == Base64.Decode(Payload(body))
  {
    hide Scan, HexWord, CrcWord, Base64.Decode;
  }

  /**
   A valid message may still be without data: on every buffer, exactly when the payload between
   the delimiters has no base64 decoding.  The CRC says nothing about that.
   */
  lemma NullDataExactly(m: Message, buf: seq<Byte>)
    requires buf != [] && Unpack(m, buf).msg.valid
    ensures
      var soh := Scan(buf, START_OF_HEADER, 0, |buf|);
      && soh < |buf|
      && var etx := Scan(buf, END_OF_TEXT, soh + 1, |buf|);
         && etx < |buf| && etx - soh + 1 >= MIN_LEN
         && (Unpack(m, buf).msg.data.None? <==> Base64.Undecodable(Payload(buf[soh..etx + 1])))
  {
    hide Check, Scan, Base64.Decode, Base64.Undecodable, Payload;
    ValidChecked(m, buf);
    var soh := Scan(buf, START_OF_HEADER, 0, |buf|);
    var etx := Scan(buf, END_OF_TEXT, soh + 1, |buf|);
    CheckedData(m.(valid := false), buf[soh..etx + 1]);
    Base64.NullExactly(Payload(buf[soh..etx + 1]));
  }

  /** Any such payload in a sealed text will do ... */
  lemma NullDataUnpacked(m: Message, p: Byte, ip: Word, op: Word, payload: seq<Byte>, junk: seq<Byte>, rest: seq<Byte>)
    requires (p == UDP || p == TCP) && AllInner(payload) && 4 <= |payload| <= 0xFFFF && START_OF_HEADER !in junk
    ensures
      var u := Unpack(m, junk + Sealed(Text(p, ip, op, payload)) + rest);
      u.msg.valid && (u.msg.data.None? <==> Base64.Undecodable(payload))
  {
    hide Check, Unpack, IsFrame, Sealed, Text, Framed, AllInner, Base64.Decode, Base64.Undecodable;
    SealedPasses(m.(valid := false), p, ip, op, payload);
    FindsFrame(m, junk, Sealed(Text(p, ip, op, payload)), rest);
    Base64.NullExactly(payload);
  }

  /** ... for instance one without any symbol. */
  lemma NullDataExample(m: Message, ip: Word, op: Word, rest: seq<Byte>)
    ensures
      var u := Unpack(m, Sealed(Text(UDP, ip, op, [42, 42, 42, 42])) + rest);
      u.msg.valid && u.msg.data.None?
  {
    var stars: seq<Byte> := [42, 42, 42, 42];
    assert AllInner(stars);
    assert Base64.Undecodable(stars) by {
      assert !Base64.IsSymbol(42);
      Base64.SymbolsNone(stars);
    }
    hide Unpack, Sealed, Text, AllInner, Base64.Undecodable;
    NullDataUnpacked(m, UDP, ip, op, stars, [], rest);
    var body := Sealed(Text(UDP, ip, op, stars));
    assert [] + body == body;
  }

  /* ---------- error detection ---------- */

  /** What a valid verdict says about a frame. */
  predicate Vouched(body: seq<Byte>) {
    && |body| >= MIN_LEN
    && var e := |body| - 1;
       && Scan(body, START_OF_TEXT, 0, e) == HEADER_LEN
       && HexWord(body[11..15]) == Some(e - 19)
       && HexWord(body[e - 4..e]) == Some(CrcWord(body[..e - 4]))
  }

  lemma CheckVouches(m: Message, body: seq<Byte>)
    requires |body| >= MIN_LEN && !m.valid
    ensures Check(m, body).valid ==> Vouched(body)
  {
    hide Scan, HexWord, CrcWord, Base64.Decode;
  }

  /** A valid message was found between the first '[' and the first ']' behind it. */
  lemma ValidVouched(m: Message, buf: seq<Byte>)
    requires buf != [] && Unpack(m, buf).msg.valid
    ensures
      var soh := Scan(buf, START_OF_HEADER, 0, |buf|);
      && soh < |buf|
      && var etx := Scan(buf, END_OF_TEXT, soh + 1, |buf|);
         etx < |buf| && Vouched(buf[soh..etx + 1])
  {
    hide Check, Vouched, Scan, Unpack;
    ValidChecked(m, buf);
    var soh := Scan(buf, START_OF_HEADER, 0, |buf|);
    var etx := Scan(buf, END_OF_TEXT, soh + 1, |buf|);
    CheckVouches(m.(valid := false), buf[soh..etx + 1]);
  }

  lemma ValidChecked(m: Message, buf: seq<Byte>)
    requires buf != [] && Unpack(m, buf).msg.valid
    ensures
      var soh := Scan(buf, START_OF_HEADER, 0, |buf|);
      && soh < |buf|
      && var etx := Scan(buf, END_OF_TEXT, soh + 1, |buf|);
         && etx < |buf| && etx - soh + 1 >= MIN_LEN
         && Check(m.(valid := false), buf[soh..etx + 1]).valid
  {
    hide Check, Scan;
  }

  /** The text `t`, with one or two adjacent bytes changed, under the seal of the original. */
  function Damaged(t: seq<Byte>, front: seq<Byte>, b: seq<Byte>, back: seq<Byte>, rest: seq<Byte>): seq<Byte> {
    (front + b + back) + (Hex4(CrcWord(t)) + [END_OF_TEXT] + rest)
  }

  predicate Change(t: seq<Byte>, front: seq<Byte>, a: seq<Byte>, b: seq<Byte>, back: seq<Byte>) {
    t == front + a + back && |a| == |b| && 1 <= |a| <= 2 && a != b
  }

  /** The frame is still found whole: then the CRC gives it away. */
  lemma DamageInPlace(m: Message, t: seq<Byte>, front: seq<Byte>,
                      a: seq<Byte>, b: seq<Byte>, back: seq<Byte>, rest: seq<Byte>)
    requires Framed(t) && |t| >= 19 && Change(t, front, a, b, back)
    requires
      var w := Damaged(t, front, b, back, rest);
      && Scan(w, START_OF_HEADER, 0, |w|) == 0 && Scan(w, END_OF_TEXT, 1, |w|) == |t| + 4
    ensures !Unpack(m, Damaged(t, front, b, back, rest)).msg.valid
  {
    hide Unpack, Hex4, HexWord, CrcWord, Scan, Framed, Vouched;
    var w := Damaged(t, front, b, back, rest);
    if Unpack(m, w).msg.valid {
      ValidVouched(m, w);
      var d := Hex4(CrcWord(t));
      var t' := front + b + back;
      SealedBody(t', d, rest);
      VouchedCrc(t', d);
      HexRoundTrip(CrcWord(t));
      CrcWordTells(t, t');
      Crc16.ChangeDetected(front, a, b, back);
    }
  }

  lemma SealedBody(t: seq<Byte>, d: seq<Byte>, rest: seq<Byte>)
    requires |d| == 4
    ensures (t + (d + [END_OF_TEXT] + rest))[0..|t| + 5] == t + d + [END_OF_TEXT]
  {
  }

  lemma VouchedCrc(t: seq<Byte>, d: seq<Byte>)
    requires |d| == 4 && Vouched(t + d + [END_OF_TEXT])
    ensures HexWord(d) == Some(CrcWord(t))
  {
    hide HexWord, CrcWord, Scan;
    var body := t + d + [END_OF_TEXT];
    var e := |body| - 1;
    assert body[e - 4..e] == d && body[..e - 4] == t;
  }

  /** A ']' has crept in: then the length field gives it away. */
  lemma DamageCutsShort(m: Message, t: seq<Byte>, front: seq<Byte>,
                        a: seq<Byte>, b: seq<Byte>, back: seq<Byte>, rest: seq<Byte>, k: nat)
    requires Framed(t) && |t| >= 19 && HexWord(t[11..15]) == Some(|t| - 15) && Change(t, front, a, b, back)
    requires
      var w := Damaged(t, front, b, back, rest);
      && Scan(w, START_OF_HEADER, 0, |w|) == 0 && Scan(w, END_OF_TEXT, 1, |w|) == k < |t|
    ensures !Unpack(m, Damaged(t, front, b, back, rest)).msg.valid
  {
    hide Unpack, Hex4, HexWord, CrcWord, Scan;
    var w := Damaged(t, front, b, back, rest);
    assert w[k] == END_OF_TEXT && t[k] != END_OF_TEXT;
    ChangedAt(t, front, a, b, back, k);
    if k >= 23 {
      SubSlice(w, 0, k + 1, 11, 15);
      assert w[11..15] == front[11..15] == t[11..15];
    }
    if Unpack(m, w).msg.valid {
      ValidVouched(m, w);
    }
  }

  /** A place where the damaged text differs lies in the changed part. */
  lemma ChangedAt(t: seq<Byte>, front: seq<Byte>, a: seq<Byte>, b: seq<Byte>, back: seq<Byte>, k: nat)
    requires Change(t, front, a, b, back) && k < |t| && (front + b + back)[k] != t[k]
    ensures |front| <= k < |front| + |a|
  {
  }

  /** The '[' itself is hit: then no frame starts in the right place. */
  lemma DamageAtStart(m: Message, t: seq<Byte>, front: seq<Byte>,
                      a: seq<Byte>, b: seq<Byte>, back: seq<Byte>, rest: seq<Byte>)
    requires Framed(t) && |t| >= 19 && Change(t, front, a, b, back) && START_OF_HEADER !in rest
    requires (front + b + back)[0] != START_OF_HEADER
    ensures !Unpack(m, Damaged(t, front, b, back, rest)).msg.valid
  {
    hide Unpack, HexWord, CrcWord, Hex, Scan;
    var w := Damaged(t, front, b, back, rest);
    var d := Hex4(CrcWord(t));
    InnerHex(CrcWord(t));
    hide Hex4;
    ChangedAt(t, front, a, b, back, 0);
    assert front == [];
    forall i | 2 <= i < |w| ensures w[i] != START_OF_HEADER {
      if i < |t| {
        assert w[i] == t[i];
        assert i != HEADER_LEN ==> Inner(t[i]);
      } else if i < |t| + 4 {
        assert w[i] == d[i - |t|];
      } else if i > |t| + 4 {
        assert w[i] == rest[i - |t| - 5];
      }
    }
    assert w[10] == t[10];
    if Scan(w, START_OF_HEADER, 0, |w|) == 1 {
      NoHeaderFits(m, w);
    } else if Unpack(m, w).msg.valid {
      ValidVouched(m, w);
    }
  }

  /** With the '[' one place late, the '|' comes one place early. */
  lemma NoHeaderFits(m: Message, w: seq<Byte>)
    requires |w| > 10 && Scan(w, START_OF_HEADER, 0, |w|) == 1 && w[10] == START_OF_TEXT
    ensures !Unpack(m, w).msg.valid
  {
    hide Unpack, HexWord, CrcWord;
    var etx := Scan(w, END_OF_TEXT, 2, |w|);
    if 23 <= etx < |w| {
      assert w[1..etx + 1][9] == START_OF_TEXT;
    }
    if Unpack(m, w).msg.valid {
      ValidVouched(m, w);
    }
  }

  /**
   Error detection: change one byte, or two adjacent ones, of the packed text before its CRC
   digits, and the message is not taken for valid.
   */
  lemma DamageDetected(m: Message, t: seq<Byte>, front: seq<Byte>,
                       a: seq<Byte>, b: seq<Byte>, back: seq<Byte>, rest: seq<Byte>)
    requires Framed(t) && |t| >= 19 && HexWord(t[11..15]) == Some(|t| - 15)
    requires Change(t, front, a, b, back) && START_OF_HEADER !in rest
    ensures !Unpack(m, Damaged(t, front, b, back, rest)).msg.valid
  {
    hide Unpack, HexWord, CrcWord, Hex, Scan, Framed;
    var w := Damaged(t, front, b, back, rest);
    var t' := front + b + back;
    assert w[0] == t'[0];
    if t'[0] != START_OF_HEADER {
      DamageAtStart(m, t, front, a, b, back, rest);
    } else {
      ScanIs(w, START_OF_HEADER, 0, |w|, 0);
      var k := Scan(w, END_OF_TEXT, 1, |w|);
      if k < |t| {
        DamageCutsShort(m, t, front, a, b, back, rest, k);
      } else {
        SealEnds(t, t', rest);
        DamageInPlace(m, t, front, a, b, back, rest);
      }
    }
  }

  lemma SealEnds(t: seq<Byte>, t': seq<Byte>, rest: seq<Byte>)
    requires |t'| == |t| >= 19
    ensures
      var w := t' + (Hex4(CrcWord(t)) + [END_OF_TEXT] + rest);
      Scan(w, END_OF_TEXT, 1, |w|) >= |t| ==> Scan(w, END_OF_TEXT, 1, |w|) == |t| + 4
  {
    var d := Hex4(CrcWord(t));
    InnerHex(CrcWord(t));
    hide Hex4, Hex, CrcWord, Scan;
    var w := t' + (d + [END_OF_TEXT] + rest);
    var k := Scan(w, END_OF_TEXT, 1, |w|);
    if k >= |t| {
      assert forall i :: 0 <= i < 4 ==> w[|t| + i] == d[i] && Inner(d[i]);
      assert w[|t| + 4] == END_OF_TEXT;
    }
  }

  /** ... for every message that can be packed and unpacked at all. */
  lemma ErrorDetection(m: Message, msg: Message, front: seq<Byte>,
                       a: seq<Byte>, b: seq<Byte>, back: seq<Byte>, rest: seq<Byte>)
    requires Packable(msg) && Portable(msg) && START_OF_HEADER !in rest
    requires
      var t := Text(msg.protocol, msg.inputPort, msg.outputPort, Base64.Encode(msg.data.value[..msg.len]));
      Change(t, front, a, b, back)
    ensures
      var t := Text(msg.protocol, msg.inputPort, msg.outputPort, Base64.Encode(msg.data.value[..msg.len]));
      !Unpack(m, Damaged(t, front, b, back, rest)).msg.valid
  {
    hide Unpack, HexWord, Hex4, Hex, Scan, Framed, Damaged, Text, Change, Base64.Encode;
    var payload := Base64.Encode(msg.data.value[..msg.len]);
    var t := Text(msg.protocol, msg.inputPort, msg.outputPort, payload);
    InnerPayload(msg.data.value[..msg.len]);
    TextFramed(msg.protocol, msg.inputPort, msg.outputPort, payload);
    InnerHex(|payload|);
    HexRoundTrip(|payload|);
    assert Hex4(|payload|)[..4] == Hex4(|payload|);
    DamageDetected(m, t, front, a, b, back, rest);
  }

  /* ---------- repeated calls ---------- */

  /** The valid messages that repeated calls find, each on what the previous one left. */
  function UnpackAll(buf: seq<Byte>): seq<Message>
    decreases |buf|
  {
    if buf == [] then []
    else
      var u := Unpack(BLANK, buf);
      if u.count == 0 then []
      else
        (if u.msg.valid then [u.msg] else [])
        + UnpackAll(buf[if u.count < |buf| then u.count else |buf|..])
  }

  lemma UnpackAllFrame(junk: seq<Byte>, body: seq<Byte>, rest: seq<Byte>)
    requires START_OF_HEADER !in junk && IsFrame(body)
    ensures
      var m := Check(BLANK, body);
      UnpackAll(junk + body + rest) == (if m.valid then [m] else []) + UnpackAll(rest)
  {
    hide Check, Unpack, IsFrame;
    FindsFrame(BLANK, junk, body, rest);
    var buf := junk + body + rest;
    assert buf[|junk| + |body|..] == rest;
    assert IsFrame(body) ==> |body| > 0 by { FrameNonEmpty(body); }
  }

  lemma FrameNonEmpty(body: seq<Byte>)
    requires IsFrame(body)
    ensures |body| > 0
  {
  }

  lemma UnpackAllJunk(junk: seq<Byte>)
    requires START_OF_HEADER !in junk
    ensures UnpackAll(junk) == []
  {
    if junk != [] {
      assert Scan(junk, START_OF_HEADER, 0, |junk|) == |junk|;
      assert Unpack(BLANK, junk).count == |junk|;
      assert junk[|junk|..] == [];
    }
  }

  /** Packed messages one after the other, with junk between them. */
  function Wire(ms: seq<Message>, junk: seq<seq<Byte>>): seq<Byte>
    requires |junk| == |ms| + 1 && forall i :: 0 <= i < |ms| ==> Packable(ms[i])
  {
    if ms == [] then junk[0] else junk[0] + FrameOf(ms[0]) + Wire(ms[1..], junk[1..])
  }

  function ArrivedAll(ms: seq<Message>): seq<Message>
    requires forall i :: 0 <= i < |ms| ==> Packable(ms[i])
  {
    if ms == [] then [] else [Arrived(ms[0])] + ArrivedAll(ms[1..])
  }

  /** Repeated unpacking recovers all messages in order, whatever stands between them. */
  lemma {:induction false} UnpackAllWire(ms: seq<Message>, junk: seq<seq<Byte>>)
    requires |junk| == |ms| + 1 && forall i :: 0 <= i < |ms| ==> Packable(ms[i]) && Portable(ms[i])
    requires forall i :: 0 <= i < |junk| ==> START_OF_HEADER !in junk[i]
    ensures UnpackAll(Wire(ms, junk)) == ArrivedAll(ms)
    decreases |ms|
  {
    hide UnpackAll, FrameOf, Arrived, Packable, Portable;
    if ms == [] {
      UnpackAllJunk(junk[0]);
    } else {
      UnpackAllWire(ms[1..], junk[1..]);
      UnpackAllNext(ms[0], junk[0], Wire(ms[1..], junk[1..]));
    }
  }

  lemma UnpackAllNext(msg: Message, junk: seq<Byte>, rest: seq<Byte>)
    requires Packable(msg) && Portable(msg) && START_OF_HEADER !in junk
    ensures UnpackAll(junk + FrameOf(msg) + rest) == [Arrived(msg)] + UnpackAll(rest)
  {
    ChecksPass(BLANK, msg.protocol, msg.inputPort, msg.outputPort, msg.data.value[..msg.len]);
    hide Check, Sealed, Text, UnpackAll, IsFrame;
    UnpackAllFrame(junk, FrameOf(msg), rest);
  }
}
