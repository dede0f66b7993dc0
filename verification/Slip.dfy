/**
 SLIP framing (libhorizr/slip.cpp), after the "PROTOCOL" section of RFC 1055.  The decoder does
 not consume the END that closes a packet: it stays behind and opens the next one.
 */
module Slip {
  import opened Bytes

  const END: Byte := 192
  const ESC: Byte := 219
  const ESC_END: Byte := 220
  const ESC_ESC: Byte := 221

  /* ---------- encoder ---------- */

  function EscapeByte(x: Byte): seq<Byte> {
    if x == END then [ESC, ESC_END] else if x == ESC then [ESC, ESC_ESC] else [x]
  }

  function Escape(p: seq<Byte>): seq<Byte> {
    if p == [] then [] else Escape(p[..|p| - 1]) + EscapeByte(p[|p| - 1])
  }

  function Encode(p: seq<Byte>, introduce: bool): seq<Byte> {
    if p == [] then [END] else (if introduce then [END] else []) + Escape(p) + [END]
  }

  method SlipEncode(dest: seq<Byte>, source: seq<Byte>, introduce: bool) returns (out: seq<Byte>, n: nat)
    ensures out == dest + Encode(source, introduce) && n == |source|
    ensures out == dest + (if source == [] then [192] else (if introduce then [192] else []) + Wire(source) + [192])
  {
    EscapeIsWire(source);
    if |source| == 0 {
      return dest + [END], 0;
    }
    out := dest;
    if introduce {
      out := out + [END];
    }
    ghost var front := out;
    n := 0;
    for i := 0 to |source|
      invariant n == i && out == front + Escape(source[..i])
    {
      n := n + 1;
      EscapeNext(source, i);
      hide Escape;
      var x := source[i];
      if x == END {
        out := out + [ESC, ESC_END];
      } else if x == ESC {
        out := out + [ESC, ESC_ESC];
      } else {
        out := out + [x];
      }
      Assoc(front, Escape(source[..i]), EscapeByte(x));
    }
    assert source[..|source|] == source;
    out := out + [END];
    EncodeIs(dest, source, introduce);
  }

  lemma EscapeNext(p: seq<Byte>, i: nat)
    requires i < |p|
    ensures Escape(p[..i + 1]) == Escape(p[..i]) + EscapeByte(p[i])
  {
    assert p[..i + 1][..i] == p[..i];
  }

  lemma EncodeIs(dest: seq<Byte>, p: seq<Byte>, introduce: bool)
    requires p != []
    ensures (if introduce then dest + [END] else dest) + Escape(p) + [END] == dest + Encode(p, introduce)
  {
    hide Escape;
  }

  /** A byte of a packet on the wire, in numbers. */
  function OnWire(x: Byte): seq<Byte> {
    if x == 192 then [219, 220] else if x == 219 then [219, 221] else [x]
  }

  function Wire(p: seq<Byte>): seq<Byte> {
    if p == [] then [] else OnWire(p[0]) + Wire(p[1..])
  }

  /** Every byte of a packet goes out as those numbers say, and no 192 stands inside a frame. */
  lemma {:induction false} EscapeIsWire(p: seq<Byte>)
    ensures Escape(p) == Wire(p) && 192 !in Escape(p)
  {
    if p != [] {
      assert p == [p[0]] + p[1..];
      EscapeFront(p[0], p[1..]);
      EscapeIsWire(p[1..]);
      assert EscapeByte(p[0]) == OnWire(p[0]) && 192 !in OnWire(p[0]);
    }
  }

  /* ---------- decoder ---------- */

  /** The first END at or after `i` that is not the second byte of an escape sequence. */
  function FindEnd(src: seq<Byte>, i: nat): (e: Option<nat>)
    ensures e.Some? ==> i <= e.value < |src| && src[e.value] == END
    decreases |src| - i
  {
    if i >= |src| then None
    else if src[i] == ESC then (if i + 1 < |src| then FindEnd(src, i + 2) else None)
    else if src[i] == END then Some(i)
    else FindEnd(src, i + 1)
  }

  /** The packet in the bytes between two ENDs; `None` is the exception of strict mode. */
  function Unescape(s: seq<Byte>, strict: bool): Option<seq<Byte>>
    decreases |s|
  {
    if s == [] then Some([])
    else if s[0] == ESC then
      if |s| == 1 then Some([])
      else if strict && s[1] != ESC_END && s[1] != ESC_ESC then None
      else Push(Unescaped(s[1]), Unescape(s[2..], strict))
    else Push(s[0], Unescape(s[1..], strict))
  }

  function Push(c: Byte, d: Option<seq<Byte>>): Option<seq<Byte>> {
    if d.None? then None else Some([c] + d.value)
  }

  /** What the second byte of an escape sequence stands for. */
  function Unescaped(c: Byte): Byte {
    if c == ESC_END then END else if c == ESC_ESC then ESC else c
  }

  datatype Decoded = Incomplete | Packet(count: nat, data: seq<Byte>) | Violation

  /** An END at the very front is an opener. */
  function Opener(src: seq<Byte>): nat {
    if src != [] && src[0] == END then 1 else 0
  }

  function Decode(src: seq<Byte>, strict: bool): (d: Decoded)
    ensures d.Packet? ==> 0 < d.count < |src| && src[d.count] == END
    ensures d.Violation? ==> strict
  {
    match FindEnd(src, Opener(src))
    case None => Incomplete
    case Some(e) =>
      match Unescape(src[Opener(src)..e], strict)
      case None => UnescapeLenient(src[Opener(src)..e]); Violation
      case Some(d) => Packet(e, d)
  }

  lemma UnescapeLenient(s: seq<Byte>)
    ensures Unescape(s, false).Some?
    decreases |s|
  {
  }

  /** One step of the scan towards the END at `e`. */
  lemma ScanAt(src: seq<Byte>, i: nat, e: nat)
    requires FindEnd(src, i) == Some(e)
    ensures i == e <==> src[i] == END
    ensures src[i] == ESC ==> i + 2 <= e && FindEnd(src, i + 2) == Some(e)
    ensures src[i] != ESC && src[i] != END ==> i + 1 <= e && FindEnd(src, i + 1) == Some(e)
  {
  }

  /** One step of the copy towards the END at `e`. */
  lemma UnescapeAt(src: seq<Byte>, i: nat, e: nat, strict: bool)
    requires i < e <= |src|
    ensures src[i] != ESC ==> Unescape(src[i..e], strict) == Push(src[i], Unescape(src[i + 1..e], strict))
    ensures src[i] == ESC && i + 2 <= e ==>
              Unescape(src[i..e], strict) ==
                if strict && src[i + 1] != ESC_END && src[i + 1] != ESC_ESC then None
                else Push(Unescaped(src[i + 1]), Unescape(src[i + 2..e], strict))
  {
    assert src[i..e][1..] == src[i + 1..e];
    if i + 2 <= e {
      assert src[i..e][1] == src[i + 1];
      assert src[i..e][2..] == src[i + 2..e];
    }
  }

  /** The two passes of the decoder; `None` means that the exception is thrown. */
  method SlipDecode(dest: seq<Byte>, source: seq<Byte>, strict: bool) returns (r: Option<(seq<Byte>, nat)>)
    ensures match Decode(source, strict)
            case Incomplete => r == Some((dest, 0))
            case Violation => r == None
            case Packet(count, data) => r == Some((dest + data, count))
  {
    var initiated, terminated := FindTermination(source);
    if !terminated {
      return Some((dest, 0));
    }
    r := CopyPacket(dest, source, strict, initiated);
  }

  /** First pass: is there a complete packet, and does an END open it? */
  method FindTermination(source: seq<Byte>) returns (initiated: bool, terminated: bool)
    ensures terminated <==> FindEnd(source, Opener(source)).Some?
    ensures terminated ==> (initiated <==> Opener(source) == 1)
  {
    var i := 0;
    initiated, terminated := false, false;
    while i < |source|
      invariant !terminated ==> (i == 0 && !initiated) ||
                                (i >= 1 && (initiated <==> Opener(source) == 1)
                                 && FindEnd(source, i) == FindEnd(source, Opener(source)))
      invariant terminated ==> (initiated <==> Opener(source) == 1) && FindEnd(source, Opener(source)).Some?
      decreases |source| - i, !terminated
    {
      var c := source[i];
      if c != END && c != ESC {
        i := i + 1;
      } else if c == ESC {
        if i + 1 < |source| {
          i := i + 2;
        } else {
          break;
        }
      } else {
        if i == 0 {
          initiated := true;
          i := i + 1;
        } else {
          terminated := true;
        }
        if terminated {
          break;
        }
      }
    }
  }

  /** Second pass: copy up to the END that the first pass found. */
  method CopyPacket(dest: seq<Byte>, source: seq<Byte>, strict: bool, initiated: bool)
    returns (r: Option<(seq<Byte>, nat)>)
    requires FindEnd(source, Opener(source)).Some?
    requires initiated <==> Opener(source) == 1
    ensures match Decode(source, strict)
            case Incomplete => false
            case Violation => r == None
            case Packet(count, data) => r == Some((dest + data, count))
  {
    ghost var e := FindEnd(source, Opener(source)).value;
    ghost var whole := Unescape(source[Opener(source)..e], strict);
    hide FindEnd, Unescape;
    var out := dest;
    var i := 0;
    while i < |source|
      invariant i == 0 || Opener(source) <= i <= e
      invariant i == 0 ==> out == dest
      invariant Opener(source) <= i ==> FindEnd(source, i) == Some(e) && i <= e
      invariant Opener(source) <= i ==> Ahead(dest, whole, out, Unescape(source[i..e], strict))
    {
      var c := source[i];
      if i == 0 && initiated {
        i := i + 1;
      } else {
        ScanAt(source, i, e);
        if c != END && c != ESC {
          UnescapeAt(source, i, e, strict);
          AheadStep(dest, whole, out, c, Unescape(source[i + 1..e], strict));
          out := out + [c];
          i := i + 1;
        } else if c == ESC {
          if i + 1 < |source| {
            UnescapeAt(source, i, e, strict);
            var c2 := source[i + 1];
            if c2 != ESC_END && c2 != ESC_ESC && strict {
              return None;
            }
            AheadStep(dest, whole, out, Unescaped(c2), Unescape(source[i + 2..e], strict));
            if c2 == ESC_END {
              out := out + [END];
            } else if c2 == ESC_ESC {
              out := out + [ESC];
            } else {
              out := out + [c2];
            }
            i := i + 2;
          } else {
            break;
          }
        } else {
          break;
        }
      }
    }
    assert source[i..e] == [];
    UnescapeNothing(strict);
    assert out + [] == out;
    r := Some((out, i));
  }

  lemma UnescapeNothing(strict: bool)
    ensures Unescape([], strict) == Some([])
  {
  }

  /** Having copied `out`, the pass will end with `dest` and the whole packet, or with the exception. */
  ghost predicate Ahead(dest: seq<Byte>, whole: Option<seq<Byte>>, out: seq<Byte>, rest: Option<seq<Byte>>) {
    (whole.Some? <==> rest.Some?) && (whole.Some? ==> dest + whole.value == out + rest.value)
  }

  lemma AheadStep(dest: seq<Byte>, whole: Option<seq<Byte>>, out: seq<Byte>, c: Byte, rest: Option<seq<Byte>>)
    requires Ahead(dest, whole, out, Push(c, rest))
    ensures Ahead(dest, whole, out + [c], rest)
  {
    if rest.Some? {
      Assoc(out, [c], rest.value);
    }
  }

  /* ---------- one frame ---------- */

  lemma {:induction false} EscapeFront(x: Byte, p: seq<Byte>)
    ensures Escape([x] + p) == EscapeByte(x) + Escape(p)
  {
    var q := [x] + p;
    hide EscapeByte;
    if p == [] {
      assert q[..|q| - 1] == [];
    } else {
      assert q[..|q| - 1] == [x] + p[..|p| - 1];
      EscapeFront(x, p[..|p| - 1]);
      Assoc(EscapeByte(x), Escape(p[..|p| - 1]), EscapeByte(p[|p| - 1]));
    }
  }

  /** Escaping is undone, in either mode. */
  lemma {:induction false} UnescapeEscape(p: seq<Byte>, strict: bool)
    ensures Unescape(Escape(p), strict) == Some(p)
  {
    if p != [] {
      assert p == [p[0]] + p[1..];
      EscapeFront(p[0], p[1..]);
      UnescapeEscape(p[1..], strict);
      var s := Escape(p);
      if p[0] == END || p[0] == ESC {
        assert s[2..] == Escape(p[1..]);
      } else {
        assert s[1..] == Escape(p[1..]);
      }
    }
  }

  function Lead(on: bool): seq<Byte> {
    if on then [192] else []
  }

  /** A packet with or without an opener, its closing END, and what follows. */
  function Frame(lead: bool, p: seq<Byte>, rest: seq<Byte>): seq<Byte> {
    Lead(lead) + Escape(p) + [END] + rest
  }

  /** The scan passes over an escaped packet to the END behind it. */
  lemma {:induction false} ScanEscaped(front: seq<Byte>, p: seq<Byte>, rest: seq<Byte>)
    ensures FindEnd(front + Escape(p) + [END] + rest, |front|) == Some(|front| + |Escape(p)|)
    decreases |p|
  {
    var src := front + Escape(p) + [END] + rest;
    if p == [] {
      assert src[|front|] == END;
    } else {
      hide FindEnd, Escape, EscapeByte;
      var q := EscapeByte(p[0]);
      assert p == [p[0]] + p[1..];
      EscapeFront(p[0], p[1..]);
      Assoc(front, q, Escape(p[1..]));
      assert src == (front + q) + Escape(p[1..]) + [END] + rest;
      ScanEscaped(front + q, p[1..], rest);
      ScanByte(front, p[0], Escape(p[1..]) + [END] + rest);
      assert src == front + q + (Escape(p[1..]) + [END] + rest);
    }
  }

  lemma ScanByte(front: seq<Byte>, x: Byte, rest: seq<Byte>)
    ensures
      var src := front + EscapeByte(x) + rest;
      FindEnd(src, |front|) == FindEnd(src, |front + EscapeByte(x)|)
  {
    var src := front + EscapeByte(x) + rest;
    assert src[|front|] == EscapeByte(x)[0];
  }

  /** Nothing escaped starts with an END. */
  lemma EscapeNoEnd(p: seq<Byte>)
    requires p != []
    ensures Escape(p) != [] && Escape(p)[0] != END
  {
    assert p == [p[0]] + p[1..];
    EscapeFront(p[0], p[1..]);
  }

  /** A packet between its opener, which only an empty packet must have, and its closing END. */
  lemma DecodeFrame(lead: bool, p: seq<Byte>, rest: seq<Byte>, strict: bool)
    requires lead || p != []
    ensures Decode(Frame(lead, p, rest), strict) == Packet(|Lead(lead)| + |Escape(p)|, p)
    ensures Frame(lead, p, rest)[|Lead(lead)| + |Escape(p)|..] == Lead(true) + rest
  {
    hide FindEnd, Escape, Unescape;
    var front := Lead(lead);
    var src := Frame(lead, p, rest);
    if p != [] {
      EscapeNoEnd(p);
    }
    ScanEscaped(front, p, rest);
    UnescapeEscape(p, strict);
    assert Opener(src) == |front|;
    assert src[|front|..|front| + |Escape(p)|] == Escape(p);
  }

  /* ---------- draining a buffer ---------- */

  datatype Drained = Drained(packets: seq<seq<Byte>>, rest: seq<Byte>, violated: bool)

  /** Decode and erase the returned count, again and again. */
  function Drain(src: seq<Byte>, strict: bool): Drained
    decreases |src|
  {
    match Decode(src, strict)
    case Incomplete => Drained([], src, false)
    case Violation => Drained([], src, true)
    case Packet(n, data) =>
      var d := Drain(src[n..], strict);
      Drained([data] + d.packets, d.rest, d.violated)
  }

  /** A later byte never changes a packet that is already complete. */
  lemma ScanStable(src: seq<Byte>, more: seq<Byte>, i: nat)
    ensures FindEnd(src, i).Some? ==> FindEnd(src + more, i) == FindEnd(src, i)
    decreases |src| - i
  {
  }

  lemma DecodeStable(src: seq<Byte>, more: seq<Byte>, strict: bool)
    ensures !Decode(src, strict).Incomplete? ==> Decode(src + more, strict) == Decode(src, strict)
  {
    if !Decode(src, strict).Incomplete? {
      assert src != [] && Opener(src + more) == Opener(src);
      ScanStable(src, more, Opener(src));
      var e := FindEnd(src, Opener(src)).value;
      assert (src + more)[Opener(src)..e] == src[Opener(src)..e];
    }
  }

  lemma DropFront(a: seq<Byte>, b: seq<Byte>, n: nat)
    requires n <= |a|
    ensures (a + b)[n..] == a[n..] + b
  {
  }

  /** Draining early changes nothing: what was left, with later bytes behind it, gives the rest. */
  lemma {:induction false} DrainAppend(a: seq<Byte>, b: seq<Byte>, strict: bool)
    requires !Drain(a, strict).violated
    ensures
      var da, db := Drain(a, strict), Drain(Drain(a, strict).rest + b, strict);
      Drain(a + b, strict) == Drained(da.packets + db.packets, db.rest, db.violated)
    decreases |a|
  {
    hide Decode;
    match Decode(a, strict)
    case Incomplete =>
      assert [] + Drain(a + b, strict).packets == Drain(a + b, strict).packets;
    case Packet(n, data) =>
      DecodeStable(a, b, strict);
      assert n < |a|;
      DropFront(a, b, n);
      DrainAppend(a[n..], b, strict);
      var da, db := Drain(a[n..], strict), Drain(Drain(a[n..], strict).rest + b, strict);
      Assoc([data], da.packets, db.packets);
    case Violation =>
  }

  /* ---------- a stream of encoded packets ---------- */

  datatype Sent = Sent(packet: seq<Byte>, introduced: bool)

  function Stream(ps: seq<Sent>): seq<Byte> {
    if ps == [] then [] else Encode(ps[0].packet, ps[0].introduced) + Stream(ps[1..])
  }

  function Packets(ps: seq<Sent>): seq<seq<Byte>> {
    if ps == [] then [] else [ps[0].packet] + Packets(ps[1..])
  }

  function NonEmpty(ps: seq<seq<Byte>>): seq<seq<Byte>> {
    if ps == [] then [] else (if ps[0] == [] then [] else [ps[0]]) + NonEmpty(ps[1..])
  }

  /**
   Exactly what comes out of a stream behind an END that an earlier packet left (`lead`): every
   non-empty packet, and an empty one for every pair of ENDs in a row.
   */
  function Received(ps: seq<Sent>, lead: bool): seq<seq<Byte>> {
    if ps == [] then []
    else
      var p := ps[0];
      (if p.packet == [] then (if lead then [[]] else [])
       else if lead && p.introduced then [[], p.packet]
       else [p.packet])
      + Received(ps[1..], true)
  }

  lemma {:induction false} ReceivedNonEmpty(ps: seq<Sent>, lead: bool)
    ensures NonEmpty(Received(ps, lead)) == NonEmpty(Packets(ps))
    decreases |ps|
  {
    if ps != [] {
      ReceivedNonEmpty(ps[1..], true);
      var p, later := ps[0], Received(ps[1..], true);
      assert NonEmpty(Packets(ps)) == (if p.packet == [] then [] else [p.packet]) + NonEmpty(later) by {
        assert Packets(ps)[1..] == Packets(ps[1..]);
      }
      if p.packet == [] {
        if lead {
          assert ([[]] + later)[1..] == later;
        } else {
          assert [] + later == later;
        }
      } else if lead && p.introduced {
        var both := [[], p.packet] + later;
        assert both[1..] == [p.packet] + later;
        assert both[1..][1..] == later;
      } else {
        assert ([p.packet] + later)[1..] == later;
      }
    }
  }

  function Cons(p: seq<Byte>, d: Drained): Drained {
    Drained([p] + d.packets, d.rest, d.violated)
  }

  /** One decode-and-erase turn: the closing END opens what follows. */
  lemma DrainFrame(lead: bool, p: seq<Byte>, rest: seq<Byte>, strict: bool)
    requires lead || p != []
    ensures Drain(Frame(lead, p, rest), strict) == Cons(p, Drain(Lead(true) + rest, strict))
  {
    hide Decode, Frame, Lead, Escape;
    DecodeFrame(lead, p, rest, strict);
  }

  /** An encoded packet at the front of a stream is a frame. */
  lemma EncodedFrame(lead: bool, p: Sent, later: seq<Byte>)
    requires p.packet != []
    ensures Lead(lead) + (Encode(p.packet, p.introduced) + later) ==
            if lead && p.introduced then Frame(true, [], Frame(false, p.packet, later))
            else Frame(lead || p.introduced, p.packet, later)
    ensures Lead(true) + Frame(false, p.packet, later) == Frame(true, p.packet, later)
  {
    assert Escape([]) == [];
    hide Escape;
    assert Encode(p.packet, p.introduced) + later == Frame(p.introduced, p.packet, later);
    LeadFrame(p.packet, later);
    if !lead {
      assert [] + Frame(p.introduced, p.packet, later) == Frame(p.introduced, p.packet, later);
    }
  }

  lemma LeadFrame(p: seq<Byte>, later: seq<Byte>)
    ensures [END] + Frame(false, p, later) == Frame(true, p, later)
    ensures [END] + Frame(true, p, later) == Frame(true, [], Frame(false, p, later))
  {
    var x := Frame(false, p, later);
    assert Frame(true, p, later) == [END] + x;
    assert Escape([]) == [];
    assert Frame(true, [], x) == [END] + [END] + x;
  }

  /**
   The SLIP stream inverse: any list of packets, each with or without its introducer, comes back
   by decoding and erasing; no escape violation is met, and at most one END is left over.
   */
  lemma {:induction false} StreamInverse(ps: seq<Sent>, lead: bool, strict: bool)
    ensures Drain(Lead(lead) + Stream(ps), strict) ==
            Drained(Received(ps, lead), Lead(lead || ps != []), false)
    decreases |ps|
  {
    hide Encode, Drain;
    if ps == [] {
      assert Lead(lead) + Stream(ps) == Lead(lead);
      DrainLead(lead, strict);
    } else {
      var p, later := ps[0], Stream(ps[1..]);
      StreamInverse(ps[1..], true, strict);
      if p.packet == [] {
        EmptyInStream(lead, later, strict);
        assert !lead ==> [] + Received(ps[1..], true) == Received(ps[1..], true);
      } else {
        FrameInStream(lead, p, later, strict);
      }
    }
  }

  lemma DrainLead(lead: bool, strict: bool)
    ensures Drain(Lead(lead), strict) == Drained([], Lead(lead), false)
  {
  }

  lemma EmptyInStream(lead: bool, later: seq<Byte>, strict: bool)
    ensures
      var d := Drain(Lead(true) + later, strict);
      Drain(Lead(lead) + (Encode([], true) + later), strict) == if lead then Cons([], d) else d
    ensures Encode([], true) == Encode([], false)
  {
    hide Drain;
    assert Escape([]) == [];
    if lead {
      assert Lead(true) + (Encode([], true) + later) == Frame(true, [], later);
      DrainFrame(true, [], later, strict);
    } else {
      assert Lead(false) + (Encode([], true) + later) == Lead(true) + later;
    }
  }

  lemma FrameInStream(lead: bool, p: Sent, later: seq<Byte>, strict: bool)
    requires p.packet != []
    ensures
      var d := Drain(Lead(true) + later, strict);
      Drain(Lead(lead) + (Encode(p.packet, p.introduced) + later), strict) ==
        Drained((if lead && p.introduced then [[], p.packet] else [p.packet]) + d.packets, d.rest, d.violated)
  {
    hide Drain, Frame, Encode, Lead;
    var d := Drain(Lead(true) + later, strict);
    EncodedFrame(lead, p, later);
    if lead && p.introduced {
      DrainFrame(true, [], Frame(false, p.packet, later), strict);
      DrainFrame(true, p.packet, later, strict);
      assert [[]] + ([p.packet] + d.packets) == [[], p.packet] + d.packets;
    } else {
      DrainFrame(lead || p.introduced, p.packet, later, strict);
    }
  }

  /** In particular the non-empty packets come back in order. */
  lemma StreamRoundTrip(ps: seq<Sent>, strict: bool)
    ensures
      var d := Drain(Stream(ps), strict);
      && NonEmpty(d.packets) == NonEmpty(Packets(ps))
      && !d.violated && d.rest == if ps == [] then [] else [END]
  {
    assert Lead(false) + Stream(ps) == Stream(ps);
    StreamInverse(ps, false, strict);
    ReceivedNonEmpty(ps, false);
  }

  /* ---------- exactly what the decoder makes of every buffer, in numbers ---------- */

  /** What stands between two ENDs: plain bytes, and escape sequences with any second byte. */
  datatype Piece = Plain(b: Byte) | Pair(c: Byte)

  predicate Proper(ps: seq<Piece>) {
    forall i :: 0 <= i < |ps| && ps[i].Plain? ==> ps[i].b != 192 && ps[i].b != 219
  }

  function SpellOne(p: Piece): seq<Byte> {
    match p
    case Plain(b) => [b]
    case Pair(c) => [219, c]
  }

  function Spell(ps: seq<Piece>): seq<Byte> {
    if ps == [] then [] else SpellOne(ps[0]) + Spell(ps[1..])
  }

  function MeanOne(p: Piece): Byte {
    match p
    case Plain(b) => b
    case Pair(c) => if c == 220 then 192 else if c == 221 then 219 else c
  }

  function Mean(ps: seq<Piece>): seq<Byte> {
    if ps == [] then [] else [MeanOne(ps[0])] + Mean(ps[1..])
  }

  /** An escape sequence that RFC 1055 does not know. */
  predicate Unknown(p: Piece) {
    p.Pair? && p.c != 220 && p.c != 221
  }

  predicate AnyUnknown(ps: seq<Piece>) {
    exists i :: 0 <= i < |ps| && Unknown(ps[i])
  }

  lemma AnyUnknownFirst(ps: seq<Piece>)
    requires ps != []
    ensures AnyUnknown(ps) <==> Unknown(ps[0]) || AnyUnknown(ps[1..])
  {
    var rest := ps[1..];
    if i :| 0 <= i < |ps| && Unknown(ps[i]) {
      assert i > 0 ==> Unknown(rest[i - 1]);
    }
    if i :| 0 <= i < |rest| && Unknown(rest[i]) {
      assert Unknown(ps[i + 1]);
    }
  }

  lemma {:induction false} UnescapePieces(ps: seq<Piece>, strict: bool)
    requires Proper(ps)
    ensures Unescape(Spell(ps), strict) == if strict && AnyUnknown(ps) then None else Some(Mean(ps))
  {
    if ps != [] {
      var rest := Spell(ps[1..]);
      UnescapePieces(ps[1..], strict);
      AnyUnknownFirst(ps);
      hide AnyUnknown;
      var s := Spell(ps);
      assert s == SpellOne(ps[0]) + rest;
      match ps[0]
      case Plain(b) =>
        assert s[0] == b && s[1..] == rest;
      case Pair(c) =>
        assert s[0] == 219 && s[1] == c && s[2..] == rest;
    }
  }

  lemma {:induction false} ScanPieces(front: seq<Byte>, ps: seq<Piece>, rest: seq<Byte>)
    requires Proper(ps)
    ensures FindEnd(front + Spell(ps) + [192] + rest, |front|) == Some(|front| + |Spell(ps)|)
    decreases |ps|
  {
    var src := front + Spell(ps) + [192] + rest;
    if ps == [] {
      assert src[|front|] == 192;
    } else {
      var q := SpellOne(ps[0]);
      Assoc(front, q, Spell(ps[1..]));
      assert src == (front + q) + Spell(ps[1..]) + [192] + rest;
      ScanPieces(front + q, ps[1..], rest);
      assert src[|front|] == q[0];
    }
  }

  /** `src` opens with a frame of these pieces; only a frame without pieces must have an opener. */
  predicate Frames(src: seq<Byte>, lead: bool, ps: seq<Piece>, rest: seq<Byte>) {
    Proper(ps) && (lead || ps != []) && src == Lead(lead) + Spell(ps) + [192] + rest
  }

  /** The decoder on a complete frame: its bytes, the count up to its closing 192, or the exception. */
  lemma DecodePieces(src: seq<Byte>, lead: bool, ps: seq<Piece>, rest: seq<Byte>, strict: bool)
    requires Frames(src, lead, ps, rest)
    ensures Decode(src, strict) ==
            if strict && AnyUnknown(ps) then Violation else Packet(|Lead(lead)| + |Spell(ps)|, Mean(ps))
  {
    var front := Lead(lead);
    ScanPieces(front, ps, rest);
    UnescapePieces(ps, strict);
    if !lead {
      PiecesOpen(ps);
    }
    hide FindEnd, Unescape, Spell;
    assert src[..|front|] == front;
    assert !lead ==> src[0] == Spell(ps)[0];
    assert Opener(src) == |front|;
    assert src[|front|..|front| + |Spell(ps)|] == Spell(ps);
  }

  lemma PiecesOpen(ps: seq<Piece>)
    requires Proper(ps) && ps != []
    ensures Spell(ps) != [] && Spell(ps)[0] != 192
  {
    assert Spell(ps)[0] == SpellOne(ps[0])[0];
  }

  lemma {:induction false} PiecesUpTo(src: seq<Byte>, i: nat, e: nat) returns (ps: seq<Piece>)
    requires FindEnd(src, i) == Some(e)
    ensures Proper(ps) && Spell(ps) == src[i..e]
    decreases |src| - i
  {
    if src[i] == END {
      ps := [];
    } else if src[i] == ESC {
      var later := PiecesUpTo(src, i + 2, e);
      ps := [Pair(src[i + 1])] + later;
      assert ps[1..] == later;
      assert src[i..e] == [219, src[i + 1]] + src[i + 2..e];
    } else {
      var later := PiecesUpTo(src, i + 1, e);
      ps := [Plain(src[i])] + later;
      assert ps[1..] == later;
      assert src[i..e] == [src[i]] + src[i + 1..e];
    }
  }

  /** ... and every buffer that does not open with a frame is incomplete, and no other. */
  lemma IncompleteExactly(src: seq<Byte>, strict: bool)
    ensures Decode(src, strict).Incomplete? <==> !exists lead, ps, rest :: Frames(src, lead, ps, rest)
  {
    hide Decode, Frames;
    if lead, ps, rest :| Frames(src, lead, ps, rest) {
      DecodePieces(src, lead, ps, rest, strict);
    }
    if !Decode(src, strict).Incomplete? {
      var lead, ps, rest := FrameFound(src, strict);
      assert Frames(src, lead, ps, rest);
    }
  }

  lemma FrameFound(src: seq<Byte>, strict: bool) returns (lead: bool, ps: seq<Piece>, rest: seq<Byte>)
    requires !Decode(src, strict).Incomplete?
    ensures Frames(src, lead, ps, rest)
  {
    var o := Opener(src);
    var e := FindEnd(src, o).value;
    ps := PiecesUpTo(src, o, e);
    SomePieces(src, o, e, ps);
    hide Decode, FindEnd, Spell;
    lead, rest := o == 1, src[e + 1..];
    CutFrame(src, o, e);
    assert src[..o] == Lead(lead);
  }

  lemma CutFrame(src: seq<Byte>, o: nat, e: nat)
    requires o <= e < |src|
    ensures src == src[..o] + src[o..e] + [src[e]] + src[e + 1..]
  {
  }

  lemma SomePieces(src: seq<Byte>, o: nat, e: nat, ps: seq<Piece>)
    requires o == Opener(src) && o <= e < |src| && src[e] == END && Spell(ps) == src[o..e]
    ensures o == 1 || ps != []
  {
  }
}
