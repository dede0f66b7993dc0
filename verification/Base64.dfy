/**
 The base64 codec of udptoserial/base64.c (section 4 of RFC 4648, without line feeds).  Bytes are
 numbers below 256; the shifts and masks of the program are written as division, remainder and
 multiplication by powers of two, and its disjoint bitwise ors as sums.
 */
module Base64 {
  import opened Bytes

  const PAD: Byte := 61       // '='
  const NO_SYMBOL: Byte := 0x80

  /** The character of a six-bit value (`base64_table`). */
  function Symbol(v: nat): (c: Byte)
    requires v < 64
    ensures Value(c) == v && c != PAD
  {
    if v < 26 then 65 + v else if v < 52 then 71 + v else if v < 62 then v - 4 else if v == 62 then 43 else 47
  }

  /** The decoding table: the value of a symbol, 0 for the pad, 0x80 for everything else. */
  function Value(c: Byte): (v: Byte)
    ensures v < 64 || v == NO_SYMBOL
  {
    if 65 <= c <= 90 then c - 65
    else if 97 <= c <= 122 then c - 71
    else if 48 <= c <= 57 then c + 4
    else if c == 43 then 62
    else if c == 47 then 63
    else if c == PAD then 0
    else NO_SYMBOL
  }

  lemma SymbolOfValue(c: Byte)
    requires Value(c) < 64 && c != PAD
    ensures Symbol(Value(c)) == c
  {
  }

  predicate IsSymbol(c: Byte) {
    Value(c) != NO_SYMBOL
  }

  /* ---------- encoder ---------- */

  /** Three bytes as four symbols. */
  function Quad(a: Byte, b: Byte, c: Byte): (q: seq<Byte>)
    ensures |q| == 4
  {
    [Symbol(a / 4), Symbol(a % 4 * 16 + b / 16), Symbol(b % 16 * 4 + c / 64), Symbol(c % 64)]
  }

  function Encode(s: seq<Byte>): (t: seq<Byte>)
    ensures |t| == (|s| + 2) / 3 * 4
  {
    if s == [] then []
    else if |s| <= 2 then Tail(s)
    else Quad(s[0], s[1], s[2]) + Encode(s[3..])
  }

  /** The size of the buffer that the encoder allocates. */
  function EncodeSpace(len: nat): nat {
    var olen := len * 4 / 3 + 4;
    olen + olen / 72 + 1
  }

  lemma SpaceSuffices(len: nat)
    ensures (len + 2) / 3 * 4 < EncodeSpace(len)
  {
  }

  /** Write four characters at `pos`. */
  method Put4(out: array<Byte>, pos: nat, q: seq<Byte>)
    requires |q| == 4 && pos + 4 <= out.Length
    modifies out
    ensures out[..pos + 4] == old(out[..pos]) + q
  {
    out[pos] := q[0];
    out[pos + 1] := q[1];
    out[pos + 2] := q[2];
    out[pos + 3] := q[3];
  }

  lemma EncodeNext(src: seq<Byte>, i: nat)
    requires i + 3 <= |src|
    ensures Encode(src[i..]) == Quad(src[i], src[i + 1], src[i + 2]) + Encode(src[i + 3..])
  {
    assert src[i..][3..] == src[i + 3..];
  }

  /** The last one or two bytes as four characters. */
  function Tail(s: seq<Byte>): (q: seq<Byte>)
    requires 1 <= |s| <= 2
    ensures |q| == 4
  {
    if |s| == 1 then [Symbol(s[0] / 4), Symbol(s[0] % 4 * 16), PAD, PAD]
    else [Symbol(s[0] / 4), Symbol(s[0] % 4 * 16 + s[1] / 16), Symbol(s[1] % 16 * 4), PAD]
  }

  lemma EncodeEnd(src: seq<Byte>, i: nat)
    requires |src| - 2 <= i <= |src|
    ensures Encode(src[i..]) == if i == |src| then [] else Tail(src[i..])
  {
  }

  /** The encoder, writing through a position into a buffer of `EncodeSpace` bytes. */
  method Base64Encode(src: seq<Byte>) returns (r: seq<Byte>)
    ensures r == Encode(src)
  {
    hide Encode, EncodeSpace, Quad, Tail;
    var out := new Byte[EncodeSpace(|src|)];
    SpaceSuffices(|src|);
    var i, pos := 0, 0;
    assert src[0..] == src && out[..0] == [];
    ghost var k := 0;
    while |src| - i >= 3
      invariant i == 3 * k <= |src| && pos == 4 * k
      invariant out[..pos] + Encode(src[i..]) == Encode(src)
    {
      EncodeNext(src, i);
      ghost var done := out[..pos];
      Put4(out, pos, Quad(src[i], src[i + 1], src[i + 2]));
      Assoc(done, Quad(src[i], src[i + 1], src[i + 2]), Encode(src[i + 3..]));
      pos := pos + 4;
      i := i + 3;
      k := k + 1;
    }
    EncodeEnd(src, i);
    if |src| - i > 0 {
      Put4(out, pos, Tail(src[i..]));
      pos := pos + 4;
    } else {
      assert out[..pos] + [] == out[..pos];
    }
    ghost var text := out[..pos];
    out[pos] := 0;
    r := out[..pos];
    assert r == text;
  }

  /* ---------- decoder ---------- */

  /** The characters that the decoder looks at. */
  function Symbols(s: seq<Byte>): (t: seq<Byte>)
    ensures |t| <= |s|
    ensures forall i :: 0 <= i < |t| ==> IsSymbol(t[i])
  {
    if s == [] then []
    else Symbols(s[..|s| - 1]) + if IsSymbol(s[|s| - 1]) then [s[|s| - 1]] else []
  }

  function Pads(q: seq<Byte>): nat {
    if q == [] then 0 else Pads(q[..|q| - 1]) + if q[|q| - 1] == PAD then 1 else 0
  }

  /** Four symbols as three bytes, in 8-bit arithmetic. */
  function Triple(q: seq<Byte>): (t: seq<Byte>)
    requires |q| == 4 && forall i :: 0 <= i < 4 ==> IsSymbol(q[i])
    ensures |t| == 3
  {
    assert IsSymbol(q[0]) && IsSymbol(q[1]) && IsSymbol(q[2]) && IsSymbol(q[3]);
    var a, b, c, d := Value(q[0]), Value(q[1]), Value(q[2]), Value(q[3]);
    var x: Byte := a * 4 + b / 16;
    var y: Byte := b % 16 * 16 + c / 4;
    var z: Byte := c % 4 * 64 + d;
    [x, y, z]
  }

  /** Block by block, up to the first block with padding. */
  function DecodeBlocks(t: seq<Byte>): (r: Option<seq<Byte>>)
    requires |t| % 4 == 0 && forall i :: 0 <= i < |t| ==> IsSymbol(t[i])
    ensures r.Some? ==> |r.value| <= |t| / 4 * 3
  {
    if t == [] then Some([])
    else
      var q := t[..4];
      var pad := Pads(q);
      if pad == 0 then
        match DecodeBlocks(t[4..])
        case None => None
        case Some(rest) => Some(Triple(q) + rest)
      else if pad <= 2 then Some(Triple(q)[..3 - pad])
      else None
  }

  /** `None` is the null pointer. */
  function Decode(s: seq<Byte>): Option<seq<Byte>> {
    var t := Symbols(s);
    if t == [] || |t| % 4 != 0 then None else DecodeBlocks(t)
  }

  /** The decoding table, filled in place. */
  method BuildTable() returns (dtable: array<Byte>)
    ensures fresh(dtable) && dtable.Length == 256
    ensures forall c :: 0 <= c < 256 ==> dtable[c] == Value(c)
  {
    dtable := new Byte[256](_ => NO_SYMBOL);
    for i := 0 to 64
      invariant forall c :: 0 <= c < 256 ==>
                  dtable[c] == if c != PAD && Value(c) < i then Value(c) else NO_SYMBOL
    {
      forall c: Byte | Value(c) == i && c != PAD ensures c == Symbol(i) {
        SymbolOfValue(c);
      }
      dtable[Symbol(i)] := i;
    }
    dtable[PAD] := 0;
  }

  method CountSymbols(src: seq<Byte>, dtable: array<Byte>) returns (count: nat)
    requires dtable.Length == 256 && forall c :: 0 <= c < 256 ==> dtable[c] == Value(c)
    ensures count == |Symbols(src)|
  {
    count := 0;
    for i := 0 to |src|
      invariant count == |Symbols(src[..i])|
    {
      assert src[..i + 1][..i] == src[..i];
      if dtable[src[i]] != NO_SYMBOL {
        count := count + 1;
      }
    }
    assert src[..|src|] == src;
  }

  /** The bytes already written, with those of the blocks still to come, make up the result. */
  ghost predicate Ahead(whole: Option<seq<Byte>>, done: seq<Byte>, rest: Option<seq<Byte>>) {
    (whole.Some? <==> rest.Some?) && (whole.Some? ==> whole.value == done + rest.value)
  }

  /** Write the three bytes of a block at `pos`. */
  method PutBlock(out: array<Byte>, pos: nat, block: seq<Byte>)
    requires |block| == 4 && forall i :: 0 <= i < 4 ==> IsSymbol(block[i])
    requires pos + 3 <= out.Length
    modifies out
    ensures out[..pos + 3] == old(out[..pos]) + Triple(block)
  {
    var t := Triple(block);
    out[pos] := t[0];
    out[pos + 1] := t[1];
    out[pos + 2] := t[2];
  }

  /** The result when the block just written at `pos` had padding. */
  method DropPadding(out: array<Byte>, pos: nat, pad: nat, ghost done: seq<Byte>, ghost t: seq<Byte>)
    returns (r: Option<seq<Byte>>)
    requires pad > 0 && pos + 3 <= out.Length && |done| == pos && |t| == 3 && out[..pos + 3] == done + t
    ensures r == if pad > 2 then None else Some(done + t[..3 - pad])
  {
    if pad > 2 {
      return None;
    }
    assert out[..pos + 3 - pad] == (done + t)[..pos + 3 - pad] == done + t[..3 - pad];
    r := Some(out[..pos + 3 - pad]);
  }

  /** The decoder, writing through a position into a buffer of `count / 4 * 3` bytes. */
  method Base64Decode(src: seq<Byte>) returns (r: Option<seq<Byte>>)
    ensures r == Decode(src)
  {
    var dtable := BuildTable();
    var count := CountSymbols(src, dtable);
    if count == 0 || count % 4 != 0 {
      return None;
    }
    r := DecodeLoop(src, dtable, count);
  }

  /** A complete block: write it, and stop if it has padding. */
  method EndBlock(out: array<Byte>, pos: nat, block: seq<Byte>, pad: nat,
                  ghost src: seq<Byte>, ghost i: nat, ghost k: nat)
    returns (stop: bool, r: Option<seq<Byte>>)
    requires |Symbols(src)| % 4 == 0 && Read(src, i, k, block) && |block| == 4 && 4 * k + 4 <= |Symbols(src)|
    requires pos == 3 * k && pos + 3 <= out.Length && pad == Pads(block)
    requires Ahead(DecodeBlocks(Symbols(src)), out[..pos], DecodeBlocks(Symbols(src)[4 * k..]))
    modifies out
    ensures stop <==> pad > 0
    ensures stop ==> r == DecodeBlocks(Symbols(src))
    ensures !stop ==>
              && Read(src, i, k + 1, [])
              && Ahead(DecodeBlocks(Symbols(src)), out[..pos + 3], DecodeBlocks(Symbols(src)[4 * (k + 1)..]))
  {
    hide Symbols, DecodeBlocks, Triple, Pads, Value, Ahead, Read;
    ghost var all := Symbols(src);
    BlockRead(src, i, k, block);
    BlockDone(all, 4 * k, block);
    ghost var done := out[..pos];
    PutBlock(out, pos, block);
    stop, r := pad > 0, None;
    if stop {
      AheadEnd(DecodeBlocks(all), done, DecodeBlocks(all[4 * k..]));
      r := DropPadding(out, pos, pad, done, Triple(block));
    } else {
      AheadBlock(DecodeBlocks(all), done, Triple(block), DecodeBlocks(all[4 * (k + 1)..]));
    }
  }

  method DecodeLoop(src: seq<Byte>, dtable: array<Byte>, count: nat) returns (r: Option<seq<Byte>>)
    requires dtable.Length == 256 && forall c :: 0 <= c < 256 ==> dtable[c] == Value(c)
    requires count == |Symbols(src)| && count % 4 == 0
    ensures r == DecodeBlocks(Symbols(src))
  {
    hide Symbols, DecodeBlocks, Triple, Pads, Value, Ahead, Read;
    ghost var all := Symbols(src);
    var out := new Byte[count / 4 * 3];
    var block: seq<Byte> := [];      // the characters of the block under way
    var pos, pad := 0, 0;
    ghost var k := 0;                // the blocks already decoded
    NoSymbols(src);
    for i := 0 to |src|
      invariant Read(src, i, k, block) && |block| < 4 && 4 * k + |block| <= |all| && pos == 3 * k
      invariant pad == Pads(block)
      invariant Ahead(DecodeBlocks(all), out[..pos], DecodeBlocks(all[4 * k..]))
    {
      ReadNext(src, i, k, block);
      var c := src[i];
      if dtable[c] != NO_SYMBOL {
        PadsNext(block, c);
        if c == PAD {
          pad := pad + 1;
        }
        block := block + [c];
        if |block| == 4 {
          var stop;
          stop, r := EndBlock(out, pos, block, pad, src, i + 1, k);
          if stop {
            return;
          }
          pos := pos + 3;
          k := k + 1;
          block := [];
          NoPads();
        }
      }
    }
    AllRead(src, k, block);
    AheadEnd(DecodeBlocks(all), out[..pos], DecodeBlocks(all[4 * k..]));
    assert out[..pos] + [] == out[..pos];
    r := Some(out[..pos]);
  }

  /** After `i` characters, `k` blocks and the characters of `block` have been read. */
  ghost predicate Read(src: seq<Byte>, i: nat, k: nat, block: seq<Byte>) {
    && i <= |src| && 4 * k + |block| <= |Symbols(src)|
    && Symbols(src[..i]) == Symbols(src)[..4 * k + |block|]
    && block == Symbols(src)[4 * k..4 * k + |block|]
  }

  lemma ReadNext(src: seq<Byte>, i: nat, k: nat, block: seq<Byte>)
    requires Read(src, i, k, block) && i < |src|
    ensures !IsSymbol(src[i]) ==> Read(src, i + 1, k, block)
    ensures IsSymbol(src[i]) ==> Read(src, i + 1, k, block + [src[i]]) && 4 * k + |block| < |Symbols(src)|
  {
    hide Symbols;
    NextSymbol(src, i);
    var all := Symbols(src);
    var n := 4 * k + |block|;
    if IsSymbol(src[i]) {
      assert all[..n] + [src[i]] <= all;
      assert all[n] == src[i];
      assert all[..n + 1] == all[..n] + [src[i]];
      assert all[4 * k..n + 1] == all[4 * k..n] + [all[n]];
    }
  }

  lemma BlockRead(src: seq<Byte>, i: nat, k: nat, block: seq<Byte>)
    requires Read(src, i, k, block) && |block| == 4
    ensures 4 * k + 4 <= |Symbols(src)| && block == Symbols(src)[4 * k..4 * k + 4]
    ensures Read(src, i, k + 1, [])
  {
    hide Symbols;
    assert Symbols(src)[4 * (k + 1)..4 * (k + 1)] == [];
  }

  lemma AllRead(src: seq<Byte>, k: nat, block: seq<Byte>)
    requires Read(src, |src|, k, block) && |block| < 4 && |Symbols(src)| % 4 == 0
    ensures DecodeBlocks(Symbols(src)[4 * k..]) == Some([])
  {
    assert src[..|src|] == src;
    assert Symbols(src)[4 * k..] == [];
  }

  lemma AheadEnd(whole: Option<seq<Byte>>, done: seq<Byte>, rest: Option<seq<Byte>>)
    requires Ahead(whole, done, rest)
    ensures rest.None? ==> whole.None?
    ensures rest.Some? ==> whole == Some(done + rest.value)
  {
  }

  lemma NoSymbols(src: seq<Byte>)
    requires |Symbols(src)| % 4 == 0
    ensures Read(src, 0, 0, []) && Pads([]) == 0
    ensures Ahead(DecodeBlocks(Symbols(src)), [], DecodeBlocks(Symbols(src)[0..]))
  {
    assert Symbols(src)[0..] == Symbols(src);
  }

  lemma NoPads()
    ensures Pads([]) == 0
  {
  }

  lemma PadsNext(q: seq<Byte>, c: Byte)
    ensures Pads(q + [c]) == Pads(q) + if c == PAD then 1 else 0
  {
    assert (q + [c])[..|q|] == q;
  }

  lemma NextSymbol(src: seq<Byte>, i: nat)
    requires i < |src|
    ensures Symbols(src[..i + 1]) == Symbols(src[..i]) + if IsSymbol(src[i]) then [src[i]] else []
    ensures Symbols(src[..i + 1]) <= Symbols(src)
    decreases |src| - i
  {
    assert src[..i + 1][..i] == src[..i];
    if i + 1 < |src| {
      NextSymbol(src, i + 1);
    } else {
      assert src[..i + 1] == src;
    }
  }

  lemma BlockDone(all: seq<Byte>, used: nat, block: seq<Byte>)
    requires |all| % 4 == 0 && used % 4 == 0 && used + 4 <= |all| && block == all[used..used + 4]
    requires forall i :: 0 <= i < |all| ==> IsSymbol(all[i])
    ensures forall i :: 0 <= i < 4 ==> IsSymbol(block[i])
    ensures
      var rest := DecodeBlocks(all[used + 4..]);
      DecodeBlocks(all[used..]) ==
        if Pads(block) == 0 then (if rest.None? then None else Some(Triple(block) + rest.value))
        else if Pads(block) <= 2 then Some(Triple(block)[..3 - Pads(block)])
        else None
  {
    assert all[used..][..4] == block;
    assert all[used..][4..] == all[used + 4..];
  }

  lemma AheadBlock(whole: Option<seq<Byte>>, done: seq<Byte>, t: seq<Byte>, rest: Option<seq<Byte>>)
    requires Ahead(whole, done, if rest.None? then None else Some(t + rest.value))
    ensures Ahead(whole, done + t, rest)
  {
    if rest.Some? {
      Assoc(done, t, rest.value);
    }
  }

  /* ---------- decoder against encoder ---------- */

  lemma {:induction false} EncodeSymbols(s: seq<Byte>)
    ensures forall i :: 0 <= i < |Encode(s)| ==> IsSymbol(Encode(s)[i])
    decreases |s|
  {
    if |s| >= 3 {
      EncodeSymbols(s[3..]);
      var t := Encode(s);
      forall i | 0 <= i < |t| ensures IsSymbol(t[i]) {
        if i >= 4 {
          assert t[i] == Encode(s[3..])[i - 4];
        }
      }
    }
  }

  lemma {:induction false} SymbolsAll(t: seq<Byte>)
    requires forall i :: 0 <= i < |t| ==> IsSymbol(t[i])
    ensures Symbols(t) == t
  {
    if t != [] {
      SymbolsAll(t[..|t| - 1]);
    }
  }

  lemma FourPads(q: seq<Byte>)
    requires |q| == 4
    ensures Pads(q) == (if q[0] == PAD then 1 else 0) + (if q[1] == PAD then 1 else 0)
                       + (if q[2] == PAD then 1 else 0) + (if q[3] == PAD then 1 else 0)
  {
    assert q[..3][..2] == q[..2];
    assert q[..2][..1] == q[..1];
    assert q[..1][..0] == [];
    assert Pads(q[..1]) == if q[0] == PAD then 1 else 0;
    assert Pads(q[..2]) == Pads(q[..1]) + if q[1] == PAD then 1 else 0;
    assert Pads(q[..3]) == Pads(q[..2]) + if q[2] == PAD then 1 else 0;
  }

  lemma QuadTriple(a: Byte, b: Byte, c: Byte)
    ensures
      var q := Quad(a, b, c);
      Pads(q) == 0 && (forall i :: 0 <= i < 4 ==> IsSymbol(q[i])) && Triple(q) == [a, b, c]
  {
    hide Symbol, Value, Pads;
    var q := Quad(a, b, c);
    FourPads(q);
    var t := Triple(q);
    Regroup(a, b, c);
    assert t == [a, b, c];
  }

  lemma Regroup(a: Byte, b: Byte, c: Byte)
    ensures a / 4 * 4 + (a % 4 * 16 + b / 16) / 16 == a
    ensures (a % 4 * 16 + b / 16) % 16 * 16 + (b % 16 * 4 + c / 64) / 4 == b
    ensures (b % 16 * 4 + c / 64) % 4 * 64 + c % 64 == c
  {
  }

  lemma {:induction false} BlocksInverse(s: seq<Byte>)
    ensures
      var t := Encode(s);
      && |t| % 4 == 0 && (forall i :: 0 <= i < |t| ==> IsSymbol(t[i]))
      && DecodeBlocks(t) == Some(s)
    decreases |s|
  {
    hide Quad, Tail, DecodeBlocks, IsSymbol;
    EncodeSymbols(s);
    EncodeWhole(|s|);
    if |s| >= 3 {
      BlocksInverse(s[3..]);
      assert Encode(s) == Quad(s[0], s[1], s[2]) + Encode(s[3..]);
      HeadInverse(s[0], s[1], s[2], Encode(s[3..]), s[3..]);
      assert s == [s[0], s[1], s[2]] + s[3..];
    } else if s != [] {
      TailInverse(s);
    } else {
      NoBlocks();
    }
  }

  lemma EncodeWhole(n: nat)
    ensures (n + 2) / 3 * 4 % 4 == 0
  {
  }

  lemma NoBlocks()
    ensures DecodeBlocks([]) == Some([])
  {
  }

  lemma HeadInverse(a: Byte, b: Byte, c: Byte, t: seq<Byte>, s: seq<Byte>)
    requires |t| % 4 == 0 && (forall i :: 0 <= i < |t| ==> IsSymbol(t[i])) && DecodeBlocks(t) == Some(s)
    requires forall i :: 0 <= i < |Quad(a, b, c) + t| ==> IsSymbol((Quad(a, b, c) + t)[i])
    ensures DecodeBlocks(Quad(a, b, c) + t) == Some([a, b, c] + s)
  {
    hide Quad, Triple, Pads, IsSymbol;
    QuadTriple(a, b, c);
    var u := Quad(a, b, c) + t;
    assert u[..4] == Quad(a, b, c) && u[4..] == t;
  }

  lemma TailInverse(s: seq<Byte>)
    requires 1 <= |s| <= 2 && forall i :: 0 <= i < |Encode(s)| ==> IsSymbol(Encode(s)[i])
    ensures |Encode(s)| == 4 && DecodeBlocks(Encode(s)) == Some(s)
  {
    var t := Encode(s);
    FourPads(t);
    assert t[..4] == t;
    assert Pads(t) == 3 - |s|;
    hide Pads, Symbol, DecodeBlocks;
    TailBlock(t);
    var b := Triple(t);
    assert b[0] == s[0];
    if |s| == 2 {
      assert b[1] == s[1];
    }
    assert b[..|s|] == s;
  }

  lemma TailBlock(t: seq<Byte>)
    requires |t| == 4 && (forall i :: 0 <= i < 4 ==> IsSymbol(t[i])) && 1 <= Pads(t) <= 2
    ensures DecodeBlocks(t) == Some(Triple(t)[..3 - Pads(t)])
  {
    assert t[..4] == t;
  }

  /** Every non-empty input comes back. */
  lemma DecodeEncode(s: seq<Byte>)
    requires s != []
    ensures Decode(Encode(s)) == Some(s)
  {
    BlocksInverse(s);
    SymbolsAll(Encode(s));
  }

  lemma {:induction false} SymbolsAppend(a: seq<Byte>, b: seq<Byte>)
    ensures Symbols(a + b) == Symbols(a) + Symbols(b)
    decreases |b|
  {
    if b == [] {
      assert a + b == a;
    } else {
      var s := a + b;
      assert s[..|s| - 1] == a + b[..|b| - 1];
      SymbolsAppend(a, b[..|b| - 1]);
      Assoc(Symbols(a), Symbols(b[..|b| - 1]), if IsSymbol(b[|b| - 1]) then [b[|b| - 1]] else []);
    }
  }

  lemma {:induction false} SymbolsNone(n: seq<Byte>)
    requires forall i :: 0 <= i < |n| ==> !IsSymbol(n[i])
    ensures Symbols(n) == []
  {
    if n != [] {
      SymbolsNone(n[..|n| - 1]);
    }
  }

  /** Characters outside the alphabet may be inserted anywhere without changing the decoding. */
  lemma InsertionIgnored(a: seq<Byte>, n: seq<Byte>, b: seq<Byte>)
    requires forall i :: 0 <= i < |n| ==> !IsSymbol(n[i])
    ensures Decode(a + n + b) == Decode(a + b)
  {
    hide Symbols, DecodeBlocks;
    SymbolsNone(n);
    SymbolsAppend(a, n);
    SymbolsAppend(a + n, b);
    SymbolsAppend(a, b);
    assert Symbols(a) + [] == Symbols(a);
  }

  /* ---------- exactly when there is no decoding ---------- */

  function BlockAt(t: seq<Byte>, k: nat): seq<Byte>
    requires 4 * k + 4 <= |t|
  {
    t[4 * k..4 * k + 4]
  }

  /** Block `k` is the first one with padding, and it has more than two pads. */
  predicate OverPadded(t: seq<Byte>, k: nat) {
    && 4 * k + 4 <= |t| && Pads(BlockAt(t, k)) > 2
    && forall j: nat :: j < k ==> Pads(BlockAt(t, j)) == 0
  }

  /** No symbols, a block that is not complete, or too much padding. */
  ghost predicate Undecodable(s: seq<Byte>) {
    var t := Symbols(s);
    t == [] || |t| % 4 != 0 || exists k: nat :: OverPadded(t, k)
  }

  lemma {:induction false} BlocksNoneExactly(t: seq<Byte>)
    requires |t| % 4 == 0 && forall i :: 0 <= i < |t| ==> IsSymbol(t[i])
    ensures DecodeBlocks(t).None? <==> exists k: nat :: OverPadded(t, k)
  {
    hide Pads, Triple, IsSymbol;
    if t != [] {
      var rest := t[4..];
      assert BlockAt(t, 0) == t[..4];
      forall k: nat | 4 * k + 4 <= |rest| ensures BlockAt(rest, k) == BlockAt(t, k + 1) {
      }
      forall k: nat | OverPadded(t, k) && k > 0 ensures Pads(BlockAt(t, 0)) == 0 {
      }
      if Pads(t[..4]) == 0 {
        BlocksNoneExactly(rest);
        if k: nat :| OverPadded(rest, k) {
          assert OverPadded(t, k + 1) by {
            forall j: nat | j < k + 1 ensures Pads(BlockAt(t, j)) == 0 {
              assert j > 0 ==> Pads(BlockAt(rest, j - 1)) == 0;
            }
          }
        }
        if k: nat :| OverPadded(t, k) {
          assert k > 0;
          assert OverPadded(rest, k - 1) by {
            forall j: nat | j < k - 1 ensures Pads(BlockAt(rest, j)) == 0 {
              assert Pads(BlockAt(t, j + 1)) == 0;
            }
          }
        }
      } else if Pads(t[..4]) > 2 {
        assert OverPadded(t, 0);
      }
    }
  }

  /** The decoder returns null on exactly these inputs. */
  lemma NullExactly(s: seq<Byte>)
    ensures Decode(s).None? <==> Undecodable(s)
  {
    hide Symbols, DecodeBlocks, OverPadded;
    if |Symbols(s)| % 4 == 0 {
      BlocksNoneExactly(Symbols(s));
    }
  }

  /* ---------- the alphabet and the digits ---------- */

  /** Table 1 of RFC 4648. */
  lemma AlphabetIs(v: nat)
    requires v < 64
    ensures Symbol(v) as char ==
            if v < 26 then 'A' + v as char
            else if v < 52 then 'a' + (v - 26) as char
            else if v < 62 then '0' + (v - 52) as char
            else if v == 62 then '+' else '/'
  {
  }

  /** The decoder knows that alphabet, the pad '=' with the value 0, and nothing else. */
  lemma KnownExactly(c: Byte)
    ensures IsSymbol(c) <==> c as char == '=' || exists v: nat :: v < 64 && Symbol(v) == c
    ensures Value('=' as int) == 0
  {
    if IsSymbol(c) && c != PAD {
      SymbolOfValue(c);
      assert Value(c) < 64 && Symbol(Value(c)) == c;
    }
  }

  /** Four symbols as a number of four digits to the base 64. */
  function Num64(q: seq<Byte>): nat
    requires |q| == 4
  {
    (Value(q[0]) as int) * 262144 + (Value(q[1]) as int) * 4096 + (Value(q[2]) as int) * 64 + Value(q[3]) as int
  }

  /** Three bytes as a number of three digits to the base 256. */
  function Num256(t: seq<Byte>): nat
    requires |t| == 3
  {
    (t[0] as int) * 65536 + (t[1] as int) * 256 + t[2] as int
  }

  lemma QuadDigits(a: Byte, b: Byte, c: Byte)
    ensures Num64(Quad(a, b, c)) == Num256([a, b, c]) && PAD !in Quad(a, b, c)
  {
  }

  lemma TailDigits(s: seq<Byte>)
    requires 1 <= |s| <= 2
    ensures Num64(Tail(s)) == Num256(s + seq(3 - |s|, _ => 0))
    ensures Tail(s)[0] != PAD && Tail(s)[1] != PAD && Tail(s)[3] == PAD && (Tail(s)[2] == PAD <==> |s| == 1)
  {
  }

  lemma TripleDigits(q: seq<Byte>)
    requires |q| == 4 && forall i :: 0 <= i < 4 ==> IsSymbol(q[i])
    ensures Num256(Triple(q)) == Num64(q)
  {
    assert IsSymbol(q[0]) && IsSymbol(q[1]) && IsSymbol(q[2]) && IsSymbol(q[3]);
  }

  /** The bytes of group `k`, with zeros for those that are missing at the end. */
  function Group(s: seq<Byte>, k: nat): (g: seq<Byte>)
    requires 3 * k < |s|
    ensures |g| == 3
  {
    if 3 * k + 3 <= |s| then s[3 * k..3 * k + 3] else s[3 * k..] + seq(3 * k + 3 - |s|, _ => 0)
  }

  /**
   The encoding, group by group: four digits to the base 64 that are the same number as the three
   bytes, with one '=' at the end for each byte that is missing.
   */
  lemma {:induction false} EncodeDigits(s: seq<Byte>, k: nat)
    requires 3 * k < |s|
    ensures
      var q := BlockAt(Encode(s), k);
      && Num64(q) == Num256(Group(s, k)) && q[0] != 61 && q[1] != 61
      && (q[2] == 61 <==> 3 * k + 1 == |s|) && (q[3] == 61 <==> 3 * k + 2 >= |s|)
    decreases |s|
  {
    hide Num64, Num256, Tail, Quad, Encode;
    if |s| <= 2 {
      TailDigits(s);
      EncodeShort(s);
    } else if k == 0 {
      QuadDigits(s[0], s[1], s[2]);
      EncodeFirst(s);
      var q := BlockAt(Encode(s), 0);
      assert q[0] in q && q[1] in q && q[2] in q && q[3] in q;
    } else {
      EncodeDigits(s[3..], k - 1);
      GroupCount(|s|, k);
      EncodeLater(s, k);
      GroupShift(s, k);
    }
  }

  lemma EncodeShort(s: seq<Byte>)
    requires 1 <= |s| <= 2
    ensures BlockAt(Encode(s), 0) == Tail(s) && Group(s, 0) == s + seq(3 - |s|, _ => 0)
  {
    hide Tail;
    assert s[0..] == s;
  }

  lemma EncodeUnfold(s: seq<Byte>)
    requires |s| >= 3
    ensures Encode(s) == Quad(s[0], s[1], s[2]) + Encode(s[3..])
  {
  }

  lemma EncodeFirst(s: seq<Byte>)
    requires |s| >= 3
    ensures BlockAt(Encode(s), 0) == Quad(s[0], s[1], s[2]) && Group(s, 0) == [s[0], s[1], s[2]]
  {
    hide *;
    EncodeUnfold(s);
    BlockShift(Quad(s[0], s[1], s[2]), Encode(s[3..]), 0);
    GroupFirst(s);
  }

  lemma EncodeLater(s: seq<Byte>, k: nat)
    requires |s| >= 3 && k > 0 && 3 * k < |s| && 4 * k + 4 <= |Encode(s)| && 4 * k <= |Encode(s[3..])|
    ensures BlockAt(Encode(s), k) == BlockAt(Encode(s[3..]), k - 1)
  {
    hide *;
    EncodeUnfold(s);
    BlockShift(Quad(s[0], s[1], s[2]), Encode(s[3..]), k);
  }

  lemma BlockShift(q: seq<Byte>, t: seq<Byte>, k: nat)
    requires |q| == 4 && 4 * k <= |t|
    ensures BlockAt(q + t, k) == if k == 0 then q else BlockAt(t, k - 1)
  {
  }

  lemma GroupCount(n: nat, k: nat)
    requires n >= 3 && 3 * k < n
    ensures 4 * k <= (n - 3 + 2) / 3 * 4 && 4 * k + 4 <= (n + 2) / 3 * 4
  {
    assert k <= (n - 3 + 2) / 3 && k + 1 <= (n + 2) / 3;
  }

  lemma GroupFirst(s: seq<Byte>)
    requires |s| >= 3
    ensures Group(s, 0) == [s[0], s[1], s[2]]
  {
  }

  lemma GroupShift(s: seq<Byte>, k: nat)
    requires |s| >= 3 && k > 0 && 3 * k < |s|
    ensures Group(s, k) == Group(s[3..], k - 1)
  {
  }

  /** The first block with padding is block `j`, or there is none and `j` is the number of blocks. */
  predicate FirstPadded(t: seq<Byte>, j: nat) {
    && 4 * j <= |t| && (forall i: nat :: i < j ==> Pads(BlockAt(t, i)) == 0)
    && (4 * j < |t| ==> 4 * j + 4 <= |t| && Pads(BlockAt(t, j)) > 0)
  }

  /**
   The decoding, block by block: three bytes that are the same number as the four symbols, up to
   the first block with padding, which yields one byte less for each '=' and ends the decoding.
   */
  lemma {:induction false} DecodeDigits(t: seq<Byte>, j: nat)
    requires |t| % 4 == 0 && forall i :: 0 <= i < |t| ==> IsSymbol(t[i])
    requires FirstPadded(t, j) && DecodeBlocks(t).Some?
    ensures
      var d := DecodeBlocks(t).value;
      && (4 * j < |t| ==> Pads(BlockAt(t, j)) <= 2)
      && |d| == (if 4 * j == |t| then 3 * j else 3 * j + 3 - Pads(BlockAt(t, j)))
      && (forall i: nat :: i < j ==> Num256(d[3 * i..3 * i + 3]) == Num64(BlockAt(t, i)))
      && (4 * j < |t| ==> exists last :: |last| == 3 && d[3 * j..] <= last && Num256(last) == Num64(BlockAt(t, j)))
    decreases |t|
  {
    hide Num64, Num256, IsSymbol, Pads, Triple;
    if t != [] {
      var q, rest := t[..4], t[4..];
      assert BlockAt(t, 0) == q;
      TripleDigits(q);
      var d := DecodeBlocks(t).value;
      if j == 0 {
        assert d[0..] == d <= Triple(q);
      } else {
        assert Pads(q) == 0 by { assert Pads(BlockAt(t, 0)) == 0; }
        FirstPaddedRest(t, j);
        DecodeDigits(rest, j - 1);
        var later := DecodeBlocks(rest).value;
        assert d == Triple(q) + later;
        hide DecodeBlocks, BlockAt, FirstPadded;
        if 4 * j < |t| {
          BlockBehind(t, j - 1);
        }
        DigitsNext(t, d, Triple(q), later, j);
      }
    }
  }

  lemma FirstPaddedRest(t: seq<Byte>, j: nat)
    requires |t| % 4 == 0 && t != [] && j > 0 && FirstPadded(t, j)
    ensures FirstPadded(t[4..], j - 1)
  {
    hide Pads;
    var rest := t[4..];
    hide BlockAt;
    forall i: nat | 4 * i + 4 <= |rest| ensures BlockAt(rest, i) == BlockAt(t, i + 1) {
      BlockBehind(t, i);
    }
    forall i: nat | i < j - 1 ensures Pads(BlockAt(rest, i)) == 0 {
      assert Pads(BlockAt(t, i + 1)) == 0;
    }
  }

  lemma BlockBehind(t: seq<Byte>, i: nat)
    requires 4 * i + 8 <= |t|
    ensures BlockAt(t[4..], i) == BlockAt(t, i + 1)
  {
  }

  lemma DigitsNext(t: seq<Byte>, d: seq<Byte>, three: seq<Byte>, later: seq<Byte>, j: nat)
    requires |t| >= 4 && j > 0 && 4 * j <= |t| && |three| == 3 && d == three + later && 3 * (j - 1) <= |later|
    requires Num256(three) == Num64(BlockAt(t, 0))
    requires forall i: nat :: i < j - 1 ==> Num256(later[3 * i..3 * i + 3]) == Num64(BlockAt(t[4..], i))
    ensures d[3 * j..] == later[3 * (j - 1)..]
    ensures forall i: nat :: i < j ==> Num256(d[3 * i..3 * i + 3]) == Num64(BlockAt(t, i))
  {
    hide Num64, Num256;
    forall i: nat | i < j ensures Num256(d[3 * i..3 * i + 3]) == Num64(BlockAt(t, i)) {
      if i == 0 {
        assert d[0..3] == three;
      } else {
        assert d[3 * i..3 * i + 3] == later[3 * (i - 1)..3 * (i - 1) + 3];
        BlockBehind(t, i - 1);
      }
    }
  }
}
