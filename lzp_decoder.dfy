/**
 * The frame decompressor of the LZP animation format (the body of `Lzp.__getitem__`
 * after the payload has been read): a mask byte selects, least-significant bit first,
 * eight tokens; a 1 bit is a literal byte, a 0 bit a two-byte copy command that
 * repeats up to 18 earlier output bytes from a 4096-byte window.
 */
module LzpDecoder {
  import opened Wrappers
  import opened Bytes

  /** What one bit of a mask selects, with the payload bytes it consumes. */
  datatype Token = Literal(value: byte) | Copy(lo: byte, hi: byte)

  /**
   * The reader's place in the payload: the position, the mask already shifted right
   * `bit` times and the number `bit` of its bits used. With `bit == 8` the next
   * payload byte is a mask.
   */
  datatype Cursor = Cursor(pos: nat, mask: nat, bit: nat)

  /** The number of bytes a copy command appends: its second byte's low nibble plus three (line 60). */
  function CopyLength(hi: byte): (l: nat)
    ensures 3 <= l <= 18
  {
    hi % 16 + 3
  }

  /**
   * The 12-bit window address of a copy command (line 61): the high nibble of its second
   * byte above its first byte, plus 18, taken modulo 4096.
   */
  function CopyAddress(lo: byte, hi: byte): (a: nat)
    ensures a < 0x1000
  {
    ((hi as int / 16) * 256 + lo + 18) % 4096
  }

  /**
   * The start of the 4096-byte block the write position `n` lies in (line 62). The mask
   * the source applies is 32 bits wide, so for an output of 2^32 bytes or more the high
   * bits are dropped.
   */
  function BlockBase(n: nat): (b: nat)
    ensures b % 0x1000 == 0 && b <= n && b < Word
    ensures n < Word ==> n < b + 0x1000
  {
    (n % Word) / 0x1000 * 0x1000
  }

  /**
   * Where a copy with window address `a` starts reading (lines 63-65): the address inside
   * the current block, moved back one block when it lies past the write position `n`. The
   * source combines the two with a bitwise or, which is an addition here because `a` is
   * below 0x1000 and the block start a multiple of 0x1000.
   */
  function Source(n: nat, a: nat): (p: int)
    requires a < 0x1000
    ensures p % 0x1000 == a && p <= n
    ensures n < Word ==> n - 0x1000 < p
  {
    var q := a + BlockBase(n);
    if q > n then q - 0x1000 else q
  }

  /**
   * The copy loop of lines 68-74: `l` bytes appended one at a time, each read from the
   * next source position, so bytes appended by this copy can be read again by it. A
   * negative position counts from the end, as Python's indexing does; `None` is the
   * IndexError of a position outside the output.
   */
  function CopyRun(out: seq<byte>, p: int, l: nat): (r: Option<seq<byte>>)
    ensures r.Some? ==> |r.value| == |out| + l && out <= r.value
    decreases l
  {
    if l == 0 then Some(out)
    else
      match PyIndex(out, p)
      case None => None
      case Some(b) => CopyRun(out + [b], p + 1, l - 1)
  }

  /** The payload bytes a token takes. */
  function Width(literal: bool): nat
  {
    if literal then 1 else 2
  }

  /** The token at `pos`: the byte `f[pos]`, or the command `f[pos:pos+2]`. */
  function TokenAt(f: seq<byte>, pos: nat, literal: bool): Token
    requires pos + Width(literal) <= |f|
  {
    if literal then Literal(f[pos]) else Copy(f[pos], f[pos + 1])
  }

  /**
   * The tokens read by the outer mask loop and the inner eight-bit loop (lines 48-78)
   * from cursor `c`, reading stopped as soon as the payload is used up. `None` is the
   * IndexError of a literal or mask read past the end, or of a command cut short.
   */
  function Tokens(f: seq<byte>, c: Cursor): (r: Option<seq<Token>>)
    requires c.pos <= |f| && c.bit <= 8
    ensures r.Some? ==> |r.value| <= |f| - c.pos
    ensures r.Some? ==> (r.value == [] <==> c.pos == |f|)
    decreases |f| - c.pos, 8 - c.bit
  {
    if c.bit == 8 then
      if c.pos == |f| then Some([])
      else Tokens(f, Cursor(c.pos + 1, f[c.pos], 0))
    else
      var literal := c.mask % 2 == 1;
      var next := c.pos + Width(literal);
      if next > |f| then None
      else if next == |f| then Some([TokenAt(f, c.pos, literal)])
      else
        match Tokens(f, Cursor(next, c.mask / 2, c.bit + 1))
        case None => None
        case Some(ts) => Some([TokenAt(f, c.pos, literal)] + ts)
  }

  /** The payload bytes the tokens `ts` take, masks not counted. */
  function Span(ts: seq<Token>): nat
  {
    if ts == [] then 0 else Width(ts[0].Literal?) + Span(ts[1..])
  }

  /** The mask bytes read to select `n` tokens when `bit` bits of the current mask are used. */
  function Masks(bit: nat, n: nat): nat
    requires bit <= 8
    decreases n, if bit == 8 then 1 else 0
  {
    if n == 0 then 0
    else if bit == 8 then 1 + Masks(0, n)
    else Masks(bit + 1, n - 1)
  }

  /** The number of pixels a token appends. */
  function Size(t: Token): (n: nat)
    ensures n >= 1
  {
    match t
    case Literal(_) => 1
    case Copy(_, hi) => CopyLength(hi)
  }

  /** The number of pixels the tokens `ts` append. */
  function Sizes(ts: seq<Token>): nat
  {
    if ts == [] then 0 else Size(ts[0]) + Sizes(ts[1..])
  }

  /**
   * A literal appends its byte (line 55); a copy finds its source position (lines 60-65)
   * and copies byte at a time. `None` is the IndexError of a source outside the output.
   */
  function Apply(out: seq<byte>, t: Token): (r: Option<seq<byte>>)
    ensures r.Some? ==> |r.value| == |out| + Size(t) && out <= r.value
  {
    match t
    case Literal(b) => Some(out + [b])
    case Copy(lo, hi) => CopyRun(out, Source(|out|, CopyAddress(lo, hi)), CopyLength(hi))
  }

  /** The tokens applied in order to the output `out`. */
  function Expand(out: seq<byte>, ts: seq<Token>): (r: Option<seq<byte>>)
    ensures r.Some? ==> out <= r.value
    ensures r.Some? ==> (|r.value| == |out| <==> ts == [])
    decreases |ts|
  {
    if ts == [] then Some(out)
    else
      match Apply(out, ts[0])
      case None => None
      case Some(o) => Expand(o, ts[1..])
  }

  /** The decoding from cursor `c` with `out` written so far. */
  function Continue(f: seq<byte>, c: Cursor, out: seq<byte>): Option<seq<byte>>
    requires c.pos <= |f| && c.bit <= 8
  {
    match Tokens(f, c)
    case None => None
    case Some(ts) => Expand(out, ts)
  }

  /** The pixels a payload decodes to, or `None` for the IndexError Python raises. */
  function Decode(f: seq<byte>): (r: Option<seq<byte>>)
    ensures f == [] ==> r == Some([])
    ensures |f| == 1 ==> r == None
    ensures r.Some? ==> (r.value == [] <==> f == [])
  {
    Continue(f, Cursor(0, 0, 8), [])
  }

  // The bitwise expressions of the source on fixed-width words, read as the arithmetic
  // that CopyAddress, CopyLength, BlockBase and Source use.

  lemma CopyAddressIsBitwise(lo: bv16, hi: bv16)
    requires lo < 0x100 && hi < 0x100
    ensures (((((hi & 0xF0) << 4) | lo) + 18) & 0xFFF) == ((hi / 16) * 256 + lo + 18) % 4096
  {
  }

  lemma CopyLengthIsBitwise(hi: bv16)
    requires hi < 0x100
    ensures (hi & 0xF) + 3 == hi % 16 + 3
  {
  }

  lemma BlockBaseIsBitwise(n: bv64)
    ensures n & 0xFFFFF000 == (n % 0x1_0000_0000) / 0x1000 * 0x1000
  {
  }

  lemma PlacementIsBitwise(a: bv64, c: bv64)
    requires a < 0x1000 && c % 0x1000 == 0
    ensures a | c == a + c
  {
  }

  // Copy commands

  /** The two command bytes `(cmd[0], cmd[1])` an encoder writes for length `l` and address `a`. */
  function EncodeCommand(l: nat, a: nat): (byte, byte)
    requires 3 <= l <= 18 && a < 0x1000
  {
    var raw := (a + 0x1000 - 18) % 0x1000;
    (raw % 0x100, (raw / 0x100) * 16 + (l - 3))
  }

  /** Every length in 3..18 and every 12-bit address has a command that decodes to it. */
  lemma CommandRoundTrip(l: nat, a: nat)
    requires 3 <= l <= 18 && a < 0x1000
    ensures CopyLength(EncodeCommand(l, a).1) == l
    ensures CopyAddress(EncodeCommand(l, a).0, EncodeCommand(l, a).1) == a
  {
    var raw := (a + 0x1000 - 18) % 0x1000;
    var lo, hi := EncodeCommand(l, a).0, EncodeCommand(l, a).1;
    assert hi / 16 == raw / 0x100 && hi % 16 == l - 3;
    assert (hi as int / 16) * 256 + lo == raw;
    assert (raw + 18) % 0x1000 == a;
  }

  /** And each command is the one encoding of its length and address. */
  lemma CommandFromFields(lo: byte, hi: byte)
    ensures EncodeCommand(CopyLength(hi), CopyAddress(lo, hi)) == (lo, hi)
  {
    var raw := (hi as int / 16) * 256 + lo;
    assert raw < 0x1000;
    var a := CopyAddress(lo, hi);
    assert a == (raw + 18) % 0x1000;
    assert (a + 0x1000 - 18) % 0x1000 == raw;
    assert raw % 0x100 == lo && raw / 0x100 == hi / 16;
  }

  // The window

  /**
   * Below 2^32 output bytes the source of a copy lies in the 4096 bytes that end at the
   * write position, and it is the one position there whose low 12 bits are the address.
   */
  lemma WindowBound(n: nat, a: nat)
    requires n < Word && a < 0x1000
    ensures n - 0x1000 < Source(n, a) <= n
    ensures Source(n, a) % 0x1000 == a
  {
    assert BlockBase(n) == n / 0x1000 * 0x1000;
    assert n - 0x1000 < BlockBase(n) <= n;
  }

  lemma WindowUnique(n: nat, a: nat, p: int)
    requires n < Word && a < 0x1000
    requires n - 0x1000 < p <= n && p % 0x1000 == a
    ensures p == Source(n, a)
  {
    WindowBound(n, a);
    var s := Source(n, a);
    assert (p - s) % 0x1000 == 0;
  }

  /** At 2^32 output bytes the 32-bit block mask gives block 0, far behind the window. */
  lemma WindowAt4GiB(a: nat)
    requires a < 0x1000
    ensures Source(Word, a) == a
  {
  }

  // Copies

  /** A copy fails exactly when its first source index is not a valid Python index. */
  lemma {:induction false} CopyRunDefined(out: seq<byte>, p: int, l: nat)
    ensures CopyRun(out, p, l).Some? <==> l == 0 || -|out| <= p < |out|
    decreases l
  {
    if l > 0 && -|out| <= p < |out| {
      CopyRunDefined(out + [PyIndex(out, p).value], p + 1, l - 1);
    }
  }

  /** From a non-negative source each appended byte repeats the byte `|out| - p` before it. */
  lemma {:induction false} CopyRunSelfReference(out: seq<byte>, p: int, l: nat)
    requires 0 <= p < |out|
    ensures CopyRun(out, p, l).Some?
    ensures forall j :: |out| <= j < |out| + l ==> CopyRun(out, p, l).value[j] == CopyRun(out, p, l).value[j - |out| + p]
    decreases l
  {
    if l > 0 {
      var out' := out + [out[p]];
      CopyRunSelfReference(out', p + 1, l - 1);
      var o := CopyRun(out', p + 1, l - 1).value;
      assert CopyRun(out, p, l).value == o;
      assert o[|out|] == out'[|out|] == out[p] == out'[p] == o[p];
    }
  }

  /**
   * The byte a copy from `p` appends at its step `j` in the result `r`: the output then
   * holds `|out| + j` bytes and the index is `p + j`, which Python counts from the end of
   * that output while it is negative.
   */
  predicate ReadsAt(out: seq<byte>, p: int, r: seq<byte>, j: nat)
    requires |out| + j < |r|
  {
    if p + j >= 0 then p + j < |out| + j && r[|out| + j] == r[p + j]
    else 0 <= |out| + 2 * j + p && r[|out| + j] == r[|out| + 2 * j + p]
  }

  /** Each byte a successful copy appends is the byte its index names at that moment. */
  lemma {:induction false} CopyRunReads(out: seq<byte>, p: int, l: nat)
    requires CopyRun(out, p, l).Some?
    ensures forall j :: 0 <= j < l ==> ReadsAt(out, p, CopyRun(out, p, l).value, j)
    decreases l
  {
    if l > 0 {
      CopyRunDefined(out, p, l);
      var b := PyIndex(out, p).value;
      var out' := out + [b];
      var r := CopyRun(out, p, l).value;
      assert CopyRun(out', p + 1, l - 1).value == r;
      CopyRunDefined(out', p + 1, l - 1);
      CopyRunReads(out', p + 1, l - 1);
      assert out' <= r && r[|out|] == b;
      forall j | 0 <= j < l
        ensures ReadsAt(out, p, r, j)
      {
        if j == 0 {
          if p >= 0 {
            assert r[p] == out[p];
          } else {
            assert r[|out| + p] == out[|out| + p];
          }
        } else {
          assert ReadsAt(out', p + 1, r, j - 1);
          assert |out'| + (j - 1) == |out| + j;
          assert |out'| + 2 * (j - 1) + (p + 1) == |out| + 2 * j + p;
        }
      }
    }
  }

  /** A copy from the last byte is a run: that byte `l` more times. */
  lemma {:induction false} CopyRunRepeatsLast(out: seq<byte>, l: nat)
    requires |out| > 0
    ensures CopyRun(out, |out| - 1, l) == Some(out + seq(l, _ => out[|out| - 1]))
    decreases l
  {
    if l > 0 {
      var last := out[|out| - 1];
      var out' := out + [last];
      CopyRunRepeatsLast(out', l - 1);
      assert out' + seq(l - 1, _ => out'[|out'| - 1]) == out + seq(l, _ => last);
    } else {
      assert out + seq(0, _ => out[|out| - 1]) == out;
    }
  }

  // Whole payloads

  /** The payload bytes of one token: a literal's byte, a command's two bytes. */
  function TokenBytes(t: Token): (b: seq<byte>)
    ensures |b| == Width(t.Literal?)
  {
    match t
    case Literal(x) => [x]
    case Copy(lo, hi) => [lo, hi]
  }

  /** The payload bytes of the tokens `g`, masks not included. */
  function GroupBytes(g: seq<Token>): (b: seq<byte>)
    ensures |b| == Span(g)
  {
    if g == [] then [] else TokenBytes(g[0]) + GroupBytes(g[1..])
  }

  /** The mask selecting the tokens `g`, least-significant bit first. */
  function MaskOf(g: seq<Token>): (m: nat)
  {
    if g == [] then 0 else (if g[0].Literal? then 1 else 0) + 2 * MaskOf(g[1..])
  }

  /** The low bits of `m` select the kinds of the tokens `g`, in order. */
  predicate Selects(m: nat, g: seq<Token>)
  {
    g == [] || ((m % 2 == 1) == g[0].Literal? && Selects(m / 2, g[1..]))
  }

  /** `m` shifted right `k` times. */
  function Shift(m: nat, k: nat): (r: nat)
    ensures r <= m
  {
    if k == 0 then m else Shift(m / 2, k - 1)
  }

  /** The first group of the tokens `ts`: up to eight of them, under one mask. */
  function Group(ts: seq<Token>): (g: seq<Token>)
    ensures |g| <= 8 && g <= ts
    ensures ts != [] ==> g != []
  {
    ts[..Min(8, |ts|)]
  }

  /**
   * A payload holding the tokens `ts`: a mask, then the bytes of up to eight tokens,
   * and so on, the last mask selecting only the tokens left.
   */
  function EncodeTokens(ts: seq<Token>): (f: seq<byte>)
    ensures ts != [] ==> f != []
    decreases |ts|
  {
    if ts == [] then []
    else
      var g := Group(ts);
      MaskBound(g);
      [MaskOf(g)] + GroupBytes(g) + EncodeTokens(ts[|g|..])
  }

  /** The literals carrying the bytes `x`. */
  function Literals(x: seq<byte>): (ts: seq<Token>)
    ensures |ts| == |x|
  {
    if x == [] then [] else [Literal(x[0])] + Literals(x[1..])
  }

  lemma {:induction false} MaskBound(g: seq<Token>)
    requires |g| <= 8
    ensures MaskOf(g) < 256
  {
    MaskBelow(g);
  }

  lemma {:induction false} MaskBelow(g: seq<Token>)
    requires |g| <= 8
    ensures MaskOf(g) < Shift(256, 8 - |g|)
    decreases |g|
  {
    if g != [] {
      MaskBelow(g[1..]);
      ShiftHalf(256, 8 - |g|);
    }
  }

  lemma {:induction false} ShiftHalf(m: nat, k: nat)
    ensures Shift(m, k + 1) == Shift(m, k) / 2
    decreases k
  {
    if k > 0 {
      ShiftHalf(m / 2, k - 1);
    }
  }

  lemma {:induction false} MaskSelects(g: seq<Token>)
    ensures Selects(MaskOf(g), g)
    decreases |g|
  {
    if g != [] {
      MaskSelects(g[1..]);
      assert MaskOf(g) / 2 == MaskOf(g[1..]);
    }
  }

  /** `Some(g + ts)` for `Some(ts)`: the tokens `g` read before the rest. */
  function Prepend(g: seq<Token>, r: Option<seq<Token>>): (p: Option<seq<Token>>)
    ensures p.Some? == r.Some?
  {
    match r
    case None => None
    case Some(ts) => Some(g + ts)
  }

  lemma PrependTwice(g: seq<Token>, h: seq<Token>, r: Option<seq<Token>>)
    ensures Prepend(g, Prepend(h, r)) == Prepend(g + h, r)
  {
    if r.Some? {
      assert g + (h + r.value) == g + h + r.value;
    }
  }

  /** The bytes of `f` from `pos` on begin with the tokens `g`. */
  predicate Holds(f: seq<byte>, pos: nat, g: seq<Token>)
    decreases |g|
  {
    g == [] ||
    (pos + Width(g[0].Literal?) <= |f| && TokenAt(f, pos, g[0].Literal?) == g[0] &&
     Holds(f, pos + Width(g[0].Literal?), g[1..]))
  }

  /** The bytes of `f` from `pos` to `end` are the encoding of the tokens `ts`. */
  predicate EncodedAt(f: seq<byte>, pos: nat, ts: seq<Token>, end: nat)
    decreases |ts|
  {
    if ts == [] then pos == end
    else
      var g := Group(ts);
      pos < |f| && f[pos] == MaskOf(g) && Holds(f, pos + 1, g) &&
      EncodedAt(f, pos + 1 + Span(g), ts[|g|..], end)
  }

  lemma GroupSplit(ts: seq<Token>)
    ensures Group(ts) + ts[|Group(ts)|..] == ts
  {
  }

  lemma HeadSplit(g: seq<Token>)
    requires g != []
    ensures [g[0]] + g[1..] == g
  {
  }

  lemma TokensNext(f: seq<byte>, c: Cursor)
    requires c.pos <= |f| && c.bit < 8 && c.pos + Width(c.mask % 2 == 1) < |f|
    ensures Tokens(f, c) ==
      Prepend([TokenAt(f, c.pos, c.mask % 2 == 1)],
              Tokens(f, Cursor(c.pos + Width(c.mask % 2 == 1), c.mask / 2, c.bit + 1)))
  {
  }

  lemma TokensLast(f: seq<byte>, c: Cursor)
    requires c.pos <= |f| && c.bit < 8 && c.pos + Width(c.mask % 2 == 1) == |f|
    ensures Tokens(f, c) == Some([TokenAt(f, c.pos, c.mask % 2 == 1)])
  {
  }

  lemma TokensAtMask(f: seq<byte>, pos: nat, m: nat)
    requires pos < |f|
    ensures Tokens(f, Cursor(pos, m, 8)) == Tokens(f, Cursor(pos + 1, f[pos], 0))
  {
  }

  /** A group that ends the payload: its tokens are all that is read. */
  lemma {:induction false} GroupTokensEnd(f: seq<byte>, pos: nat, m: nat, bit: nat, g: seq<Token>)
    requires g != [] && bit + |g| <= 8 && Selects(m, g) && Holds(f, pos, g)
    requires pos + Span(g) == |f|
    ensures Tokens(f, Cursor(pos, m, bit)) == Some(g)
    decreases |g|
  {
    var t, rest := g[0], g[1..];
    var next := pos + Width(t.Literal?);
    if rest == [] {
      TokensLast(f, Cursor(pos, m, bit));
      assert g == [t];
    } else {
      TokensNext(f, Cursor(pos, m, bit));
      GroupTokensEnd(f, next, m / 2, bit + 1, rest);
      HeadSplit(g);
    }
  }

  lemma TokensAnyMask(f: seq<byte>, pos: nat, m: nat)
    requires pos <= |f|
    ensures Tokens(f, Cursor(pos, m, 8)) == Tokens(f, Cursor(pos, 0, 8))
  {
  }

  /** A full group followed by more payload: its tokens come before those of the rest. */
  lemma {:induction false} GroupTokensMore(f: seq<byte>, pos: nat, m: nat, bit: nat, g: seq<Token>, end: nat)
    requires g != [] && bit + |g| == 8 && Selects(m, g) && Holds(f, pos, g)
    requires end == pos + Span(g) && end < |f|
    ensures Tokens(f, Cursor(pos, m, bit)) == Prepend(g, Tokens(f, Cursor(end, 0, 8)))
    decreases |g|
  {
    var t, rest := g[0], g[1..];
    var next := pos + Width(t.Literal?);
    TokensNext(f, Cursor(pos, m, bit));
    if rest == [] {
      assert g == [t];
      TokensAnyMask(f, next, m / 2);
    } else {
      GroupTokensMore(f, next, m / 2, bit + 1, rest, end);
      HeadSplit(g);
      PrependTwice([t], rest, Tokens(f, Cursor(end, 0, 8)));
    }
  }

  /** The token list of an encoding that ends the payload. */
  lemma {:induction false} EncodedTokensEnd(f: seq<byte>, pos: nat, m: nat, ts: seq<Token>)
    requires pos <= |f| && EncodedAt(f, pos, ts, |f|)
    ensures Tokens(f, Cursor(pos, m, 8)) == Some(ts)
    decreases |ts|
  {
    if ts != [] {
      var g := Group(ts);
      var rest := ts[|g|..];
      var q1 := pos + 1 + Span(g);
      TokensAtMask(f, pos, m);
      MaskSelects(g);
      GroupSplit(ts);
      if q1 == |f| {
        assert rest == [];
        assert ts == g;
        GroupTokensEnd(f, pos + 1, MaskOf(g), 0, g);
      } else {
        assert q1 < |f| && |g| == 8;
        GroupTokensMore(f, pos + 1, MaskOf(g), 0, g, q1);
        EncodedTokensEnd(f, q1, 0, rest);
      }
    }
  }

  /** The token list of an encoding of whole groups, read before what follows it. */
  lemma {:induction false} EncodedTokensMore(f: seq<byte>, pos: nat, m: nat, ts: seq<Token>, end: nat)
    requires end < |f| && EncodedAt(f, pos, ts, end) && |ts| % 8 == 0
    ensures pos <= end
    ensures Tokens(f, Cursor(pos, m, 8)) == Prepend(ts, Tokens(f, Cursor(end, 0, 8)))
    decreases |ts|
  {
    if ts == [] {
      var r := Tokens(f, Cursor(pos, 0, 8));
      if r.Some? {
        assert [] + r.value == r.value;
      }
    } else {
      var g := Group(ts);
      var rest := ts[|g|..];
      var q1 := pos + 1 + Span(g);
      EncodedTokensMore(f, q1, 0, rest, end);
      TokensAtMask(f, pos, m);
      MaskSelects(g);
      GroupTokensMore(f, pos + 1, MaskOf(g), 0, g, q1);
      GroupSplit(ts);
      PrependTwice(g, rest, Tokens(f, Cursor(end, 0, 8)));
    }
  }

  /** The bytes of a group, wherever they are placed, hold its tokens. */
  lemma {:induction false} GroupHolds(pre: seq<byte>, g: seq<Token>, post: seq<byte>)
    ensures Holds(pre + GroupBytes(g) + post, |pre|, g)
    decreases |g|
  {
    if g != [] {
      var t := g[0];
      var f := pre + GroupBytes(g) + post;
      assert f == (pre + TokenBytes(t)) + GroupBytes(g[1..]) + post;
      GroupHolds(pre + TokenBytes(t), g[1..], post);
      assert f[|pre|] == TokenBytes(t)[0];
      if !t.Literal? {
        assert f[|pre| + 1] == TokenBytes(t)[1];
      }
    }
  }

  /** An encoding placed between `pre` and `post`, cut after its first mask and group. */
  lemma EncodingParts(pre: seq<byte>, ts: seq<Token>, post: seq<byte>)
    requires ts != []
    ensures var g := Group(ts);
      var f := pre + EncodeTokens(ts) + post;
      var mask: seq<byte> := [MaskOf(g)];
      f[|pre|] == MaskOf(g) &&
      f == (pre + mask) + GroupBytes(g) + (EncodeTokens(ts[|g|..]) + post) &&
      f == (pre + mask + GroupBytes(g)) + EncodeTokens(ts[|g|..]) + post
  {
    var g := Group(ts);
    MaskBound(g);
    var mask: seq<byte> := [MaskOf(g)];
    var gb, er := GroupBytes(g), EncodeTokens(ts[|g|..]);
    var f := pre + EncodeTokens(ts) + post;
    assert EncodeTokens(ts) == mask + gb + er;
    calc {
      f;
      pre + (mask + gb + er) + post;
      { Assoc(pre, mask + gb, er); }
      pre + (mask + gb) + er + post;
      { Assoc(pre, mask, gb); }
      pre + mask + gb + er + post;
    }
    Assoc(pre + mask + gb, er, post);
    Assoc(pre + mask, gb, er + post);
    assert f[|pre|] == (pre + mask)[|pre|];
  }

  /**
   * The encoding of `ts`, wherever it is placed, is an encoding of `ts`; `f`, `pos` and
   * `end` name the file and the two ends of the encoding.
   */
  lemma {:induction false} EncodingEncodes(pre: seq<byte>, ts: seq<Token>, post: seq<byte>, f: seq<byte>, pos: nat, end: nat)
    requires f == pre + EncodeTokens(ts) + post && pos == |pre| && end == |pre| + |EncodeTokens(ts)|
    ensures EncodedAt(f, pos, ts, end)
    decreases |ts|
  {
    if ts != [] {
      var g := Group(ts);
      var rest := ts[|g|..];
      MaskBound(g);
      var mask: seq<byte> := [MaskOf(g)];
      var pre2 := pre + mask + GroupBytes(g);
      var pos2 := pos + 1 + Span(g);
      EncodingParts(pre, ts, post);
      GroupHolds(pre + mask, g, EncodeTokens(rest) + post);
      assert Holds(f, pos + 1, g);
      EncodingEncodes(pre2, rest, post, f, pos2, end);
    }
  }

  /** The encoding of `ts`, followed by anything, is an encoding of `ts`. */
  lemma EncodingAtStart(ts: seq<Token>, post: seq<byte>)
    ensures EncodedAt(EncodeTokens(ts) + post, 0, ts, |EncodeTokens(ts)|)
  {
    EncodingEncodes([], ts, post, EncodeTokens(ts) + post, 0, |EncodeTokens(ts)|);
    assert [] + EncodeTokens(ts) + post == EncodeTokens(ts) + post;
  }

  /** Reading an encoded payload gives back its tokens. */
  lemma TokensRoundTrip(ts: seq<Token>)
    ensures Tokens(EncodeTokens(ts), Cursor(0, 0, 8)) == Some(ts)
  {
    var f := EncodeTokens(ts);
    EncodingAtStart(ts, []);
    assert f + [] == f;
    EncodedTokensEnd(f, 0, 0, ts);
  }

  /** Decoding an encoded payload applies its tokens in order. */
  lemma DecodeEncoded(ts: seq<Token>)
    ensures Decode(EncodeTokens(ts)) == Expand([], ts)
  {
    TokensRoundTrip(ts);
  }

  /** Literals append exactly their bytes. */
  lemma {:induction false} ExpandLiterals(out: seq<byte>, x: seq<byte>)
    ensures Expand(out, Literals(x)) == Some(out + x)
    decreases |x|
  {
    if x == [] {
      assert out + x == out;
    } else {
      ExpandLiterals(out + [x[0]], x[1..]);
      ExpandCons(out, Literal(x[0]), Literals(x[1..]));
      assert out + [x[0]] + x[1..] == out + x;
    }
  }

  /** Any byte string, sent as literals only, decodes to itself. */
  lemma LiteralsRoundTrip(x: seq<byte>)
    ensures Decode(EncodeTokens(Literals(x))) == Some(x)
  {
    DecodeEncoded(Literals(x));
    ExpandLiterals([], x);
    assert [] + x == x;
  }

  /** `n` one bits. */
  function Ones(n: nat): nat
  {
    if n == 0 then 0 else 1 + 2 * Ones(n - 1)
  }

  lemma {:induction false} LiteralsEncoding(x: seq<byte>)
    ensures MaskOf(Literals(x)) == Ones(|x|) && GroupBytes(Literals(x)) == x
    decreases |x|
  {
    if x != [] {
      LiteralsEncoding(x[1..]);
      var ts := Literals(x);
      assert ts[0] == Literal(x[0]) && ts[1..] == Literals(x[1..]);
      assert [x[0]] + x[1..] == x;
    }
  }

  /** `0xff` followed by eight bytes decodes to those eight bytes. */
  lemma EightLiterals(x: seq<byte>)
    requires |x| == 8
    ensures Decode([0xFF] + x) == Some(x)
  {
    var ts := Literals(x);
    LiteralsEncoding(x);
    assert Ones(8) == 0xFF;
    assert ts[..Min(8, |ts|)] == ts && ts[8..] == [];
    assert EncodeTokens(ts) == [0xFF] + x + EncodeTokens([]);
    assert EncodeTokens(ts) == [0xFF] + x;
    LiteralsRoundTrip(x);
  }

  /**
   * Decoding ends exactly when the payload is used up: every byte read is a mask or
   * belongs to a token, and no mask is read that selects nothing.
   */
  lemma {:induction false} TokensUseEveryByte(f: seq<byte>, c: Cursor, ts: seq<Token>)
    requires c.pos <= |f| && c.bit <= 8 && Tokens(f, c) == Some(ts)
    ensures c.pos + Span(ts) + Masks(c.bit, |ts|) == |f|
    decreases |f| - c.pos, 8 - c.bit
  {
    if c.bit == 8 {
      if c.pos < |f| {
        var d := Cursor(c.pos + 1, f[c.pos], 0);
        TokensUseEveryByte(f, d, ts);
        assert ts != [];
      }
    } else {
      var literal := c.mask % 2 == 1;
      var next := c.pos + Width(literal);
      var t := TokenAt(f, c.pos, literal);
      if next == |f| {
        assert ts == [t] && ts[1..] == [];
        assert Masks(c.bit + 1, 0) == 0;
      } else {
        var d := Cursor(next, c.mask / 2, c.bit + 1);
        var rest := Tokens(f, d).value;
        assert ts == [t] + rest && ts[1..] == rest;
        TokensUseEveryByte(f, d, rest);
      }
    }
  }

  /** The output grows by one pixel for each literal and by its length for each copy. */
  lemma {:induction false} ExpandLength(out: seq<byte>, ts: seq<Token>)
    requires Expand(out, ts).Some?
    ensures |Expand(out, ts).value| == |out| + Sizes(ts)
    decreases |ts|
  {
    if ts != [] {
      var o := Apply(out, ts[0]).value;
      ExpandLength(o, ts[1..]);
    }
  }

  /** A payload whose last byte would be read as a mask fails. */
  lemma TrailingMaskFails(ts: seq<Token>, m: byte)
    requires |ts| % 8 == 0
    ensures Decode(EncodeTokens(ts) + [m]) == None
  {
    var f := EncodeTokens(ts) + [m];
    EncodingAtStart(ts, [m]);
    EncodedTokensMore(f, 0, 0, ts, |EncodeTokens(ts)|);
    var e := |EncodeTokens(ts)|;
    assert f[e] == m;
    TokensAtMask(f, e, 0);
    assert Tokens(f, Cursor(e + 1, m, 0)) == None;
    assert Tokens(f, Cursor(0, 0, 8)) == None;
  }

  /** A group read from `pos` whose next token is a copy with one payload byte left for it. */
  lemma {:induction false} GroupTokensCutShort(f: seq<byte>, pos: nat, m: nat, bit: nat, g: seq<Token>)
    requires bit + |g| < 8 && Selects(m, g) && Holds(f, pos, g)
    requires pos + Span(g) + 1 == |f| && Shift(m, |g|) % 2 == 0
    ensures Tokens(f, Cursor(pos, m, bit)) == None
    decreases |g|
  {
    if g != [] {
      TokensNext(f, Cursor(pos, m, bit));
      GroupTokensCutShort(f, pos + Width(g[0].Literal?), m / 2, bit + 1, g[1..]);
    }
  }

  /**
   * A payload whose last byte would be the first of a copy command fails: after whole
   * groups, a mask whose bit `|g|` selects a copy, the `g` tokens before it and one byte.
   */
  lemma TrailingHalfCommandFails(ts: seq<Token>, m: byte, g: seq<Token>, lo: byte)
    requires |ts| % 8 == 0 && |g| < 8 && Selects(m, g) && Shift(m, |g|) % 2 == 0
    ensures Decode(EncodeTokens(ts) + [m] + GroupBytes(g) + [lo]) == None
  {
    var pre := EncodeTokens(ts) + [m];
    var f := pre + GroupBytes(g) + [lo];
    var e := |EncodeTokens(ts)|;
    assert f == EncodeTokens(ts) + ([m] + GroupBytes(g) + [lo]);
    EncodingAtStart(ts, [m] + GroupBytes(g) + [lo]);
    EncodedTokensMore(f, 0, 0, ts, e);
    assert f[e] == m;
    TokensAtMask(f, e, 0);
    GroupHolds(pre, g, [lo]);
    GroupTokensCutShort(f, e + 1, m, 0, g);
  }

  /** A copy before any pixel is written has nothing to read: the first token must be a literal. */
  lemma FirstTokenMustBeLiteral(f: seq<byte>)
    requires f != [] && f[0] % 2 == 0
    ensures Decode(f) == None
  {
    var c := Cursor(1, f[0], 0);
    TokensAtMask(f, 0, 0);
    if 3 <= |f| {
      var l, a := CopyLength(f[2]), CopyAddress(f[1], f[2]);
      CopyRunDefined([], Source(0, a), l);
      if 3 < |f| {
        match Tokens(f, Cursor(3, f[0] / 2, 1))
        case None =>
        case Some(ts) => ExpandCons([], Copy(f[1], f[2]), ts);
      } else {
        ExpandCons([], Copy(f[1], f[2]), []);
        assert [Copy(f[1], f[2])] + [] == [Copy(f[1], f[2])];
      }
    }
  }

  /**
   * A copy whose source is the byte just written repeats it: a literal `x` and the
   * command `ee f?`, which asks for the window address 0, decode to `l + 1` copies of `x`.
   */
  lemma OverlappingRun(x: byte, l: nat)
    requires 3 <= l <= 18
    ensures Decode([0x01, x, 0xEE, 0xF0 + (l - 3)]) == Some(seq(l + 1, _ => x))
  {
    var f: seq<byte> := [0x01, x, 0xEE, 0xF0 + (l - 3)];
    var lit, cmd := Literal(x), Copy(0xEE, 0xF0 + (l - 3));
    OverlappingTokens(x, l);
    assert CopyAddress(0xEE, 0xF0 + (l - 3)) == 0 && CopyLength(0xF0 + (l - 3)) == l;
    assert Source(1, 0) == 0;
    CopyRunRepeatsLast([x], l);
    assert [x] + seq(l, _ => x) == seq(l + 1, _ => x);
    ExpandCons([], lit, [cmd]);
    ExpandCons([x], cmd, []);
    assert [lit, cmd][1..] == [cmd] && [lit, cmd] == [lit] + [cmd] && [cmd] == [cmd] + [];
    assert [] + [x] == [x];
  }

  /** The tokens of the payload of `OverlappingRun`: the literal, then the command. */
  lemma OverlappingTokens(x: byte, l: nat)
    requires 3 <= l <= 18
    ensures Tokens([0x01, x, 0xEE, 0xF0 + (l - 3)], Cursor(0, 0, 8)) == Some([Literal(x), Copy(0xEE, 0xF0 + (l - 3))])
  {
    var f: seq<byte> := [0x01, x, 0xEE, 0xF0 + (l - 3)];
    var lit, cmd := Literal(x), Copy(0xEE, 0xF0 + (l - 3));
    TokensAtMask(f, 0, 0);
    TokensNext(f, Cursor(1, 1, 0));
    TokensLast(f, Cursor(2, 0, 1));
    assert [lit] + [cmd] == [lit, cmd];
  }

  // The imperative decoder

  lemma ContinueMask(f: seq<byte>, pos: nat, mask: nat, out: seq<byte>)
    requires pos < |f|
    ensures Continue(f, Cursor(pos, mask, 8), out) == Continue(f, Cursor(pos + 1, f[pos], 0), out)
  {
  }

  lemma ContinueAnyMask(f: seq<byte>, pos: nat, mask: nat, out: seq<byte>)
    requires pos <= |f|
    ensures Continue(f, Cursor(pos, mask, 8), out) == Continue(f, Cursor(pos, 0, 8), out)
  {
  }

  lemma ContinueEnd(f: seq<byte>, mask: nat, out: seq<byte>)
    ensures Continue(f, Cursor(|f|, mask, 8), out) == Some(out)
  {
  }

  lemma ExpandCons(out: seq<byte>, t: Token, ts: seq<Token>)
    ensures Expand(out, [t] + ts) ==
      match Apply(out, t)
      case None => None
      case Some(o) => Expand(o, ts)
  {
    assert ([t] + ts)[0] == t && ([t] + ts)[1..] == ts;
  }

  /** A token that does not fit in the rest of the payload is the IndexError. */
  lemma ContinueCutShort(f: seq<byte>, c: Cursor, out: seq<byte>)
    requires c.pos <= |f| && c.bit < 8 && c.pos + Width(c.mask % 2 == 1) > |f|
    ensures Continue(f, c, out) == None
  {
  }

  /** A token whose copy reaches outside the output is the IndexError. */
  lemma ContinueBadToken(f: seq<byte>, c: Cursor, out: seq<byte>)
    requires c.pos <= |f| && c.bit < 8 && c.pos + Width(c.mask % 2 == 1) <= |f|
    requires Apply(out, TokenAt(f, c.pos, c.mask % 2 == 1)).None?
    ensures Continue(f, c, out) == None
  {
    var t := TokenAt(f, c.pos, c.mask % 2 == 1);
    var next := c.pos + Width(c.mask % 2 == 1);
    if next == |f| {
      ExpandCons(out, t, []);
      assert [t] + [] == [t];
    } else {
      match Tokens(f, Cursor(next, c.mask / 2, c.bit + 1))
      case None =>
      case Some(ts) => ExpandCons(out, t, ts);
    }
  }

  /** A token that applies to `out` giving `o` and ends the payload ends the decoding. */
  lemma ContinueLastToken(f: seq<byte>, c: Cursor, out: seq<byte>, o: seq<byte>)
    requires c.pos <= |f| && c.bit < 8 && c.pos + Width(c.mask % 2 == 1) == |f|
    requires Apply(out, TokenAt(f, c.pos, c.mask % 2 == 1)) == Some(o)
    ensures Continue(f, c, out) == Some(o)
  {
    var t := TokenAt(f, c.pos, c.mask % 2 == 1);
    ExpandCons(out, t, []);
    assert [t] + [] == [t];
  }

  /** A token that applies to `out` giving `o` leaves the decoding of the rest. */
  lemma ContinueNextToken(f: seq<byte>, c: Cursor, out: seq<byte>, o: seq<byte>)
    requires c.pos <= |f| && c.bit < 8 && c.pos + Width(c.mask % 2 == 1) < |f|
    requires Apply(out, TokenAt(f, c.pos, c.mask % 2 == 1)) == Some(o)
    ensures Continue(f, c, out) == Continue(f, Cursor(c.pos + Width(c.mask % 2 == 1), c.mask / 2, c.bit + 1), o)
  {
    var t := TokenAt(f, c.pos, c.mask % 2 == 1);
    match Tokens(f, Cursor(c.pos + Width(c.mask % 2 == 1), c.mask / 2, c.bit + 1))
    case None =>
    case Some(ts) => ExpandCons(out, t, ts);
  }

  /** The copy loop of `Lzp.__getitem__` (lines 68-74), one byte at a time. */
  method CopyBytes(pixels: seq<byte>, p: int, l: nat) returns (r: Option<seq<byte>>)
    ensures r == CopyRun(pixels, p, l)
  {
    var out, q := pixels, p;
    for k := 0 to l
      invariant CopyRun(pixels, p, l) == CopyRun(out, q, l - k)
    {
      if !(-|out| <= q < |out|) {
        return None;
      }
      out := out + [if q >= 0 then out[q] else out[|out| + q]];
      q := q + 1;
    }
    r := Some(out);
  }

  /**
   * One pass of the eight-bit loop of `Lzp.__getitem__` (lines 52-77): the
   * literal or copy token selected by the low bit of `mask`. `ok` is false for the
   * IndexError; otherwise `next` is the new read position and `out` the new output.
   */
  method DecodeToken(f: seq<byte>, pos: nat, mask: nat, pixels: seq<byte>)
    returns (ok: bool, next: nat, out: seq<byte>)
    requires pos <= |f|
    ensures next == pos + Width(mask % 2 == 1)
    ensures ok <==> next <= |f| && Apply(pixels, TokenAt(f, pos, mask % 2 == 1)).Some?
    ensures ok ==> Apply(pixels, TokenAt(f, pos, mask % 2 == 1)) == Some(out)
  {
    if mask % 2 == 1 {
      if pos >= |f| {
        return false, pos + 1, pixels;
      }
      ok, next, out := true, pos + 1, pixels + [f[pos]];
    } else {
      if pos + 2 > |f| {
        return false, pos + 2, pixels;
      }
      var lo, hi := f[pos], f[pos + 1];
      var l := CopyLength(hi);
      var a := CopyAddress(lo, hi);
      var c := BlockBase(|pixels|);
      var p: int := a + c;
      if p > |pixels| {
        p := p - 0x1000;
      }
      assert p == Source(|pixels|, a);
      var copied := CopyBytes(pixels, p, l);
      if copied.None? {
        return false, pos + 2, pixels;
      }
      ok, next, out := true, pos + 2, copied.value;
    }
  }

  /**
   * The eight-bit loop of `Lzp.__getitem__` (lines 52-78) for the mask `mask`
   * read just before `pos`. `ok` is false for the IndexError; otherwise decoding goes
   * on at `next` with a fresh mask and the output `out`.
   */
  method DecodeGroup(f: seq<byte>, pos: nat, mask: byte, pixels: seq<byte>)
    returns (ok: bool, next: nat, out: seq<byte>)
    requires pos <= |f|
    ensures ok ==> pos <= next <= |f|
    ensures ok ==> Continue(f, Cursor(pos, mask, 0), pixels) == Continue(f, Cursor(next, 0, 8), out)
    ensures !ok ==> Continue(f, Cursor(pos, mask, 0), pixels) == None
  {
    var m: nat := mask;
    next, out := pos, pixels;
    for i := 0 to 8
      invariant pos <= next <= |f|
      invariant Continue(f, Cursor(pos, mask, 0), pixels) == Continue(f, Cursor(next, m, i), out)
    {
      ghost var c := Cursor(next, m, i);
      ghost var before := out;
      var good, after, o := DecodeToken(f, next, m, out);
      if !good {
        if after > |f| {
          ContinueCutShort(f, c, before);
        } else {
          ContinueBadToken(f, c, before);
        }
        return false, next, out;
      }
      next, out := after, o;
      if next == |f| {
        ContinueLastToken(f, c, before, o);
        ContinueEnd(f, 0, out);
        return true, next, out;
      }
      ContinueNextToken(f, c, before, o);
      m := m / 2;
    }
    ContinueAnyMask(f, next, m, out);
    ok := true;
  }

  /** The decompression loop of `Lzp.__getitem__` (lines 46-81). */
  method Decompress(f: seq<byte>) returns (r: Option<seq<byte>>)
    ensures r == Decode(f)
  {
    var pos := 0;
    var pixels: seq<byte> := [];
    while pos < |f|
      invariant pos <= |f|
      invariant Decode(f) == Continue(f, Cursor(pos, 0, 8), pixels)
      decreases |f| - pos
    {
      var mask := f[pos];
      ContinueMask(f, pos, 0, pixels);
      var ok;
      ok, pos, pixels := DecodeGroup(f, pos + 1, mask, pixels);
      if !ok {
        return None;
      }
    }
    ContinueEnd(f, 0, pixels);
    r := Some(pixels);
  }
}
