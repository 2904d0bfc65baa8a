/** What the 32-bit digest collector of include/crypto/md32_common.h computes: the chaining fold,
    the closing padding, and the effect of one update on a context seen as a value. */
module Md32Spec {
  import opened Arithmetic
  import opened ByteStream

  datatype ByteOrder = BigEndian | LittleEndian

  /** The macros an including file has to define, and the widths of the C types involved.
      `compress` is one step of HASH_BLOCK_DATA_ORDER and is not interpreted. */
  datatype Params<!S> = Params(
    cblock: nat,
    order: ByteOrder,
    longBits: nat,
    sizeBits: nat,
    compress: (S, seq<byte>) -> S,
    makeString: S -> seq<byte>)
  {
    /** HASH_CBLOCK holds the 8-byte length field, fits `unsigned int num`, and is at most half the
        range of size_t; HASH_LONG has at least 32 bits. */
    ghost predicate Valid() {
      && 8 <= cblock <= TWO_32
      && 2 * cblock <= Pow2(sizeBits)
      && 32 <= longBits
    }

    /** The value range of HASH_LONG. */
    function LongRange(): nat { Pow2(longBits) }

    /** The range of the two-word bit counter: Nl holds 32 bits, Nh a whole HASH_LONG. */
    function CountRange(): (r: nat)
      ensures r > 0
    {
      LongRange() * TWO_32
    }
  }

  lemma {:induction false} LongRangeMultiple<S>(p: Params<S>)
    requires p.Valid()
    ensures p.LongRange() % TWO_32 == 0
    ensures p.LongRange() >= TWO_32
  {
    Pow2Of32();
    Pow2Sum(p.longBits - 32, 32);
    MulGrows(Pow2(p.longBits - 32), TWO_32);
    DivModUnique(p.LongRange(), Pow2(p.longBits - 32), 0, TWO_32);
  }

  // ----- Byte order -----

  /** HOST_l2c: the low 32 bits of a HASH_LONG, as four bytes. */
  function HostL2C(order: ByteOrder, l: nat): (b: seq<byte>)
    ensures |b| == 4
  {
    match order
    case BigEndian => [l / 0x100_0000 % 256, l / 0x1_0000 % 256, l / 0x100 % 256, l % 256]
    case LittleEndian => [l % 256, l / 0x100 % 256, l / 0x1_0000 % 256, l / 0x100_0000 % 256]
  }

  /** HOST_c2l: four bytes as a number; or-ing disjoint bit ranges is addition. */
  function HostC2L(order: ByteOrder, b: seq<byte>): (l: nat)
    requires |b| == 4
    ensures l < TWO_32
  {
    match order
    case BigEndian => Word(b[0], b[1], b[2], b[3])
    case LittleEndian => Word(b[3], b[2], b[1], b[0])
  }

  function Word(b3: nat, b2: nat, b1: nat, b0: nat): nat {
    b3 * 0x100_0000 + b2 * 0x1_0000 + b1 * 0x100 + b0
  }

  /** The bytes of a word, and the word of four bytes. */
  lemma {:induction false} WordBytes(l: nat, b3: nat, b2: nat, b1: nat, b0: nat)
    requires b3 < 256 && b2 < 256 && b1 < 256 && b0 < 256
    requires l % TWO_32 == Word(b3, b2, b1, b0)
    ensures l % 256 == b0 && l / 0x100 % 256 == b1
    ensures l / 0x1_0000 % 256 == b2 && l / 0x100_0000 % 256 == b3
  {
    var q := l / TWO_32;
    assert l == q * TWO_32 + Word(b3, b2, b1, b0);
    DivModUnique(l, q * 0x100_0000 + b3 * 0x1_0000 + b2 * 0x100 + b1, b0, 256);
    DivModUnique(l, q * 0x1_0000 + b3 * 0x100 + b2, b1 * 0x100 + b0, 0x1_0000);
    DivModUnique(l, q * 0x100 + b3, b2 * 0x1_0000 + b1 * 0x100 + b0, 0x100_0000);
    DivModUnique(l / 0x100, q * 0x1_0000 + b3 * 0x100 + b2, b1, 256);
    DivModUnique(l / 0x1_0000, q * 0x100 + b3, b2, 256);
    DivModUnique(l / 0x100_0000, q, b3, 256);
  }

  lemma {:induction false} WordSplit(l: nat) returns (b3: nat, b2: nat, b1: nat, b0: nat)
    ensures b3 < 256 && b2 < 256 && b1 < 256 && b0 < 256
    ensures l % TWO_32 == Word(b3, b2, b1, b0)
  {
    var w := l % TWO_32;
    b0, w := w % 256, w / 256;
    b1, w := w % 256, w / 256;
    b2, b3 := w % 256, w / 256;
  }

  function OrderedBytes(order: ByteOrder, b3: byte, b2: byte, b1: byte, b0: byte): seq<byte> {
    match order
    case BigEndian => [b3, b2, b1, b0]
    case LittleEndian => [b0, b1, b2, b3]
  }

  lemma {:induction false} HostL2CBytes(order: ByteOrder, l: nat, b3: byte, b2: byte, b1: byte, b0: byte)
    requires l % TWO_32 == Word(b3, b2, b1, b0)
    ensures HostL2C(order, l) == OrderedBytes(order, b3, b2, b1, b0)
  {
    WordBytes(l, b3, b2, b1, b0);
  }

  lemma {:induction false} HostRoundTrip(order: ByteOrder, l: nat)
    ensures HostC2L(order, HostL2C(order, l)) == l % TWO_32
  {
    var b3, b2, b1, b0 := WordSplit(l);
    HostL2CBytes(order, l, b3, b2, b1, b0);
  }

  lemma {:induction false} HostRoundTripBytes(order: ByteOrder, b: seq<byte>)
    requires |b| == 4
    ensures HostL2C(order, HostC2L(order, b)) == b
  {
    var l := HostC2L(order, b);
    SmallMod(l, TWO_32);
    match order
    case BigEndian => HostL2CBytes(order, l, b[0], b[1], b[2], b[3]);
    case LittleEndian => HostL2CBytes(order, l, b[3], b[2], b[1], b[0]);
  }

  /** Only the low 32 bits of the word reach the output. */
  lemma {:induction false} HostL2CLow(order: ByteOrder, l: nat)
    ensures HostL2C(order, l) == HostL2C(order, l % TWO_32)
  {
    var b3, b2, b1, b0 := WordSplit(l);
    SmallMod(l % TWO_32, TWO_32);
    HostL2CBytes(order, l, b3, b2, b1, b0);
    HostL2CBytes(order, l % TWO_32, b3, b2, b1, b0);
  }

  // ----- Chaining -----

  /** HASH_BLOCK_DATA_ORDER over consecutive blocks, first block first. */
  function Fold<S>(p: Params<S>, h: S, s: seq<byte>): S
    requires p.cblock > 0
    decreases |s|
  {
    if |s| < p.cblock then h
    else p.compress(Fold(p, h, s[..|s| - p.cblock]), s[|s| - p.cblock..])
  }

  lemma {:induction false} FoldAppend<S>(p: Params<S>, h: S, s: seq<byte>, block: seq<byte>)
    requires p.cblock > 0 && |block| == p.cblock
    ensures Fold(p, h, s + block) == p.compress(Fold(p, h, s), block)
  {
    assert (s + block)[..|s|] == s && (s + block)[|s|..] == block;
  }

  lemma {:induction false} FoldConcat<S>(p: Params<S>, h: S, a: seq<byte>, b: seq<byte>)
    requires p.cblock > 0 && Rem(|b|, p.cblock) == 0
    ensures Fold(p, h, a + b) == Fold(p, Fold(p, h, a), b)
    decreases |b|, 1
  {
    if |b| < p.cblock {
      assert a + b == a;
    } else {
      FoldConcatBlock(p, h, a, b[..|b| - p.cblock], b[|b| - p.cblock..]);
      assert b == b[..|b| - p.cblock] + b[|b| - p.cblock..];
    }
  }

  lemma {:induction false} FoldConcatBlock<S>(p: Params<S>, h: S, a: seq<byte>, init: seq<byte>, last: seq<byte>)
    requires p.cblock > 0 && Rem(|init|, p.cblock) == 0 && |last| == p.cblock
    ensures Fold(p, h, a + (init + last)) == Fold(p, Fold(p, h, a), init + last)
    decreases |init + last|, 0
  {
    calc {
      Fold(p, h, a + (init + last));
      { assert a + (init + last) == (a + init) + last; }
      Fold(p, h, (a + init) + last);
      { FoldAppend(p, h, a + init, last); }
      p.compress(Fold(p, h, a + init), last);
      { FoldConcat(p, h, a, init); }
      p.compress(Fold(p, Fold(p, h, a), init), last);
      { FoldAppend(p, Fold(p, h, a), init, last); }
      Fold(p, Fold(p, h, a), init + last);
    }
  }

  // ----- Padding (RFC 1321 sections 3.1 and 3.2, FIPS 180-4 section 5.1.1) -----

  /** How many zero bytes follow 0x80 when n message bytes have been fed. */
  function PadZeros<S>(p: Params<S>, n: nat): nat
    requires p.cblock > 0
  {
    Gap(n + 9, p.cblock)
  }

  function LengthField(order: ByteOrder, hi: nat, lo: nat): (f: seq<byte>)
    ensures |f| == 8
  {
    match order
    case BigEndian => HostL2C(order, hi) + HostL2C(order, lo)
    case LittleEndian => HostL2C(order, lo) + HostL2C(order, hi)
  }

  /** 256 to the i. */
  function Radix(i: nat): nat
    requires i < 8
  {
    [0x1, 0x100, 0x1_0000, 0x100_0000, 0x1_0000_0000, 0x100_0000_0000, 0x1_0000_0000_0000, 0x100_0000_0000_0000][i]
  }

  /** Byte i of a number written in n bytes, most or least significant byte first. */
  function DigitAt(order: ByteOrder, bits: nat, n: nat, i: nat): nat
    requires i < n <= 8
  {
    bits / Radix(if order == BigEndian then n - 1 - i else i) % 256
  }

  /** HOST_l2c writes the base 256 digits of the word in the order of the bytes. */
  lemma {:induction false} HostDigits(order: ByteOrder, l: nat)
    ensures forall i :: 0 <= i < 4 ==> HostL2C(order, l)[i] == DigitAt(order, l, 4, i)
  {}

  lemma {:induction false} LowDigit(bits: nat, r: nat, m: nat)
    requires m * r == TWO_32 && m > 0 && r > 0 && m % 256 == 0
    ensures bits % TWO_32 / r % 256 == bits / r % 256
  {
    ModProduct(bits, m, r);
    ModOfMultiple(bits / r, m, 256);
  }

  lemma {:induction false} HighDigits(bits: nat)
    ensures bits / TWO_32 / 0x100 == bits / 0x100_0000_0000
    ensures bits / TWO_32 / 0x1_0000 == bits / 0x1_0000_0000_0000
    ensures bits / TWO_32 / 0x100_0000 == bits / 0x100_0000_0000_0000
  {}

  /** The length field holds the eight base 256 digits of the 64-bit count, in the order of the bytes. */
  lemma {:induction false} LengthFieldDigits(order: ByteOrder, bits: nat)
    ensures forall i :: 0 <= i < 8 ==> LengthField(order, bits / TWO_32, bits % TWO_32)[i] == DigitAt(order, bits, 8, i)
  {
    LowDigit(bits, 1, TWO_32);
    LowDigit(bits, 0x100, 0x100_0000);
    LowDigit(bits, 0x1_0000, 0x1_0000);
    LowDigit(bits, 0x100_0000, 0x100);
    HighDigits(bits);
  }

  /** The bit count a length field holds. */
  function FieldValue(order: ByteOrder, f: seq<byte>): (bits: nat)
    requires |f| == 8
  {
    match order
    case BigEndian => HostC2L(order, f[..4]) * TWO_32 + HostC2L(order, f[4..])
    case LittleEndian => HostC2L(order, f[4..]) * TWO_32 + HostC2L(order, f[..4])
  }

  /** The whole message as the compression function sees it. */
  function Pad<S>(p: Params<S>, m: seq<byte>): seq<byte>
    requires p.cblock > 0
  {
    m + [0x80] + Zeros(PadZeros(p, |m|)) + LengthField(p.order, 8 * |m| / TWO_32, 8 * |m| % TWO_32)
  }

  /** The padded length is a whole number of blocks, and no smaller run of zeros would do. */
  lemma {:induction false} PadZerosLeast<S>(p: Params<S>, n: nat, z: nat)
    requires p.Valid()
    ensures (n + 9 + PadZeros(p, n)) % p.cblock == 0
    ensures (n + 9 + z) % p.cblock == 0 ==> PadZeros(p, n) <= z
  {
    GapLeast(n + 9, p.cblock, z);
    RemIsMod(n + 9 + PadZeros(p, n), p.cblock);
    RemIsMod(n + 9 + z, p.cblock);
  }

  /** With num bytes pending the close takes one block if the 9 extra bytes fit, and two otherwise. */
  lemma {:induction false} PadZerosOfPending<S>(p: Params<S>, num: nat)
    requires p.Valid() && num < p.cblock
    ensures num + 9 + PadZeros(p, num) == if num + 9 <= p.cblock then p.cblock else 2 * p.cblock
  {
    assert num + 9 == p.cblock ==> Rem(num + 9, p.cblock) == Rem(0, p.cblock);
    assert num + 9 > p.cblock ==> Rem(num + 9, p.cblock) == Rem(num + 9 - p.cblock, p.cblock);
  }

  // ----- A context as a value -----

  /** The buffer is split at num: `pending` is data[0..num), `tail` the bytes behind it. */
  datatype Ctx<S> = Ctx(h: S, Nl: nat, Nh: nat, pending: seq<byte>, tail: seq<byte>)
  {
    function num(): nat { |pending| }

    function data(): seq<byte> { pending + tail }
  }

  ghost predicate WellFormed<S>(p: Params<S>, c: Ctx<S>) {
    && p.Valid()
    && |c.pending| + |c.tail| == p.cblock
    && c.num() < p.cblock
    && c.Nl < TWO_32
    && c.Nh < p.LongRange()
  }

  /** "keep it zeroed": nothing but zeros behind the pending bytes. */
  ghost predicate ZeroTail<S>(c: Ctx<S>) {
    c.tail == Zeros(|c.tail|)
  }

  function InitCtx<S>(p: Params<S>, h: S): Ctx<S> {
    Ctx(h, 0, 0, [], Zeros(p.cblock))
  }

  function BitCount<S>(c: Ctx<S>): nat { c.Nh * TWO_32 + c.Nl }

  /** The whole blocks at the front of a byte sequence, and the bytes left over. */
  function Blocks<S>(p: Params<S>, s: seq<byte>): (b: seq<byte>)
    requires p.cblock > 0
    ensures b + Left(p, s) == s
    ensures Rem(|b|, p.cblock) == 0
  {
    RemRest(|s|, p.cblock);
    s[..|s| - Rem(|s|, p.cblock)]
  }

  function Left<S>(p: Params<S>, s: seq<byte>): (l: seq<byte>)
    requires p.cblock > 0
    ensures |l| == Rem(|s|, p.cblock)
  {
    s[|s| - Rem(|s|, p.cblock)..]
  }

  /** What stands in the buffer behind `rest` pending bytes: an update that completes a block begun
      earlier clears the buffer, every other update leaves the old bytes in place. */
  function TailAfter<S>(p: Params<S>, c: Ctx<S>, len: nat, rest: nat): (t: seq<byte>)
    requires |c.pending| + |c.tail| == p.cblock && rest <= p.cblock
    ensures |t| == p.cblock - rest
  {
    if c.num() != 0 && c.num() + len >= p.cblock then Zeros(p.cblock - rest) else c.data()[rest..]
  }

  /** The counter after len more bytes, in a range of Nh and Nl together. */
  ghost function CountAfter<S>(p: Params<S>, c: Ctx<S>, len: nat): (bits: nat)
    requires WellFormed(p, c)
    ensures bits / TWO_32 < p.LongRange()
  {
    Rem(BitCount(c) + 8 * len, p.CountRange())
  }

  ghost function Counted<S>(p: Params<S>, c: Ctx<S>, len: nat): (r: Ctx<S>)
    requires WellFormed(p, c)
    ensures WellFormed(p, r)
  {
    var bits := CountAfter(p, c, len);
    c.(Nl := bits % TWO_32, Nh := bits / TWO_32)
  }

  /** Compress every whole block of pending bytes followed by the message, and keep the remainder. */
  function Chain<S>(p: Params<S>, c: Ctx<S>, msg: seq<byte>): (r: Ctx<S>)
    requires p.cblock > 0 && |c.pending| + |c.tail| == p.cblock
    ensures |r.pending| + |r.tail| == p.cblock && r.num() < p.cblock
  {
    var left := Left(p, c.pending + msg);
    c.(h := Fold(p, c.h, Blocks(p, c.pending + msg)), pending := left, tail := TailAfter(p, c, |msg|, |left|))
  }

  /** The context after absorbing a message: its bits are counted and its blocks chained. */
  ghost function Absorb<S>(p: Params<S>, c: Ctx<S>, msg: seq<byte>): (r: Ctx<S>)
    requires WellFormed(p, c)
    ensures WellFormed(p, r)
  {
    var d := Counted(p, c, |msg|);
    Chain(p, c, msg).(Nl := d.Nl, Nh := d.Nh)
  }

  /** The digest-relevant closing step: pad what is pending and compress it. */
  ghost function Close<S>(p: Params<S>, c: Ctx<S>): Ctx<S>
    requires WellFormed(p, c)
  {
    var last := [0x80] + Zeros(PadZeros(p, c.num())) + LengthField(p.order, c.Nh, c.Nl);
    Ctx(Fold(p, c.h, c.pending + last), c.Nl, c.Nh, [], Zeros(p.cblock))
  }

  ghost function Digest<S>(p: Params<S>, c: Ctx<S>): seq<byte>
    requires WellFormed(p, c)
  {
    p.makeString(Close(p, c).h)
  }
}
