/** mir_md5_append, mir_md5_finish and mir_md5_hash of src/mir_core/src/md5.cpp: a second streaming hash,
    written without num, without clearing its buffer, and closed by appending the padding as data. It is
    compared with the collector of md32_common.h for a block of 64 bytes and little-endian order. */
module MirMd5 {
  import opened Arithmetic
  import opened ByteStream
  import opened Md32Spec
  import opened Md32Stream
  import opened Sequences
  import Md32Collision

  /** The parameters md5.cpp has built in: uint32_t counts, and a size_t of at least 32 bits. */
  ghost predicate IsMd5<S>(p: Params<S>) {
    p.Valid() && p.cblock == 64 && p.order == LittleEndian && p.longBits == 32 && p.sizeBits >= 32
  }

  // ----- The message length -----

  /** Every length below 2^32 bytes, and every other one whose multiple of 2^32 escapes count[1]. */
  ghost predicate Countable(msg: seq<byte>) { |msg| / TWO_32 % 0x2000_0000 == 0 }

  /** (count[0] >> 3) & 63 */
  function Offset(count0: nat): nat { count0 / 8 % 64 }

  /** count[0] and count[1] after n more bytes. */
  function CountMore(count0: nat, count1: nat, n: nat, sizeRange: nat): (nat, nat)
    requires sizeRange > 0
  {
    var nbits := Rem(n * 8, sizeRange) % TWO_32;
    var high := (count1 + n % TWO_32 / 0x2000_0000) % TWO_32;
    var low := (count0 + nbits) % TWO_32;
    (low, if low < nbits then (high + 1) % TWO_32 else high)
  }

  /** The same state as Absorb leaves, up to the high word of the count. */
  ghost function Md5Absorb<S>(p: Params<S>, c: Ctx<S>, msg: seq<byte>): (r: Ctx<S>)
    requires WellFormed(p, c) && IsMd5(p)
    ensures WellFormed(p, r)
  {
    Pow2Of32();
    Absorb(p, c, msg).(Nh := CountMore(c.Nl, c.Nh, |msg|, Pow2(p.sizeBits)).1)
  }

  lemma {:induction false} SizeRangeMultiple<S>(p: Params<S>, n: nat)
    requires IsMd5(p)
    ensures Rem(n * 8, Pow2(p.sizeBits)) % TWO_32 == n * 8 % TWO_32
  {
    RemIsMod(n * 8, Pow2(p.sizeBits));
    Pow2Of32();
    Pow2Sum(p.sizeBits - 32, 32);
    DivModUnique(Pow2(p.sizeBits), Pow2(p.sizeBits - 32), 0, TWO_32);
    ModOfMultiple(n * 8, Pow2(p.sizeBits), TWO_32);
  }

  /** The high word before reduction: what the collector adds, and what the truncated shift adds. */
  lemma {:induction false} HighWords(c1: nat, n: nat, carry: nat)
    requires carry <= 1
    ensures var full, cut := c1 + carry + n / 0x2000_0000, c1 + carry + n % TWO_32 / 0x2000_0000;
            && full == cut + 8 * (n / TWO_32)
            && (full % TWO_32 == cut % TWO_32 <==> n / TWO_32 % 0x2000_0000 == 0)
  {}

  lemma {:induction false} LowWordAndCarry<S>(p: Params<S>, c0: nat, c1: nat, n: nat)
    requires IsMd5(p) && c0 < TWO_32 && c1 < TWO_32
    ensures var l := (c0 + 8 * n) % TWO_32;
            var cut := c1 + Carry(c0, n) + n % TWO_32 / 0x2000_0000;
            CountMore(c0, c1, n, Pow2(p.sizeBits)) == (l, cut % TWO_32)
  {
    SizeRangeMultiple(p, n);
    var nbits := n * 8 % TWO_32;
    ModAddLeft(n * 8, c0, TWO_32);
    if c0 + nbits < TWO_32 {
      SmallMod(c0 + nbits, TWO_32);
    } else {
      DivModUnique(c0 + nbits, 1, c0 + nbits - TWO_32, TWO_32);
    }
    ModAddLeft(c1 + n % TWO_32 / 0x2000_0000, 1, TWO_32);
  }

  lemma {:induction false} CollectorCounts<S>(p: Params<S>, c: Ctx<S>, n: nat)
    requires WellFormed(p, c) && IsMd5(p)
    ensures Counted(p, c, n).Nl == (c.Nl + 8 * n) % TWO_32
    ensures Counted(p, c, n).Nh == (c.Nh + Carry(c.Nl, n) + n / 0x2000_0000) % TWO_32
  {
    Pow2Of32();
    CountedDigits(p, c, n);
    RemIsMod(c.Nh + Carry(c.Nl, n) + n / 0x2000_0000, TWO_32);
  }

  lemma {:induction false} CountsAgreeExactly<S>(p: Params<S>, c: Ctx<S>, n: nat)
    requires WellFormed(p, c) && IsMd5(p)
    ensures var (low, high) := CountMore(c.Nl, c.Nh, n, Pow2(p.sizeBits));
            && low == Counted(p, c, n).Nl == (c.Nl + 8 * n) % TWO_32
            && (high == Counted(p, c, n).Nh <==> n / TWO_32 % 0x2000_0000 == 0)
  {
    Pow2Of32();
    CollectorCounts(p, c, n);
    LowWordAndCarry(p, c.Nl, c.Nh, n);
    HighWords(c.Nh, n, Carry(c.Nl, n));
  }

  /** mir_md5_append agrees with HASH_UPDATE exactly as long as the length it truncates to 32 bits loses
      nothing that count[1] could show. */
  lemma {:induction false} AppendExactly<S>(p: Params<S>, c: Ctx<S>, msg: seq<byte>)
    requires WellFormed(p, c) && IsMd5(p)
    ensures SameLive(Md5Absorb(p, c, msg), Absorb(p, c, msg)) <==> Countable(msg)
  {
    CountsAgreeExactly(p, c, |msg|);
  }

  /** Four gigabytes in one call are lost from the count, although the code accepts them. */
  lemma {:induction false} FourGigabytesLost<S>(p: Params<S>, c: Ctx<S>) returns (msg: seq<byte>)
    requires WellFormed(p, c) && IsMd5(p) && p.sizeBits == 64
    ensures |msg| == TWO_32 && Offset(c.Nl) + |msg| < Pow2(p.sizeBits)
    ensures !Countable(msg) && !SameLive(Md5Absorb(p, c, msg), Absorb(p, c, msg))
  {
    msg := seq(TWO_32, _ => 0);
    RoomForFourGigabytes(p, Offset(c.Nl));
    AppendExactly(p, c, msg);
    assert !Countable(msg);
  }

  lemma {:induction false} RoomForFourGigabytes<S>(p: Params<S>, offset: nat)
    requires p.sizeBits == 64 && offset < 64
    ensures offset + TWO_32 < Pow2(p.sizeBits)
  {
    Pow2Of32();
    Pow2Sum(32, 32);
  }

  lemma {:induction false} AppendNothing<S>(p: Params<S>, c: Ctx<S>, msg: seq<byte>)
    requires WellFormed(p, c) && IsMd5(p) && msg == []
    ensures SameLive(c, Md5Absorb(p, c, msg))
  {
    AbsorbEmpty(p, c);
    AppendExactly(p, c, msg);
  }

  /** A block completed by the message, then the rest of it. */
  lemma {:induction false} FoldAfterFirst<S>(p: Params<S>, h: S, first: seq<byte>, rest: seq<byte>)
    requires IsMd5(p) && |first| == 64
    ensures Fold(p, h, Blocks(p, first + rest)) == Fold(p, p.compress(h, first), Blocks(p, rest))
    ensures Left(p, first + rest) == Left(p, rest)
  {
    OneBlock(p, h, first);
    FullBlockFirst(p, first, rest);
    FoldConcat(p, h, first, Blocks(p, rest));
  }

  // ----- Runs -----

  ghost function Md5Run<S>(p: Params<S>, c: Ctx<S>, chunks: seq<seq<byte>>): (r: Ctx<S>)
    requires WellFormed(p, c) && IsMd5(p)
    ensures WellFormed(p, r)
    decreases |chunks|
  {
    if chunks == [] then c else Md5Run(p, Md5Absorb(p, c, chunks[0]), chunks[1..])
  }

  /** How many multiples of 2^32 bytes the lengths of the chunks lose to truncation. */
  function Lost(chunks: seq<seq<byte>>): nat {
    if chunks == [] then 0 else |chunks[0]| / TWO_32 + Lost(chunks[1..])
  }

  ghost predicate SameButHigh<S>(c: Ctx<S>, d: Ctx<S>) {
    c.h == d.h && c.Nl == d.Nl && c.pending == d.pending
  }

  /** The high word of c lacks 8 * lost, up to wraps of 32 bits, to that of d. */
  ghost predicate Behind<S>(c: Ctx<S>, d: Ctx<S>, lost: nat, wraps: int) {
    d.Nh + wraps * TWO_32 == c.Nh + 8 * lost
  }

  lemma {:induction false} SumsBehind(c: nat, d: nat, carry: nat, x: nat, y: nat, lost: nat, q: nat, wraps: int)
    returns (wraps': int)
    requires d + wraps * TWO_32 == c + 8 * lost && y == x + 8 * q
    ensures (d + carry + y) % TWO_32 + wraps' * TWO_32 == (c + carry + x) % TWO_32 + 8 * (lost + q)
  {
    wraps' := wraps + (d + carry + y) / TWO_32 - (c + carry + x) / TWO_32;
  }

  lemma {:induction false} SplitLength(n: nat)
    ensures n / 0x2000_0000 == n % TWO_32 / 0x2000_0000 + 8 * (n / TWO_32)
  {}

  lemma {:induction false} LengthsBehind(c: nat, d: nat, carry: nat, n: nat, lost: nat, wraps: int)
    returns (wraps': int)
    requires d + wraps * TWO_32 == c + 8 * lost
    ensures (d + carry + n / 0x2000_0000) % TWO_32 + wraps' * TWO_32
            == (c + carry + n % TWO_32 / 0x2000_0000) % TWO_32 + 8 * (lost + n / TWO_32)
  {
    SplitLength(n);
    wraps' := SumsBehind(c, d, carry, n % TWO_32 / 0x2000_0000, n / 0x2000_0000, lost, n / TWO_32, wraps);
  }

  /** The high words that the collector, from Nh, and md5.cpp, from count1, go on to. */
  lemma {:induction false} HighWordBehind<S>(p: Params<S>, d: Ctx<S>, count1: nat, n: nat, lost: nat, wraps: int)
    returns (wraps': int)
    requires WellFormed(p, d) && IsMd5(p) && count1 < TWO_32
    requires d.Nh + wraps * TWO_32 == count1 + 8 * lost
    ensures Counted(p, d, n).Nh + wraps' * TWO_32
            == CountMore(d.Nl, count1, n, Pow2(p.sizeBits)).1 + 8 * (lost + n / TWO_32)
  {
    wraps' := LengthsBehind(count1, d.Nh, Carry(d.Nl, n), n, lost, wraps);
    CollectorCounts(p, d, n);
    LowWordAndCarry(p, d.Nl, count1, n);
  }

  lemma {:induction false} AppendSame<S>(p: Params<S>, c: Ctx<S>, d: Ctx<S>, msg: seq<byte>)
    requires WellFormed(p, c) && WellFormed(p, d) && IsMd5(p) && SameButHigh(c, d)
    ensures SameButHigh(Md5Absorb(p, c, msg), Absorb(p, d, msg))
  {
    assert Counted(p, c, |msg|).Nl == Counted(p, d, |msg|).Nl by {
      CollectorCounts(p, c, |msg|);
      CollectorCounts(p, d, |msg|);
    }
  }

  lemma {:induction false} AppendBehind<S>(p: Params<S>, c: Ctx<S>, d: Ctx<S>, msg: seq<byte>, lost: nat, wraps: int)
    returns (wraps': int)
    requires WellFormed(p, c) && WellFormed(p, d) && IsMd5(p)
    requires c.Nl == d.Nl && Behind(c, d, lost, wraps)
    ensures Behind(Md5Absorb(p, c, msg), Absorb(p, d, msg), lost + |msg| / TWO_32, wraps')
  {
    Pow2Of32();
    wraps' := HighWordBehind(p, d, c.Nh, |msg|, lost, wraps);
  }

  lemma {:induction false} RunBehind<S>(p: Params<S>, c: Ctx<S>, d: Ctx<S>, chunks: seq<seq<byte>>,
                                        lost: nat, wraps: int) returns (wraps': int)
    requires WellFormed(p, c) && WellFormed(p, d) && IsMd5(p)
    requires SameButHigh(c, d) && Behind(c, d, lost, wraps)
    ensures SameButHigh(Md5Run(p, c, chunks), Run(p, d, chunks))
    ensures Behind(Md5Run(p, c, chunks), Run(p, d, chunks), lost + Lost(chunks), wraps')
    decreases |chunks|
  {
    if chunks == [] {
      wraps' := wraps;
    } else {
      AppendSame(p, c, d, chunks[0]);
      wraps' := AppendBehind(p, c, d, chunks[0], lost, wraps);
      wraps' := RunBehind(p, Md5Absorb(p, c, chunks[0]), Absorb(p, d, chunks[0]), chunks[1..],
                          lost + |chunks[0]| / TWO_32, wraps');
    }
  }

  lemma {:induction false} BehindByNothing(c: nat, d: nat, lost: nat, wraps: int)
    requires c < TWO_32 && d < TWO_32 && d + wraps * TWO_32 == c + 8 * lost
    ensures c == d <==> lost % 0x2000_0000 == 0
  {}

  /** A run of appends agrees with the run of the collector if and only if what the chunks lose to truncation
      adds up to a multiple of 2^61 bytes. */
  lemma {:induction false} RunsAgreeExactly<S>(p: Params<S>, c: Ctx<S>, d: Ctx<S>, chunks: seq<seq<byte>>)
    requires WellFormed(p, c) && WellFormed(p, d) && IsMd5(p) && SameLive(c, d)
    ensures SameButHigh(Md5Run(p, c, chunks), Run(p, d, chunks))
    ensures SameLive(Md5Run(p, c, chunks), Run(p, d, chunks)) <==> Lost(chunks) % 0x2000_0000 == 0
  {
    Pow2Of32();
    var wraps := RunBehind(p, c, d, chunks, 0, 0);
    BehindByNothing(Md5Run(p, c, chunks).Nh, Run(p, d, chunks).Nh, Lost(chunks), wraps);
  }

  /** The length fields of two closes are equal only if the counts are. */
  lemma {:induction false} FieldsTell(hi: nat, hi': nat, lo: nat)
    requires hi < TWO_32 && hi' < TWO_32
    ensures LengthField(LittleEndian, hi, lo) == LengthField(LittleEndian, hi', lo) <==> hi == hi'
  {
    Md32Collision.FieldRoundTrip(LittleEndian, hi, lo);
    Md32Collision.FieldRoundTrip(LittleEndian, hi', lo);
    SmallMod(hi, TWO_32);
    SmallMod(hi', TWO_32);
  }

  /** Two implementations, one digest: fed the same chunks, both append the same length field if and only if
      truncation loses a multiple of 2^61 bytes in all; then mir_md5 ends, as the collector does, in the fold
      of the compression function over the padded message. */
  lemma {:induction false} ImplementationsAgree<S>(p: Params<S>, c: Ctx<S>, chunks: seq<seq<byte>>)
    requires Fresh(p, c) && IsMd5(p)
    ensures var r, s := Md5Run(p, c, chunks), Run(p, c, chunks);
            && (LengthField(p.order, r.Nh, r.Nl) == LengthField(p.order, s.Nh, s.Nl)
                <==> Lost(chunks) % 0x2000_0000 == 0)
            && (Lost(chunks) % 0x2000_0000 == 0 ==>
                  Digest(p, r) == Digest(p, s) == p.makeString(Fold(p, c.h, Pad(p, Concat(chunks)))))
  {
    var r, s := Md5Run(p, c, chunks), Run(p, c, chunks);
    Pow2Of32();
    RunsAgreeExactly(p, c, c, chunks);
    FieldsTell(r.Nh, s.Nh, r.Nl);
    if SameLive(r, s) {
      StaleBytesIrrelevant(p, r, s);
      StreamingRefinesOneShot(p, c, chunks);
    }
  }

  // ----- The offset stands for num -----

  lemma {:induction false} OffsetTracks(c0: nat, pending: nat, n: nat)
    requires c0 < TWO_32 && c0 % 8 == 0 && pending == Offset(c0)
    ensures (c0 + 8 * n) % TWO_32 % 8 == 0
    ensures Offset((c0 + 8 * n) % TWO_32) == Rem(pending + n, 64)
  {
    var m := c0 / 8 + n;
    assert c0 + 8 * n == 8 * m;
    ModProduct(8 * m, 0x2000_0000, 8);
    ModOfMultiple(m, 0x2000_0000, 64);
    ModAddLeft(c0 / 8, n, 64);
    RemIsMod(pending + n, 64);
  }

  lemma {:induction false} NextOffset<S>(p: Params<S>, c: Ctx<S>, msg: seq<byte>)
    requires WellFormed(p, c) && IsMd5(p) && c.Nl % 8 == 0 && c.num() == Offset(c.Nl)
    ensures var w := Md5Absorb(p, c, msg); w.Nl % 8 == 0 && Offset(w.Nl) == w.num()
  {
    OffsetTracks(c.Nl, c.num(), |msg|);
    assert Counted(p, c, |msg|).Nl == (c.Nl + 8 * |msg|) % TWO_32 by {
      CountsAgreeExactly(p, c, |msg|);
    }
  }

  lemma {:induction false} NextCounts<S>(p: Params<S>, c: Ctx<S>, msg: seq<byte>)
    requires WellFormed(p, c) && IsMd5(p)
    ensures var w := Md5Absorb(p, c, msg); (w.Nl, w.Nh) == CountMore(c.Nl, c.Nh, |msg|, Pow2(p.sizeBits))
  {
    CountsAgreeExactly(p, c, |msg|);
  }

  // ----- Closing -----

  /** (uint8_t)(count[i >> 2] >> ((i & 3) << 3)) */
  function CountByte(count0: nat, count1: nat, i: nat): byte
    requires i < 8
  {
    var word := if i / 4 == 0 then count0 else count1;
    word / Pow2(8 * (i % 4)) % 256
  }

  lemma {:induction false} FieldBytes(count0: nat, count1: nat)
    ensures forall i :: 0 <= i < 8 ==> LengthField(LittleEndian, count1, count0)[i] == CountByte(count0, count1, i)
  {
    assert Pow2(0) == 1;
    assert Pow2(8) == 0x100;
    Pow2Sum(8, 8);
    Pow2Sum(16, 8);
  }

  /** ((55 - (count[0] >> 3)) & 63) + 1, in 32-bit arithmetic. */
  function PadLength(count0: nat): (n: nat)
    ensures 1 <= n <= 64
  {
    (55 - count0 / 8) % TWO_32 % 64 + 1
  }

  /** Cutting to 32 bits does not reach the low six. */
  lemma {:induction false} MaskOfWord(x: int)
    ensures x % TWO_32 % 64 == x % 64
  {
    DivModUnique(x, x / TWO_32 * 0x400_0000 + x % TWO_32 / 64, x % TWO_32 % 64, 64);
  }

  lemma {:induction false} PadLengthExact<S>(p: Params<S>, count0: nat, num: nat)
    requires IsMd5(p) && num == Offset(count0)
    ensures PadLength(count0) == 1 + PadZeros(p, num)
  {
    var bytes := count0 / 8;
    PadZerosOfPending(p, num);
    MaskOfWord(55 - bytes);
    if num <= 55 {
      DivModUnique(55 - bytes, -(bytes / 64), 55 - num, 64);
    } else {
      DivModUnique(55 - bytes, -(bytes / 64) - 1, 119 - num, 64);
    }
  }

  lemma {:induction false} SmallMessage<S>(p: Params<S>)
    requires IsMd5(p)
    ensures Pow2(p.sizeBits) >= TWO_32
  {
    Pow2Of32();
    Pow2Sum(p.sizeBits - 32, 32);
    MulGrows(Pow2(p.sizeBits - 32), TWO_32);
  }

  /** Appending the padding and then the length chains exactly what a close chains. */
  lemma {:induction false} FinishClose<S>(p: Params<S>, c: Ctx<S>, c1: Ctx<S>, c2: Ctx<S>, n: nat)
    requires IsMd5(p) && WellFormed(p, c) && WellFormed(p, c1) && n == 1 + PadZeros(p, c.num())
    requires SameLive(c1, Md5Absorb(p, c, [0x80] + Zeros(n - 1)))
    requires SameLive(c2, Md5Absorb(p, c1, LengthField(LittleEndian, c.Nh, c.Nl)))
    ensures c2.h == Close(p, c).h
  {
    var pad, f := [0x80] + Zeros(n - 1), LengthField(LittleEndian, c.Nh, c.Nl);
    ShortAppend(p, c, pad);
    ShortAppend(p, c1, f);
    AbsorbCongruent(p, c1, Absorb(p, c, pad), f);
    UpdatesCompose(p, c, pad, f);
    PaddingCloses(p, c, pad + f);
  }

  lemma {:induction false} ShortAppend<S>(p: Params<S>, c: Ctx<S>, msg: seq<byte>)
    requires WellFormed(p, c) && IsMd5(p) && |msg| <= 64
    ensures SameLive(Md5Absorb(p, c, msg), Absorb(p, c, msg))
  {
    SmallMod(|msg|, TWO_32);
    AppendExactly(p, c, msg);
  }

  lemma {:induction false} PaddingCloses<S>(p: Params<S>, c: Ctx<S>, last: seq<byte>)
    requires IsMd5(p) && WellFormed(p, c)
    requires last == [0x80] + Zeros(PadZeros(p, c.num())) + LengthField(LittleEndian, c.Nh, c.Nl)
    ensures Absorb(p, c, last).h == Close(p, c).h
  {
    PadZerosOfPending(p, c.num());
    var all := c.pending + last;
    assert |all| == 64 || |all| == 128;
    assert Rem(|all|, 64) == 0;
    assert Blocks(p, all) == all;
  }

  // ----- Filling up the block begun before -----

  /** How much of the input goes there; the sum of offset and length is a size_t and may wrap. */
  function CopyLength(offset: nat, n: nat, sizeRange: nat): (copy: nat)
    requires offset < 64 && sizeRange > 0
  {
    if (offset + n) % sizeRange > 64 then 64 - offset else n
  }

  /** The copy stays inside the block exactly if the sum does not wrap. */
  lemma {:induction false} CopyFitsExactly<S>(p: Params<S>, offset: nat, n: nat)
    requires IsMd5(p) && offset < 64 && n < Pow2(p.sizeBits)
    ensures offset + CopyLength(offset, n, Pow2(p.sizeBits)) <= 64 <==> offset + n < Pow2(p.sizeBits)
    ensures offset + n < Pow2(p.sizeBits) ==>
              CopyLength(offset, n, Pow2(p.sizeBits)) == if offset + n > 64 then 64 - offset else n
  {
    var range := Pow2(p.sizeBits);
    SmallMessage(p);
    if offset + n < range {
      SmallMod(offset + n, range);
    } else {
      DivModUnique(offset + n, 1, offset + n - range, range);
    }
  }

  // ----- The state -----

  class Md5State<S> {
    const p: Params<S>
    var abcd: S
    var count0: nat
    var count1: nat
    const buf: array<byte>

    ghost predicate Valid()
      reads this, buf
    {
      && IsMd5(p) && buf.Length == 64
      && count0 % 8 == 0
      && WellFormed(p, View())
    }

    /** The state as a context of the collector. */
    ghost function View(): Ctx<S>
      requires buf.Length == 64
      reads this, buf
    {
      Ctx(abcd, count0, count1, buf[..Offset(count0)], buf[Offset(count0)..])
    }

    /** mir_md5_init; the buffer is left as it is. */
    constructor (p: Params<S>, h: S)
      requires IsMd5(p)
      ensures Valid() && fresh(buf) && this.p == p
      ensures View().h == h && Fresh(p, View())
    {
      this.p := p;
      abcd := h;
      count0, count1 := 0, 0;
      buf := new byte[64];
      new;
      Pow2Of32();
    }

    /** md5_process */
    method Process(block: seq<byte>)
      modifies `abcd
      ensures abcd == p.compress(old(abcd), block)
    {
      abcd := p.compress(abcd, block);
    }

    method Append(msg: seq<byte>)
      requires Valid() && Offset(count0) + |msg| < Pow2(p.sizeBits)
      modifies this, buf
      ensures Valid()
      ensures SameLive(View(), Md5Absorb(p, old(View()), msg))
    {
      ghost var c := View();
      ghost var want := Md5Absorb(p, c, msg);
      var offset := Offset(count0);
      if |msg| == 0 {
        AppendNothing(p, c, msg);
        return;
      }
      assert count0 % 8 == 0 && c.num() == Offset(c.Nl) == offset;
      NextOffset(p, c, msg);
      assert (want.Nl, want.Nh) == CountMore(count0, count1, |msg|, Pow2(p.sizeBits)) by {
        NextCounts(p, c, msg);
      }
      CountBytes(|msg|);
      AppendBytes(msg, offset);
      assert Offset(count0) == |want.pending|;
      assert View() == Ctx(want.h, want.Nl, want.Nh, want.pending, buf[|want.pending|..]);
    }

    /** The part of mir_md5_append behind the counts. */
    method AppendBytes(msg: seq<byte>, offset: nat)
      requires IsMd5(p) && buf.Length == 64 && offset < 64 && |msg| > 0 && offset + |msg| < Pow2(p.sizeBits)
      modifies `abcd, buf
      ensures var all := old(buf[..offset]) + msg;
              abcd == Fold(p, old(abcd), Blocks(p, all)) && buf[..|Left(p, all)|] == Left(p, all)
    {
      var start := 0;
      ghost var h, all := abcd, buf[..offset] + msg;
      ghost var first: seq<byte> := [];
      if offset != 0 {
        CopyFitsExactly(p, offset, |msg|);
        var copy := if (offset + |msg|) % Pow2(p.sizeBits) > 64 then 64 - offset else |msg|;
        first := buf[..offset] + msg[..copy];
        assert all == first + msg[copy..];
        MemCpy(buf, offset, msg[..copy]);
        if offset + copy < 64 {
          assert all == first;
          return;
        }
        start := start + copy;
        FullBuffer(first);
        FoldAfterFirst(p, h, first, msg[start..]);
      } else {
        assert all == msg == msg[0..];
      }
      WholeBlocks(msg[start..]);
    }

    method FullBuffer(ghost block: seq<byte>)
      requires IsMd5(p) && buf.Length == 64 && buf[..64] == block
      modifies `abcd
      ensures abcd == p.compress(old(abcd), block)
    {
      assert buf[..] == buf[..64];
      Process(buf[..]);
    }

    /** mir_md5_finish: the padding and the length saved before it are appended like any other data. */
    method Finish() returns (digest: seq<byte>)
      requires Valid()
      modifies this, buf
      ensures digest == Digest(p, old(View()))
    {
      ghost var c := View();
      var data := LengthBytes();
      var n := PadLength(count0);
      PadLengthExact(p, count0, c.num());
      SmallMessage(p);
      Append([0x80] + Zeros(n - 1));
      ghost var c1 := View();
      Append(data);
      FinishClose(p, c, c1, View(), n);
      digest := p.makeString(abcd);
    }

    /** The length before padding, low word first, byte by byte. */
    method LengthBytes() returns (data: seq<byte>)
      ensures data == LengthField(LittleEndian, count1, count0)
    {
      var out := new byte[8];
      for i := 0 to 8
        invariant forall j :: 0 <= j < i ==> out[j] == CountByte(count0, count1, j)
      {
        out[i] := CountByte(count0, count1, i);
      }
      data := out[..];
      FieldBytes(count0, count1);
    }

    method CountBytes(n: nat)
      modifies `count0, `count1
      ensures (count0, count1) == CountMore(old(count0), old(count1), n, Pow2(p.sizeBits))
    {
      RemIsMod(n * 8, Pow2(p.sizeBits));
      var nbits := n * 8 % Pow2(p.sizeBits) % TWO_32;
      count1 := (count1 + n % TWO_32 / 0x2000_0000) % TWO_32;
      count0 := (count0 + nbits) % TWO_32;
      if count0 < nbits {
        count1 := (count1 + 1) % TWO_32;
      }
    }

    /** The loop over whole blocks, and the final partial block. */
    method WholeBlocks(input: seq<byte>)
      requires IsMd5(p) && buf.Length == 64
      modifies `abcd, buf
      ensures abcd == Fold(p, old(abcd), Blocks(p, input))
      ensures buf[..|Left(p, input)|] == Left(p, input)
    {
      var start: nat, left: nat := 0, |input|;
      while left >= 64
        invariant start + left == |input| && Rem(start, 64) == 0
        invariant abcd == Fold(p, old(abcd), input[..start])
      {
        ghost var next := input[..start + 64];
        assert next[..start] == input[..start] && next[start..] == input[start..start + 64];
        RemAdd(start, 64, 64);
        Process(input[start..start + 64]);
        start, left := start + 64, left - 64;
      }
      RemAdd(start, left, 64);
      if left != 0 {
        MemCpy(buf, 0, input[start..]);
      }
    }
  }

  /** mir_md5_hash: the digest of a message in one call. */
  method Hash<S>(p: Params<S>, h: S, msg: seq<byte>) returns (digest: seq<byte>)
    requires IsMd5(p) && |msg| < Pow2(p.sizeBits)
    ensures Countable(msg) ==> digest == p.makeString(Fold(p, h, Pad(p, msg)))
  {
    var state := new Md5State(p, h);
    ghost var c := state.View();
    state.Append(msg);
    ghost var d := state.View();
    digest := state.Finish();
    if Countable(msg) {
      AppendExactly(p, c, msg);
      StaleBytesIrrelevant(p, d, Absorb(p, c, msg));
      CloseOfOneUpdate(p, c, msg);
    }
  }
}
