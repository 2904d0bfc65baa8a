/** Whole runs of the collector: chunking does not matter, and closing a run gives the fold of the
    compression function over the padded message. */
module Md32Stream {
  import opened Arithmetic
  import opened ByteStream
  import opened Md32Spec
  import opened Sequences

  // ----- The two-word bit counter -----

  /** Conversion of a value to HASH_LONG. */
  function LongOf<S>(p: Params<S>, x: nat): nat { Rem(x, p.LongRange()) }

  /** Nl and Nh after counting len bytes, in HASH_LONG arithmetic with the hand-written carry. */
  function CountUp<S>(p: Params<S>, Nl: nat, Nh: nat, len: nat): (nat, nat) {
    var l := LongOf(p, Nl + LongOf(p, LongOf(p, len) * 8)) % TWO_32;
    var carried := if l < Nl then LongOf(p, Nh + 1) else Nh;
    (l, LongOf(p, carried + LongOf(p, len / 0x2000_0000)))
  }

  lemma {:induction false} LowBits<S>(p: Params<S>, x: nat)
    requires p.Valid()
    ensures LongOf(p, x) % TWO_32 == x % TWO_32
  {
    LongRangeMultiple(p);
    RemIsMod(x, p.LongRange());
    ModOfMultiple(x, p.LongRange(), TWO_32);
  }

  lemma {:induction false} LowWordExact<S>(p: Params<S>, Nl: nat, len: nat)
    requires p.Valid()
    ensures LongOf(p, Nl + LongOf(p, LongOf(p, len) * 8)) % TWO_32 == (Nl + 8 * len) % TWO_32
  {
    var w := LongOf(p, len);
    var x := LongOf(p, w * 8);
    LowBits(p, len);
    LowBits(p, w * 8);
    LowBits(p, Nl + x);
    LowWordTimesEight(w, len);
    LowWordSum(x, len * 8, Nl);
  }

  lemma {:induction false} LowWordSum(a: nat, b: nat, c: nat)
    requires a % TWO_32 == b % TWO_32
    ensures (c + a) % TWO_32 == (c + b) % TWO_32
  {
    DivModUnique(c + a, (c + b) / TWO_32 + a / TWO_32 - b / TWO_32, (c + b) % TWO_32, TWO_32);
  }

  lemma {:induction false} LowWordTimesEight(a: nat, b: nat)
    requires a % TWO_32 == b % TWO_32
    ensures a * 8 % TWO_32 == b * 8 % TWO_32
  {
    DivModUnique(a * 8, b * 8 / TWO_32 + 8 * (a / TWO_32 - b / TWO_32), b * 8 % TWO_32, TWO_32);
  }

  lemma {:induction false} HighWordExact<S>(p: Params<S>, Nh: nat, carry: nat, q: nat)
    requires p.Valid() && Nh < p.LongRange() && carry <= 1
    ensures LongOf(p, (if carry == 1 then LongOf(p, Nh + 1) else Nh) + LongOf(p, q)) == LongOf(p, Nh + carry + q)
  {
    RemAdd(Nh + carry, LongOf(p, q), p.LongRange());
    RemAdd(q, Nh + carry, p.LongRange());
  }

  /** Whether counting n more bytes makes the low word wrap. */
  function Carry(low: nat, n: nat): (carry: nat)
    ensures carry <= 1
  {
    if (low + 8 * n) % TWO_32 < low then 1 else 0
  }

  lemma {:induction false} DigitsAfter(Nh: nat, Nl: nat, len: nat)
    requires Nl < TWO_32
    ensures Nh * TWO_32 + Nl + 8 * len
            == (Nh + Carry(Nl, len) + len / 0x2000_0000) * TWO_32 + (Nl + 8 * len) % TWO_32
  {}

  lemma {:induction false} CountUpDigits<S>(p: Params<S>, Nl: nat, Nh: nat, len: nat)
    requires p.Valid() && Nh < p.LongRange()
    ensures CountUp(p, Nl, Nh, len)
            == ((Nl + 8 * len) % TWO_32, LongOf(p, Nh + Carry(Nl, len) + len / 0x2000_0000))
  {
    LowWordExact(p, Nl, len);
    HighWordExact(p, Nh, Carry(Nl, len), len / 0x2000_0000);
  }

  lemma {:induction false} ReducedDigits<S>(p: Params<S>, total: nat, hi: nat, lo: nat)
    requires total == hi * TWO_32 + lo && lo < TWO_32
    ensures Rem(total, p.CountRange()) % TWO_32 == lo
    ensures Rem(total, p.CountRange()) / TWO_32 == LongOf(p, hi)
  {
    RemIsMod(total, p.CountRange());
    RemIsMod(hi, p.LongRange());
    DivModUnique(total, hi, lo, TWO_32);
    ModProduct(total, p.LongRange(), TWO_32);
  }

  lemma {:induction false} CountedDigits<S>(p: Params<S>, c: Ctx<S>, len: nat)
    requires WellFormed(p, c)
    ensures Counted(p, c, len).Nl == (c.Nl + 8 * len) % TWO_32
    ensures Counted(p, c, len).Nh == LongOf(p, c.Nh + Carry(c.Nl, len) + len / 0x2000_0000)
  {
    DigitsAfter(c.Nh, c.Nl, len);
    ReducedDigits(p, BitCount(c) + 8 * len, c.Nh + Carry(c.Nl, len) + len / 0x2000_0000, (c.Nl + 8 * len) % TWO_32);
  }

  /** The counter is exact: Nh and Nl are the digits, in base 2^32, of the bits fed so far modulo
      2^(32 + width of HASH_LONG). No length and no width of HASH_LONG is excluded. */
  lemma {:induction false} CounterExact<S>(p: Params<S>, c: Ctx<S>, len: nat)
    requires WellFormed(p, c)
    ensures CountAfter(p, c, len) == (BitCount(c) + 8 * len) % p.CountRange()
    ensures CountUp(p, c.Nl, c.Nh, len) == (Counted(p, c, len).Nl, Counted(p, c, len).Nh)
  {
    assert CountAfter(p, c, len) == (BitCount(c) + 8 * len) % p.CountRange() by {
      RemIsMod(BitCount(c) + 8 * len, p.CountRange());
    }
    CountUpDigits(p, c.Nl, c.Nh, len);
    CountedDigits(p, c, len);
  }

  /** The short-circuited guard of HASH_UPDATE is exact although `len + n` may wrap in size_t. */
  lemma {:induction false} GuardExact<S>(p: Params<S>, len: nat, n: nat)
    requires p.Valid() && len < Pow2(p.sizeBits) && n < p.cblock
    ensures len >= p.cblock || (len + n) % Pow2(p.sizeBits) >= p.cblock <==> len + n >= p.cblock
  {
    if len < p.cblock {
      SmallMod(len + n, Pow2(p.sizeBits));
    }
  }

  // ----- One update after another -----

  /** Equal in everything but the stale bytes behind the pending ones. */
  ghost predicate SameLive<S>(c: Ctx<S>, d: Ctx<S>) {
    c.h == d.h && c.Nl == d.Nl && c.Nh == d.Nh && c.pending == d.pending
  }

  lemma {:induction false} AbsorbCongruent<S>(p: Params<S>, c: Ctx<S>, d: Ctx<S>, msg: seq<byte>)
    requires WellFormed(p, c) && WellFormed(p, d) && SameLive(c, d)
    ensures SameLive(Absorb(p, c, msg), Absorb(p, d, msg))
  {}

  lemma {:induction false} AbsorbEmpty<S>(p: Params<S>, c: Ctx<S>)
    requires WellFormed(p, c)
    ensures Absorb(p, c, []) == c
  {}

  lemma {:induction false} BlocksOfConcat<S>(p: Params<S>, s: seq<byte>, t: seq<byte>)
    requires p.cblock > 0
    ensures Left(p, s + t) == Left(p, Left(p, s) + t)
    ensures Blocks(p, s + t) == Blocks(p, s) + Blocks(p, Left(p, s) + t)
  {
    RemAdd(|s|, |t|, p.cblock);
    assert Blocks(p, s) + (Left(p, s) + t) == s + t;
  }

  lemma {:induction false} CountsCompose<S>(p: Params<S>, c: Ctx<S>, d: Ctx<S>, m: nat, n: nat)
    requires WellFormed(p, c) && WellFormed(p, d)
    requires d.Nl == Counted(p, c, m).Nl && d.Nh == Counted(p, c, m).Nh
    ensures CountAfter(p, d, n) == CountAfter(p, c, m + n)
  {
    RemAdd(BitCount(c) + 8 * m, 8 * n, p.CountRange());
  }

  lemma {:induction false} ChainsCompose<S>(p: Params<S>, c: Ctx<S>, a: seq<byte>, b: seq<byte>)
    requires WellFormed(p, c)
    ensures SameLive(Chain(p, Chain(p, c, a), b), Chain(p, c, a + b))
  {
    var buf := c.pending + a;
    assert c.pending + (a + b) == buf + b;
    BlocksOfConcat(p, buf, b);
    FoldConcat(p, c.h, Blocks(p, buf), Blocks(p, Left(p, buf) + b));
  }

  /** Chunking is invisible to everything a digest can depend on, whatever stale bytes there are. */
  lemma {:induction false} UpdatesCompose<S>(p: Params<S>, c: Ctx<S>, a: seq<byte>, b: seq<byte>)
    requires WellFormed(p, c)
    ensures SameLive(Absorb(p, Absorb(p, c, a), b), Absorb(p, c, a + b))
  {
    ChainsCompose(p, c, a, b);
    CountsCompose(p, c, Absorb(p, c, a), |a|, |b|);
  }

  // ----- The two halves of an update -----

  lemma {:induction false} OneBlock<S>(p: Params<S>, h: S, block: seq<byte>)
    requires p.Valid() && |block| == p.cblock
    ensures Fold(p, h, block) == p.compress(h, block)
    ensures Rem(|block|, p.cblock) == 0
  {}

  /** The early return of HASH_UPDATE: the bytes only join the pending ones. */
  lemma {:induction false} ChainShort<S>(p: Params<S>, c: Ctx<S>, msg: seq<byte>)
    requires WellFormed(p, c) && c.num() + |msg| < p.cblock
    ensures Chain(p, c, msg) == c.(pending := c.pending + msg, tail := c.tail[|msg|..])
  {}

  /** Where HASH_UPDATE stands after its first half: chaining state h1, buffer t, input r to go. */
  ghost predicate FirstHalf<S>(p: Params<S>, c: Ctx<S>, msg: seq<byte>, h1: S, t: seq<byte>, r: seq<byte>)
    requires WellFormed(p, c)
  {
    if c.num() == 0 then h1 == c.h && t == c.tail && r == msg
    else
      && c.num() + |msg| >= p.cblock
      && h1 == Fold(p, c.h, c.pending + msg[..p.cblock - c.num()])
      && t == Zeros(p.cblock)
      && r == msg[p.cblock - c.num()..]
  }

  lemma {:induction false} ChainFromHalf<S>(p: Params<S>, c: Ctx<S>, msg: seq<byte>, h1: S, t: seq<byte>, r: seq<byte>)
    requires WellFormed(p, c) && FirstHalf(p, c, msg, h1, t, r)
    ensures Chain(p, c, msg) == c.(h := Fold(p, h1, Blocks(p, r)), pending := Left(p, r), tail := t[|Left(p, r)|..])
  {
    if c.num() == 0 {
      assert c.pending + msg == msg && c.data() == c.tail;
    } else {
      var first := c.pending + msg[..p.cblock - c.num()];
      assert c.pending + msg == first + r;
      OneBlock(p, c.h, first);
      FullBlockFirst(p, first, r);
      FoldConcat(p, c.h, first, Blocks(p, r));
    }
  }

  lemma {:induction false} FullBlockFirst<S>(p: Params<S>, first: seq<byte>, r: seq<byte>)
    requires p.Valid() && |first| == p.cblock
    ensures Blocks(p, first + r) == first + Blocks(p, r)
    ensures Left(p, first + r) == Left(p, r)
  {}

  /** n / HASH_CBLOCK * HASH_CBLOCK bytes are the whole blocks, and what follows them is left over. */
  lemma {:induction false} BlocksByDivision<S>(p: Params<S>, s: seq<byte>)
    requires p.cblock > 0
    ensures var n := |s| / p.cblock;
            && n >= 0 && (n == 0 ==> Blocks(p, s) == [] && Left(p, s) == s)
            && 0 <= n * p.cblock <= |s|
            && s[..n * p.cblock] == Blocks(p, s) && s[n * p.cblock..] == Left(p, s)
  {
    DivTimes(|s|, p.cblock);
  }

  // ----- Whole contexts -----

  /** No pending bytes and a dirty buffer is the one state in which chunking can be told apart. */
  ghost predicate CleanStart<S>(c: Ctx<S>) {
    c.num() == 0 ==> ZeroTail(c)
  }

  lemma {:induction false} AbsorbKeepsZeroTail<S>(p: Params<S>, c: Ctx<S>, msg: seq<byte>)
    requires WellFormed(p, c)
    requires ZeroTail(c) || (c.num() != 0 && c.num() + |msg| >= p.cblock)
    ensures ZeroTail(Absorb(p, c, msg))
  {}

  lemma {:induction false} AbsorbKeepsClean<S>(p: Params<S>, c: Ctx<S>, msg: seq<byte>)
    requires WellFormed(p, c) && CleanStart(c)
    ensures CleanStart(Absorb(p, c, msg))
  {}

  lemma {:induction false} TailsCompose<S>(p: Params<S>, c: Ctx<S>, a: seq<byte>, b: seq<byte>)
    requires WellFormed(p, c) && CleanStart(c)
    requires Left(p, Absorb(p, c, a).pending + b) == Left(p, c.pending + (a + b))
    ensures Absorb(p, Absorb(p, c, a), b).tail == Absorb(p, c, a + b).tail
  {
    var c1 := Absorb(p, c, a);
    if ZeroTail(c) || c.num() + |a| >= p.cblock {
      AbsorbKeepsZeroTail(p, c, a);
      AbsorbKeepsZeroTail(p, c1, b);
      AbsorbKeepsZeroTail(p, c, a + b);
    } else {
      assert c1.num() == c.num() + |a|;
      var rest := |Left(p, c1.pending + b)|;
      if c1.num() + |b| < p.cblock {
        assert c1.data()[rest..] == c1.tail[|b|..] == c.data()[rest..];
      }
    }
  }

  /** Update is a monoid action on whole contexts, buffer bytes included. */
  lemma {:induction false} UpdatesComposeWhole<S>(p: Params<S>, c: Ctx<S>, a: seq<byte>, b: seq<byte>)
    requires WellFormed(p, c) && CleanStart(c)
    ensures Absorb(p, Absorb(p, c, a), b) == Absorb(p, c, a + b)
  {
    UpdatesCompose(p, c, a, b);
    TailsCompose(p, c, a, b);
  }

  /** ... and the guard above is exact: from any other state some pair of chunks leaves a different
      buffer than the same bytes in one update. */
  lemma {:induction false} UpdatesComposeExactly<S>(p: Params<S>, c: Ctx<S>)
    requires WellFormed(p, c)
    ensures CleanStart(c) <==> forall a, b :: Absorb(p, Absorb(p, c, a), b) == Absorb(p, c, a + b)
  {
    if CleanStart(c) {
      forall a, b
        ensures Absorb(p, Absorb(p, c, a), b) == Absorb(p, c, a + b)
      {
        UpdatesComposeWhole(p, c, a, b);
      }
    } else {
      DirtyStartShows(p, c, Zeros(1), Zeros(p.cblock - 1));
    }
  }

  lemma {:induction false} DirtyStartShows<S>(p: Params<S>, c: Ctx<S>, a: seq<byte>, b: seq<byte>)
    requires WellFormed(p, c) && !CleanStart(c) && |a| == 1 && |b| == p.cblock - 1
    ensures Absorb(p, Absorb(p, c, a), b) != Absorb(p, c, a + b)
  {}

  // ----- Runs -----

  /** The context after a sequence of HASH_UPDATE calls. */
  ghost function Run<S>(p: Params<S>, c: Ctx<S>, chunks: seq<seq<byte>>): (r: Ctx<S>)
    requires WellFormed(p, c)
    ensures WellFormed(p, r)
    decreases |chunks|
  {
    if chunks == [] then c else Run(p, Absorb(p, c, chunks[0]), chunks[1..])
  }

  lemma {:induction false} RunIsOneUpdate<S>(p: Params<S>, c: Ctx<S>, chunks: seq<seq<byte>>)
    requires WellFormed(p, c)
    ensures SameLive(Run(p, c, chunks), Absorb(p, c, Concat(chunks)))
    ensures CleanStart(c) ==> Run(p, c, chunks) == Absorb(p, c, Concat(chunks))
    decreases |chunks|
  {
    if chunks == [] {
      AbsorbEmpty(p, c);
    } else {
      RunIsOneUpdate(p, Absorb(p, c, chunks[0]), chunks[1..]);
      UpdatesCompose(p, c, chunks[0], Concat(chunks[1..]));
      if CleanStart(c) {
        AbsorbKeepsClean(p, c, chunks[0]);
        UpdatesComposeWhole(p, c, chunks[0], Concat(chunks[1..]));
      }
    }
  }

  /** A context on which HASH_UPDATE has not been called yet; its buffer may hold anything. */
  ghost predicate Fresh<S>(p: Params<S>, c: Ctx<S>) {
    WellFormed(p, c) && c.Nl == 0 && c.Nh == 0 && c.num() == 0
  }

  lemma {:induction false} AbsorbFresh<S>(p: Params<S>, c: Ctx<S>, m: seq<byte>)
    requires Fresh(p, c)
    ensures var r := Absorb(p, c, m);
            && r.pending == Left(p, m)
            && r.h == Fold(p, c.h, Blocks(p, m))
            && BitCount(r) == 8 * |m| % p.CountRange()
  {
    assert c.pending + m == m;
    RemIsMod(8 * |m|, p.CountRange());
  }

  /** Between calls: num is the byte count modulo the block size, the buffer starts with exactly the
      unprocessed tail of the message, everything before it has been compressed, the low 64 bits of
      the counter are the bit count, and a buffer that started zeroed is zero behind the tail. */
  lemma {:induction false} BufferInvariant<S>(p: Params<S>, c: Ctx<S>, chunks: seq<seq<byte>>)
    requires Fresh(p, c)
    ensures var m, r := Concat(chunks), Run(p, c, chunks);
            && r.num() == |m| % p.cblock <= |m|
            && r.pending == m[|m| - r.num()..]
            && r.h == Fold(p, c.h, m[..|m| - r.num()])
            && r.Nl < TWO_32
            && r.Nh % TWO_32 * TWO_32 + r.Nl == 8 * |m| % (TWO_32 * TWO_32)
            && (ZeroTail(c) ==> ZeroTail(r))
  {
    var m := Concat(chunks);
    RunIsOneUpdate(p, c, chunks);
    AbsorbFresh(p, c, m);
    if ZeroTail(c) {
      AbsorbKeepsZeroTail(p, c, m);
    }
    RemIsMod(|m|, p.cblock);
    CounterOfRun(p, Absorb(p, c, m), 8 * |m|);
  }

  lemma {:induction false} CounterOfRun<S>(p: Params<S>, r: Ctx<S>, bits: nat)
    requires p.Valid() && r.Nl < TWO_32 && BitCount(r) == bits % p.CountRange()
    ensures r.Nl == bits % TWO_32
    ensures r.Nh % TWO_32 == bits / TWO_32 % TWO_32
    ensures r.Nh % TWO_32 * TWO_32 + r.Nl == bits % (TWO_32 * TWO_32)
  {
    DivModUnique(BitCount(r), r.Nh, r.Nl, TWO_32);
    LowSixtyFour(p, bits);
  }

  lemma {:induction false} LowSixtyFour<S>(p: Params<S>, bits: nat)
    requires p.Valid()
    ensures var b := bits % p.CountRange();
            && b % TWO_32 == bits % TWO_32
            && b / TWO_32 % TWO_32 == bits / TWO_32 % TWO_32
            && b / TWO_32 % TWO_32 * TWO_32 + b % TWO_32 == bits % (TWO_32 * TWO_32)
  {
    LongRangeMultiple(p);
    ModProduct(bits, p.LongRange(), TWO_32);
    ModOfMultiple(bits / TWO_32, p.LongRange(), TWO_32);
    ModProduct(bits, TWO_32, TWO_32);
  }

  // ----- Closing -----

  /** Bytes behind the pending ones never reach a digest: the closed contexts are equal throughout. */
  lemma {:induction false} StaleBytesIrrelevant<S>(p: Params<S>, c: Ctx<S>, d: Ctx<S>)
    requires WellFormed(p, c) && WellFormed(p, d) && SameLive(c, d)
    ensures Close(p, c) == Close(p, d)
    ensures Digest(p, c) == Digest(p, d)
  {}

  lemma {:induction false} PadZerosModulo<S>(p: Params<S>, n: nat)
    requires p.Valid()
    ensures PadZeros(p, Rem(n, p.cblock)) == PadZeros(p, n)
  {
    RemAdd(n, 9, p.cblock);
  }

  lemma {:induction false} LengthFieldLow(order: ByteOrder, hi: nat, hi': nat, lo: nat)
    requires hi % TWO_32 == hi' % TWO_32
    ensures LengthField(order, hi, lo) == LengthField(order, hi', lo)
  {
    HostL2CLow(order, hi);
    HostL2CLow(order, hi');
  }

  lemma {:induction false} FieldOfRun<S>(p: Params<S>, c: Ctx<S>, m: seq<byte>)
    requires Fresh(p, c)
    ensures var r := Absorb(p, c, m);
            LengthField(p.order, r.Nh, r.Nl) == LengthField(p.order, 8 * |m| / TWO_32, 8 * |m| % TWO_32)
  {
    var r := Absorb(p, c, m);
    AbsorbFresh(p, c, m);
    CounterOfRun(p, r, 8 * |m|);
    LengthFieldLow(p.order, r.Nh, 8 * |m| / TWO_32, r.Nl);
  }

  /** The padding goes behind the blocks chained already as it goes behind the whole message. */
  lemma {:induction false} FoldPadded<S>(p: Params<S>, h: S, m: seq<byte>, f: seq<byte>)
    requires p.Valid() && |f| == 8
    ensures Fold(p, Fold(p, h, Blocks(p, m)), Left(p, m) + ([0x80] + Zeros(PadZeros(p, |Left(p, m)|)) + f))
            == Fold(p, h, m + [0x80] + Zeros(PadZeros(p, |m|)) + f)
  {
    PadZerosModulo(p, |m|);
    var last := [0x80] + Zeros(PadZeros(p, |m|)) + f;
    assert m + [0x80] + Zeros(PadZeros(p, |m|)) + f == Blocks(p, m) + (Left(p, m) + last);
    GapLeast(|Left(p, m)| + 9, p.cblock, 0);
    FoldConcat(p, h, Blocks(p, m), Left(p, m) + last);
  }

  lemma {:induction false} CloseOfOneUpdate<S>(p: Params<S>, c: Ctx<S>, m: seq<byte>)
    requires Fresh(p, c)
    ensures Close(p, Absorb(p, c, m)).h == Fold(p, c.h, Pad(p, m))
  {
    AbsorbFresh(p, c, m);
    FieldOfRun(p, c, m);
    FoldPadded(p, c.h, m, LengthField(p.order, 8 * |m| / TWO_32, 8 * |m| % TWO_32));
  }

  /** Streaming refines one-shot: whatever the chunks, the digest state is the fold of the compression
      function over the padded concatenation. */
  lemma {:induction false} StreamingRefinesOneShot<S>(p: Params<S>, c: Ctx<S>, chunks: seq<seq<byte>>)
    requires Fresh(p, c)
    ensures Close(p, Run(p, c, chunks)).h == Fold(p, c.h, Pad(p, Concat(chunks)))
    ensures Digest(p, Run(p, c, chunks)) == p.makeString(Fold(p, c.h, Pad(p, Concat(chunks))))
  {
    RunIsOneUpdate(p, c, chunks);
    StaleBytesIrrelevant(p, Run(p, c, chunks), Absorb(p, c, Concat(chunks)));
    CloseOfOneUpdate(p, c, Concat(chunks));
  }
}
