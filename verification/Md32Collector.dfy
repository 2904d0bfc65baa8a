/** HASH_UPDATE, HASH_TRANSFORM and HASH_FINAL over a context that they change in place. */
module Md32Collector {
  import opened Arithmetic
  import opened ByteStream
  import opened Md32Spec
  import opened Md32Stream
  import opened Sequences

  class HashCtx<S> {
    const p: Params<S>
    var h: S
    var Nl: nat
    var Nh: nat
    var num: nat
    const data: array<byte>

    ghost predicate Valid()
      reads this, data
    {
      num < data.Length && WellFormed(p, View())
    }

    ghost function View(): Ctx<S>
      requires num <= data.Length
      reads this, data
    {
      Ctx(h, Nl, Nh, data[..num], data[num..])
    }

    constructor (p: Params<S>, h: S)
      requires p.Valid()
      ensures Valid() && fresh(data) && this.p == p
      ensures View() == InitCtx(p, h)
      ensures this.h == h && Nl == Nh == num == 0 && data[..] == Zeros(p.cblock)
    {
      this.p := p;
      this.h := h;
      Nl, Nh, num := 0, 0, 0;
      data := new byte[p.cblock](_ => 0);
      new;
      assert data[..] == data[0..] == Zeros(p.cblock);
    }

    /** HASH_BLOCK_DATA_ORDER, implemented externally: it changes the chaining state only. */
    method BlockDataOrder(blocks: seq<byte>)
      requires p.Valid() && Rem(|blocks|, p.cblock) == 0
      modifies `h
      ensures h == Fold(p, old(h), blocks)
    {
      h := Fold(p, h, blocks);
    }

    method Transform(block: seq<byte>)
      requires Valid() && |block| >= p.cblock
      modifies `h
      ensures Valid() && View() == old(View()).(h := p.compress(old(h), block[..p.cblock]))
    {
      OneBlock(p, h, block[..p.cblock]);
      BlockDataOrder(block[..p.cblock]);
    }

    method Update(msg: seq<byte>) returns (ok: int)
      requires Valid() && |msg| < Pow2(p.sizeBits)
      modifies this, data
      ensures Valid() && ok == 1
      ensures View() == Absorb(p, old(View()), msg)
    {
      ghost var c := View();
      if |msg| == 0 {
        AbsorbEmpty(p, c);
        return 1;
      }

      CountBits(|msg|);
      ChainBytes(msg);
      return 1;
    }

    /** HASH_UPDATE behind the counter. */
    method ChainBytes(msg: seq<byte>)
      requires Valid() && |msg| < Pow2(p.sizeBits)
      modifies `h, `num, data
      ensures num < data.Length && View() == Chain(p, old(View()), msg)
    {
      ghost var c := View();
      var done, start := JoinPending(msg);
      if done {
        ChainShort(p, c, msg);
      } else {
        ghost var h1, t := h, data[..];
        BufferRest(msg[start..]);
        ChainFromHalf(p, c, msg, h1, t, msg[start..]);
      }
    }

    /** The second half of HASH_UPDATE, for the input that is left. */
    method BufferRest(input: seq<byte>)
      requires p.Valid() && data.Length == p.cblock && num == 0
      modifies `h, `num, data
      ensures num < data.Length
      ensures View() == Ctx(Fold(p, old(h), Blocks(p, input)), Nl, Nh, Left(p, input),
                            old(data[..])[|Left(p, input)|..])
    {
      WholeBlocks(input);
    }

    /** The first half of HASH_UPDATE: the message joins the block begun by earlier updates. It is all used up,
        or completes that block and leaves the input from `start` on. */
    method JoinPending(msg: seq<byte>) returns (done: bool, start: nat)
      requires Valid() && |msg| < Pow2(p.sizeBits)
      modifies `h, `num, data
      ensures Valid()
      ensures done ==> var c := old(View());
                       && c.num() + |msg| < p.cblock
                       && View() == c.(pending := c.pending + msg, tail := c.tail[|msg|..])
      ensures !done ==> num == 0 && start <= |msg|
                        && FirstHalf(p, old(View()), msg, h, data[..], msg[start..])
    {
      var n := num;
      if n == 0 {
        return false, 0;
      }
      var full := BlockReached(|msg|, n);
      if !full {
        Append(msg);
        return true, |msg|;
      }
      CompleteBlock(msg[..p.cblock - n]);
      assert data[..] == data[0..];
      return false, p.cblock - n;
    }

    /** The guard of HASH_UPDATE, in size_t arithmetic. */
    method BlockReached(len: nat, n: nat) returns (full: bool)
      requires p.Valid() && len < Pow2(p.sizeBits) && n < p.cblock
      ensures full <==> len + n >= p.cblock
    {
      GuardExact(p, len, n);
      full := len >= p.cblock || (len + n) % Pow2(p.sizeBits) >= p.cblock;
    }

    method Append(msg: seq<byte>)
      requires Valid() && num + |msg| < p.cblock
      modifies `num, data
      ensures Valid()
      ensures View() == old(View()).(pending := old(data[..num]) + msg, tail := old(data[num..])[|msg|..])
    {
      MemCpy(data, num, msg);
      SmallMod(num + |msg|, TWO_32);
      num := (num + |msg|) % TWO_32;
    }

    method CountBits(len: nat)
      requires Valid()
      modifies `Nl, `Nh
      ensures Valid() && View() == Counted(p, old(View()), len)
    {
      CounterExact(p, View(), len);
      ghost var r := Counted(p, View(), len);
      CountWords(len);
      assert View() == r;
    }

    /** The bit counter, in HASH_LONG arithmetic. */
    method CountWords(len: nat)
      modifies `Nl, `Nh
      ensures (Nl, Nh) == CountUp(p, old(Nl), old(Nh), len)
    {
      var l := LongOf(p, Nl + LongOf(p, LongOf(p, len) * 8)) % TWO_32;
      if l < Nl {
        Nh := LongOf(p, Nh + 1);
      }
      Nh := LongOf(p, Nh + LongOf(p, len / 0x2000_0000));
      Nl := l;
    }

    /** The block begun by earlier updates, filled up and compressed; the buffer is kept zeroed. */
    method CompleteBlock(first: seq<byte>)
      requires Valid() && num + |first| == p.cblock
      modifies `h, `num, data
      ensures num == 0 && View() == old(View()).(h := Fold(p, old(h), old(data[..num]) + first),
                                                 pending := [], tail := Zeros(p.cblock))
    {
      ghost var block := data[..num] + first;
      MemCpy(data, num, first);
      assert data[..] == data[..p.cblock] == block;
      OneBlock(p, h, block);
      BlockDataOrder(data[..]);
      num := 0;
      MemZero(data, 0, p.cblock);
      assert data[0..] == data[..p.cblock] == Zeros(p.cblock);
    }

    /** Whole blocks straight from the input, the rest buffered. */
    method WholeBlocks(input: seq<byte>)
      requires p.Valid() && data.Length == p.cblock && num == 0
      modifies `h, `num, data
      ensures h == Fold(p, old(h), Blocks(p, input))
      ensures num == |Left(p, input)|
      ensures data[..num] == Left(p, input) && data[num..] == old(data[..])[num..]
    {
      var start, len := 0, |input|;
      BlocksByDivision(p, input);
      var n := len / p.cblock;
      if n > 0 {
        BlockDataOrder(input[..n * p.cblock]);
        n := n * p.cblock;
        start := start + n;
        len := len - n;
      }

      if len != 0 {
        SmallMod(len, TWO_32);
        num := len % TWO_32;
        MemCpy(data, 0, input[start..]);
      }
    }

    /** One half of the length field, written at the moving pointer. */
    method PutWord(l: nat, at: nat) returns (next: nat)
      requires at + 4 <= data.Length
      modifies data
      ensures next == at + 4
      ensures data[..next] == old(data[..at]) + HostL2C(p.order, l)
    {
      MemCpy(data, at, HostL2C(p.order, l));
      next := at + 4;
    }

    /** Both halves, in the byte order of the input stream; the pointer moves 8 bytes on. */
    method PutLength(at: nat) returns (next: nat)
      requires at + 8 <= data.Length
      modifies data
      ensures next == at + 8
      ensures data[..next] == old(data[..at]) + LengthField(p.order, Nh, Nl)
    {
      match p.order {
        case BigEndian =>
          next := PutWord(Nh, at);
          next := PutWord(Nl, next);
        case LittleEndian =>
          next := PutWord(Nl, at);
          next := PutWord(Nh, next);
      }
    }

    method Final() returns (ok: int, md: seq<byte>)
      requires Valid()
      modifies this, data
      ensures Valid() && ok == 1
      ensures View() == Close(p, old(View()))
      ensures md == Digest(p, old(View()))
      ensures num == 0 && Nl == old(Nl) && Nh == old(Nh) && data[..] == Zeros(p.cblock)
    {
      var q := CloseBlocks();
      Clear(q);
      assert data[0..] == data[..];
      md := p.makeString(h);
      ok := 1;
    }

    /** The end of HASH_FINAL: nothing pending, and OPENSSL_cleanse on the whole buffer. */
    method Clear(q: nat)
      requires q == 0 && data.Length == p.cblock
      modifies `num, data
      ensures num == 0 && data[..] == Zeros(p.cblock)
    {
      num := 0;
      MemZero(data, q, p.cblock);
      assert data[..] == data[..p.cblock] && data[..q] == [];
    }

    /** The first half of HASH_FINAL: the one or two blocks that end the message. */
    method CloseBlocks() returns (q: nat)
      requires Valid()
      modifies `h, data
      ensures q == 0
      ensures h == Close(p, old(View())).h
    {
      CloseInBlocks(p, View());
      q := CompressEnd(data[..num], LengthField(p.order, Nh, Nl));
    }

    /** The blocks themselves, for the pending bytes and the length field that the context holds. */
    method CompressEnd(ghost pending: seq<byte>, ghost field: seq<byte>) returns (q: nat)
      requires p.Valid() && num < data.Length == p.cblock && pending == data[..num]
      requires field == LengthField(p.order, Nh, Nl)
      modifies `h, data
      ensures q == 0
      ensures h == if num + 9 <= p.cblock then p.compress(old(h), EndBlock(p, pending + [0x80], field))
                   else p.compress(p.compress(old(h), FirstOfTwo(p, pending)), EndBlock(p, [], field))
    {
      ghost var head := pending + [0x80];
      var n := num;
      data[n] := 0x80;
      n := n + 1;
      assert data[..n] == head;
      if n > p.cblock - 8 {
        SpillBlock(n, head);
        n := 0;
        head := [];
      }
      q := LengthBlock(n, head, field);
    }

    /** No room for the length: fill the block up and compress it. */
    method SpillBlock(n: nat, ghost head: seq<byte>)
      requires p.Valid() && data.Length == p.cblock && n <= p.cblock && data[..n] == head
      modifies `h, data
      ensures h == p.compress(old(h), head + Zeros(p.cblock - n))
    {
      ghost var block := head + Zeros(p.cblock - n);
      MemZero(data, n, p.cblock - n);
      assert data[..] == data[..p.cblock] == block;
      OneBlock(p, h, block);
      BlockDataOrder(data[..]);
    }

    /** The block that ends the message, and the pointer moving through it and back to its start. */
    method LengthBlock(n: nat, ghost head: seq<byte>, ghost field: seq<byte>) returns (q: nat)
      requires p.Valid() && data.Length == p.cblock && n <= p.cblock - 8 && data[..n] == head
      requires field == LengthField(p.order, Nh, Nl)
      modifies `h, data
      ensures q == 0
      ensures h == p.compress(old(h), EndBlock(p, head, field))
    {
      ghost var block := EndBlock(p, head, field);
      MemZero(data, n, p.cblock - 8 - n);
      q := p.cblock - 8;
      q := PutLength(q);
      q := q - p.cblock;
      assert data[q..q + p.cblock] == data[..p.cblock] == block;
      OneBlock(p, h, block);
      BlockDataOrder(data[q..q + p.cblock]);
    }
  }

  /** A whole life of a context: initialised, fed any number of chunks, and closed. */
  method DigestOf<S>(p: Params<S>, h: S, chunks: seq<seq<byte>>) returns (md: seq<byte>)
    requires p.Valid() && forall k :: 0 <= k < |chunks| ==> |chunks[k]| < Pow2(p.sizeBits)
    ensures md == p.makeString(Fold(p, h, Pad(p, Concat(chunks))))
  {
    var ctx := new HashCtx(p, h);
    ghost var c := ctx.View();
    assert chunks[0..] == chunks;
    for i := 0 to |chunks|
      invariant ctx.p == p && ctx.Valid() && fresh(ctx) && fresh(ctx.data)
      invariant Run(p, ctx.View(), chunks[i..]) == Run(p, c, chunks)
    {
      assert chunks[i..][1..] == chunks[i + 1..];
      var _ := ctx.Update(chunks[i]);
    }
    var _, digest := ctx.Final();
    StreamingRefinesOneShot(p, c, chunks);
    return digest;
  }

  /** The block that ends a message: what is pending, zeros, and the length field. */
  function EndBlock<S>(p: Params<S>, head: seq<byte>, field: seq<byte>): seq<byte>
    requires |head| + |field| <= p.cblock
  {
    head + Zeros(p.cblock - |field| - |head|) + field
  }

  /** The block before it, when the 9 extra bytes do not fit behind the pending ones. */
  function FirstOfTwo<S>(p: Params<S>, pending: seq<byte>): seq<byte>
    requires |pending| < p.cblock
  {
    pending + [0x80] + Zeros(p.cblock - 1 - |pending|)
  }

  /** Closing takes exactly one or exactly two compressions. */
  lemma {:induction false} CloseInBlocks<S>(p: Params<S>, c: Ctx<S>)
    requires WellFormed(p, c)
    ensures var f := LengthField(p.order, c.Nh, c.Nl);
            Close(p, c).h ==
            if c.num() + 9 <= p.cblock then p.compress(c.h, EndBlock(p, c.pending + [0x80], f))
            else p.compress(p.compress(c.h, FirstOfTwo(p, c.pending)), EndBlock(p, [], f))
  {
    var f := LengthField(p.order, c.Nh, c.Nl);
    PadZerosOfPending(p, c.num());
    if c.num() + 9 <= p.cblock {
      CloseInOne(p, c.h, c.pending, f);
    } else {
      CloseInTwo(p, c.h, c.pending, f);
    }
  }

  lemma {:induction false} CloseInOne<S>(p: Params<S>, h: S, pending: seq<byte>, f: seq<byte>)
    requires p.Valid() && |f| == 8 && |pending| + 9 <= p.cblock
    ensures Fold(p, h, pending + ([0x80] + Zeros(p.cblock - 9 - |pending|) + f))
            == p.compress(h, EndBlock(p, pending + [0x80], f))
  {
    var block := EndBlock(p, pending + [0x80], f);
    CutZeros(pending, [0x80], p.cblock - 9 - |pending|, 0, f);
    assert Zeros(0) + f == f;
    OneBlock(p, h, block);
  }

  lemma {:induction false} CloseInTwo<S>(p: Params<S>, h: S, pending: seq<byte>, f: seq<byte>)
    requires p.Valid() && |f| == 8 && |pending| < p.cblock < |pending| + 9
    ensures Fold(p, h, pending + ([0x80] + Zeros(2 * p.cblock - 9 - |pending|) + f))
            == p.compress(p.compress(h, FirstOfTwo(p, pending)), EndBlock(p, [], f))
  {
    CutZeros(pending, [0x80], p.cblock - 1 - |pending|, p.cblock - 8, f);
    assert [] + Zeros(p.cblock - 8) == Zeros(p.cblock - 8);
    TwoBlocks(p, h, FirstOfTwo(p, pending), EndBlock(p, [], f));
  }

  lemma {:induction false} TwoBlocks<S>(p: Params<S>, h: S, first: seq<byte>, second: seq<byte>)
    requires p.Valid() && |first| == |second| == p.cblock
    ensures Fold(p, h, first + second) == p.compress(p.compress(h, first), second)
  {
    OneBlock(p, h, first);
    FoldAppend(p, h, first, second);
  }
}
