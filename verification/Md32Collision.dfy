/** Padding loses nothing, and a collision of digests is a collision of the compression function. */
module Md32Collision {
  import opened Arithmetic
  import opened ByteStream
  import opened Md32Spec
  import opened Md32Stream
  import opened Sequences

  /** Message lengths in bytes are kept modulo this number: the length field has 64 bits. */
  const LENGTH_RANGE: nat := 0x2000_0000_0000_0000

  // ----- The length field -----

  lemma {:induction false} FieldRoundTrip(order: ByteOrder, hi: nat, lo: nat)
    ensures FieldValue(order, LengthField(order, hi, lo)) == hi % TWO_32 * TWO_32 + lo % TWO_32
  {
    HostRoundTrip(order, hi);
    HostRoundTrip(order, lo);
    var f := LengthField(order, hi, lo);
    match order
    case BigEndian => assert f[..4] == HostL2C(order, hi) && f[4..] == HostL2C(order, lo);
    case LittleEndian => assert f[..4] == HostL2C(order, lo) && f[4..] == HostL2C(order, hi);
  }

  /** The bytes of a padded message that hold its length. */
  function LastEight(s: seq<byte>): seq<byte>
    requires |s| >= 8
  {
    s[|s| - 8..]
  }

  /** The message length in bytes that a padded string claims. */
  function ClaimedLength(order: ByteOrder, s: seq<byte>): nat
    requires |s| >= 8
  {
    FieldValue(order, LastEight(s)) / 8
  }

  lemma {:induction false} LengthFieldValue(order: ByteOrder, n: nat)
    ensures FieldValue(order, LengthField(order, 8 * n / TWO_32, 8 * n % TWO_32)) / 8 == n % LENGTH_RANGE
  {
    FieldRoundTrip(order, 8 * n / TWO_32, 8 * n % TWO_32);
    TwoWords(8 * n);
    EightTimes(n);
  }

  lemma {:induction false} TwoWords(bits: nat)
    ensures bits / TWO_32 % TWO_32 * TWO_32 + bits % TWO_32 % TWO_32 == bits % 0x1_0000_0000_0000_0000
  {
    ModProduct(bits, TWO_32, TWO_32);
  }

  lemma {:induction false} EightTimes(n: nat)
    ensures 8 * n % 0x1_0000_0000_0000_0000 / 8 == n % LENGTH_RANGE
  {}

  lemma {:induction false} PadShape<S>(p: Params<S>, m: seq<byte>)
    requires p.Valid()
    ensures |Pad(p, m)| == |m| + 9 + PadZeros(p, |m|) && Rem(|Pad(p, m)|, p.cblock) == 0
    ensures LastEight(Pad(p, m)) == LengthField(p.order, 8 * |m| / TWO_32, 8 * |m| % TWO_32)
    ensures Pad(p, m)[..|m|] == m && Pad(p, m)[|m|] == 0x80
    ensures forall i :: |m| < i < |Pad(p, m)| - 8 ==> Pad(p, m)[i] == 0
  {
    GapLeast(|m| + 9, p.cblock, 0);
  }

  lemma {:induction false} PaddedLength<S>(p: Params<S>, m: seq<byte>)
    requires p.Valid()
    ensures |Pad(p, m)| >= 8
    ensures ClaimedLength(p.order, Pad(p, m)) == |m| % LENGTH_RANGE
  {
    PadShape(p, m);
    LengthFieldValue(p.order, |m|);
  }

  // ----- Reading a message back -----

  /** The message a padded string stands for, read off its length field. */
  function Unpad(order: ByteOrder, s: seq<byte>): seq<byte>
    requires |s| >= 8
  {
    var n := ClaimedLength(order, s);
    if n <= |s| then s[..n] else s
  }

  /** The length field identifies the message exactly up to 2^61 bytes. */
  lemma {:induction false} UnpadExactly<S>(p: Params<S>, m: seq<byte>)
    requires p.Valid()
    ensures |Pad(p, m)| >= 8
    ensures Unpad(p.order, Pad(p, m)) == m <==> |m| < LENGTH_RANGE
  {
    PadShape(p, m);
    PaddedLength(p, m);
    ReducedLength(|m|);
    UnpadByLength(p.order, Pad(p, m), m, |m| % LENGTH_RANGE);
  }

  lemma {:induction false} ReducedLength(n: nat)
    ensures n % LENGTH_RANGE <= n
    ensures n % LENGTH_RANGE == n <==> n < LENGTH_RANGE
  {}

  lemma {:induction false} UnpadByLength(order: ByteOrder, s: seq<byte>, m: seq<byte>, n: nat)
    requires |s| >= 8 && ClaimedLength(order, s) == n <= |m| <= |s| && s[..|m|] == m
    ensures Unpad(order, s) == m <==> n == |m|
  {}

  lemma {:induction false} PadSeparatesLengths<S>(p: Params<S>, a: seq<byte>, b: seq<byte>)
    requires p.Valid() && |a| < |b|
    ensures Pad(p, a) != Pad(p, b)
  {
    PadShape(p, a);
    PadShape(p, b);
    if |Pad(p, a)| == |Pad(p, b)| {
      assert Pad(p, a)[|b|] == 0;
    }
  }

  /** Padding is injective for messages of every length: past 2^61 bytes the 0x80 still marks the end. */
  lemma {:induction false} PadInjective<S>(p: Params<S>, a: seq<byte>, b: seq<byte>)
    requires p.Valid() && Pad(p, a) == Pad(p, b)
    ensures a == b
  {
    if |a| < |b| {
      PadSeparatesLengths(p, a, b);
    } else if |b| < |a| {
      PadSeparatesLengths(p, b, a);
    } else {
      PadShape(p, a);
      PadShape(p, b);
    }
  }

  // ----- From a digest collision to a compression collision -----

  /** The block at byte offset i of a padded message. */
  function Block<S>(p: Params<S>, s: seq<byte>, i: nat): seq<byte>
    requires i + p.cblock <= |s|
  {
    s[i..i + p.cblock]
  }

  /** Two different (state, block) inputs of the compression function, taken at byte offset i of the one
      chain and j of the other, with one output. */
  ghost predicate Collides<S>(p: Params<S>, h: S, x: seq<byte>, i: nat, y: seq<byte>, j: nat)
    requires p.cblock > 0 && i + p.cblock <= |x| && j + p.cblock <= |y|
  {
    var s, t := Fold(p, h, x[..i]), Fold(p, h, y[..j]);
    && (s != t || Block(p, x, i) != Block(p, y, j))
    && p.compress(s, Block(p, x, i)) == p.compress(t, Block(p, y, j))
  }

  lemma {:induction false} FoldOfLast<S>(p: Params<S>, h: S, s: seq<byte>)
    requires 0 < p.cblock <= |s|
    ensures var i := |s| - p.cblock;
            Block(p, s, i) == s[i..] && Fold(p, h, s) == p.compress(Fold(p, h, s[..i]), Block(p, s, i))
  {}

  lemma {:induction false} PrefixesDiffer(x: seq<byte>, y: seq<byte>, k: nat)
    requires k <= |x| == |y| && x != y && x[k..] == y[k..]
    ensures x[..k] != y[..k]
  {
    assert x == x[..k] + x[k..] && y == y[..k] + y[k..];
  }

  /** Walking back over both chains from equal results to where they part. */
  lemma {:induction false} WalkBack<S>(p: Params<S>, h: S, x: seq<byte>, y: seq<byte>) returns (i: nat, j: nat)
    requires p.Valid() && Rem(|x|, p.cblock) == 0 && Rem(|y|, p.cblock) == 0
    requires Fold(p, h, x) == Fold(p, h, y)
    requires || (|x| == |y| && x != y)
             || (|x| >= p.cblock && |y| >= p.cblock && x[|x| - p.cblock..] != y[|y| - p.cblock..])
    ensures i + p.cblock <= |x| && j + p.cblock <= |y|
    ensures Collides(p, h, x, i, y, j)
    decreases |x|
  {
    i, j := |x| - p.cblock, |y| - p.cblock;
    FoldOfLast(p, h, x);
    FoldOfLast(p, h, y);
    if Block(p, x, i) == Block(p, y, j) && Fold(p, h, x[..i]) == Fold(p, h, y[..j]) {
      var k := i;
      PrefixesDiffer(x, y, k);
      i, j := WalkBack(p, h, x[..k], y[..k]);
      CollidesInPrefix(p, h, x, k, i, y, k, j);
    }
  }

  lemma {:induction false} CollidesInPrefix<S>(p: Params<S>, h: S, x: seq<byte>, m: nat, i: nat,
                                               y: seq<byte>, n: nat, j: nat)
    requires p.cblock > 0 && i + p.cblock <= m <= |x| && j + p.cblock <= n <= |y|
    requires Collides(p, h, x[..m], i, y[..n], j)
    ensures Collides(p, h, x, i, y, j)
  {
    assert x[..m][..i] == x[..i] && Block(p, x[..m], i) == Block(p, x, i);
    assert y[..n][..j] == y[..j] && Block(p, y[..n], j) == Block(p, y, j);
  }

  /** Messages whose lengths the 64-bit length field can tell apart, or that are equally long. */
  ghost predicate Comparable(a: seq<byte>, b: seq<byte>) {
    |a| == |b| || |a| % LENGTH_RANGE != |b| % LENGTH_RANGE
  }

  lemma {:induction false} PaddedCollision<S>(p: Params<S>, h: S, a: seq<byte>, b: seq<byte>) returns (i: nat, j: nat)
    requires p.Valid() && a != b && Comparable(a, b)
    requires Fold(p, h, Pad(p, a)) == Fold(p, h, Pad(p, b))
    ensures i + p.cblock <= |Pad(p, a)| && j + p.cblock <= |Pad(p, b)|
    ensures Collides(p, h, Pad(p, a), i, Pad(p, b), j)
  {
    var x, y := Pad(p, a), Pad(p, b);
    PadShape(p, a);
    PadShape(p, b);
    if |a| != |b| {
      PaddedLength(p, a);
      PaddedLength(p, b);
      assert LastEight(x) == x[|x| - p.cblock..][p.cblock - 8..];
      assert LastEight(y) == y[|y| - p.cblock..][p.cblock - 8..];
    }
    i, j := WalkBack(p, h, x, y);
  }

  ghost predicate Injective<S(!new)>(f: S -> seq<byte>) {
    forall s, t :: f(s) == f(t) ==> s == t
  }

  /** Merkle-Damgard: for any compression function, two different messages below 2^61 bytes, fed in any
      chunks, that end in equal digests yield two different compression inputs with equal outputs. */
  lemma {:induction false} CollisionReduction<S(!new)>(p: Params<S>, c: Ctx<S>, xs: seq<seq<byte>>, ys: seq<seq<byte>>)
    returns (i: nat, j: nat)
    requires Fresh(p, c) && Injective(p.makeString)
    requires Concat(xs) != Concat(ys) && |Concat(xs)| < LENGTH_RANGE && |Concat(ys)| < LENGTH_RANGE
    requires Digest(p, Run(p, c, xs)) == Digest(p, Run(p, c, ys))
    ensures i + p.cblock <= |Pad(p, Concat(xs))| && j + p.cblock <= |Pad(p, Concat(ys))|
    ensures Collides(p, c.h, Pad(p, Concat(xs)), i, Pad(p, Concat(ys)), j)
  {
    EqualDigestsEqualFolds(p, c, xs, ys);
    SmallMod(|Concat(xs)|, LENGTH_RANGE);
    SmallMod(|Concat(ys)|, LENGTH_RANGE);
    i, j := PaddedCollision(p, c.h, Concat(xs), Concat(ys));
  }

  lemma {:induction false} EqualDigestsEqualFolds<S(!new)>(p: Params<S>, c: Ctx<S>,
                                                           xs: seq<seq<byte>>, ys: seq<seq<byte>>)
    requires Fresh(p, c) && Injective(p.makeString)
    requires Digest(p, Run(p, c, xs)) == Digest(p, Run(p, c, ys))
    ensures Fold(p, c.h, Pad(p, Concat(xs))) == Fold(p, c.h, Pad(p, Concat(ys)))
  {
    StreamingRefinesOneShot(p, c, xs);
    StreamingRefinesOneShot(p, c, ys);
  }
}
