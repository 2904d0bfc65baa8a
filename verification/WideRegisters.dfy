/** The register arithmetic of 32-bit digests when MD32_REG_T is wider than 32 bits: the bits above
    the low 32 may hold anything, because nothing but ROTATE ever moves them down, and ROTATE masks. */
module WideRegisters {
  import opened Arithmetic

  /** A register, least significant bit first. */
  type Word = seq<bool>

  const LOW: nat := 32

  // ----- C operators -----

  function Off(n: nat): (w: Word)
    ensures |w| == n
  {
    seq(n, _ => false)
  }

  function And(a: Word, b: Word): (w: Word)
    requires |a| == |b|
    ensures |w| == |a|
  {
    seq(|a|, i requires 0 <= i < |a| => a[i] && b[i])
  }

  function Or(a: Word, b: Word): (w: Word)
    requires |a| == |b|
    ensures |w| == |a|
  {
    seq(|a|, i requires 0 <= i < |a| => a[i] || b[i])
  }

  function Xor(a: Word, b: Word): (w: Word)
    requires |a| == |b|
    ensures |w| == |a|
  {
    seq(|a|, i requires 0 <= i < |a| => a[i] != b[i])
  }

  function Not(a: Word): (w: Word)
    ensures |w| == |a|
  {
    seq(|a|, i requires 0 <= i < |a| => !a[i])
  }

  /** Addition that drops the carry out of the top bit, from a carry in. */
  function Add(a: Word, b: Word, carry: bool): (w: Word)
    requires |a| == |b|
    ensures |w| == |a|
  {
    if a == [] then []
    else [(a[0] != b[0]) != carry] + Add(a[1..], b[1..], Carry(a[0], b[0], carry))
  }

  function Carry(x: bool, y: bool, z: bool): bool { (x && y) || (z && (x || y)) }

  function Shl(a: Word, n: nat): (w: Word)
    requires n <= |a|
    ensures |w| == |a|
  {
    Off(n) + a[..|a| - n]
  }

  function Shr(a: Word, n: nat): (w: Word)
    requires n <= |a|
    ensures |w| == |a|
  {
    a[n..] + Off(n)
  }

  /** a & 0xffffffff */
  function Masked(a: Word): (w: Word)
    requires |a| >= LOW
    ensures |w| == |a|
  {
    a[..LOW] + Off(|a| - LOW)
  }

  /** The portable ROTATE macro. */
  function Rotate(a: Word, n: nat): (w: Word)
    requires |a| >= LOW && 0 < n < LOW
    ensures |w| == |a|
  {
    Or(Shl(a, n), Shr(Masked(a), LOW - n))
  }

  // ----- What they mean -----

  function Value(a: Word): nat {
    if a == [] then 0 else (if a[0] then 1 else 0) + 2 * Value(a[1..])
  }

  lemma {:induction false} NextDigit(rest: nat, bit: nat, m: nat)
    requires bit <= 1 && m > 0
    ensures (2 * rest + bit) % (2 * m) == 2 * (rest % m) + bit
  {
    var q := rest / m;
    assert rest == q * m + rest % m;
    assert 2 * (q * m) == q * (2 * m);
    DivModUnique(2 * rest + bit, q, 2 * (rest % m) + bit, 2 * m);
  }

  function Bit(b: bool): nat { if b then 1 else 0 }

  /** Add is addition modulo 2^width. */
  lemma {:induction false} AddValue(a: Word, b: Word, carry: bool)
    requires |a| == |b|
    ensures Value(Add(a, b, carry)) == (Value(a) + Value(b) + Bit(carry)) % Pow2(|a|)
    decreases |a|
  {
    if a == [] {
      DivModUnique(Bit(carry), Bit(carry), 0, 1);
    } else {
      var c := Carry(a[0], b[0], carry);
      var w := Add(a, b, carry);
      AddValue(a[1..], b[1..], c);
      assert w[1..] == Add(a[1..], b[1..], c);
      NextDigit(Value(a[1..]) + Value(b[1..]) + Bit(c), Bit(w[0]), Pow2(|a| - 1));
    }
  }

  lemma {:induction false} ShlBit(a: Word, n: nat, i: nat)
    requires n <= |a| && i < |a|
    ensures Shl(a, n)[i] <==> i >= n && a[i - n]
  {}

  lemma {:induction false} ShrBit(a: Word, n: nat, i: nat)
    requires n <= |a| && i < |a|
    ensures Shr(a, n)[i] <==> i + n < |a| && a[i + n]
  {}

  lemma {:induction false} MaskedBit(a: Word, i: nat)
    requires LOW <= |a| && i < |a|
    ensures Masked(a)[i] <==> i < LOW && a[i]
  {}

  lemma {:induction false} RotateBit(a: Word, n: nat, i: nat)
    requires |a| >= LOW && 0 < n < LOW && i < |a|
    ensures Rotate(a, n)[i] == if i < n then a[LOW - n + i] else a[i - n]
  {
    ShlBit(a, n, i);
    ShrBit(Masked(a), LOW - n, i);
    if i + (LOW - n) < |a| {
      MaskedBit(a, i + (LOW - n));
    }
  }

  /** On its low 32 bits ROTATE is the rotation of the low 32 bits, whatever stands above them. */
  lemma {:induction false} RotateIsRotation(a: Word, n: nat)
    requires |a| >= LOW && 0 < n < LOW
    ensures Rotate(a, n)[..LOW] == a[LOW - n..LOW] + a[..LOW - n]
  {
    var w, s := Rotate(a, n), a[LOW - n..LOW] + a[..LOW - n];
    forall i | 0 <= i < LOW
      ensures w[i] == s[i]
    {
      RotateBit(a, n, i);
    }
    assert w[..LOW] == s;
  }

  /** Without the mask the plain shifts rotate exactly when every set bit 32 + j that they bring down to
      a low position finds bit j set already. */
  lemma {:induction false} UnmaskedRotation(a: Word, n: nat)
    requires |a| >= LOW && 0 < n < LOW
    ensures Or(Shl(a, n), Shr(a, LOW - n))[..LOW] == a[LOW - n..LOW] + a[..LOW - n]
            <==> forall j :: 0 <= j < LOW - n && LOW + j < |a| && a[LOW + j] ==> a[j]
  {
    var u, s := Or(Shl(a, n), Shr(a, LOW - n)), a[LOW - n..LOW] + a[..LOW - n];
    if u[..LOW] == s {
      forall j | 0 <= j < LOW - n && LOW + j < |a| && a[LOW + j]
        ensures a[j]
      {
        UnmaskedBit(a, n, n + j);
        assert u[..LOW][n + j] == s[n + j] == a[j];
      }
    }
    if forall j :: 0 <= j < LOW - n && LOW + j < |a| && a[LOW + j] ==> a[j] {
      forall i | 0 <= i < LOW
        ensures u[i] == s[i]
      {
        UnmaskedBit(a, n, i);
        if i >= n {
          var j := i - n;
          assert s[i] == a[j];
        }
      }
      assert u[..LOW] == s;
    }
  }

  lemma {:induction false} UnmaskedBit(a: Word, n: nat, i: nat)
    requires |a| >= LOW && 0 < n < LOW && i < LOW
    ensures Or(Shl(a, n), Shr(a, LOW - n))[i]
            == if i < n then a[LOW - n + i] else a[i - n] || (LOW + (i - n) < |a| && a[LOW + (i - n)])
  {
    ShlBit(a, n, i);
    ShrBit(a, LOW - n, i);
  }

  // ----- Only low bits matter -----

  lemma {:induction false} AddLow(a: Word, b: Word, carry: bool, k: nat)
    requires |a| == |b| && k <= |a|
    ensures Add(a, b, carry)[..k] == Add(a[..k], b[..k], carry)
    decreases k
  {
    if k == 0 {
    } else {
      AddLow(a[1..], b[1..], Carry(a[0], b[0], carry), k - 1);
      assert a[..k][1..] == a[1..][..k - 1] && b[..k][1..] == b[1..][..k - 1];
    }
  }

  lemma {:induction false} BitwiseLow(a: Word, b: Word)
    requires |a| == |b| >= LOW
    ensures And(a, b)[..LOW] == And(a[..LOW], b[..LOW])
    ensures Or(a, b)[..LOW] == Or(a[..LOW], b[..LOW])
    ensures Xor(a, b)[..LOW] == Xor(a[..LOW], b[..LOW])
    ensures Not(a)[..LOW] == Not(a[..LOW])
  {}

  lemma {:induction false} RotateLow(a: Word, n: nat)
    requires |a| >= LOW && 0 < n < LOW
    ensures Rotate(a, n)[..LOW] == Rotate(a[..LOW], n)
  {
    RotateIsRotation(a, n);
    RotateIsRotation(a[..LOW], n);
  }

  // ----- Expressions and programs over registers -----

  datatype Expr =
    | Reg(i: nat)
    | Plus(l: Expr, r: Expr)
    | BitAnd(l: Expr, r: Expr)
    | BitOr(l: Expr, r: Expr)
    | BitXor(l: Expr, r: Expr)
    | BitNot(e: Expr)
    | Rot(e: Expr, n: nat)

  /** Registers in range, and rotation counts for which the macro is defined. */
  ghost predicate Fits(e: Expr, count: nat) {
    match e
    case Reg(i) => i < count
    case Plus(l, r) => Fits(l, count) && Fits(r, count)
    case BitAnd(l, r) => Fits(l, count) && Fits(r, count)
    case BitOr(l, r) => Fits(l, count) && Fits(r, count)
    case BitXor(l, r) => Fits(l, count) && Fits(r, count)
    case BitNot(d) => Fits(d, count)
    case Rot(d, n) => Fits(d, count) && 0 < n < LOW
  }

  ghost predicate Wide(regs: seq<Word>, width: nat) {
    width >= LOW && forall i :: 0 <= i < |regs| ==> |regs[i]| == width
  }

  ghost function Eval(e: Expr, regs: seq<Word>, width: nat): (w: Word)
    requires Wide(regs, width) && Fits(e, |regs|)
    ensures |w| == width
  {
    match e
    case Reg(i) => regs[i]
    case Plus(l, r) => Add(Eval(l, regs, width), Eval(r, regs, width), false)
    case BitAnd(l, r) => And(Eval(l, regs, width), Eval(r, regs, width))
    case BitOr(l, r) => Or(Eval(l, regs, width), Eval(r, regs, width))
    case BitXor(l, r) => Xor(Eval(l, regs, width), Eval(r, regs, width))
    case BitNot(d) => Not(Eval(d, regs, width))
    case Rot(d, n) => Rotate(Eval(d, regs, width), n)
  }

  /** The 32-bit registers inside wide ones. */
  ghost function Narrow(regs: seq<Word>, width: nat): (low: seq<Word>)
    requires Wide(regs, width)
    ensures |low| == |regs| && Wide(low, LOW)
    ensures forall i :: 0 <= i < |regs| ==> low[i] == regs[i][..LOW]
  {
    seq(|regs|, i requires 0 <= i < |regs| => regs[i][..LOW])
  }

  /** The number whose binary digits are the bits. */
  lemma {:induction false} ValueBits(a: Word, i: nat)
    requires i < |a|
    ensures Value(a) / Pow2(i) % 2 == Bit(a[i])
  {
    if i == 0 {
      FirstBit(Bit(a[0]), Value(a[1..]));
    } else {
      ValueBits(a[1..], i - 1);
      assert Value(a) / Pow2(i) == Value(a[1..]) / Pow2(i - 1) by {
        HalfFirst(Bit(a[0]), Value(a[1..]), Pow2(i - 1));
      }
    }
  }

  lemma {:induction false} FirstBit(bit: nat, rest: nat)
    requires bit <= 1
    ensures (bit + 2 * rest) / Pow2(0) % 2 == bit
  {
    DivModUnique(bit + 2 * rest, bit + 2 * rest, 0, 1);
    DivModUnique(bit + 2 * rest, rest, bit, 2);
  }

  lemma {:induction false} HalfFirst(bit: nat, rest: nat, m: nat)
    requires bit <= 1 && m > 0
    ensures (bit + 2 * rest) / (2 * m) == rest / m
  {
    var q, r := rest / m, rest % m;
    assert rest == q * m + r;
    assert 2 * (q * m) == q * (2 * m);
    DivModUnique(bit + 2 * rest, q, bit + 2 * r, 2 * m);
  }

  // What each operator has to compute, bit by bit or as a number.

  ghost predicate IsSum(w: Word, a: Word, b: Word) { Value(w) == (Value(a) + Value(b)) % Pow2(|a|) }

  ghost predicate IsConjunction(w: Word, a: Word, b: Word)
    requires |w| == |a| == |b|
  {
    forall i :: 0 <= i < |w| ==> (w[i] <==> a[i] && b[i])
  }

  ghost predicate IsDisjunction(w: Word, a: Word, b: Word)
    requires |w| == |a| == |b|
  {
    forall i :: 0 <= i < |w| ==> (w[i] <==> a[i] || b[i])
  }

  ghost predicate IsDifference(w: Word, a: Word, b: Word)
    requires |w| == |a| == |b|
  {
    forall i :: 0 <= i < |w| ==> (w[i] <==> a[i] != b[i])
  }

  ghost predicate IsNegation(w: Word, a: Word)
    requires |w| == |a|
  {
    forall i :: 0 <= i < |w| ==> (w[i] <==> !a[i])
  }

  /** The low 32 bits are rotated upwards by n; the bits above them are shifted. */
  ghost predicate IsRotation(w: Word, a: Word, n: nat)
    requires |w| == |a| >= LOW && 0 < n < LOW
  {
    && w[..LOW] == a[LOW - n..LOW] + a[..LOW - n]
    && w[LOW..] == a[LOW - n..|a| - n]
  }

  lemma {:induction false} RotateMeans(a: Word, n: nat)
    requires |a| >= LOW && 0 < n < LOW
    ensures IsRotation(Rotate(a, n), a, n)
  {
    var w := Rotate(a, n);
    RotateIsRotation(a, n);
    forall i | LOW <= i < |a|
      ensures w[i] == a[i - n]
    {
      RotateBit(a, n, i);
    }
  }

  /** What an expression computes from what its parts compute, in registers of any width. */
  ghost predicate Means(e: Expr, regs: seq<Word>, width: nat)
    requires Wide(regs, width) && Fits(e, |regs|)
  {
    var w := Eval(e, regs, width);
    match e
    case Reg(k) => w == regs[k]
    case Plus(l, r) => IsSum(w, Eval(l, regs, width), Eval(r, regs, width))
    case BitAnd(l, r) => IsConjunction(w, Eval(l, regs, width), Eval(r, regs, width))
    case BitOr(l, r) => IsDisjunction(w, Eval(l, regs, width), Eval(r, regs, width))
    case BitXor(l, r) => IsDifference(w, Eval(l, regs, width), Eval(r, regs, width))
    case BitNot(d) => IsNegation(w, Eval(d, regs, width))
    case Rot(d, n) => IsRotation(w, Eval(d, regs, width), n)
  }

  lemma {:induction false} BitwiseMeans(a: Word, b: Word)
    requires |a| == |b|
    ensures IsConjunction(And(a, b), a, b) && IsDisjunction(Or(a, b), a, b)
    ensures IsDifference(Xor(a, b), a, b) && IsNegation(Not(a), a)
  {}

  lemma {:induction false} EvalMeans(e: Expr, regs: seq<Word>, width: nat)
    requires Wide(regs, width) && Fits(e, |regs|)
    ensures Means(e, regs, width)
  {
    match e
    case Reg(_) =>
    case Plus(l, r) => AddValue(Eval(l, regs, width), Eval(r, regs, width), false);
    case BitAnd(l, r) => BitwiseMeans(Eval(l, regs, width), Eval(r, regs, width));
    case BitOr(l, r) => BitwiseMeans(Eval(l, regs, width), Eval(r, regs, width));
    case BitXor(l, r) => BitwiseMeans(Eval(l, regs, width), Eval(r, regs, width));
    case BitNot(d) => BitwiseMeans(Eval(d, regs, width), Eval(d, regs, width));
    case Rot(d, n) => RotateMeans(Eval(d, regs, width), n);
  }

  /** Evaluation in wide registers agrees on the low 32 bits with evaluation on 32-bit words. */
  lemma {:induction false} EvalLow(e: Expr, regs: seq<Word>, width: nat)
    requires Wide(regs, width) && Fits(e, |regs|)
    ensures Eval(e, regs, width)[..LOW] == Eval(e, Narrow(regs, width), LOW)
  {
    match e
    case Reg(i) =>
    case Plus(l, r) =>
      EvalLow(l, regs, width);
      EvalLow(r, regs, width);
      AddLow(Eval(l, regs, width), Eval(r, regs, width), false, LOW);
    case BitAnd(l, r) =>
      EvalLow(l, regs, width);
      EvalLow(r, regs, width);
      BitwiseLow(Eval(l, regs, width), Eval(r, regs, width));
    case BitOr(l, r) =>
      EvalLow(l, regs, width);
      EvalLow(r, regs, width);
      BitwiseLow(Eval(l, regs, width), Eval(r, regs, width));
    case BitXor(l, r) =>
      EvalLow(l, regs, width);
      EvalLow(r, regs, width);
      BitwiseLow(Eval(l, regs, width), Eval(r, regs, width));
    case BitNot(d) =>
      EvalLow(d, regs, width);
      BitwiseLow(Eval(d, regs, width), Eval(d, regs, width));
    case Rot(d, n) =>
      EvalLow(d, regs, width);
      RotateLow(Eval(d, regs, width), n);
  }

  datatype Assign = Assign(dst: nat, e: Expr)

  ghost predicate Runs(prog: seq<Assign>, count: nat) {
    forall k :: 0 <= k < |prog| ==> prog[k].dst < count && Fits(prog[k].e, count)
  }

  /** One assignment after another; `noise` is what each leaves above the low 32 bits. */
  ghost function Exec(prog: seq<Assign>, regs: seq<Word>, width: nat, noise: seq<Word>): (out: seq<Word>)
    requires Wide(regs, width) && Runs(prog, |regs|)
    requires |noise| == |prog| && forall k :: 0 <= k < |noise| ==> |noise[k]| == width - LOW
    ensures |out| == |regs| && Wide(out, width)
    decreases |prog|
  {
    if prog == [] then regs
    else
      var w := Eval(prog[0].e, regs, width)[..LOW] + noise[0];
      Exec(prog[1..], regs[prog[0].dst := w], width, noise[1..])
  }

  ghost function Silence(n: nat): (s: seq<Word>)
    ensures |s| == n && forall k :: 0 <= k < n ==> s[k] == []
  {
    seq(n, _ => [])
  }

  /** One assignment writes the low 32 bits of its expression, and the noise, to its register alone. */
  lemma {:induction false} ExecOne(a: Assign, regs: seq<Word>, width: nat, noise: Word)
    requires Wide(regs, width) && Runs([a], |regs|) && |noise| == width - LOW
    ensures var out := Exec([a], regs, width, [noise]);
            && out[a.dst][..LOW] == Eval(a.e, regs, width)[..LOW] && out[a.dst][LOW..] == noise
            && forall k :: 0 <= k < |regs| && k != a.dst ==> out[k] == regs[k]
  {
    assert [a][0] == a && [a][1..] == [] && [noise][0] == noise && [noise][1..] == [];
  }

  /** A program runs front to back. */
  lemma {:induction false} ExecConcat(p: seq<Assign>, q: seq<Assign>, regs: seq<Word>, width: nat,
                                      m: seq<Word>, n: seq<Word>)
    requires Wide(regs, width) && Runs(p, |regs|) && Runs(q, |regs|) && |m| == |p| && |n| == |q|
    requires (forall k :: 0 <= k < |m| ==> |m[k]| == width - LOW) && forall k :: 0 <= k < |n| ==> |n[k]| == width - LOW
    ensures Runs(p + q, |regs|) && forall k :: 0 <= k < |m + n| ==> |(m + n)[k]| == width - LOW
    ensures Exec(p + q, regs, width, m + n) == Exec(q, Exec(p, regs, width, m), width, n)
    decreases |p|
  {
    if p == [] {
      assert p + q == q && m + n == n;
    } else {
      var w := Eval(p[0].e, regs, width)[..LOW] + m[0];
      ExecConcat(p[1..], q, regs[p[0].dst := w], width, m[1..], n);
      assert (p + q)[1..] == p[1..] + q && (m + n)[1..] == m[1..] + n;
    }
  }

  /** A whole round computed in wide registers, polluted at every step in any way, leaves in the low
      halves exactly what the same round leaves in 32-bit registers. */
  lemma {:induction false} ExecLow(prog: seq<Assign>, regs: seq<Word>, width: nat, noise: seq<Word>)
    requires Wide(regs, width) && Runs(prog, |regs|)
    requires |noise| == |prog| && forall k :: 0 <= k < |noise| ==> |noise[k]| == width - LOW
    ensures Narrow(Exec(prog, regs, width, noise), width)
            == Exec(prog, Narrow(regs, width), LOW, Silence(|prog|))
    decreases |prog|
  {
    if prog == [] {
    } else {
      var low := Narrow(regs, width);
      var d, e := prog[0].dst, prog[0].e;
      var w := Eval(e, regs, width)[..LOW] + noise[0];
      var v := Eval(e, low, LOW)[..LOW] + [];
      EvalLow(e, regs, width);
      assert w[..LOW] == v;
      assert Narrow(regs[d := w], width) == low[d := v];
      assert Silence(|prog|)[1..] == Silence(|prog| - 1);
      ExecLow(prog[1..], regs[d := w], width, noise[1..]);
    }
  }
}
