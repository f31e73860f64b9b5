/** Arithmetic of the sBPF machine, 64-bit and 32-bit, as `SVM/SBPF/Execute.lean` defines it. */
module Alu {
  import opened Words

  datatype Size = Wide | Narrow

  /** `Mov` is the 32-bit move; the 64-bit one is an instruction of its own. */
  datatype AluOp = Add | Sub | Mul | Or | And | Xor | Lsh | Rsh | Arsh | Div | Mod | Mov | Neg

  // ----- shifts -----

  /** Shift amounts are taken modulo 64, as in the virtual machine. */
  function ShiftLeft(x: u64, n: u64): u64 {
    WrapU(x * Pow2(n % 64))
  }

  function ShiftRight(x: u64, n: u64): (r: u64)
    ensures r <= x
  {
    DivShrinks(x, Pow2(n % 64));
    x / Pow2(n % 64)
  }

  lemma DivShrinks(x: nat, d: nat)
    requires d > 0
    ensures 0 <= x / d <= x
  {
    var q := x / d;
    assert x == d * q + x % d;
    if q > 0 {
      MulGrows(q, d);
      assert q * d == d * q;
    }
  }

  // ----- arithmetic shift -----

  /** The bits an arithmetic shift fills in: the top `s` of `bits`. */
  function HighBits(bits: nat, s: nat): (h: nat)
    requires s <= bits
    ensures h < Pow2(bits)
  {
    Pow2Split(bits, s);
    MulGrows(Pow2(bits - s), Pow2(s));
    Pow2(bits) - Pow2(bits - s)
  }

  /** An arithmetic right shift by `s` of a `bits`-bit word: a logical one, with the high bits
      filled in for a negative word. */
  function ShiftSigned(bits: nat, x: nat, s: nat): (r: nat)
    requires 0 < bits && s < bits && x < Pow2(bits)
    ensures r < Pow2(bits)
  {
    DivShrinks(x, Pow2(s));
    if x < Pow2(bits - 1) then x / Pow2(s) else Bits(BitOr, x / Pow2(s), HighBits(bits, s), bits)
  }

  lemma Pow2Split(n: nat, s: nat)
    requires s <= n
    ensures Pow2(n) == Pow2(n - s) * Pow2(s)
  {
    Pow2Sum(n - s, s);
  }

  lemma {:induction false} OrZero(h: nat, n: nat)
    requires h < Pow2(n)
    ensures Bits(BitOr, 0, h, n) == h
  {
    if n > 0 {
      OrZero(h / 2, n - 1);
    }
  }

  /** An `or` of words without common bits is their sum. */
  lemma {:induction false} OrAdds(a: nat, q: nat, k: nat, n: nat)
    requires k <= n && a < Pow2(k) && Pow2(k) * q < Pow2(n)
    ensures Bits(BitOr, a, Pow2(k) * q, n) == a + Pow2(k) * q
  {
    var h := Pow2(k) * q;
    if k == 0 {
      OrZero(h, n);
    } else {
      assert h == 2 * (Pow2(k - 1) * q);
      assert h % 2 == 0 && h / 2 == Pow2(k - 1) * q;
      OrAdds(a / 2, q, k - 1, n - 1);
    }
  }

  /** The filled-in shift is division of the signed word, rounding down. */
  lemma ShiftSignedDivides(bits: nat, x: nat, s: nat)
    requires 0 < bits && s < bits && x < Pow2(bits)
    ensures var signed := if x < Pow2(bits - 1) then x else x - Pow2(bits);
            ShiftSigned(bits, x, s) == (signed / Pow2(s)) % Pow2(bits)
  {
    hide Pow2, Bits;
    var p, q := Pow2(s), Pow2(bits - s);
    Pow2Split(bits, s);
    DivShrinks(x, p);
    if x < Pow2(bits - 1) {
      Small(x / p, Pow2(bits));
    } else {
      var top := x / p;
      DivBelow(x, p, q);
      assert HighBits(bits, s) == q * (p - 1) by {
        assert q * (p - 1) == q * p - q;
      }
      OrAdds(top, p - 1, bits - s, bits);
      DivShift(x, p, q);
      assert (x - Pow2(bits)) / p == top - q;
      NegMod(top - q, Pow2(bits));
    }
  }

  lemma Small(v: nat, m: nat)
    requires v < m
    ensures v % m == v
  {
  }

  lemma NegMod(v: int, m: nat)
    requires v < 0 <= v + m
    ensures m > 0 && v % m == v + m
  {
  }

  lemma DivBelow(x: nat, p: nat, q: nat)
    requires p > 0 && x < q * p
    ensures x / p < q
  {
    var d := x / p;
    assert x == p * d + x % p;
    assert p * q == q * p;
    if d >= q {
      MulOrder(p, q, d);
    }
  }

  lemma MulOrder(p: nat, a: nat, b: nat)
    requires a <= b
    ensures p * a <= p * b
  {
    assert p * b == p * a + p * (b - a);
  }

  lemma DivShift(x: nat, p: nat, q: nat)
    requires p > 0
    ensures (x - q * p) / p == x / p - q
  {
    var d, r := x / p, x % p;
    assert x == p * d + r;
    var v := x - q * p;
    assert v == p * (d - q) + r by {
      assert p * (d - q) == p * d - p * q;
      assert p * q == q * p;
    }
    var e, t := v / p, v % p;
    assert v == p * e + t;
    EuclideanUnique(p, d - q, r, e, t);
  }

  // ----- one operation -----

  function SignExtend32(n: nat): u64
    requires n < TWO32
  {
    if n < 0x8000_0000 then n else n + (TWO64 - TWO32)
  }

  /** Division and remainder as in Lean's natural numbers: `x / 0 = 0` and `x % 0 = x`. */
  function AluValue(size: Size, op: AluOp, x: u64, y: u64): u64 {
    match size
    case Wide => WideValue(op, x, y)
    case Narrow => NarrowValue(op, x, y)
  }

  function WideValue(op: AluOp, x: u64, y: u64): u64 {
    match op
    case Add => WrapU(x + y)
    case Sub => WrapU(x - y)
    case Mul => WrapU(x * y)
    case Or => Bitwise(BitOr, x, y)
    case And => Bitwise(BitAnd, x, y)
    case Xor => Bitwise(BitXor, x, y)
    case Lsh => ShiftLeft(x, y)
    case Rsh => ShiftRight(x, y)
    case Arsh => Arsh64(x, y)
    case Div => if y == 0 then 0 else (DivShrinks(x, y); x / y)
    case Mod => if y == 0 then x else x % y
    case Mov => y
    case Neg => WrapU(0 - x)
  }

  function Arsh64(x: u64, y: u64): u64 {
    Pow2Values();
    ShiftSigned(64, x, y % 64)
  }

  /** Sums, differences and products are sign-extended, everything else is zero-extended. */
  function NarrowValue(op: AluOp, x: u64, y: u64): u64 {
    match op
    case Add => SignExtend32((x + y) % TWO32)
    case Sub => SignExtend32((x - y) % TWO32)
    case Mul => SignExtend32((x * y) % TWO32)
    case Or => Bitwise(BitOr, x, y) % TWO32
    case And => Bitwise(BitAnd, x, y) % TWO32
    case Xor => Bitwise(BitXor, x, y) % TWO32
    case Lsh => (x * Pow2(y % 32)) % TWO32
    case Rsh => (DivShrinks(x % TWO32, Pow2(y % 32)); (x % TWO32) / Pow2(y % 32))
    case Arsh => Arsh32(x, y)
    case Div => if y % TWO32 == 0 then 0 else (DivShrinks(x % TWO32, y % TWO32); (x % TWO32) / (y % TWO32))
    case Mod => if y % TWO32 == 0 then x % TWO32 else (x % TWO32) % (y % TWO32)
    case Mov => y % TWO32
    case Neg => (TWO32 - x % TWO32) % TWO32
  }

  function Arsh32(x: u64, y: u64): u64 {
    Pow2Values();
    ShiftSigned(32, x % TWO32, y % 32)
  }

  /** The divisor an operation looks at. */
  function Divisor(size: Size, y: u64): u64 {
    if size.Wide? then y else y % TWO32
  }

  predicate Divides(op: AluOp) {
    op.Div? || op.Mod?
  }

  // ----- constant folding -----

  /** `arsh_value`: the arithmetic shift as the folder computes it, on signed words. */
  function ArshFolded(size: Size, x: u64, y: u64): u64 {
    match size
    case Wide => WrapU(Signed64(x) / Pow2(y % 64))
    case Narrow =>
      var low: int := x % TWO32;
      ((if low < 0x8000_0000 then low else low - TWO32) / Pow2(y % 32)) % TWO32
  }

  /** The value the lifter carries for closed operands. */
  function Folded(size: Size, op: AluOp, x: u64, y: u64): u64 {
    if op.Arsh? then ArshFolded(size, x, y) else AluValue(size, op, x, y)
  }

  /** The folder computes what the machine does. */
  lemma FoldedIsValue(size: Size, op: AluOp, x: u64, y: u64)
    ensures Folded(size, op, x, y) == AluValue(size, op, x, y)
  {
    hide Pow2, ShiftSigned;
    Pow2Values();
    if op.Arsh? {
      Pow2Halves();
      match size
      case Wide => ShiftSignedDivides(64, x, y % 64);
      case Narrow => ShiftSignedDivides(32, x % TWO32, y % 32);
    }
  }

  lemma Pow2Halves()
    ensures Pow2(63) == TWO63 && Pow2(31) == 0x8000_0000
  {
    Pow2Values();
    assert Pow2(64) == 2 * Pow2(63);
    assert Pow2(32) == 2 * Pow2(31);
  }

  // ----- byte order -----

  /** The low `n` bytes of `x`, in order or reversed. */
  function EndianValue(x: u64, n: nat, big: bool): u64
    requires n <= 8
  {
    var bs := LeBytes(x, n);
    var v := LeValue(if big then Reversed(bs) else bs);
    LeValueFits(if big then Reversed(bs) else bs);
    v
  }

  lemma LeValueFits(bs: seq<u8>)
    requires |bs| <= 8
    ensures LeValue(bs) < TWO64
  {
    LeValueBound(bs);
    Pow256Grows(|bs|, 8);
    Pow256Values();
  }

  lemma {:induction false} Pow256Grows(a: nat, b: nat)
    requires a <= b
    ensures Pow256(a) <= Pow256(b)
  {
    if a < b {
      Pow256Grows(a, b - 1);
    }
  }

  /** Swapping twice gives the low bytes back. */
  lemma EndianTwice(x: u64, n: nat)
    requires n <= 8
    ensures EndianValue(EndianValue(x, n, true), n, true) == EndianValue(x, n, false)
  {
    hide ByteOf, LeValue;
    var bs := LeBytes(x, n);
    var r := Reversed(bs);
    assert LeBytes(LeValue(r), n) == r by {
      forall i | 0 <= i < n
        ensures LeBytes(LeValue(r), n)[i] == r[i]
      {
        ByteOfLeValue(r, i);
      }
    }
    assert Reversed(r) == bs;
  }
}
