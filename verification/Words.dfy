/** Machine words of the sBPF virtual machine: 64-bit unsigned values, the signed
    64-bit immediates and displacements of the analyses, and little-endian bytes. */
module Words {

  const TWO64: int := 0x1_0000_0000_0000_0000
  const TWO63: int := 0x8000_0000_0000_0000
  const TWO32: int := 0x1_0000_0000

  type u8 = x: int | 0 <= x < 256
  type u64 = x: int | 0 <= x < 0x1_0000_0000_0000_0000
  type i64 = x: int | -0x8000_0000_0000_0000 <= x < 0x8000_0000_0000_0000

  datatype Option<+T> = None | Some(value: T)

  datatype Result<+T, +E> = Ok(value: T) | Err(error: E)

  function Reversed<T>(s: seq<T>): (r: seq<T>)
    ensures |r| == |s|
    ensures forall i :: 0 <= i < |s| ==> r[i] == s[|s| - 1 - i]
  {
    seq(|s|, i requires 0 <= i < |s| => s[|s| - 1 - i])
  }

  /** Reduction to an unsigned word (`wrapping_*` on `u64`, `as u64`). */
  function WrapU(x: int): u64 {
    x % TWO64
  }

  /** Reduction to a signed word (`wrapping_*` on `i64`). */
  function WrapI(x: int): i64 {
    (x + TWO63) % TWO64 - TWO63
  }

  /** `v as i64`. */
  function Signed64(v: u64): i64 {
    if v < TWO63 then v else v - TWO64
  }

  /** Two integers denote the same machine word. */
  ghost predicate Cong(a: int, b: int) {
    WrapU(a) == WrapU(b)
  }

  lemma WrapId(x: u64)
    ensures WrapU(x) == x
  {
  }

  lemma WrapIsCong(x: int)
    ensures Cong(WrapU(x), x)
    ensures Cong(WrapI(x), x)
  {
    var q := (x + TWO63) / TWO64;
    assert WrapI(x) == x + (-q) * TWO64;
    ModShift(x, -q);
  }

  lemma ModShift(x: int, q: int)
    ensures WrapU(x + q * TWO64) == WrapU(x)
  {
    var y := x + q * TWO64;
    var a, b := x / TWO64, y / TWO64;
    assert x == a * TWO64 + x % TWO64;
    assert y == b * TWO64 + y % TWO64;
    assert x % TWO64 - y % TWO64 == (b - a - q) * TWO64;
  }

  lemma CongIffMultiple(a: int, b: int)
    ensures Cong(a, b) <==> (a - b) % TWO64 == 0
  {
    var p, q := a / TWO64, b / TWO64;
    assert a == p * TWO64 + a % TWO64 && b == q * TWO64 + b % TWO64;
    var r := (a - b) / TWO64;
    assert a - b == r * TWO64 + (a - b) % TWO64;
    assert (a % TWO64) - (b % TWO64) == (r - p + q) * TWO64 + (a - b) % TWO64;
  }

  lemma CongAdd(a: int, b: int, c: int, d: int)
    requires Cong(a, b) && Cong(c, d)
    ensures Cong(a + c, b + d) && Cong(a - c, b - d)
  {
    var p, q, r, s := a / TWO64, b / TWO64, c / TWO64, d / TWO64;
    assert a == b + (p - q) * TWO64;
    assert c == d + (r - s) * TWO64;
    ModShift(b + d, (p - q) + (r - s));
    ModShift(b - d, (p - q) - (r - s));
  }

  // ----- powers and bits -----

  function Pow2(n: nat): (r: nat)
    ensures r > 0
  {
    if n == 0 then 1 else 2 * Pow2(n - 1)
  }

  function Pow256(n: nat): (r: nat)
    ensures r > 0
  {
    if n == 0 then 1 else 256 * Pow256(n - 1)
  }

  lemma Pow256Values()
    ensures Pow256(0) == 1 && Pow256(1) == 256 && Pow256(2) == 0x1_0000
    ensures Pow256(4) == TWO32 && Pow256(8) == TWO64
  {
    assert Pow256(3) == 0x100_0000;
    assert Pow256(5) == 0x100_0000_0000 && Pow256(6) == 0x1_0000_0000_0000;
    assert Pow256(7) == 0x100_0000_0000_0000;
  }

  lemma Pow2Values()
    ensures Pow2(8) == 256 && Pow2(16) == 0x1_0000 && Pow2(32) == TWO32 && Pow2(64) == TWO64
  {
    hide Pow2;
    Pow2Eight();
    Pow2Sum(8, 8);
    Pow2Sum(16, 16);
    Pow2Sum(32, 32);
  }

  lemma Pow2Eight()
    ensures Pow2(8) == 256
  {
    assert Pow2(4) == 16;
  }

  lemma {:induction false} Pow2Sum(a: nat, b: nat)
    ensures Pow2(a + b) == Pow2(a) * Pow2(b)
  {
    if a == 0 {
      assert Pow2(0) == 1;
    } else {
      Pow2Sum(a - 1, b);
      Pow2Next(a - 1);
      Pow2Next(a - 1 + b);
      hide Pow2;
      DoubleLeft(Pow2(a - 1), Pow2(b));
    }
  }

  lemma Pow2Next(n: nat)
    ensures Pow2(n + 1) == 2 * Pow2(n)
  {
  }

  lemma DoubleLeft(x: nat, y: nat)
    ensures 2 * (x * y) == (2 * x) * y
  {
  }

  datatype BitOp = BitAnd | BitOr | BitXor

  function BitValue(op: BitOp, x: nat, y: nat): (r: nat)
    requires x < 2 && y < 2
    ensures r < 2
  {
    match op
    case BitAnd => if x == 1 && y == 1 then 1 else 0
    case BitOr => if x == 1 || y == 1 then 1 else 0
    case BitXor => if x != y then 1 else 0
  }

  /** The low `n` bits of a bitwise operation. */
  function Bits(op: BitOp, x: nat, y: nat, n: nat): (r: nat)
    ensures r < Pow2(n)
  {
    if n == 0 then 0
    else BitValue(op, x % 2, y % 2) + 2 * Bits(op, x / 2, y / 2, n - 1)
  }

  function Bitwise(op: BitOp, x: u64, y: u64): u64 {
    Pow2Values();
    Bits(op, x, y, 64)
  }

  // ----- little-endian bytes -----

  function ByteOf(v: nat, i: nat): u8 {
    (v / Pow256(i)) % 256
  }

  function LeBytes(v: nat, n: nat): (bs: seq<u8>)
    ensures |bs| == n
  {
    seq(n, i requires i >= 0 => ByteOf(v, i))
  }

  function LeValue(bs: seq<u8>): (v: nat) {
    if |bs| == 0 then 0 else bs[0] + 256 * LeValue(bs[1..])
  }

  lemma {:induction false} LeValueBound(bs: seq<u8>)
    ensures LeValue(bs) < Pow256(|bs|)
  {
    if |bs| > 0 {
      LeValueBound(bs[1..]);
    }
  }

  lemma DivDiv(v: nat, p: nat)
    requires p > 0
    ensures v / (256 * p) == (v / 256) / p
  {
    var a := v / 256;
    var q := a / p;
    assert v == 256 * a + v % 256;
    assert a == p * q + a % p;
    var rem := 256 * (a % p) + v % 256;
    assert v == 256 * p * q + rem by {
      assert 256 * (p * q) == 256 * p * q;
    }
    assert 0 <= rem < 256 * p;
    QuotientUnique(v, 256 * p, q, rem);
  }

  lemma QuotientUnique(v: nat, d: nat, q: nat, rem: nat)
    requires d > 0 && v == d * q + rem && rem < d
    ensures v / d == q && v % d == rem
  {
    var q', rem' := v / d, v % d;
    EuclideanUnique(d, q, rem, q', rem');
  }

  lemma EuclideanUnique(d: nat, q: int, rem: int, q': int, rem': int)
    requires d > 0 && d * q + rem == d * q' + rem'
    requires 0 <= rem < d && 0 <= rem' < d
    ensures q == q' && rem == rem'
  {
    if q < q' {
      assert d * (q' - q) == d * q' - d * q;
      MulGrows(d, q' - q);
    } else if q > q' {
      assert d * (q - q') == d * q - d * q';
      MulGrows(d, q - q');
    }
  }

  lemma MulGrows(d: nat, k: nat)
    requires k > 0
    ensures d * k >= d
  {
    assert d * k == d * (k - 1) + d;
    assert d * (k - 1) >= 0;
  }

  lemma ByteOfShift(v: nat, i: nat)
    ensures ByteOf(v, i + 1) == ByteOf(v / 256, i)
    ensures ByteOf(v, 0) == v % 256
  {
    DivDiv(v, Pow256(i));
  }

  /** Reading back `n` little-endian bytes gives the value truncated to `n` bytes. */
  lemma {:induction false} LeRoundTrip(v: nat, n: nat)
    ensures LeValue(LeBytes(v, n)) == v % Pow256(n)
  {
    if n > 0 {
      var bs := LeBytes(v, n);
      forall i | 0 <= i < n - 1
        ensures bs[1..][i] == LeBytes(v / 256, n - 1)[i]
      {
        ByteOfShift(v, i);
      }
      assert bs[1..] == LeBytes(v / 256, n - 1);
      LeRoundTrip(v / 256, n - 1);
      ByteOfShift(v, 0);
      ModStep(v, Pow256(n - 1));
    }
  }

  lemma ModStep(v: nat, p: nat)
    requires p > 0
    ensures v % (256 * p) == v % 256 + 256 * ((v / 256) % p)
  {
    var a := v / 256;
    var q := a / p;
    assert a == p * q + a % p;
    assert 256 * (p * q) == 256 * p * q;
    QuotientUnique(v, 256 * p, q, 256 * (a % p) + v % 256);
  }

  /** The bytes of a value rebuilt from bytes are those bytes. */
  lemma {:induction false} ByteOfLeValue(bs: seq<u8>, i: nat)
    requires i < |bs|
    ensures ByteOf(LeValue(bs), i) == bs[i]
  {
    var v := LeValue(bs);
    QuotientUnique(v, 256, LeValue(bs[1..]), bs[0]);
    if i == 0 {
      ByteOfShift(v, 0);
    } else {
      ByteOfShift(v, i - 1);
      ByteOfLeValue(bs[1..], i - 1);
    }
  }
}
