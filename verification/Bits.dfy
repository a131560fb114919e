/** Unsigned fixed-width arithmetic: an `APInt` of width `w` is a natural below `Pow2(w)`. */
module Bits {

  function Pow2(n: nat): (p: nat)
    ensures p > 0
  {
    if n == 0 then 1 else 2 * Pow2(n - 1)
  }

  lemma {:induction false} Pow2Add(m: nat, n: nat)
    ensures Pow2(m + n) == Pow2(m) * Pow2(n)
  {
    if m == 0 {
    } else {
      Pow2Add(m - 1, n);
      assert Pow2(m + n) == 2 * (Pow2(m - 1) * Pow2(n)) == (2 * Pow2(m - 1)) * Pow2(n);
    }
  }

  lemma {:induction false} Pow2Mono(m: nat, n: nat)
    requires m <= n
    ensures Pow2(m) <= Pow2(n)
    decreases n
  {
    if m < n { Pow2Mono(m, n - 1); }
  }

  // ----- division and remainder -----

  lemma MulMono(a: nat, b: nat, d: nat)
    requires a <= b
    ensures a * d <= b * d
  {
  }

  lemma MulAssoc(a: int, b: int, c: int)
    ensures a * (b * c) == (a * b) * c
  {
  }

  lemma DivUnique(a: int, d: int, q: int, r: int)
    requires d > 0 && 0 <= r < d && a == q * d + r
    ensures a / d == q && a % d == r
  {
    var q', r' := a / d, a % d;
    assert a == q' * d + r';
    if q' < q {
      assert (q - q') * d == r' - r;
      MulMono(1, q - q', d);
    } else if q < q' {
      assert (q' - q) * d == r - r';
      MulMono(1, q' - q, d);
    }
  }

  lemma NatDiv(a: nat, d: nat)
    requires d > 0
    ensures a / d >= 0
  {
    assert a == a / d * d + a % d;
  }

  lemma DivLess(a: nat, d: nat, e: nat)
    requires d > 0 && e > 0 && a < d * e
    ensures a / d < e
  {
    var q := a / d;
    assert a == d * q + a % d;
    if q >= e { MulMono(e, q, d); }
  }

  lemma DivDiv(a: nat, d: nat, e: nat)
    requires d > 0 && e > 0
    ensures d * e > 0
    ensures a / d / e == a / (d * e)
    ensures a % (d * e) == (a / d % e) * d + a % d
  {
    MulMono(1, e, d);
    NatDiv(a, d);
    NestedRemainder(a / d, a % d, d, e);
    DivUnique(a, d * e, a / d / e, a / d % e * d + a % d);
  }

  lemma NestedRemainder(q: nat, r: nat, d: nat, e: nat)
    requires d > 0 && e > 0 && r < d
    ensures 0 <= q % e * d + r < d * e
    ensures q * d + r == q / e * (d * e) + (q % e * d + r)
  {
    var q2, r2 := q / e, q % e;
    assert q == q2 * e + r2;
    MulMono(r2 + 1, e, d);
    Distribute(q2 * e, r2, d);
    Distribute(r2, 1, d);
    MulAssoc(q2, e, d);
  }

  lemma Distribute(a: int, b: int, d: int)
    ensures (a + b) * d == a * d + b * d
  {
  }

  lemma ModDiv(a: nat, d: nat, e: nat)
    requires d > 0 && e > 0
    ensures d * e > 0
    ensures a % (d * e) / d == a / d % e
    ensures a % (d * e) % d == a % d
  {
    DivDiv(a, d, e);
    DivUnique(a % (d * e), d, a / d % e, a % d);
  }

  lemma AddMulMod(x: int, k: int, m: int)
    requires m > 0
    ensures (x + k * m) % m == x % m
  {
    DivUnique(x + k * m, m, x / m + k, x % m);
  }

  lemma ModAdd(x: int, y: int, m: int)
    requires m > 0
    ensures (x % m + y) % m == (x + y) % m
    ensures (x + y % m) % m == (x + y) % m
    ensures (x % m - y) % m == (x - y) % m
    ensures (x - y % m) % m == (x - y) % m
  {
    ModOnce(x, y, m);
    ModOnce(y, x, m);
    ModOnce(x, -y, m);
    DivUnique(y, m, y / m, y % m);
    AddMulMod(x - y, y / m, m);
    assert x - y + y / m * m == x - y % m;
  }

  lemma ModOnce(x: int, y: int, m: int)
    requires m > 0
    ensures (x % m + y) % m == (x + y) % m
  {
    AddMulMod(x % m + y, x / m, m);
    assert x % m + x / m * m == x;
  }

  lemma ModMod(s: int, x: nat, k: nat)
    requires x > 0 && k > 0
    ensures x * k > 0
    ensures s % (x * k) % k == s % k
  {
    MulMono(1, x, k);
    var q := s / (x * k);
    assert s == q * (x * k) + s % (x * k);
    MulAssoc(q, x, k);
    AddMulMod(s % (x * k), q * x, k);
  }

  // ----- arithmetic modulo 2^w -----

  function AddMod(w: nat, x: nat, y: nat): (r: nat)
    ensures r < Pow2(w)
  {
    (x + y) % Pow2(w)
  }

  function SubMod(w: nat, x: nat, y: nat): (r: nat)
    ensures r < Pow2(w)
  {
    (x - y) % Pow2(w)
  }

  function MulMod(w: nat, x: nat, y: nat): (r: nat)
    ensures r < Pow2(w)
  {
    (x * y) % Pow2(w)
  }

  lemma AddComm(w: nat, x: nat, y: nat)
    ensures AddMod(w, x, y) == AddMod(w, y, x)
  {
  }

  lemma AddAdd(w: nat, k: nat, x: nat, y: nat)
    ensures AddMod(w, k, AddMod(w, x, y)) == AddMod(w, AddMod(w, k, x), y)
  {
    ModAdd(k, x + y, Pow2(w)); ModAdd(k + x, y, Pow2(w));
  }

  lemma AddSub(w: nat, k: nat, x: nat, y: nat)
    ensures AddMod(w, k, SubMod(w, x, y)) == SubMod(w, AddMod(w, k, x), y)
  {
    ModAdd(k, x - y, Pow2(w)); ModAdd(k + x, y, Pow2(w));
  }

  lemma SubAdd(w: nat, k: nat, x: nat, y: nat)
    ensures AddMod(w, SubMod(w, k, x), y) == AddMod(w, k, SubMod(w, y, x)) == SubMod(w, k, SubMod(w, x, y))
  {
    var m := Pow2(w);
    ModAdd(k - x, y, m);
    ModAdd(k, y - x, m);
    ModAdd(k, x - y, m);
  }

  lemma SubSub(w: nat, k: nat, x: nat, y: nat)
    ensures SubMod(w, k, AddMod(w, x, y)) == SubMod(w, SubMod(w, k, x), y)
  {
    ModAdd(k, x + y, Pow2(w)); ModAdd(k - x, y, Pow2(w));
  }

  lemma Reduced(w: nat, x: nat)
    requires x < Pow2(w)
    ensures AddMod(w, 0, x) == AddMod(w, x, 0) == x && SubMod(w, x, x) == 0 && x % Pow2(w) == x
  {
    DivUnique(x, Pow2(w), 0, x);
  }

  /** An equation between sums can be solved for one summand. */
  lemma SolveSum(w: nat, c: nat, k: nat, x: nat)
    requires c < Pow2(w) && k < Pow2(w) && x < Pow2(w)
    ensures c == AddMod(w, k, x) <==> SubMod(w, c, k) == x
  {
    hide AddMod, SubMod, Pow2;
    ThereAndBack(w, k, x);
    ThereAndBack(w, k, c);
  }

  lemma ThereAndBack(w: nat, k: nat, x: nat)
    requires x < Pow2(w)
    ensures SubMod(w, AddMod(w, k, x), k) == x && AddMod(w, k, SubMod(w, x, k)) == x
  {
    hide Pow2;
    ModAdd(k + x, k, Pow2(w));
    ModAdd(k, x - k, Pow2(w));
    Reduced(w, x);
  }

  lemma SolveDifference(w: nat, c: nat, k: nat, x: nat)
    requires c < Pow2(w) && k < Pow2(w) && x < Pow2(w)
    ensures c == SubMod(w, k, x) <==> SubMod(w, k, c) == x
  {
    hide SubMod, Pow2;
    Complement(w, k, x);
    Complement(w, k, c);
  }

  lemma Complement(w: nat, k: nat, x: nat)
    requires x < Pow2(w)
    ensures SubMod(w, k, SubMod(w, k, x)) == x
  {
    hide Pow2;
    ModAdd(k, k - x, Pow2(w));
    Reduced(w, x);
  }

  lemma MulOne(w: nat, x: nat)
    requires x < Pow2(w)
    ensures MulMod(w, 1, x) == MulMod(w, x, 1) == x && MulMod(w, 0, x) == MulMod(w, x, 0) == 0
  {
    Reduced(w, x);
  }

  lemma MulComm(w: nat, x: nat, y: nat)
    ensures MulMod(w, x, y) == MulMod(w, y, x)
  {
  }

  // ----- extraction and concatenation -----

  function Shr(v: nat, n: nat): nat {
    NatDiv(v, Pow2(n));
    v / Pow2(n)
  }

  /** Bits `off .. off + w` of `v`. */
  function Slice(v: nat, off: nat, w: nat): (r: nat)
    ensures r < Pow2(w)
  {
    Shr(v, off) % Pow2(w)
  }

  function Join(l: nat, r: nat, wr: nat): (v: nat) {
    l * Pow2(wr) + r
  }

  lemma JoinBound(l: nat, wl: nat, r: nat, wr: nat)
    requires l < Pow2(wl) && r < Pow2(wr)
    ensures Join(l, r, wr) < Pow2(wl + wr)
  {
    Pow2Add(wl, wr);
    MulMono(l + 1, Pow2(wl), Pow2(wr));
    assert (l + 1) * Pow2(wr) == l * Pow2(wr) + Pow2(wr);
  }

  lemma SliceFull(v: nat, w: nat)
    requires v < Pow2(w)
    ensures Slice(v, 0, w) == v
  {
    DivUnique(v, Pow2(w), 0, v);
  }

  lemma SliceHigh(l: nat, r: nat, wr: nat, off: nat, w: nat)
    requires r < Pow2(wr) && off >= wr
    ensures Slice(Join(l, r, wr), off, w) == Slice(l, off - wr, w)
  {
    Pow2Add(wr, off - wr);
    DivUnique(Join(l, r, wr), Pow2(wr), l, r);
    DivDiv(Join(l, r, wr), Pow2(wr), Pow2(off - wr));
  }

  lemma DropMultiple(l: nat, x: nat, r: nat, d: nat, m: nat)
    requires d > 0 && m > 0
    ensures (l * ((d * m) * x) + r) / d % m == r / d % m
  {
    var k, n := l * x, d * m;
    assert l * (n * x) == k * n by { MulAssoc(l, x, n); assert n * x == x * n; }
    MulMono(1, m, d);
    AddMulMod(r, k, n);
    ModDiv(k * n + r, d, m);
    ModDiv(r, d, m);
  }

  lemma SliceLow(l: nat, r: nat, wr: nat, off: nat, w: nat)
    requires r < Pow2(wr) && off + w <= wr
    ensures Slice(Join(l, r, wr), off, w) == Slice(r, off, w)
  {
    Pow2Add(off + w, wr - off - w);
    Pow2Add(off, w);
    DropMultiple(l, Pow2(wr - off - w), r, Pow2(off), Pow2(w));
  }

  lemma SliceJoin(v: nat, off: nat, w2: nat, w1: nat)
    ensures Join(Slice(v, off + w2, w1), Slice(v, off, w2), w2) == Slice(v, off, w2 + w1)
  {
    Pow2Add(off, w2);
    Pow2Add(w2, w1);
    AdjacentDigits(v, Pow2(off), Pow2(w2), Pow2(w1));
  }

  lemma AdjacentDigits(v: nat, d: nat, m: nat, n: nat)
    requires d > 0 && m > 0 && n > 0
    ensures d * m > 0 && m * n > 0
    ensures v / (d * m) % n * m + v / d % m == v / d % (m * n)
  {
    NatDiv(v, d);
    DivDiv(v, d, m);
    DivDiv(v / d, m, n);
  }

  /** A slice that straddles the seam of a join splits at the seam. */
  lemma SliceStraddle(l: nat, r: nat, wr: nat, off: nat, w: nat)
    requires r < Pow2(wr) && off < wr < off + w
    ensures Slice(Join(l, r, wr), off, w)
         == Join(Slice(l, 0, w - wr + off), Slice(r, off, wr - off), wr - off)
  {
    var v := Join(l, r, wr);
    SliceJoin(v, off, wr - off, w - wr + off);
    SliceHigh(l, r, wr, wr, w - wr + off);
    SliceLow(l, r, wr, off, wr - off);
  }

  // ----- two's complement -----

  function ToSigned(w: nat, v: nat): int {
    if w > 0 && v >= Pow2(w - 1) then v - Pow2(w) else v
  }

  function FromSigned(w: nat, v: int): (r: nat)
    ensures r < Pow2(w)
  {
    v % Pow2(w)
  }

  function SignExtend(v: nat, from: nat, to: nat): (r: nat)
    ensures r < Pow2(to)
  {
    FromSigned(to, ToSigned(from, v))
  }

  /** Truncating a sign extension gives the original back. */
  lemma SignExtendTrunc(v: nat, from: nat, to: nat)
    requires 0 < from <= to && v < Pow2(from)
    ensures SignExtend(v, from, to) % Pow2(from) == v
  {
    Pow2Add(to - from, from);
    ModMod(ToSigned(from, v), Pow2(to - from), Pow2(from));
    AddMulMod(v, -1, Pow2(from));
    DivUnique(v, Pow2(from), 0, v);
  }

  /** Arithmetic shift right, saturating at the sign. */
  function AShr(w: nat, v: nat, n: nat): (r: nat)
    ensures r < Pow2(w)
  {
    FromSigned(w, if n >= w then (if ToSigned(w, v) < 0 then -1 else 0) else ToSigned(w, v) / Pow2(n))
  }

  lemma NegDiv(v: nat, k: nat, d: nat)
    requires d > 0
    ensures (v - k * d) / d == v / d - k
  {
    DivUnique(v - k * d, d, v / d - k, v % d);
  }

  lemma AShrForm(w: nat, v: nat, n: nat)
    requires v < Pow2(w) && n < w
    ensures AShr(w, v, n)
         == if v >= Pow2(w - 1) then (Shr(v, n) - Pow2(w - n)) % Pow2(w) else Shr(v, n)
  {
    Pow2Add(w - n, n);
    if v >= Pow2(w - 1) {
      NegDiv(v, Pow2(w - n), Pow2(n));
    } else {
      DivLess(v, Pow2(n), Pow2(w - n));
      Pow2Mono(w - n, w);
      DivUnique(Shr(v, n), Pow2(w), 0, Shr(v, n));
    }
  }

  lemma ModOfDifference(q: int, y: int, x: nat, m: nat)
    requires x > 0 && m > 0
    ensures x * m > 0
    ensures (q - y * m) % (x * m) % m == q % m
  {
    ModMod(q - y * m, x, m);
    AddMulMod(q, -y, m);
  }

  /** The bits that `APInt::ashr` leaves in place are the bits of a plain slice. */
  lemma AShrSlice(w: nat, v: nat, n: nat, k: nat)
    requires v < Pow2(w) && k > 0 && n + k <= w
    ensures AShr(w, v, n) % Pow2(k) == Slice(v, n, k)
  {
    AShrForm(w, v, n);
    Pow2Add(w - n - k, k);
    Pow2Add(w - k, k);
    ModOfDifference(Shr(v, n), Pow2(w - n - k), Pow2(w - k), Pow2(k));
  }

  /** Division that truncates toward zero, as `APInt::sdiv` does. */
  function TruncDiv(x: int, y: int): int {
    if y == 0 then x else
      var q := (if x < 0 then -x else x) / (if y < 0 then -y else y);
      if (x < 0) == (y < 0) then q else -q
  }

  /** Division by zero, which the source never performs, is given a value to keep these total. */
  function UDivOf(x: nat, y: nat): (q: nat)
    ensures q <= x
  {
    if y == 0 then x else QuotientBound(x, y); x / y
  }

  function URemOf(x: nat, y: nat): (r: nat)
    ensures r <= x
  {
    if y == 0 then 0 else QuotientBound(x, y); x % y
  }

  function SDivOf(w: nat, x: nat, y: nat): (q: nat)
    ensures x < Pow2(w) ==> q < Pow2(w)
  {
    if y == 0 then x else FromSigned(w, TruncDiv(ToSigned(w, x), ToSigned(w, y)))
  }

  function SRemOf(w: nat, x: nat, y: nat): (r: nat)
    ensures r < Pow2(w)
  {
    if y == 0 then 0
    else FromSigned(w, ToSigned(w, x) - TruncDiv(ToSigned(w, x), ToSigned(w, y)) * ToSigned(w, y))
  }

  /** A shift by the width or more leaves nothing, as in `APInt`. */
  function ShlOf(w: nat, x: nat, n: nat): (r: nat)
    ensures r < Pow2(w)
  {
    if n >= w then 0 else MulMod(w, x, Pow2(n))
  }

  function LShrOf(w: nat, x: nat, n: nat): (r: nat)
    ensures r <= x
  {
    if n >= w then 0 else QuotientBound(x, Pow2(n)); Shr(x, n)
  }

  lemma QuotientBound(x: nat, y: nat)
    requires y > 0
    ensures 0 <= x / y <= x && x % y <= x
  {
    assert x == x / y * y + x % y;
    if x / y > 0 { MulMono(1, y, x / y); }
  }

  // One-bit arithmetic.

  lemma OneBitSum(x: nat, y: nat)
    requires x < 2 && y < 2
    ensures AddMod(1, x, y) == SubMod(1, x, y) == Bit(BitXor, x, y)
    ensures MulMod(1, x, y) == Bit(BitAnd, x, y)
  {
    assert Pow2(1) == 2;
    assert x == 0 || x == 1;
  }

  lemma OneBitQuotient(x: nat, y: nat)
    requires x < 2 && y < 2
    ensures UDivOf(x, y) == SDivOf(1, x, y) == x && URemOf(x, y) == SRemOf(1, x, y) == 0
  {
    assert Pow2(1) == 2 && Pow2(0) == 1;
    assert ToSigned(1, 0) == 0 && ToSigned(1, 1) == -1;
    assert TruncDiv(0, -1) == 0 && TruncDiv(-1, -1) == 1;
    assert y == 0 || (y == 1 && (x == 0 || x == 1));
  }

  lemma OneBitShift(x: nat, y: nat)
    requires x < 2 && y < 2
    ensures ShlOf(1, x, y) == LShrOf(1, x, y) == (if y == 0 then x else 0) && AShr(1, x, y) == x
  {
    assert Pow2(1) == 2 && Pow2(0) == 1;
    assert ToSigned(1, 0) == 0 && ToSigned(1, 1) == -1;
  }

  // ----- bitwise operations -----

  datatype BitOp = BitAnd | BitOr | BitXor

  function Bit(k: BitOp, x: nat, y: nat): (b: nat)
    requires x < 2 && y < 2
    ensures b < 2
  {
    match k
    case BitAnd => if x == 1 && y == 1 then 1 else 0
    case BitOr => if x == 1 || y == 1 then 1 else 0
    case BitXor => if x != y then 1 else 0
  }

  function Bitwise(k: BitOp, a: nat, b: nat): nat
    decreases a + b
  {
    if a == 0 && b == 0 then 0
    else Bit(k, a % 2, b % 2) + 2 * Bitwise(k, a / 2, b / 2)
  }

  lemma {:induction false} BitwiseStep(k: BitOp, a: nat, b: nat)
    ensures Bitwise(k, a, b) == Bit(k, a % 2, b % 2) + 2 * Bitwise(k, a / 2, b / 2)
    ensures Bitwise(k, a, b) % 2 == Bit(k, a % 2, b % 2)
    ensures Bitwise(k, a, b) / 2 == Bitwise(k, a / 2, b / 2)
  {
    if a == 0 && b == 0 {
      assert Bitwise(k, 0, 0) == 0;
    } else {
      DivUnique(Bitwise(k, a, b), 2, Bitwise(k, a / 2, b / 2), Bit(k, a % 2, b % 2));
    }
  }

  lemma {:induction false} BitwiseComm(k: BitOp, a: nat, b: nat)
    ensures Bitwise(k, a, b) == Bitwise(k, b, a)
    decreases a + b
  {
    if a != 0 || b != 0 { BitwiseComm(k, a / 2, b / 2); }
  }

  lemma {:induction false} BitwiseZero(k: BitOp, a: nat)
    ensures Bitwise(k, a, 0) == Bitwise(k, 0, a) == if k == BitAnd then 0 else a
  {
    if a != 0 { BitwiseZero(k, a / 2); }
  }

  lemma {:induction false} BitwiseOnes(k: BitOp, a: nat, w: nat)
    requires a < Pow2(w) && k != BitXor
    ensures Bitwise(k, a, Pow2(w) - 1) == if k == BitAnd then a else Pow2(w) - 1
    decreases w
  {
    if w > 0 {
      var ones := Pow2(w) - 1;
      assert ones / 2 == Pow2(w - 1) - 1 && ones % 2 == 1;
      BitwiseOnes(k, a / 2, w - 1);
      BitwiseStep(k, a, ones);
    }
  }

  lemma {:induction false} BitwiseBound(k: BitOp, a: nat, b: nat, w: nat)
    requires a < Pow2(w) && b < Pow2(w)
    ensures Bitwise(k, a, b) < Pow2(w)
    decreases w
  {
    if w > 0 {
      BitwiseBound(k, a / 2, b / 2, w - 1);
      BitwiseStep(k, a, b);
    }
  }

  lemma {:induction false} XorCancel(a: nat, b: nat)
    ensures Bitwise(BitXor, a, Bitwise(BitXor, a, b)) == b
    decreases a + b
  {
    if a == 0 && b == 0 {
    } else {
      var c := Bitwise(BitXor, a, b);
      BitwiseStep(BitXor, a, b);
      XorCancel(a / 2, b / 2);
      BitwiseStep(BitXor, a, c);
    }
  }

  lemma ShrStep(x: nat, n: nat)
    requires n > 0
    ensures Shr(x, n) == Shr(x / 2, n - 1)
  {
    DivDiv(x, 2, Pow2(n - 1));
  }

  lemma {:induction false} BitwiseShift(k: BitOp, a: nat, b: nat, n: nat)
    ensures Shr(Bitwise(k, a, b), n) == Bitwise(k, Shr(a, n), Shr(b, n))
    decreases n
  {
    if n > 0 {
      BitwiseStep(k, a, b);
      BitwiseShift(k, a / 2, b / 2, n - 1);
      ShrStep(Bitwise(k, a, b), n);
      ShrStep(a, n);
      ShrStep(b, n);
    }
  }

  lemma {:induction false} BitwiseMod(k: BitOp, a: nat, b: nat, w: nat)
    ensures Bitwise(k, a, b) % Pow2(w) == Bitwise(k, a % Pow2(w), b % Pow2(w))
    decreases w
  {
    if w > 0 {
      var m := Pow2(w - 1);
      BitwiseStep(k, a, b);
      BitwiseMod(k, a / 2, b / 2, w - 1);
      var c := Bitwise(k, a, b);
      ModDiv(a, 2, m); ModDiv(b, 2, m); ModDiv(c, 2, m);
      BitwiseStep(k, a % (2 * m), b % (2 * m));
      var x, y := c % (2 * m), Bitwise(k, a % (2 * m), b % (2 * m));
      assert x / 2 == y / 2 && x % 2 == y % 2;
    }
  }

  /** Bitwise operations commute with taking a slice. */
  lemma {:induction false} BitwiseSlice(k: BitOp, a: nat, b: nat, off: nat, w: nat)
    ensures Slice(Bitwise(k, a, b), off, w) == Bitwise(k, Slice(a, off, w), Slice(b, off, w))
  {
    BitwiseShift(k, a, b, off);
    BitwiseMod(k, Shr(a, off), Shr(b, off), w);
  }
}
