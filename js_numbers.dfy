/** JavaScript's 32-bit integer operators, on exact integers.

    A JavaScript `number` that the CIDR code feeds to a bitwise operator is
    always an integer here, so it is modelled as `int`. The operators follow
    the ECMAScript definitions: the operands are converted with ToInt32 or
    ToUint32, `&`, `|` and `~` act on the 32-bit two's-complement bit string
    and give a signed 32-bit result, `<<` takes its shift count modulo 32 and
    truncates to 32 bits, and `>>>` gives an unsigned result. The bit string
    is the unsigned image in [0, 2^32); `&` and `|` are defined bit by bit on it. */
module JsNumbers {

  const TWO31: int := 0x8000_0000
  const TWO32: int := 0x1_0000_0000

  function Pow2(n: nat): (r: nat)
    ensures r > 0
  {
    if n == 0 then 1 else 2 * Pow2(n - 1)
  }

  lemma {:induction false} Pow2Add(a: nat, b: nat)
    ensures Pow2(a + b) == Pow2(a) * Pow2(b)
  {
    if b > 0 {
      Pow2Add(a, b - 1);
      assert Pow2(a + b) == 2 * Pow2(a + b - 1);
    }
  }

  lemma Pow2ThirtyTwo()
    ensures Pow2(31) == TWO31 && Pow2(32) == TWO32
  {
    Pow2Add(16, 16);
    Pow2Add(15, 16);
    assert Pow2(16) == 0x1_0000 by { Pow2Add(8, 8); assert Pow2(8) == 256; }
    assert Pow2(15) == 0x8000 by { Pow2Add(8, 7); assert Pow2(8) == 256; assert Pow2(7) == 128; }
  }

  /** The ECMAScript ToUint32 conversion: the value modulo 2^32. */
  function ToUint32(x: int): (r: nat)
    ensures r < TWO32
    ensures 0 <= x < TWO32 ==> r == x
  {
    x % TWO32
  }

  /** The ECMAScript ToInt32 conversion: the value modulo 2^32, read as a
      two's-complement number. */
  function ToInt32(x: int): (r: int)
    ensures -TWO31 <= r < TWO31
    ensures -TWO31 <= x < TWO31 ==> r == x
  {
    var m := x % TWO32;
    if m < TWO31 then m else m - TWO32
  }

  /** Bits 0 .. n-1 of the bitwise AND of `a` and `b`. */
  function AndBits(a: nat, b: nat, n: nat): nat
  {
    if n == 0 then 0
    else 2 * AndBits(a / 2, b / 2, n - 1) + (if a % 2 == 1 && b % 2 == 1 then 1 else 0)
  }

  /** Bits 0 .. n-1 of the bitwise OR of `a` and `b`. */
  function OrBits(a: nat, b: nat, n: nat): nat
  {
    if n == 0 then 0
    else 2 * OrBits(a / 2, b / 2, n - 1) + (if a % 2 == 1 || b % 2 == 1 then 1 else 0)
  }

  /** `a << b` */
  function ShiftLeft(a: int, b: int): (r: int)
    ensures -TWO31 <= r < TWO31
  {
    ToInt32(ToInt32(a) * Pow2(ToUint32(b) % 32))
  }

  /** `a >>> b` */
  function UnsignedShiftRight(a: int, b: int): (r: int)
    ensures 0 <= r < TWO32
  {
    var x, d := ToUint32(a), Pow2(ToUint32(b) % 32);
    DivAtMost(x, d);
    x / d
  }

  /** `a & b` */
  function BitAnd(a: int, b: int): (r: int)
    ensures -TWO31 <= r < TWO31
  {
    ToInt32(AndBits(ToUint32(a), ToUint32(b), 32))
  }

  /** `a | b` */
  function BitOr(a: int, b: int): (r: int)
    ensures -TWO31 <= r < TWO31
  {
    ToInt32(OrBits(ToUint32(a), ToUint32(b), 32))
  }

  /** `~a`: every bit of the 32-bit string flipped, i.e. all-ones minus it. */
  function BitNot(a: int): (r: int)
    ensures -TWO31 <= r < TWO31
  {
    ToInt32(TWO32 - 1 - ToUint32(a))
  }

  // ---------------------------------------------------------------------------
  // Facts about the conversions

  /** A signed 32-bit value and its unsigned image: the two readings of one bit string. */
  lemma ToUint32OfInt32(x: int)
    requires -TWO31 <= x < TWO31
    ensures ToUint32(x) == if x < 0 then x + TWO32 else x
    ensures ToInt32(ToUint32(x)) == x
  {
  }

  lemma Int32OfUint32(u: int)
    requires 0 <= u < TWO32
    ensures ToInt32(u) == if u < TWO31 then u else u - TWO32
    ensures ToUint32(ToInt32(u)) == u
  {
  }

  /** `&` and `|` act on the unsigned images of their operands. */
  lemma BitAndOf(a: int, b: int, x: nat, y: nat)
    requires ToUint32(a) == x && ToUint32(b) == y
    ensures BitAnd(a, b) == ToInt32(AndBits(x, y, 32))
  {
  }

  lemma BitAndIs(a: int, b: int, r: int)
    requires 0 <= a < TWO32 && 0 <= b < TWO32 && AndBits(a, b, 32) == r
    ensures BitAnd(a, b) == ToInt32(r)
  {
    BitAndOf(a, b, a, b);
  }

  lemma BitOrOf(a: int, b: int, x: nat, y: nat)
    requires ToUint32(a) == x && ToUint32(b) == y
    ensures BitOr(a, b) == ToInt32(OrBits(x, y, 32))
  {
  }

  /** `x >>> 0` only reinterprets the bit string as unsigned. */
  lemma UnsignedShiftRightZero(x: int)
    ensures UnsignedShiftRight(x, 0) == ToUint32(x)
    ensures -TWO31 <= x < TWO31 ==> UnsignedShiftRight(x, 0) == (if x < 0 then x + TWO32 else x)
  {
  }

  /** ToInt32 keeps the bit string. */
  lemma Int32SameBits(x: int)
    ensures ToUint32(ToInt32(x)) == ToUint32(x)
  {
  }

  /** Shifting a byte in at the bottom respects equality of the low 32 bits. */
  lemma SameBitsShiftByte(x: int, y: int, o: int)
    requires ToUint32(x) == ToUint32(y)
    ensures ToUint32(x * 256 + o) == ToUint32(y * 256 + o)
  {
    var qx, qy := x / TWO32, y / TWO32;
    var r := x % TWO32;
    assert x == TWO32 * qx + r && y == TWO32 * qy + r;
    assert x * 256 + o == TWO32 * (qx * 256) + (r * 256 + o);
    assert y * 256 + o == TWO32 * (qy * 256) + (r * 256 + o);
    var rr := (r * 256 + o) % TWO32;
    var k := (r * 256 + o) / TWO32;
    DivModUnique(x * 256 + o, TWO32, qx * 256 + k, rr);
    DivModUnique(y * 256 + o, TWO32, qy * 256 + k, rr);
  }

  /** Adding the same amount respects equality of the low 32 bits. */
  lemma SameBitsAdd(x: int, y: int, o: int)
    requires ToUint32(x) == ToUint32(y)
    ensures ToUint32(x + o) == ToUint32(y + o)
  {
    var qx, qy := x / TWO32, y / TWO32;
    var r := x % TWO32;
    var k := (r + o) / TWO32;
    var rr := (r + o) % TWO32;
    DivModUnique(x + o, TWO32, qx + k, rr);
    DivModUnique(y + o, TWO32, qy + k, rr);
  }

  // ---------------------------------------------------------------------------
  // Facts about powers of two and remainders

  lemma MulAtLeast(m: int, x: int)
    requires m > 0 && x >= 1
    ensures m * x >= m
  {
    assert m * x == m + m * (x - 1);
  }

  lemma DivAtMost(x: nat, d: nat)
    requires d > 0
    ensures 0 <= x / d <= x
  {
    if x / d > x {
      MulAtLeast(x / d, d);
    }
  }

  lemma DivModUnique(a: int, m: int, q: int, r: int)
    requires m > 0 && 0 <= r < m && a == m * q + r
    ensures a / m == q && a % m == r
  {
    var q' := a / m;
    var r' := a % m;
    assert m * q' + r' == m * q + r;
    if q' > q {
      MulAtLeast(m, q' - q);
      assert false;
    } else if q' < q {
      MulAtLeast(m, q - q');
      assert false;
    }
  }

  /** The low k+1 bits of `a` are its lowest bit and the low k bits of `a / 2`. */
  lemma ModPow2Split(a: nat, k: nat)
    requires k > 0
    ensures a % Pow2(k) == a % 2 + 2 * ((a / 2) % Pow2(k - 1))
    ensures a / Pow2(k) == (a / 2) / Pow2(k - 1)
  {
    var h := a / 2;
    var p := Pow2(k - 1);
    var t := h / p;
    var low := h % p;
    assert h == p * t + low;
    assert a == Pow2(k) * t + (a % 2 + 2 * low);
    DivModUnique(a, Pow2(k), t, a % 2 + 2 * low);
  }

  /** Clearing the low h bits leaves a multiple of 2^h. */
  lemma ClearedIsAligned(x: int, h: nat)
    ensures (x - x % Pow2(h)) % Pow2(h) == 0
    ensures (x - x % Pow2(h)) / Pow2(h) == x / Pow2(h)
  {
    var p := Pow2(h);
    DivModUnique(x - x % p, p, x / p, 0);
  }

  /** Clearing the low h bits of a natural number moves it down by less than 2^h. */
  lemma ClearedBounds(x: int, h: nat)
    requires x >= 0
    ensures 0 <= x - x % Pow2(h) <= x < x - x % Pow2(h) + Pow2(h)
  {
    var p := Pow2(h);
    if x < p {
      DivModUnique(x, p, 0, x);
    }
  }

  /** A multiple of 2^h that is below a multiple of 2^h stays below it by a whole 2^h. */
  lemma MulMonotone(p: int, i: int, j: int)
    requires p > 0 && i <= j
    ensures p * i <= p * j
  {
    assert p * j - p * i == p * (j - i);
  }

  lemma AlignedBelow(s: int, h: nat, bound: nat, j: nat)
    requires 0 <= s && s % Pow2(h) == 0 && bound == Pow2(h) * j && s < bound
    ensures s + Pow2(h) <= bound
  {
    var p := Pow2(h);
    var i := s / p;
    assert s == p * i;
    if j <= i {
      MulMonotone(p, j, i);
      assert false;
    }
    MulMonotone(p, i + 1, j);
    assert p * (i + 1) == p * i + p;
  }

  /** A multiple of 2^h below 2^n, with h <= n, is at least 2^h below it. */
  lemma AlignedBelowPow2(s: int, h: nat, n: nat)
    requires h <= n && 0 <= s < Pow2(n) && s % Pow2(h) == 0
    ensures s + Pow2(h) <= Pow2(n)
  {
    var j := Pow2(n - h);
    assert Pow2(n) == Pow2(h) * j by {
      Pow2Add(h, n - h);
      assert h + (n - h) == n;
    }
    AlignedBelow(s, h, Pow2(n), j);
  }

  lemma {:induction false} Pow2Monotone(a: nat, b: nat)
    requires a <= b
    ensures Pow2(a) <= Pow2(b)
  {
    if a < b {
      Pow2Monotone(a, b - 1);
    }
  }

  // ---------------------------------------------------------------------------
  // Masks

  /** AND with all n bits set keeps every bit of an n-bit number. */
  lemma {:induction false} AndAllOnes(a: nat, n: nat)
    requires a < Pow2(n)
    ensures AndBits(a, Pow2(n) - 1, n) == a
  {
    if n > 0 {
      AndAllOnes(a / 2, n - 1);
      assert (Pow2(n) - 1) / 2 == Pow2(n - 1) - 1;
    }
  }

  /** AND with a mask whose low k bits are clear and whose bits k .. n-1 are set
      clears exactly the low k bits. */
  lemma {:induction false} AndHighMask(a: nat, n: nat, k: nat)
    requires a < Pow2(n) && k <= n
    ensures Pow2(k) <= Pow2(n) && AndBits(a, Pow2(n) - Pow2(k), n) == a - a % Pow2(k)
  {
    if k == 0 {
      Pow2Monotone(k, n);
      AndAllOnes(a, n);
    } else {
      assert a / 2 < Pow2(n - 1) by {
        assert Pow2(n) == 2 * Pow2(n - 1);
      }
      AndHighMask(a / 2, n - 1, k - 1);
      AndHighMaskStep(a, n, k);
    }
  }

  /** The inductive step of `AndHighMask`: the mask's lowest bit is clear, so
      the result is twice the result on the upper bits. */
  lemma AndHighMaskStep(a: nat, n: nat, k: nat)
    requires 0 < k <= n && Pow2(k - 1) <= Pow2(n - 1)
    requires AndBits(a / 2, Pow2(n - 1) - Pow2(k - 1), n - 1) == a / 2 - (a / 2) % Pow2(k - 1)
    ensures Pow2(k) <= Pow2(n) && AndBits(a, Pow2(n) - Pow2(k), n) == a - a % Pow2(k)
  {
    var p, q := Pow2(n - 1), Pow2(k - 1);
    assert Pow2(n) == 2 * p && Pow2(k) == 2 * q;
    var m := 2 * p - 2 * q;
    assert m % 2 == 0 && m / 2 == p - q;
    assert AndBits(a, m, n) == 2 * AndBits(a / 2, p - q, n - 1);
    ModPow2Split(a, k);
    assert a == 2 * (a / 2) + a % 2;
  }

  /** OR with zero changes nothing in an n-bit number. */
  lemma {:induction false} OrZero(a: nat, n: nat)
    requires a < Pow2(n)
    ensures OrBits(a, 0, n) == a
  {
    if n > 0 {
      OrZero(a / 2, n - 1);
    }
  }

  /** OR with the low k bits set fills the clear low k bits of an aligned number. */
  lemma {:induction false} OrLowOnes(s: nat, n: nat, k: nat)
    requires s < Pow2(n) && k <= n && s % Pow2(k) == 0
    ensures OrBits(s, Pow2(k) - 1, n) == s + Pow2(k) - 1
  {
    if k == 0 {
      OrZero(s, n);
    } else {
      ModPow2Split(s, k);
      assert (Pow2(k) - 1) / 2 == Pow2(k - 1) - 1;
      OrLowOnes(s / 2, n - 1, k - 1);
    }
  }

  /** `<<` sees its shift count only modulo 32. */
  lemma ShiftCountModulo32(a: int, b: int, c: int)
    requires ToUint32(b) % 32 == ToUint32(c) % 32
    ensures ShiftLeft(a, b) == ShiftLeft(a, c)
  {
  }

  /** `0xffffffff << b` read unsigned has the top 32-k bits set, k being the
      shift count `b` modulo 32; a count of 32 is a count of 0. */
  lemma ShiftAllOnes(b: int)
    ensures UnsignedShiftRight(ShiftLeft(0xffff_ffff, b), 0) == TWO32 - Pow2(ToUint32(b) % 32)
  {
    var k := ToUint32(b) % 32;
    var p := Pow2(k);
    assert p <= TWO31 by {
      Pow2Monotone(k, 31);
      Pow2ThirtyTwo();
    }
    var ones := ToInt32(0xffff_ffff);
    assert ones == -1;
    var v := -p;
    assert ones * Pow2(k) == v;
    assert ToInt32(v) == v;
    assert ToUint32(v) == TWO32 - p;
    UnsignedShiftRightZero(v);
  }

  lemma Pow2Below32(h: nat)
    requires h < 32
    ensures Pow2(h) <= TWO31 && Pow2(32) == TWO32
  {
    Pow2ThirtyTwo();
    Pow2Monotone(h, 31);
  }

  /** The 32-bit case of `AndHighMask`. */
  lemma AndHighMask32(x: nat, h: nat)
    requires x < TWO32 && h < 32
    ensures 0 < TWO32 - Pow2(h) < TWO32
    ensures AndBits(x, TWO32 - Pow2(h), 32) == x - x % Pow2(h)
  {
    Pow2Below32(h);
    AndHighMask(x, 32, h);
  }

  /** `x & mask`, the mask having the top 32-h bits set, clears the low h bits of x. */
  lemma AndWithMask(x: int, h: nat)
    requires 0 <= x < TWO32 && h < 32
    ensures BitAnd(x, TWO32 - Pow2(h)) == ToInt32(x - x % Pow2(h))
  {
    AndHighMask32(x, h);
    BitAndIs(x, TWO32 - Pow2(h), x - x % Pow2(h));
  }

  /** `~mask >>> 0`, the mask having the top 32-h bits set, has the low h bits set. */
  lemma NotMask(h: nat)
    requires h < 32
    ensures Pow2(h) <= TWO31
    ensures UnsignedShiftRight(BitNot(TWO32 - Pow2(h)), 0) == Pow2(h) - 1
  {
    Pow2ThirtyTwo();
    Pow2Monotone(h, 31);
    assert ToUint32(TWO32 - Pow2(h)) == TWO32 - Pow2(h);
    UnsignedShiftRightZero(Pow2(h) - 1);
  }

  /** The 32-bit case of `OrLowOnes`. */
  lemma OrLowOnes32(s: nat, h: nat)
    requires s < TWO32 && h < 32 && s % Pow2(h) == 0
    ensures 0 <= Pow2(h) - 1 < TWO32
    ensures OrBits(s, Pow2(h) - 1, 32) == s + Pow2(h) - 1
  {
    Pow2Below32(h);
    OrLowOnes(s, 32, h);
  }

  /** `s | low`, s being a multiple of 2^h and low having the h low bits set,
      is the last number before the next multiple of 2^h. */
  lemma OrWithLowOnes(s: int, h: nat, e: int)
    requires 0 <= s < TWO32 && h < 32 && s % Pow2(h) == 0 && e == s + Pow2(h) - 1
    ensures BitOr(ToInt32(s), Pow2(h) - 1) == ToInt32(e)
  {
    OrLowOnes32(s, h);
    Int32OfUint32(s);
    BitOrOf(ToInt32(s), Pow2(h) - 1, s, Pow2(h) - 1);
  }
}
