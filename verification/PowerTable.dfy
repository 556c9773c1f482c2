/** The 128-bit approximations of powers of ten (tools/numprint.py). */
module PowerTable {

  // ---- powers ----

  function Pow(b: nat, e: nat): (p: nat)
    requires b > 0
    ensures p > 0
  {
    if e == 0 then 1 else
      Positive(b, Pow(b, e - 1));
      b * Pow(b, e - 1)
  }

  lemma Positive(a: int, b: int)
    requires a > 0 && b > 0
    ensures a * b > 0
  {
  }

  lemma {:induction false} PowAdd(b: nat, x: nat, y: nat)
    requires b > 0
    ensures Pow(b, x + y) == Pow(b, x) * Pow(b, y)
  {
    if x > 0 {
      PowAdd(b, x - 1, y);
      Associate(b, Pow(b, x - 1), Pow(b, y));
    }
  }

  lemma Associate(a: int, b: int, c: int)
    ensures a * (b * c) == (a * b) * c
  {
  }

  lemma {:induction false} PowTimes(a: nat, b: nat, e: nat)
    requires a > 0 && b > 0
    ensures a * b > 0 && Pow(a * b, e) == Pow(a, e) * Pow(b, e)
  {
    Positive(a, b);
    if e > 0 {
      PowTimes(a, b, e - 1);
      var x, y := Pow(a, e - 1), Pow(b, e - 1);
      Shuffle(a, b, x, y);
    }
  }

  lemma Shuffle(a: int, b: int, x: int, y: int)
    ensures (a * b) * (x * y) == (a * x) * (b * y)
  {
    Associate(a * b, x, y);
    Associate(a * x, b, y);
    Associate(a, b, x);
    Associate(a, x, b);
  }

  lemma {:induction false} PowGrows(b: nat, x: nat, y: nat)
    requires b > 0 && x <= y
    ensures Pow(b, x) <= Pow(b, y)
  {
    if x < y {
      PowGrows(b, x, y - 1);
      AtLeast(b, Pow(b, y - 1));
    }
  }

  lemma AtLeast(b: int, p: int)
    requires b >= 1 && p >= 0
    ensures b * p >= p
  {
  }

  // ---- logarithms ----

  /** `math.ceil(math.log2(n))`, without the rounding of the floating-point logarithm: the
      least `L` with `n <= 2^L`. */
  function CeilLog2(n: nat): (l: nat)
    requires n > 0
    ensures n <= Pow(2, l) && (l > 0 ==> Pow(2, l - 1) < n)
  {
    Search(n, 0)
  }

  function Search(n: nat, l: nat): (r: nat)
    requires n > 0 && (l > 0 ==> Pow(2, l - 1) < n)
    ensures n <= Pow(2, r) && (r > 0 ==> Pow(2, r - 1) < n)
    decreases n - Pow(2, l)
  {
    if n <= Pow(2, l) then l else Search(n, l + 1)
  }

  // ---- the bit loop ----

  predicate Bit(n: nat, i: nat) {
    n / Pow(2, i) % 2 == 1
  }

  /** `r` is the floor of `num / den`. */
  predicate IsFloor(r: int, num: int, den: int) {
    r * den <= num < (r + 1) * den
  }

  lemma FloorIsUnique(r: int, s: int, num: int, den: int)
    requires den > 0 && IsFloor(r, num, den) && IsFloor(s, num, den)
    ensures r == s
  {
    if r < s {
      TimesGrows(r + 1, s, den);
    } else if s < r {
      TimesGrows(s + 1, r, den);
    }
  }

  lemma TimesGrows(a: int, b: int, c: int)
    requires a <= b && c >= 0
    ensures a * c <= b * c
  {
  }

  /** The bits of `n` below `i`. */
  function Below(n: nat, i: nat): (m: nat)
    ensures m < Pow(2, i)
  {
    n % Pow(2, i)
  }

  lemma OneMoreBit(n: nat, i: nat)
    ensures Below(n, i + 1) == Below(n, i) + if Bit(n, i) then Pow(2, i) else 0
  {
    BitStep(n, Pow(2, i));
    assert Pow(2, i + 1) == 2 * Pow(2, i);
  }

  lemma BitStep(n: nat, p: nat)
    requires p > 0
    ensures n % (2 * p) == n % p + if n / p % 2 == 1 then p else 0
  {
    var q, m := n / p, n % p;
    assert n == p * q + m;
    var q2, b := q / 2, q % 2;
    assert q == 2 * q2 + b;
    Rearrange(p, q2, b, m);
    var low := p * b + m;
    assert 0 <= low < 2 * p && low == m + (if b == 1 then p else 0) by {
      if b == 0 { assert p * b == 0; } else { assert p * b == p; }
    }
    ModuloIs(n, 2 * p, q2, low);
  }

  lemma Rearrange(p: int, q: int, b: int, m: int)
    ensures p * (2 * q + b) + m == (2 * p) * q + (p * b + m)
  {
  }

  lemma ModuloIs(n: nat, d: nat, q: nat, r: nat)
    requires d > 0 && n == d * q + r && r < d
    ensures n % d == r && n / d == q
  {
    var q', r' := n / d, n % d;
    assert n == d * q' + r';
    if q < q' {
      TimesGrows(q + 1, q', d);
      assert false;
    }
    if q' < q {
      TimesGrows(q' + 1, q, d);
      assert false;
    }
  }

  const BITS: nat := 128

  /** The bits of `n` below `i`, where no bit has a negative position. */
  function BelowOrNone(n: nat, i: int): nat {
    if i > 0 then Below(n, i) else 0
  }

  lemma NothingBelow(n: nat)
    ensures Below(n, 0) == 0
  {
  }

  /** The loop starts 128 bits below the top: what lies further down is less than one. */
  lemma StartIsFloor(n: nat, l: nat, w: nat)
    ensures IsFloor(0, BelowOrNone(n, l - w) * Pow(2, w), Pow(2, l))
  {
    hide Pow, Below, IsFloor;
    if l > w {
      PowAdd(2, l - w, w);
      SmallIsZero(Below(n, l - w), Pow(2, l - w), Pow(2, w), Pow(2, l));
    } else {
      NoneIsZero(Pow(2, w), Pow(2, l));
    }
  }

  lemma SmallIsZero(b: int, top: int, t: int, d: int)
    requires 0 <= b < top && t > 0 && d == top * t
    ensures IsFloor(0, b * t, d)
  {
    LessTimes(b, top, t);
    TimesGrows(0, b, t);
  }

  lemma NoneIsZero(t: int, d: int)
    requires d > 0
    ensures IsFloor(0, 0 * t, d)
  {
  }

  lemma Spread(a: int, b: int, c: int)
    ensures (a + b) * c == a * c + b * c
  {
  }

  /** One bit of `n` is one bit of the result. */
  lemma StepIsFloor(r: int, n: nat, i: nat, l: nat, w: nat)
    requires i + w >= l && IsFloor(r, Below(n, i) * Pow(2, w), Pow(2, l))
    ensures IsFloor(if Bit(n, i) then r + Pow(2, i + w - l) else r, Below(n, i + 1) * Pow(2, w), Pow(2, l))
    ensures r < Pow(2, i + w - l)
  {
    OneMoreBit(n, i);
    var d, top, b := Pow(2, l), Pow(2, i + w - l), Below(n, i);
    PowAdd(2, i + w - l, l);
    PowAdd(2, i, w);
    assert top * d == Pow(2, i) * Pow(2, w);
    Spread(b, Pow(2, i), Pow(2, w));
    Spread(r, top, d);
    Spread(r, 1, d);
    Spread(r + top, 1, d);
    Spread(b, 1, Pow(2, w));
    if r >= top {
      TimesGrows(top, r, d);
      TimesGrows(b + 1, Pow(2, i), Pow(2, w));
      assert false;
    }
  }

  /** `high128`: the top 128 bits of `n` below the `L` that the logarithm gives. Setting a bit
      that is not set yet is adding it. */
  method High128(n: nat, roundup: bool) returns (r: nat)
    requires n > 0
    ensures var l := CeilLog2(n); IsFloor(if roundup then r - 1 else r, Below(n, l) * Pow(2, BITS), Pow(2, l))
    ensures n == Pow(2, CeilLog2(n)) ==> r == if roundup then 1 else 0
  {
    hide Pow, CeilLog2, Below, IsFloor, Bit;
    var l: int := CeilLog2(n);
    r := 0;
    StartIsFloor(n, l, BITS);
    for i: int := l - BITS to l
      invariant l == CeilLog2(n)
      invariant IsFloor(r, BelowOrNone(n, i) * Pow(2, BITS), Pow(2, l))
    {
      if i >= 0 {
        NothingBelow(n);
        StepIsFloor(r, n, i, l, BITS);
        assert i - l + BITS == i + BITS - l;
        if Bit(n, i) {
          r := r + Pow(2, i - l + BITS);
        }
      }
    }
    NothingBelow(n);
    if n == Pow(2, l) { NothingLeft(n, l, r); }
    if roundup {
      r := r + 1;
    }
  }

  /** A power of two leaves nothing below its logarithm. */
  lemma NothingLeft(n: nat, l: nat, r: int)
    requires n == Pow(2, l) && IsFloor(r, Below(n, l) * Pow(2, BITS), Pow(2, l))
    ensures r == 0
  {
    BelowAll(n, l);
    hide Pow, Below;
    NoneIsZero(Pow(2, BITS), Pow(2, l));
    FloorIsUnique(r, 0, 0 * Pow(2, BITS), Pow(2, l));
  }

  /** The least input whose top bits `high128` loses: the floor for 2 is not the 0 it gives. */
  lemma TwoIsLost()
    ensures CeilLog2(2) == 1 && 2 == Pow(2, CeilLog2(2)) && !IsFloor(0, 2 * Pow(2, BITS), Pow(2, CeilLog2(2)))
  {
    assert Pow(2, 0) == 1 && Pow(2, 1) == 2;
  }

  /** `high128` computes the floor of `n * 2^128 / 2^L` exactly when `n` is no power of two:
      for a power of two the logarithm is one bit short, and the top bit is lost. */
  lemma FloorOfWhole(n: nat, f: int)
    requires n > 0
    requires var l := CeilLog2(n); IsFloor(f, Below(n, l) * Pow(2, BITS), Pow(2, l))
    ensures var l := CeilLog2(n); IsFloor(f, n * Pow(2, BITS), Pow(2, l)) <==> n != Pow(2, l)
  {
    var l := CeilLog2(n);
    BelowAll(n, l);
    var d, w := Pow(2, l), Pow(2, BITS);
    hide Pow, CeilLog2, Below;
    if n == d { TopIsLost(f, d, w); }
  }

  lemma TopIsLost(f: int, d: int, w: int)
    requires d > 0 && w > 0 && IsFloor(f, 0 * w, d)
    ensures !IsFloor(f, d * w, d)
  {
    if f >= 1 { TimesGrows(1, f, d); }
    if f <= -1 { TimesGrows(f + 1, 0, d); }
    TimesGrows(1, w, d);
    Commute(w, d);
  }

  // ---- what the approximation is worth ----

  /** `num / den` lies between `r - 1` and `r`, and `r` has 128 bits or is the power after. */
  predicate Approximates(r: int, num: int, den: int) {
    (r - 1) * den <= num <= r * den && Pow(2, 127) <= r <= Pow(2, 128)
  }

  /** The top bits of a number that is no power of two. */
  lemma TopBits(f: int, n: nat, l: nat, w: nat)
    requires w > 0 && l > 0 && Pow(2, l - 1) < n < Pow(2, l) && IsFloor(f, n * Pow(2, w), Pow(2, l))
    ensures Pow(2, w - 1) <= f < Pow(2, w)
  {
    var d, half, full := Pow(2, l), Pow(2, w - 1), Pow(2, w);
    PowAdd(2, l - 1, w);
    PowAdd(2, w - 1, l);
    assert Pow(2, l - 1) * full == half * d;
    TimesGrows(Pow(2, l - 1), n, full);
    if f < half { TimesGrows(f + 1, half, d); }
    LessTimes(n, d, full);
    Commute(d, full);
    if f >= full { TimesGrows(full, f, d); }
  }

  lemma LessTimes(a: int, b: int, c: int)
    requires a < b && c > 0
    ensures a * c < b * c
  {
    TimesGrows(a + 1, b, c);
    Spread(a, 1, c);
  }

  lemma Commute(a: int, b: int)
    ensures a * b == b * a
  {
  }

  lemma BelowAll(n: nat, l: nat)
    requires n <= Pow(2, l)
    ensures Below(n, l) == if n < Pow(2, l) then n else 0
  {
    if n == Pow(2, l) { ModuloIs(n, Pow(2, l), 1, 0); } else { ModuloIs(n, Pow(2, l), 0, n); }
  }

  lemma {:induction false} TwoIsNotFive(l: nat)
    ensures Pow(2, l) % 5 != 0
  {
    if l > 0 { TwoIsNotFive(l - 1); }
  }

  /** No positive power of ten is a power of two. */
  lemma TenIsNotTwo(n: nat, l: nat)
    requires n > 0
    ensures Pow(10, n) != Pow(2, l)
  {
    TwoIsNotFive(l);
    ModuloIs(Pow(10, n), 5, 2 * Pow(10, n - 1), 0);
  }

  lemma ExactWhenShort(n: nat, l: nat, w: nat, f: int)
    requires w > 0 && Pow(5, n) < Pow(2, w) && (l > 0 ==> Pow(2, l - 1) < Pow(10, n))
    requires IsFloor(f, Pow(10, n) * Pow(2, w), Pow(2, l))
    ensures f * Pow(2, l) == Pow(10, n) * Pow(2, w)
  {
    PowTimes(5, 2, n);
    assert Pow(10, n) == Pow(5, n) * Pow(2, n);
    PowAdd(2, w, n);
    LessTimes(Pow(5, n), Pow(2, w), Pow(2, n));
    if l > n + w { PowGrows(2, n + w, l - 1); }
    var rest := n + w - l;
    PowAdd(2, n, w);
    PowAdd(2, rest, l);
    var five := Pow(5, n);
    Associate(five, Pow(2, n), Pow(2, w));
    Associate(five, Pow(2, rest), Pow(2, l));
    var exact := five * Pow(2, rest);
    assert exact * Pow(2, l) == Pow(10, n) * Pow(2, w);
    Spread(exact, 1, Pow(2, l));
    FloorIsUnique(f, exact, Pow(10, n) * Pow(2, w), Pow(2, l));
  }

  /** The scaled reciprocal of a power of ten, from its whole part. */
  lemma WholePartIsEnough(f: int, k: nat, p: nat, l: nat, w: nat)
    requires p > 0 && l >= w && IsFloor(f, (k / p) * Pow(2, w), Pow(2, l))
    ensures f * (p * Pow(2, l)) <= k * Pow(2, w) <= (f + 1) * (p * Pow(2, l))
  {
    var q, two, d, a := k / p, Pow(2, w), Pow(2, l), Pow(2, l - w);
    WholePart(k, p);
    PowAdd(2, l - w, w);
    assert d == a * two;
    // below
    TimesGrows(f * d, q * two, p);
    Shift(f, d, p);
    Shift(q, two, p);
    TimesGrows(q * p, k, two);
    // above
    Associate(f + 1, a, two);
    if (f + 1) * a < q + 1 {
      TimesGrows((f + 1) * a, q, two);
      assert false;
    }
    TimesGrows(q + 1, (f + 1) * a, two);
    TimesGrows((q + 1) * two, (f + 1) * d, p);
    Shift(q + 1, two, p);
    Shift(f + 1, d, p);
    TimesGrows(k, (q + 1) * p, two);
  }

  /** Both ways to take a product of three apart. */
  lemma Shift(a: int, b: int, c: int)
    ensures (a * b) * c == a * (c * b) == (a * c) * b
  {
    Commute(b, c);
    Associate(a, b, c);
    Associate(a, c, b);
  }

  lemma WholePart(k: nat, p: nat)
    requires p > 0
    ensures (k / p) * p <= k < (k / p + 1) * p
  {
    var q, r := k / p, k % p;
    assert k == p * q + r;
    Commute(p, q);
    Spread(q, 1, p);
  }

  /** The scale keeps more than 128 bits. */
  lemma ScaleIsEnough(m: nat, w: nat)
    requires m > 0
    ensures (Pow(2, w) * Pow(16, m)) / Pow(10, m) >= Pow(2, w)
  {
    TenBelowSixteen(m);
    var k, p := Pow(2, w) * Pow(16, m), Pow(10, m);
    WholePart(k, p);
    TimesGrows(p, Pow(16, m), Pow(2, w));
    Commute(p, Pow(2, w));
    Commute(Pow(16, m), Pow(2, w));
    if k / p < Pow(2, w) { TimesGrows(k / p + 1, Pow(2, w), p); }
  }

  lemma {:induction false} TenBelowSixteen(m: nat)
    ensures Pow(10, m) <= Pow(16, m)
  {
    if m > 0 { TenBelowSixteen(m - 1); }
  }

  /** The number of which `pow10approx` takes the top bits, and the power that it stands for,
      as a fraction. */
  function Scaled(n: int): (q: nat)
    requires n != 0
    ensures q > 0
  {
    if n > 0 then Pow(10, n)
    else
      ScaleIsEnough(-n, BITS);
      (Pow(2, BITS) * Pow(16, -n)) / Pow(10, -n)
  }

  function Num(n: int): int
    requires n != 0
  {
    if n > 0 then Pow(10, n) * Pow(2, BITS) else (Pow(2, BITS) * Pow(16, -n)) * Pow(2, BITS)
  }

  function Den(n: int): int
    requires n != 0
  {
    if n > 0 then Pow(2, CeilLog2(Scaled(n))) else Pow(10, -n) * Pow(2, CeilLog2(Scaled(n)))
  }

  /** The fraction is ten to the `n`, but for a power of two. */
  lemma FractionIsPower(n: int) returns (up: nat, down: nat)
    requires n != 0
    ensures n > 0 ==> Num(n) == Pow(10, n) * Pow(2, up) && Den(n) == Pow(2, down)
    ensures n < 0 ==> Num(n) == Pow(2, up) && Den(n) == Pow(10, -n) * Pow(2, down)
  {
    down := CeilLog2(Scaled(n));
    if n > 0 {
      up := BITS;
    } else {
      var m := -n;
      up := BITS + 4 * m + BITS;
      hide Pow, CeilLog2;
      PowMul(2, 4, m);
      assert Pow(2, 4) == 16 by { Sixteen(); }
      PowAdd(2, BITS, 4 * m);
      PowAdd(2, BITS + 4 * m, BITS);
    }
  }

  lemma Sixteen()
    ensures Pow(2, 4) == 16
  {
    assert Pow(2, 2) == 4 && Pow(2, 4) == 2 * (2 * Pow(2, 2));
  }

  /** The logarithm finds the bit length of the scaled power exactly when that is no power of
      two. */
  predicate LengthFound(n: int)
    requires n != 0
  {
    Scaled(n) != Pow(2, CeilLog2(Scaled(n)))
  }

  /** `pow10approx`: right for every positive power, and for a negative one exactly when its
      scaled whole part is no power of two, as it is down to ten to the minus 12654. */
  method Pow10Approx(n: int) returns (r: nat)
    ensures n == 0 ==> r == Pow(2, 127)
    ensures n > 0 ==> Approximates(r, Num(n), Den(n)) && (r * Den(n) == Num(n) <==> Pow(5, n) < Pow(2, 128))
    ensures n < 0 ==> (Approximates(r, Num(n), Den(n)) <==> LengthFound(n))
    ensures -12655 < n < 0 ==> Approximates(r, Num(n), Den(n))
  {
    hide Pow, Below, IsFloor, CeilLog2;
    if n == 0 {
      r := Pow(2, BITS - 1);
    } else if n > 0 {
      r := High128(Pow(10, n), Pow(5, n) >= Pow(2, BITS));
      PositiveRight(n, r, BITS);
    } else {
      var p, k := Pow(10, -n), Pow(2, BITS) * Pow(16, -n);
      ScaleIsEnough(-n, BITS);
      r := High128(k / p, true);
      NegativeRight(n, r);
      if -12655 < n { LengthIsFound(n); }
    }
  }

  lemma PositiveRight(n: nat, r: int, w: nat)
    requires n > 0 && w > 0
    requires var l := CeilLog2(Pow(10, n));
             IsFloor(if Pow(5, n) >= Pow(2, w) then r - 1 else r, Below(Pow(10, n), l) * Pow(2, w), Pow(2, l))
    ensures var num, den := Pow(10, n) * Pow(2, w), Pow(2, CeilLog2(Pow(10, n)));
            && (r - 1) * den <= num <= r * den && Pow(2, w - 1) <= r <= Pow(2, w)
            && (r * den == num <==> Pow(5, n) < Pow(2, w))
  {
    var l := CeilLog2(Pow(10, n));
    var den := Pow(2, l);
    TenIsNotTwo(n, l);
    BelowAll(Pow(10, n), l);
    assert l > 0 by { PowGrows(10, 1, n); }
    var f := if Pow(5, n) >= Pow(2, w) then r - 1 else r;
    TopBits(f, Pow(10, n), l, w);
    if Pow(5, n) < Pow(2, w) {
      ExactWhenShort(n, l, w, f);
      Spread(r - 1, 1, den);
    }
  }

  lemma NegativeRight(n: int, r: int)
    requires n < 0
    requires var q := Scaled(n); IsFloor(r - 1, Below(q, CeilLog2(q)) * Pow(2, BITS), Pow(2, CeilLog2(q)))
    ensures Approximates(r, Num(n), Den(n)) <==> LengthFound(n)
  {
    var m := -n;
    var k, p := Pow(2, BITS) * Pow(16, m), Pow(10, m);
    ScaledRight(k, p, r, BITS, m);
  }

  lemma ScaledRight(k: nat, p: nat, r: int, w: nat, m: nat)
    requires m > 0 && w > 1 && k == Pow(2, w) * Pow(16, m) && p == Pow(10, m) && k / p > 0
    requires var q := k / p; IsFloor(r - 1, Below(q, CeilLog2(q)) * Pow(2, w), Pow(2, CeilLog2(q)))
    ensures var den := p * Pow(2, CeilLog2(k / p));
            ((r - 1) * den <= k * Pow(2, w) <= r * den && Pow(2, w - 1) <= r <= Pow(2, w))
            <==> k / p != Pow(2, CeilLog2(k / p))
  {
    var q := k / p;
    var l := CeilLog2(q);
    ScaleIsEnough(m, w);
    BelowAll(q, l);
    assert Pow(2, w) == 2 * Pow(2, w - 1);
    if l < w {
      PowGrows(2, l, w - 1);
      assert false;
    }
    if q != Pow(2, l) {
      TopBits(r - 1, q, l, w);
      WholePartIsEnough(r - 1, k, p, l, w);
    } else {
      var d := Pow(2, l);
      if r - 1 >= 1 { TimesGrows(1, r - 1, d); }
      if r - 1 < 0 { TimesGrows(r, 0, d); }
      assert r == 1;
      PowGrows(2, 1, w - 1);
      assert Pow(2, 1) == 2 by { assert Pow(2, 0) == 1; }
    }
  }

  /** `pow5_64`: the top 64 bits of a power of five. */
  method Pow5High64(n: nat) returns (r: nat)
    ensures n == 0 ==> r == Pow(2, 63)
    ensures n > 0 ==> IsFloor(r, Pow(5, n) * Pow(2, 64), Pow(2, CeilLog2(Pow(5, n)))) && Pow(2, 63) <= r < Pow(2, 64)
  {
    hide Pow, Below, IsFloor, CeilLog2;
    if n == 0 {
      r := Pow(2, 63);
    } else {
      var high := High128(Pow(5, n), false);
      r := high / Pow(2, 64);
      HalfRight(n, high, 64);
    }
  }

  lemma FiveIsNotTwo(n: nat, l: nat)
    requires n > 0
    ensures Pow(5, n) != Pow(2, l)
  {
    TwoIsNotFive(l);
    ModuloIs(Pow(5, n), 5, Pow(5, n - 1), 0);
  }

  lemma HalfRight(n: nat, high: nat, h: nat)
    requires n > 0 && h > 0
    requires var l := CeilLog2(Pow(5, n)); IsFloor(high, Below(Pow(5, n), l) * Pow(2, h + h), Pow(2, l))
    ensures var r := high / Pow(2, h);
            IsFloor(r, Pow(5, n) * Pow(2, h), Pow(2, CeilLog2(Pow(5, n)))) && Pow(2, h - 1) <= r < Pow(2, h)
  {
    var x, l := Pow(5, n), CeilLog2(Pow(5, n));
    FiveIsNotTwo(n, l);
    BelowAll(x, l);
    assert l > 0 by { PowGrows(5, 1, n); }
    WholePart(high, Pow(2, h));
    hide IsFloor, Below, Pow, CeilLog2;
    HalfIs(high / Pow(2, h), high, x, l, h);
  }

  lemma HalfIs(r: nat, high: nat, x: nat, l: nat, h: nat)
    requires l > 0 && h > 0 && Pow(2, l - 1) < x < Pow(2, l) && r * Pow(2, h) <= high < (r + 1) * Pow(2, h)
    requires IsFloor(high, x * Pow(2, h + h), Pow(2, l))
    ensures IsFloor(r, x * Pow(2, h), Pow(2, l)) && Pow(2, h - 1) <= r < Pow(2, h)
  {
    PowAdd(2, h, h);
    hide IsFloor, Pow;
    Associate(x, Pow(2, h), Pow(2, h));
    HalvesDivide(r, high, x * Pow(2, h), Pow(2, l), Pow(2, h));
    TopBits(r, x, l, h);
  }

  lemma HalvesDivide(r: nat, high: nat, num: nat, d: nat, t: nat)
    requires d > 0 && t > 0 && r * t <= high < (r + 1) * t && IsFloor(high, num * t, d)
    ensures IsFloor(r, num, d)
  {
    TimesGrows(r * t, high, d);
    Shift(r, t, d);
    CancelAtMost(r * d, num, t);
    TimesGrows(high + 1, (r + 1) * t, d);
    Shift(r + 1, t, d);
    CancelLess(num, (r + 1) * d, t);
  }

  lemma CancelAtMost(a: int, b: int, c: int)
    requires c > 0 && a * c <= b * c
    ensures a <= b
  {
    if a > b { LessTimes(b, a, c); }
  }

  lemma CancelLess(a: int, b: int, c: int)
    requires c > 0 && a * c < b * c
    ensures a < b
  {
    if a >= b { TimesGrows(b, a, c); }
  }

  // ---- no power of five lies just below a power of two ----

  lemma {:induction false} PowMul(b: nat, x: nat, y: nat)
    requires b > 0
    ensures x * y >= 0 && Pow(b, x * y) == Pow(Pow(b, x), y)
  {
    if y == 0 {
      assert x * y == 0;
    } else {
      PowMul(b, x, y - 1);
      Spread(y - 1, 1, x);
      Commute(x, y);
      Commute(x, y - 1);
      PowAdd(b, x, x * (y - 1));
    }
  }

  lemma {:induction false} PowMonotone(a: nat, b: nat, e: nat)
    requires 0 < a <= b
    ensures Pow(a, e) <= Pow(b, e)
  {
    if e > 0 {
      PowMonotone(a, b, e - 1);
      TimesBoth(a, b, Pow(a, e - 1), Pow(b, e - 1));
    }
  }

  lemma TimesBoth(a: int, b: int, x: int, y: int)
    requires 0 <= a <= b && 0 <= x <= y
    ensures a * x <= b * y
  {
    TimesGrows(a, b, x);
    TimesGrows(x, y, b);
    Commute(b, x);
    Commute(b, y);
  }

  /** Exponents of two compare as their powers. */
  lemma ExponentsCompare(x: nat, y: nat)
    requires Pow(2, x) < Pow(2, y)
    ensures x < y
  {
    if x >= y { PowGrows(2, y, x); }
  }

  /** With `2^a < 5^b`, a power `2^t` above `5^m` has `t / m` above `a / b`. */
  lemma AboveLower(a: nat, b: nat, t: nat, m: nat)
    requires b > 0 && m > 0 && Pow(2, a) < Pow(5, b) && Pow(5, m) < Pow(2, t)
    ensures a * m < t * b
  {
    PowMul(2, a, m);
    PowMul(5, b, m);
    PowMul(5, m, b);
    PowMul(2, t, b);
    Commute(b, m);
    PowMonotone(Pow(5, m), Pow(2, t), b);
    PowStrict(Pow(2, a), Pow(5, b), m);
    ExponentsCompare(a * m, t * b);
  }

  lemma {:induction false} PowStrict(a: nat, b: nat, e: nat)
    requires 0 < a < b && e > 0
    ensures Pow(a, e) < Pow(b, e)
  {
    if e > 1 {
      PowStrict(a, b, e - 1);
      TimesBoth(a, b, Pow(a, e - 1), Pow(b, e - 1) - 1);
      Spread(Pow(b, e - 1) - 1, 1, b);
      Commute(b, Pow(b, e - 1));
      Commute(b, Pow(b, e - 1) - 1);
    } else {
      assert Pow(a, 0) == 1 && Pow(b, 0) == 1;
    }
  }

  /** Between the neighbours `a / b` and `c / d` no fraction has a denominator below `b + d`. */
  lemma NoFractionBetween(a: nat, b: nat, c: nat, d: nat, t: nat, m: nat)
    requires c * b - a * d == 1 && m < b + d && a * m < t * b
    ensures t * d >= c * m
  {
    if t * d < c * m {
      var x, y := c * m - t * d, t * b - a * m;
      assert b * x + d * y == m by {
        Neighbours(a, b, c, d, t, m);
      }
      TimesGrows(1, x, b);
      TimesGrows(1, y, d);
      Commute(b, x);
      Commute(d, y);
      assert false;
    }
  }

  lemma Neighbours(a: int, b: int, c: int, d: int, t: int, m: int)
    requires c * b - a * d == 1
    ensures b * (c * m - t * d) + d * (t * b - a * m) == m
  {
    assert b * (c * m) == (c * b) * m && b * (t * d) == d * (t * b) && d * (a * m) == (a * d) * m;
    assert (c * b) * m - (a * d) * m == (c * b - a * d) * m;
  }

  /** `(N / (N + 1))^d >= 1 - d / (N + 1)`. */
  lemma {:induction false} Bernoulli(n: nat, d: nat)
    requires n > 0
    ensures Pow(n, d) * (n + 1) >= Pow(n + 1, d) * (n + 1 - d)
  {
    if d > 0 {
      Bernoulli(n, d - 1);
      BernoulliStep(n, d, Pow(n, d - 1), Pow(n + 1, d - 1));
    }
  }

  lemma BernoulliStep(n: nat, d: nat, x: nat, y: nat)
    requires d > 0 && x * (n + 1) >= y * (n + 2 - d)
    ensures (n * x) * (n + 1) >= ((n + 1) * y) * (n + 1 - d)
  {
    TimesGrows(y * (n + 2 - d), x * (n + 1), n);
    assert (x * (n + 1)) * n == (n * x) * (n + 1);
    assert n * (n + 2 - d) == (n + 1) * (n + 1 - d) + (d - 1);
    assert (y * (n + 2 - d)) * n == y * (n * (n + 2 - d));
    assert y * ((n + 1) * (n + 1 - d) + (d - 1)) == y * ((n + 1) * (n + 1 - d)) + y * (d - 1);
    TimesGrows(0, d - 1, y);
    Commute(y, d - 1);
    assert y * ((n + 1) * (n + 1 - d)) == ((n + 1) * y) * (n + 1 - d);
  }

  /** A fraction `2^t / 5^m` above one is at least `1 + 1/n` while `m` is below the sum of two
      neighbours' denominators, `a / b` below and `c / d` above the logarithm of five. */
  lemma NotJustAbove(a: nat, b: nat, c: nat, d: nat, n: nat, t: nat, m: nat)
    requires c * b - a * d == 1 && b > 0 && 0 < m < b + d && 0 < n && Pow(5, m) < Pow(2, t)
    requires Pow(2, a) < Pow(5, b) && Pow(5, d) * (n + 1) < Pow(2, c) * (n + 1 - d)
    ensures Pow(2, t) * n >= Pow(5, m) * (n + 1)
  {
    var x, y, u, v := Pow(2, t), Pow(5, m), Pow(2, c), Pow(5, d);
    hide Pow;
    if x * n < y * (n + 1) {
      AboveLower(a, b, t, m);
      NoFractionBetween(a, b, c, d, t, m);
      PowersApart(c, d, t, m);
      Positive(x, n);
      PowTimes(x, n, d);
      PowTimes(y, n + 1, d);
      PowMonotone(x * n, y * (n + 1), d);
      Bernoulli(n, d);
      Larger(u, v, n, d);
      FirstPower(u, v, m);
      Positive(y, n + 1);
      Squeeze(Pow(u, m), Pow(v, m), Pow(x, d), u, v, Pow(n, d), Pow(n + 1, d), n, d);
    }
  }

  lemma Larger(u: int, v: int, n: int, d: int)
    requires 0 < u && 0 <= d && 0 < n && v * (n + 1) < u * (n + 1 - d)
    ensures v <= u
  {
    if u < v {
      TimesGrows(u, v, n + 1);
      TimesGrows(n + 1 - d, n + 1, u);
      Commute(u, n + 1);
      Commute(u, n + 1 - d);
    }
  }

  lemma PowersApart(c: nat, d: nat, t: nat, m: nat)
    requires c * m <= t * d
    ensures Pow(Pow(2, c), m) <= Pow(Pow(2, t), d) && Pow(Pow(5, m), d) == Pow(Pow(5, d), m)
  {
    PowMul(2, c, m);
    PowMul(2, t, d);
    PowGrows(2, c * m, t * d);
    PowMul(5, m, d);
    PowMul(5, d, m);
    Commute(m, d);
  }

  lemma FirstPower(u: nat, v: nat, m: nat)
    requires 0 < v <= u && m > 0
    ensures Pow(u, m) * v >= Pow(v, m) * u
  {
    PowMonotone(v, u, m - 1);
    var p, q := Pow(u, m - 1), Pow(v, m - 1);
    assert Pow(u, m) == u * p && Pow(v, m) == v * q;
    hide Pow;
    Positive(u, v);
    TimesGrows(q, p, u * v);
    Commute(u, p);
    Commute(v, q);
    Associate(p, u, v);
    Associate(q, v, u);
    Commute(u, v);
  }

  lemma Squeeze(p: int, q: int, x: int, u: int, v: int, a: int, b: int, n: int, d: int)
    requires 0 < q && 0 < b && 0 < a && 0 < u && 0 < v && 0 < n && 0 <= d
    requires p <= x && x * a <= q * b && p * v >= q * u && a * (n + 1) >= b * (n + 1 - d)
    ensures v * (n + 1) >= u * (n + 1 - d)
  {
    Halfway(p, q, x, u, v, a, b);
    if v * (n + 1) < u * (n + 1 - d) {
      LessTimes(v * (n + 1), u * (n + 1 - d), b);
      TimesGrows(u * a, v * b, n + 1);
      Shift(v, b, n + 1);
      Shift(u, a, n + 1);
      Shift(u, b, n + 1 - d);
      TimesGrows(b * (n + 1 - d), a * (n + 1), u);
      Commute(u, a * (n + 1));
      Commute(u, b * (n + 1 - d));
      Associate(u, a, n + 1);
      Associate(u, b, n + 1 - d);
    }
  }

  lemma Halfway(p: int, q: int, x: int, u: int, v: int, a: int, b: int)
    requires 0 < q && 0 <= a && 0 <= v && p <= x && x * a <= q * b && p * v >= q * u
    ensures u * a <= v * b
  {
    TimesGrows(p, x, a);
    TimesGrows(p * a, q * b, v);
    TimesGrows(q * u, p * v, a);
    Shift(q, u, a);
    Shift(p, v, a);
    Shift(q, b, v);
    Associate(q, u, a);
    Commute(q, u * a);
    Commute(q, v * b);
    CancelAtMost(u * a, v * b, q);
  }

  // ---- two neighbours of the logarithm ----

  lemma PowersOfTwo()
    ensures Pow(2, 24) == 16777216 && Pow(2, 28) == 268435456 && Pow(2, 48) == 281474976710656 && Pow(2, 49) == 562949953421312 && Pow(2, 50) == 1125899906842624
    ensures Pow(2, 51) == 2251799813685248 && Pow(2, 52) == 4503599627370496
  {
    assert Pow(2, 6) == 64;
    PowAdd(2, 6, 6);
    PowAdd(2, 12, 12);
    PowAdd(2, 4, 24);
    assert Pow(2, 4) == 16;
    PowAdd(2, 24, 24);
  }

  /** `5^k` is at least `low * 2^s`. */
  predicate FiveAtLeast(k: nat, low: nat, s: nat) {
    low * Pow(2, s) <= Pow(5, k)
  }

  /** `5^k` is at most `high * 2^s`. */
  predicate FiveAtMost(k: nat, high: nat, s: nat) {
    Pow(5, k) <= high * Pow(2, s)
  }

  lemma Start()
    ensures FiveAtLeast(15, 30517578125, 0) && FiveAtMost(16, 152587890625, 0)
  {
    assert Pow(5, 5) == 3125;
    PowAdd(5, 5, 5);
    PowAdd(5, 5, 10);
    PowAdd(5, 1, 15);
    assert Pow(5, 1) == 5 && Pow(2, 0) == 1;
  }

  /** Squaring, with a factor of five if `one`. */
  lemma FiveTwice(k: nat, one: nat)
    requires one <= 1
    ensures Pow(5, 2 * k + one) == (Pow(5, k) * Pow(5, k)) * if one == 1 then 5 else 1
  {
    PowAdd(5, k, k);
    PowAdd(5, 2 * k, one);
    assert Pow(5, 0) == 1 && Pow(5, 1) == 5;
  }

  lemma TwoTwice(s: nat, j: nat)
    ensures Pow(2, 2 * s + j) == (Pow(2, s) * Pow(2, s)) * Pow(2, j)
  {
    PowAdd(2, s, s);
    PowAdd(2, 2 * s, j);
  }

  lemma LowerStep(k: nat, low: nat, s: nat, one: nat, next: nat, j: nat)
    requires one <= 1 && FiveAtLeast(k, low, s)
    requires next * Pow(2, j) <= (low * low) * if one == 1 then 5 else 1
    ensures FiveAtLeast(2 * k + one, next, 2 * s + j)
  {
    FiveTwice(k, one);
    TwoTwice(s, j);
    var p, t, u := Pow(5, k), Pow(2, s), Pow(2, j);
    var f := if one == 1 then 5 else 1;
    hide Pow;
    Squares(low, t, p);
    TimesGrows((low * low) * (t * t), p * p, f);
    Shift(low * low, t * t, f);
    TimesGrows(next * u, (low * low) * f, t * t);
    Positive(t, t);
    Shift(next, u, t * t);
    Associate(next, t * t, u);
  }

  lemma Squares(a: nat, t: nat, p: nat)
    ensures a * t <= p ==> (a * a) * (t * t) <= p * p
    ensures p <= a * t ==> p * p <= (a * a) * (t * t)
  {
    Shuffle(a, a, t, t);
    TimesGrows(0, t, a);
    Commute(a, t);
    if a * t <= p { TimesBoth(a * t, p, a * t, p); }
    if p <= a * t { TimesBoth(p, a * t, p, a * t); }
  }

  lemma UpperStep(k: nat, high: nat, s: nat, one: nat, next: nat, j: nat)
    requires one <= 1 && FiveAtMost(k, high, s)
    requires (high * high) * (if one == 1 then 5 else 1) <= next * Pow(2, j)
    ensures FiveAtMost(2 * k + one, next, 2 * s + j)
  {
    FiveTwice(k, one);
    TwoTwice(s, j);
    var p, t, u := Pow(5, k), Pow(2, s), Pow(2, j);
    var f := if one == 1 then 5 else 1;
    hide Pow;
    Squares(high, t, p);
    TimesGrows(p * p, (high * high) * (t * t), f);
    Shift(high * high, t * t, f);
    Positive(t, t);
    TimesGrows((high * high) * f, next * u, t * t);
    Shift(next, u, t * t);
    Associate(next, t * t, u);
  }

  /** `2^9297 < 5^4004` */
  lemma LowerNeighbour()
    ensures Pow(2, 9297) < Pow(5, 4004)
  {
    hide Pow, FiveAtLeast;
    PowersOfTwo();
    Start();
    LowerStep(15, 30517578125, 0, 1, 277555756156289, 24);
    LowerStep(31, 277555756156289, 24, 0, 273691106313440, 48);
    LowerStep(62, 273691106313440, 96, 1, 332653112500634, 50);
    LowerStep(125, 332653112500634, 242, 0, 393136521581849, 48);
    LowerStep(250, 393136521581849, 532, 0, 549094368556792, 48);
    LowerStep(500, 549094368556792, 1112, 1, 334737377350771, 52);
    LowerStep(1001, 334737377350771, 2276, 0, 398078412173932, 48);
    LowerStep(2002, 398078412173932, 4600, 0, 281492912959391, 49);
    LowerEnd(4004, 281492912959391, 9249, 48);
  }

  lemma LowerEnd(k: nat, low: nat, s: nat, j: nat)
    requires FiveAtLeast(k, low, s) && low > Pow(2, j)
    ensures Pow(2, j + s) < Pow(5, k)
  {
    PowAdd(2, j, s);
    LessTimes(Pow(2, j), low, Pow(2, s));
  }

  /** `5^8651 < 2^20087`, by a wide margin. */
  lemma UpperNeighbour()
    ensures Pow(5, 8651) * (Pow(2, 48) + 1) < Pow(2, 20087) * (Pow(2, 48) + 1 - 8651)
  {
    hide Pow, FiveAtMost;
    PowersOfTwo();
    Start();
    UpperStep(16, 152587890625, 0, 1, 433680868994202, 28);
    UpperStep(33, 433680868994202, 28, 1, 417619485951907, 51);
    UpperStep(67, 417619485951907, 107, 1, 387259191484935, 51);
    UpperStep(135, 387259191484935, 265, 0, 532799338478063, 48);
    UpperStep(270, 532799338478063, 578, 0, 504263537739756, 49);
    UpperStep(540, 504263537739756, 1205, 1, 282309415282417, 52);
    UpperStep(1081, 282309415282417, 2462, 0, 283146327565121, 48);
    UpperStep(2162, 283146327565121, 4972, 1, 356034503273217, 50);
    UpperStep(4325, 356034503273217, 9994, 1, 562930002705493, 50);
    UpperEnd(8651, 562930002705493, 20038, 49, Pow(2, 48));
  }

  lemma UpperEnd(k: nat, high: nat, s: nat, j: nat, n: nat)
    requires FiveAtMost(k, high, s) && n > 0 && high * (n + 1) < Pow(2, j) * (n + 1 - k)
    ensures Pow(5, k) * (n + 1) < Pow(2, j + s) * (n + 1 - k)
  {
    PowAdd(2, j, s);
    hide Pow;
    EndProducts(Pow(5, k), high, Pow(2, s), Pow(2, j), n, k);
  }

  lemma EndProducts(p: int, high: int, t: int, u: int, n: int, d: int)
    requires p <= high * t && t > 0 && n > 0 && high * (n + 1) < u * (n + 1 - d)
    ensures p * (n + 1) < (u * t) * (n + 1 - d)
  {
    TimesGrows(p, high * t, n + 1);
    Shift(high, t, n + 1);
    LessTimes(high * (n + 1), u * (n + 1 - d), t);
    Shift(u, t, n + 1 - d);
  }

  // ---- no scaled power is a power of two ----

  /** Down to ten to the minus 12654, the logarithm finds every length. */
  lemma LengthIsFound(n: int)
    requires -12655 < n < 0
    ensures LengthFound(n)
  {
    var m, l := -n, CeilLog2(Scaled(n));
    if Scaled(n) == Pow(2, l) {
      ScaleIsEnough(m, BITS);
      assert Scaled(n) == (Pow(2, BITS) * Pow(16, m)) / Pow(10, m);
      NoPowerOfTwo(m, l, BITS);
    }
  }

  lemma NoPowerOfTwo(m: nat, l: nat, w: nat)
    requires 0 < m < 12655 && w >= 48 && Pow(2, w) <= Pow(2, l)
    ensures (Pow(2, w) * Pow(16, m)) / Pow(10, m) != Pow(2, l)
  {
    hide Pow;
    if (Pow(2, w) * Pow(16, m)) / Pow(10, m) == Pow(2, l) {
      LowerTerms(m, l, w);
      PowGrows(2, 48, w);
      NotBetween(m, l, w + 3 * m);
    }
  }

  lemma NotBetween(m: nat, l: nat, e: nat)
    requires 0 < m < 12655 && Pow(2, 48) <= Pow(2, l) && Pow(2, l) * Pow(5, m) <= Pow(2, e)
    ensures (Pow(2, l) + 1) * Pow(5, m) <= Pow(2, e)
  {
    hide Pow;
    var y, d := Pow(5, m), Pow(2, l);
    TimesGrows(1, y, d);
    Commute(d, y);
    if e < l {
      StrictlyMore(e, l);
    } else {
      var x := Pow(2, e - l);
      PowAdd(2, l, e - l);
      FiveIsNotTwo(m, e - l);
      if x < y { LessTimes(x, y, d); }
      Commute(d, x);
      FarAbove(e - l, m);
      TooClose(x, y, d, Pow(2, 48));
    }
  }

  lemma StrictlyMore(e: nat, l: nat)
    requires e < l
    ensures Pow(2, e) < Pow(2, l)
  {
    PowGrows(2, e + 1, l);
  }

  lemma FarAbove(t: nat, m: nat)
    requires 0 < m < 12655 && Pow(5, m) < Pow(2, t)
    ensures Pow(2, t) * Pow(2, 48) >= Pow(5, m) * (Pow(2, 48) + 1)
  {
    hide Pow;
    LowerNeighbour();
    UpperNeighbour();
    NotJustAbove(9297, 4004, 20087, 8651, Pow(2, 48), t, m);
  }

  lemma LowerTerms(m: nat, l: nat, w: nat)
    requires (Pow(2, w) * Pow(16, m)) / Pow(10, m) == Pow(2, l)
    ensures Pow(2, l) * Pow(5, m) <= Pow(2, w + 3 * m) < (Pow(2, l) + 1) * Pow(5, m)
  {
    var d, y, h := Pow(2, l), Pow(5, m), Pow(2, m);
    WholePart(Pow(2, w) * Pow(16, m), Pow(10, m));
    PowTimes(5, 2, m);
    PowTimes(8, 2, m);
    PowMul(2, 3, m);
    assert Pow(2, 3) == 8 by { assert Pow(2, 1) == 2; }
    PowAdd(2, w, 3 * m);
    Associate(Pow(2, w), Pow(8, m), h);
    hide Pow;
    Associate(d, y, h);
    Associate(d + 1, y, h);
    CancelAtMost(d * y, Pow(2, w + 3 * m), h);
    CancelLess(Pow(2, w + 3 * m), (d + 1) * y, h);
  }

  lemma TooClose(x: int, y: int, d: int, n: int)
    requires y <= x && n <= d && x * n >= y * (n + 1)
    ensures d * x >= (d + 1) * y
  {
    TimesGrows(n, d, x - y);
    Spread(n, 1, y);
    Spread(d, 1, y);
    assert d * (x - y) == d * x - d * y && n * (x - y) == n * x - n * y;
    Commute(n, x);
    Commute(y, n + 1);
  }
}
