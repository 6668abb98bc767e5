/**
 When a test grid phase-locks to a node's receive windows (ModeTestPolicy.h,
 gcdU32 and periodsPhaseLock).
 */
module PhaseLock {
  import opened Machine

  function Gcd(a: nat, b: nat): (g: nat)
    ensures a > 0 || b > 0 ==> g > 0
    decreases b
  {
    if b == 0 then a else Gcd(b, a % b)
  }

  method GcdU32(a: u32, b: u32) returns (g: u32)
    ensures g == Gcd(a, b)
  {
    var x, y := a, b;
    while y != 0
      invariant Gcd(x, y) == Gcd(a, b)
      decreases y
    {
      x, y := y, x % y;
    }
    g := x;
  }

  /** A mark falls inside the first `window` microseconds of a receive interval. */
  predicate InWindow(mark: nat, rx: nat, window: nat)
    requires rx > 0
  {
    mark % rx < window
  }

  function MarkAt(phase: nat, k: nat, grid: nat): nat {
    phase + k * grid
  }

  /** Some mark from this phase is heard. */
  ghost predicate IsHeard(phase: nat, grid: nat, rx: nat, window: nat)
    requires rx > 0
  {
    exists k: nat :: InWindow(MarkAt(phase, k, grid), rx, window)
  }

  lemma ModPlusMultiple(r: int, q: int, m: int)
    requires 0 <= r < m
    ensures (r + q * m) % m == r && (r + q * m) / m == q
  {
    var x := r + q * m;
    var d := x / m - q;
    assert x == m * (x / m) + x % m;
    assert m * (x / m) == m * q + m * d;
    assert r - x % m == m * d;
    Scaled(d, m);
  }

  lemma Scaled(d: int, m: int)
    requires m > 0
    ensures d >= 1 ==> m * d >= m
    ensures d <= -1 ==> m * d <= -m
  {
  }

  /** The gcd is a combination of its arguments, and divides them. */
  lemma {:induction false} Bezout(a: nat, b: nat) returns (x: int, y: int)
    ensures a * x + b * y == Gcd(a, b)
    decreases b
  {
    if b == 0 {
      x, y := 1, 0;
    } else {
      var u, v := Bezout(b, a % b);
      x, y := v, u - (a / b) * v;
      var q, r := a / b, a % b;
      assert a == b * q + r;
      assert a * v == (b * q) * v + r * v;
      assert b * (u - q * v) == b * u - b * (q * v);
      assert (b * q) * v == b * (q * v);
    }
  }

  lemma {:induction false} GcdDivides(a: nat, b: nat) returns (p: nat, q: nat)
    requires a > 0 || b > 0
    ensures a == p * Gcd(a, b) && b == q * Gcd(a, b)
    decreases b
  {
    if b == 0 {
      p, q := 1, 0;
    } else {
      var p', q' := GcdDivides(b, a % b);
      var g := Gcd(a, b);
      p, q := (a / b) * p' + q', p';
      assert a == b * (a / b) + a % b;
      assert ((a / b) * p' + q') * g == (a / b) * (p' * g) + q' * g;
    }
  }

  lemma StepAlgebra(x: int, y: int, up: int, grid: int, rx: int)
    ensures (x + up * rx) * grid == (grid * x + rx * y) + (up * grid - y) * rx
  {
  }

  /** Some number of grid periods advances the phase by exactly the gcd. */
  lemma StepOfGcd(grid: nat, rx: nat) returns (s: nat, t: int)
    requires grid > 0 && rx > 0
    ensures s * grid == Gcd(grid, rx) + t * rx
  {
    var x, y := Bezout(grid, rx);
    var up := if x >= 0 then 0 else -x;
    AtLeast(up, rx);
    StepAlgebra(x, y, up, grid, rx);
    s := x + up * rx;
    t := up * grid - y;
  }

  lemma AtLeast(a: nat, b: nat)
    requires b > 0
    ensures a * b >= a
  {
  }

  lemma ReachAlgebra(c: int, g: int, n: int, s: int, t: int, m: int, grid: int, rx: int)
    requires s * grid == g + t * rx && rx == n * g && m == c * (n - 1)
    ensures c * g + (s * m) * grid == (c + m * t) * rx
  {
    assert (s * m) * grid == m * (s * grid);
    assert m * (g + t * rx) == m * g + (m * t) * rx;
    assert m * g == c * (n * g) - c * g;
    assert (c + m * t) * rx == c * rx + (m * t) * rx;
  }

  /** Whatever the phase, some mark falls within the first gcd microseconds. */
  lemma LatticeReaches(phase: nat, grid: nat, rx: nat) returns (k: nat)
    requires grid > 0 && rx > 0
    ensures MarkAt(phase, k, grid) % rx == phase % Gcd(grid, rx)
  {
    var g := Gcd(grid, rx);
    var p, n := GcdDivides(grid, rx);
    var s, t := StepOfGcd(grid, rx);
    var c, r := phase / g, phase % g;
    PositiveFactor(n, g);
    var m := NatProduct(c, n - 1);
    k := NatProduct(s, m);
    ReachAlgebra(c, g, n, s, t, m, grid, rx);
    QuotientForm(phase, g);
    var q := c + m * t;
    assert MarkAt(phase, k, grid) == r + q * rx;
    ModPlusMultiple(r, q, rx);
  }

  lemma PositiveFactor(n: int, g: nat)
    requires n * g > 0
    ensures n >= 1 && g <= n * g
  {
    if n <= 0 {
      Scaled(n, g);
    } else {
      AtLeast(g, n);
    }
  }

  function NatProduct(a: nat, b: nat): (r: nat)
    ensures r == a * b
  {
    a * b
  }

  lemma QuotientForm(x: nat, g: nat)
    requires g > 0
    ensures x == (x / g) * g + x % g
  {
  }

  lemma StayAlgebra(c: int, k: int, p: int, d: int, n: int, g: int)
    ensures c * g + k * (p * g) - (n * g) * d == (c + k * p - d * n) * g
  {
  }

  /** No mark leaves the residue class of its phase modulo the gcd. */
  lemma LatticeStays(phase: nat, k: nat, grid: nat, rx: nat)
    requires grid > 0 && rx > 0
    ensures (MarkAt(phase, k, grid) % rx) % Gcd(grid, rx) == phase % Gcd(grid, rx)
  {
    var g := Gcd(grid, rx);
    var p, n := GcdDivides(grid, rx);
    var x := MarkAt(phase, k, grid);
    var d, c := x / rx, phase / g;
    QuotientForm(x, rx);
    QuotientForm(phase, g);
    StayAlgebra(c, k, p, d, n, g);
    var q := c + k * p - d * n;
    assert x % rx == phase % g + q * g;
    ModPlusMultiple(phase % g, q, g);
  }

  /** The lattice meets every window, whatever the anchor's offset, exactly when its
      step, the gcd, is no wider than the window. */
  lemma EveryWindowIsHit(grid: nat, rx: nat, window: nat)
    requires grid > 0 && rx > 0
    ensures Gcd(grid, rx) <= window <==> forall phase: nat :: IsHeard(phase, grid, rx, window)
  {
    var g := Gcd(grid, rx);
    if g <= window {
      forall phase: nat
        ensures IsHeard(phase, grid, rx, window)
      {
        var k := LatticeReaches(phase, grid, rx);
        assert InWindow(MarkAt(phase, k, grid), rx, window);
      }
    } else {
      var deaf := g - 1;
      forall k: nat
        ensures !InWindow(MarkAt(deaf, k, grid), rx, window)
      {
        LatticeStays(deaf, k, grid, rx);
        ModAtMost(MarkAt(deaf, k, grid) % rx, g);
      }
      assert !IsHeard(deaf, grid, rx, window);
    }
  }

  lemma ModAtMost(v: nat, g: nat)
    requires g > 0
    ensures v % g <= v && (g - 1) % g == g - 1
  {
    assert v == g * (v / g) + v % g;
    Scaled(v / g, g);
    ModPlusMultiple(g - 1, 0, g);
  }

  // ---- the test in 32 bits --------------------------------------------------

  /** The gcd the code compares with the window: of products reduced modulo 2^32. */
  function CodeGcd(gridMs: u32, rxMs: u32): nat {
    Gcd(Wrap32(gridMs * 1000), Wrap32(rxMs * 1000))
  }

  /** Some anchor offset hears no mark at all, the periods taken at their true length. */
  ghost predicate SomeOffsetIsDeaf(gridMs: u32, rxMs: u32, windowUs: nat)
    requires rxMs > 0
  {
    exists phase: nat :: !IsHeard(phase, gridMs * 1000, rxMs * 1000, windowUs)
  }

  /** The test: not locked for a zero period, else the code's gcd against the window. Right
      for this window exactly when the window does not lie between that gcd and the true one. */
  method PeriodsPhaseLock(gridMs: u32, rxMs: u32, windowUs: u32) returns (locked: bool)
    ensures gridMs == 0 || rxMs == 0 ==> !locked
    ensures gridMs > 0 && rxMs > 0 ==> (locked <==> CodeGcd(gridMs, rxMs) > windowUs)
    ensures gridMs > 0 && rxMs > 0 ==>
              var code, exact := CodeGcd(gridMs, rxMs), 1000 * Gcd(gridMs, rxMs);
              ((locked <==> SomeOffsetIsDeaf(gridMs, rxMs, windowUs))
               <==> !(code <= windowUs < exact) && !(exact <= windowUs < code))
  {
    if gridMs == 0 || rxMs == 0 {
      return false;
    }
    var g := GcdU32(Wrap32(gridMs * 1000), Wrap32(rxMs * 1000));
    locked := g > windowUs;
    DeafIff(gridMs, rxMs, windowUs);
  }

  lemma ModScales(a: nat, b: nat)
    requires b > 0
    ensures (1000 * a) % (1000 * b) == 1000 * (a % b)
  {
    var q, r := a / b, a % b;
    assert a == q * b + r;
    assert 1000 * a == 1000 * r + q * (1000 * b) by {
      assert q * (1000 * b) == 1000 * (q * b);
    }
    ModPlusMultiple(1000 * r, q, 1000 * b);
  }

  /** The gcd in microseconds is that in milliseconds, a thousandfold: no product needed. */
  lemma {:induction false} GcdScales(a: nat, b: nat)
    ensures Gcd(1000 * a, 1000 * b) == 1000 * Gcd(a, b)
    decreases b
  {
    if b > 0 {
      ModScales(a, b);
      GcdScales(b, a % b);
    }
  }

  lemma {:induction false} GcdBelow(a: nat, b: nat, m: nat)
    requires a < m && b < m
    ensures Gcd(a, b) < m
    decreases b
  {
    if b > 0 {
      GcdBelow(b, a % b, m);
    }
  }

  /** The true condition for every pair of periods: a thousand times the gcd of the
      milliseconds against the window. */
  lemma DeafIff(gridMs: u32, rxMs: u32, windowUs: nat)
    requires gridMs > 0 && rxMs > 0
    ensures SomeOffsetIsDeaf(gridMs, rxMs, windowUs) <==> 1000 * Gcd(gridMs, rxMs) > windowUs
  {
    EveryWindowIsHit(gridMs * 1000, rxMs * 1000, windowUs);
    GcdScales(gridMs, rxMs);
  }

  /** The code's answer for these periods is right whatever the window. */
  ghost predicate RightForEveryWindow(gridMs: u32, rxMs: u32)
    requires rxMs > 0
  {
    forall w: u32 :: CodeGcd(gridMs, rxMs) > w <==> SomeOffsetIsDeaf(gridMs, rxMs, w)
  }

  /** Exactly which periods are judged rightly, wrapping ones included: those whose code gcd
      is a thousand times the gcd of their milliseconds. */
  lemma RightIffSameGcd(gridMs: u32, rxMs: u32)
    requires gridMs > 0 && rxMs > 0
    ensures RightForEveryWindow(gridMs, rxMs) <==> CodeGcd(gridMs, rxMs) == 1000 * Gcd(gridMs, rxMs)
  {
    var c, t := CodeGcd(gridMs, rxMs), 1000 * Gcd(gridMs, rxMs);
    GcdBelow(Wrap32(gridMs * 1000), Wrap32(rxMs * 1000), U32_MOD);
    forall w: u32
      ensures SomeOffsetIsDeaf(gridMs, rxMs, w) <==> t > w
    {
      DeafIff(gridMs, rxMs, w);
    }
    if c < t {
      assert !(c > c) && SomeOffsetIsDeaf(gridMs, rxMs, c);
    } else if t < c {
      assert c > t && !SomeOffsetIsDeaf(gridMs, rxMs, t);
    }
  }

  /** In particular those whose microseconds fit 32 bits. */
  lemma ShortPeriodsAreRight(gridMs: u32, rxMs: u32)
    requires 0 < gridMs * 1000 < U32_MOD && 0 < rxMs * 1000 < U32_MOD
    ensures RightForEveryWindow(gridMs, rxMs)
  {
    NoWrap(gridMs);
    NoWrap(rxMs);
    GcdScales(gridMs, rxMs);
    RightIffSameGcd(gridMs, rxMs);
  }

  lemma NoWrap(ms: u32)
    requires ms * 1000 < U32_MOD
    ensures Wrap32(ms * 1000) == 1000 * ms
  {
  }

  /** A grid of 4295 s against 500 ms: the product wraps, the test finds no lock for a
      29440 us window, and some offset hears nothing. */
  lemma WrappedPeriodFoolsTheTest()
    ensures CodeGcd(4295000, 500) == 32 && SomeOffsetIsDeaf(4295000, 500, 29440)
    ensures !RightForEveryWindow(4295000, 500)
  {
    assert Wrap32(4295000 * 1000) == 32704 && Wrap32(500 * 1000) == 500000;
    assert Gcd(32704, 500000) == Gcd(500000, 32704) == Gcd(32704, 9440) == Gcd(9440, 4384) == Gcd(4384, 672)
        == Gcd(672, 352) == Gcd(352, 320) == Gcd(320, 32) == Gcd(32, 0);
    assert Gcd(4295000, 500) == Gcd(500, 0) == 500;
    DeafIff(4295000, 500, 29440);
    RightIffSameGcd(4295000, 500);
  }

  /** And the other way: 2^29 ms wrap to nothing, the test finds a lock, and every offset
      is heard. */
  lemma WrappedToZeroLooksLocked()
    ensures CodeGcd(0x2000_0000, 500) == 500000 > 29440 && !SomeOffsetIsDeaf(0x2000_0000, 500, 29440)
  {
    assert Wrap32(0x2000_0000 * 1000) == 0 && Wrap32(500 * 1000) == 500000;
    assert Gcd(0, 500000) == Gcd(500000, 0) == 500000;
    assert 0x2000_0000 % 500 == 412 && 500 % 412 == 88 && 412 % 88 == 60 && 88 % 60 == 28;
    assert 60 % 28 == 4 && 28 % 4 == 0;
    assert Gcd(0x2000_0000, 500) == Gcd(500, 412) == Gcd(412, 88) == Gcd(88, 60) == Gcd(60, 28) == Gcd(28, 4)
        == Gcd(4, 0) == 4;
    DeafIff(0x2000_0000, 500, 29440);
  }
}
