/** Machine words: powers of two, wrap-around and masking, on natural numbers. */
module Words {

  const TWO_32: nat := 0x1_0000_0000
  const TWO_64: nat := 0x1_0000_0000_0000_0000

  function Pow2(n: nat): (r: nat)
    ensures r > 0
  {
    if n == 0 then 1 else 2 * Pow2(n - 1)
  }

  lemma {:induction false} Pow2Adds(a: nat, b: nat)
    ensures Pow2(a + b) == Pow2(a) * Pow2(b)
  {
    if a == 0 {
    } else {
      Pow2Adds(a - 1, b);
      assert Pow2(a + b) == 2 * Pow2(a - 1 + b);
    }
  }

  lemma Pow2Constants()
    ensures Pow2(2) == 4
    ensures Pow2(60) == 0x1000_0000_0000_0000
    ensures Pow2(64) == TWO_64
  {
    assert Pow2(8) == 256;
    Pow2Adds(8, 8);
    Pow2Adds(16, 16);
    Pow2Adds(32, 32);
    assert Pow2(64) == 4 * Pow2(62);
    assert Pow2(62) == 4 * Pow2(60);
  }

  lemma Pow2Words()
    ensures Pow2(31) == 0x8000_0000 && Pow2(32) == TWO_32
  {
    assert Pow2(8) == 256;
    Pow2Adds(8, 8);
    Pow2Adds(16, 16);
    assert Pow2(32) == 2 * Pow2(31);
  }

  /** A 32-bit word. */
  type U32 = x: nat | x < TWO_32

  /** Addition and subtraction of 32-bit words, which wrap. */
  function Add32(a: nat, b: nat): U32 { (a + b) % TWO_32 }

  function Sub32(a: U32, b: U32): U32 { (a - b) % TWO_32 }

  /** Bitwise and. */
  function And(a: nat, b: nat): nat {
    if a == 0 || b == 0 then 0 else (a % 2) * (b % 2) + 2 * And(a / 2, b / 2)
  }

  /** Masking with a power of two less one is taking the remainder. */
  lemma {:induction false} MaskIsMod(a: nat, n: nat)
    ensures And(a, Pow2(n) - 1) == a % Pow2(n)
  {
    hide And;
    if n == 0 {
      AndNothing(a, 0);
    } else if a == 0 {
      AndNothing(0, Pow2(n) - 1);
    } else {
      MaskIsMod(a / 2, n - 1);
      HalfMask(a, Pow2(n - 1), Pow2(n));
    }
  }

  lemma HalfMask(a: nat, p: nat, w: nat)
    requires a > 0 && p > 0 && w == 2 * p && And(a / 2, p - 1) == a / 2 % p
    ensures And(a, w - 1) == a % w
  {
    hide And;
    HalfMod(a, p);
    AndOdd(a, p);
  }

  lemma AndNothing(a: nat, b: nat)
    ensures a == 0 || b == 0 ==> And(a, b) == 0
  {
  }

  lemma AndOdd(a: nat, p: nat)
    requires a > 0 && p > 0
    ensures And(a, 2 * p - 1) == a % 2 + 2 * And(a / 2, p - 1)
  {
    OddHalf(p);
  }

  lemma OddHalf(p: nat)
    requires p > 0
    ensures (2 * p - 1) / 2 == p - 1 && (2 * p - 1) % 2 == 1
  {
  }

  lemma HalfMod(a: nat, p: nat)
    requires p > 0
    ensures a % (2 * p) == a % 2 + 2 * ((a / 2) % p)
  {
    var q, r := (a / 2) / p, (a / 2) % p;
    assert a / 2 == q * p + r;
    Regroup(q, 2, p);
    QuotientUnique(a, 2 * p, q, 2 * r + a % 2);
  }

  lemma Regroup(q: nat, m: nat, d: nat)
    ensures q * (m * d) == (q * m) * d == m * (q * d)
  {
  }

  lemma AtLeastOnce(x: nat, d: nat)
    requires x > 0
    ensures x * d >= d
  {
  }

  lemma Distribute(x: int, y: int, d: nat)
    ensures (x + y) * d == x * d + y * d
  {
  }

  /** Division with remainder is unique. */
  lemma QuotientUnique(a: nat, d: nat, q: nat, r: nat)
    requires d > 0 && r < d && a == q * d + r
    ensures a / d == q && a % d == r
  {
    var p, s := a / d, a % d;
    assert a == p * d + s;
    if p > q {
      Distribute(p - q, q, d);
      AtLeastOnce(p - q, d);
    } else if p < q {
      Distribute(q - p, p, d);
      AtLeastOnce(q - p, d);
    }
  }

  /** Wrapping first does not change the remainder by a divisor of the wrap. */
  lemma ModMod(a: nat, d: nat, m: nat, w: nat)
    requires d > 0 && w > 0 && w == m * d
    ensures (a % w) % d == a % d
  {
    var q := a / w;
    assert a == q * w + a % w;
    assert q * w == (q * m) * d by { Associate(q, m, d); }
    ModShift(q * m, a % w, d);
  }

  lemma Associate(q: nat, m: nat, d: nat)
    ensures q * (m * d) == (q * m) * d
  {
  }

  lemma ModShift(q: nat, r: nat, d: nat)
    requires d > 0
    ensures (q * d + r) % d == r % d
  {
    Distribute(q, r / d, d);
    QuotientUnique(q * d + r, d, q + r / d, r % d);
  }

  /** The difference of two wrapped counters that are less than a wrap apart. */
  lemma WrappedDifference(a: nat, b: nat)
    requires b <= a < b + TWO_32
    ensures Sub32(a % TWO_32, b % TWO_32) == a - b
  {
    var x, y := a % TWO_32, b % TWO_32;
    assert a == TWO_32 * (a / TWO_32) + x && b == TWO_32 * (b / TWO_32) + y;
  }

  lemma WrappedSum(a: nat, n: nat)
    ensures Add32(a % TWO_32, n) == (a + n) % TWO_32
  {
  }

  lemma AddTwice(b: nat, x: nat, y: nat)
    ensures Add32(Add32(b, x), y) == Add32(b, x + y)
  {
  }

  /** Taking `x` back from a sum that wrapped. */
  lemma UndoAdd(b: nat, x: nat, y: nat)
    ensures Sub32(Add32(b, x + y), x % TWO_32) == Add32(b, y)
  {
  }

  // Division and remainder by products, one factor at a time.

  lemma DivScale(x: nat, q: nat, p: nat)
    requires q > 0 && p > 0
    ensures x * p / (q * p) == x / q
  {
    var k, r := x / q, x % q;
    assert x == k * q + r;
    Distribute(k * q, r, p);
    Associate(k, q, p);
    Bounded(r, q, p);
    QuotientUnique(x * p, q * p, k, r * p);
  }

  /** A remainder scaled stays below the divisor scaled. */
  lemma Bounded(r: nat, q: nat, p: nat)
    requires r < q && p > 0
    ensures r * p < q * p && q * p > 0
  {
    Distribute(q - r, r, p);
    AtLeastOnce(q - r, p);
  }

  lemma ModScale(x: nat, q: nat, p: nat)
    requires q > 0 && p > 0
    ensures q * p > 0 && x * p % (q * p) == (x % q) * p
  {
    var k, r := x / q, x % q;
    assert x == k * q + r;
    Distribute(k * q, r, p);
    Associate(k, q, p);
    Bounded(r, q, p);
    QuotientUnique(x * p, q * p, k, r * p);
  }

  lemma Commute(x: nat, y: nat)
    ensures x * y == y * x
  {
  }

  /** Digits regrouped: dividing by `p` and then by `q` is dividing by their product. */
  lemma Digits(x: nat, p: nat, q: nat, w: nat, k: nat, r: nat, m: nat, t: nat)
    requires r < p && t < q && x == k * p + r && k == m * q + t && w == p * q
    ensures x == m * w + (t * p + r) && t * p + r < w
  {
    Distribute(m * q, t, p);
    Associate(m, q, p);
    Commute(q, p);
    DigitBelow(t, q, r, p);
  }

  lemma Divided(x: nat, d: nat)
    requires d > 0
    ensures x == (x / d) * d + x % d && x % d < d
  {
  }

  lemma DigitBelow(t: nat, q: nat, r: nat, p: nat)
    requires t < q && r < p
    ensures t * p + r < p * q
  {
    Commute(q, p);
    Distribute(q - t, t, p);
    AtLeastOnce(q - t, p);
  }

  lemma DivDiv(x: nat, p: nat, q: nat, w: nat)
    requires p > 0 && q > 0 && w == p * q
    ensures w > 0 && x / p / q == x / w
  {
    var d := SplitDigits(x, p, q, w);
    QuotientUnique(x, w, x / p / q, d);
  }

  lemma ModDiv(x: nat, p: nat, q: nat, w: nat)
    requires p > 0 && q > 0 && w == p * q
    ensures w > 0 && x % w / p == x / p % q
  {
    var d := SplitDigits(x, p, q, w);
    QuotientUnique(x, w, x / p / q, d);
    QuotientUnique(d, p, x / p % q, x % p);
  }

  /** The two low digits of `x`, as one digit. */
  lemma SplitDigits(x: nat, p: nat, q: nat, w: nat) returns (d: nat)
    requires p > 0 && q > 0 && w == p * q
    ensures d < w && x == (x / p / q) * w + d && d == (x / p % q) * p + x % p
  {
    Divided(x, p);
    Divided(x / p, q);
    Digits(x, p, q, w, x / p, x % p, x / p / q, x / p % q);
    d := (x / p % q) * p + x % p;
  }
}
