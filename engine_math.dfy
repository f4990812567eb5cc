/** engine/math/functions.py: `sign` and the lowest-set-bit generator `bits`, with the
    `min`, `max` and `clamp` the game components apply to velocities. */
module EngineMath {

  /** `sign(number)`: the tuple `(1, -1)` indexed by `number < 0`. */
  function Sign(x: real): (s: real)
    ensures s == -1.0 <==> x < 0.0
    ensures s == 1.0 <==> x >= 0.0
  {
    if x < 0.0 then -1.0 else 1.0
  }

  function Abs(x: real): real {
    if x < 0.0 then -x else x
  }

  /** Multiplying by the sign gives the magnitude; zero is treated as positive. */
  lemma SignTimesNumberIsMagnitude(x: real)
    ensures Sign(x) * x == Abs(x)
    ensures Sign(0.0) == 1.0
  {
  }

  /** Python's `min(a, b)` on numbers: `b` only when it is strictly smaller. */
  function MinReal(a: real, b: real): (r: real)
    ensures r <= a && r <= b && (r == a || r == b)
  {
    if b < a then b else a
  }

  /** Python's `max(a, b)` on numbers. */
  function MaxReal(a: real, b: real): (r: real)
    ensures r >= a && r >= b && (r == a || r == b)
  {
    if b > a then b else a
  }

  /** `clamp(value, low, high)`, which the game components import from this module although
      engine/math/functions.py does not define it; given here its evident meaning,
      `max(low, min(value, high))`. */
  function Clamp(x: real, lo: real, hi: real): (r: real)
    ensures lo <= hi ==> lo <= r <= hi
    ensures lo <= x <= hi ==> r == x
    ensures x < lo ==> r == lo
    ensures lo <= hi < x ==> r == hi
  {
    MaxReal(lo, MinReal(x, hi))
  }

  function Pow2(k: nat): (p: nat)
    ensures p >= 1
  {
    if k == 0 then 1 else 2 * Pow2(k - 1)
  }

  /** Bit `k` of `n` is set. */
  predicate Bit(n: nat, k: nat) {
    if k == 0 then n % 2 == 1 else Bit(n / 2, k - 1)
  }

  /** `x` is a power of two whose bit is set in `n`. */
  ghost predicate IsSetBitOf(n: nat, x: nat) {
    exists k :: x == Pow2(k) && Bit(n, k)
  }

  /** Number of set bits. */
  function Popcount(n: nat): nat {
    if n == 0 then 0 else n % 2 + Popcount(n / 2)
  }

  function Sum(s: seq<nat>): nat {
    if s == [] then 0 else s[0] + Sum(s[1..])
  }

  predicate StrictlyIncreasing(s: seq<nat>) {
    forall i, j :: 0 <= i < j < |s| ==> s[i] < s[j]
  }

  /** `n & (~n + 1)` for a positive `n`: in two's complement `~n + 1 == -n`, and
      `n & -n` keeps only the lowest set bit of `n`. */
  function LowBit(n: nat): (b: nat)
    requires n > 0
    ensures 1 <= b <= n
  {
    if n % 2 == 1 then 1 else 2 * LowBit(n / 2)
  }

  /** The set bits of `n`, each scaled by `p`, lowest first: the values `bits`
      yields for `n` when `p == 1`. */
  function SetBits(n: nat, p: nat): seq<nat>
    decreases n
  {
    if n == 0 then []
    else (if n % 2 == 1 then [p] else []) + SetBits(n / 2, 2 * p)
  }

  /** One step of the generator: the first value is the lowest set bit, and the
      rest are the set bits of `n` with that bit cleared (`n ^= b`). */
  lemma {:induction false} SetBitsStep(n: nat, p: nat)
    requires n > 0
    ensures SetBits(n, p) == [p * LowBit(n)] + SetBits(n - LowBit(n), p)
    decreases n, 1
  {
    if n % 2 == 1 {
      SetBitsStepOdd(n, p);
    } else {
      SetBitsStepEven(n, p);
    }
  }

  /** An odd `n`: the lowest bit is 1, and clearing it leaves the bits of `n / 2`. */
  lemma SetBitsStepOdd(n: nat, p: nat)
    requires n % 2 == 1
    ensures SetBits(n, p) == [p * LowBit(n)] + SetBits(n - LowBit(n), p)
  {
    var lb := LowBit(n);
    assert lb == 1 && p * lb == p;
    assert SetBits(n, p) == [p] + SetBits(n / 2, 2 * p);
    assert n - lb == 2 * (n / 2);
    DoubleSetBits(n / 2, p);
  }

  /** An even `n`: the step for `n / 2` at the doubled scale. */
  lemma {:induction false} SetBitsStepEven(n: nat, p: nat)
    requires n > 0 && n % 2 == 0
    ensures SetBits(n, p) == [p * LowBit(n)] + SetBits(n - LowBit(n), p)
    decreases n, 0
  {
    var lb := LowBit(n);
    var h := n / 2;
    assert n == 2 * h;
    SetBitsStep(h, 2 * p);
    var b := LowBit(h);
    assert lb == 2 * b;
    var q := p * lb;
    assert q == (2 * p) * b;
    DoubleSetBits(h, p);
    assert SetBits(n, p) == [q] + SetBits(h - b, 2 * p);
    assert n - lb == 2 * (h - b);
    DoubleSetBits(h - b, p);
  }

  /** An even number has no bit at `p`: its set bits are those of its half, scaled by `2p`. */
  lemma DoubleSetBits(k: nat, p: nat)
    ensures SetBits(2 * k, p) == if k == 0 then [] else SetBits(k, 2 * p)
  {
    assert (2 * k) % 2 == 0 && (2 * k) / 2 == k;
  }

  /** Every value yielded is `p` times a power of two whose bit is set in `n`. */
  lemma {:induction false} SetBitsSound(n: nat, j: nat, x: nat)
    requires x in SetBits(n, Pow2(j))
    ensures exists k :: x == Pow2(j + k) && Bit(n, k)
    decreases n
  {
    assert n > 0;
    assert Pow2(j + 1) == 2 * Pow2(j);
    var tail := SetBits(n / 2, Pow2(j + 1));
    if n % 2 == 1 && x == Pow2(j) {
      assert x == Pow2(j + 0) && Bit(n, 0);
    } else {
      assert x in tail;
      SetBitsSound(n / 2, j + 1, x);
      var k: nat :| x == Pow2(j + 1 + k) && Bit(n / 2, k);
      assert Bit(n, k + 1);
      assert x == Pow2(j + (k + 1));
    }
  }

  /** Every set bit of `n` is yielded. */
  lemma {:induction false} SetBitsComplete(n: nat, j: nat, k: nat)
    requires Bit(n, k)
    ensures Pow2(j + k) in SetBits(n, Pow2(j))
    decreases n
  {
    assert n > 0 by {
      if n == 0 { ZeroHasNoBits(k); }
    }
    assert Pow2(j + 1) == 2 * Pow2(j);
    if k > 0 {
      SetBitsComplete(n / 2, j + 1, k - 1);
      assert j + 1 + (k - 1) == j + k;
    }
  }

  lemma {:induction false} ZeroHasNoBits(k: nat)
    ensures !Bit(0, k)
  {
    if k > 0 { ZeroHasNoBits(k - 1); }
  }

  lemma HalvingProduct(n: nat, p: nat)
    ensures n * p == (if n % 2 == 1 then p else 0) + (n / 2) * (2 * p)
  {
    var q := n / 2;
    if n % 2 == 1 {
      assert n == 2 * q + 1;
      assert n * p == (2 * q) * p + p;
    } else {
      assert n == 2 * q;
    }
    assert (2 * q) * p == q * (2 * p);
  }

  /** The yielded values add up to `n` (scaled by `p`), one per set bit. */
  lemma {:induction false} SetBitsSumAndCount(n: nat, p: nat)
    ensures Sum(SetBits(n, p)) == n * p
    ensures |SetBits(n, p)| == Popcount(n)
    decreases n
  {
    if n > 0 {
      SetBitsSumAndCount(n / 2, 2 * p);
      SetBitsHead(n, p);
      HalvingProduct(n, p);
    }
  }

  /** The lowest bit contributes `p` when it is set; the rest are the bits of `n / 2`. */
  lemma SetBitsHead(n: nat, p: nat)
    requires n > 0
    ensures Sum(SetBits(n, p)) == (if n % 2 == 1 then p else 0) + Sum(SetBits(n / 2, 2 * p))
    ensures |SetBits(n, p)| == (if n % 2 == 1 then 1 else 0) + |SetBits(n / 2, 2 * p)|
  {
    var tail := SetBits(n / 2, 2 * p);
    if n % 2 == 1 {
      assert SetBits(n, p) == [p] + tail;
      assert SetBits(n, p)[1..] == tail;
    } else {
      assert SetBits(n, p) == tail;
    }
  }

  /** The yielded values are at least `p` and strictly increasing. */
  lemma {:induction false} SetBitsIncreasing(n: nat, p: nat)
    requires p >= 1
    ensures StrictlyIncreasing(SetBits(n, p))
    ensures forall x :: x in SetBits(n, p) ==> x >= p
    decreases n
  {
    if n > 0 {
      var tail := SetBits(n / 2, 2 * p);
      SetBitsIncreasing(n / 2, 2 * p);
      if n % 2 == 1 {
        var s := [p] + tail;
        assert SetBits(n, p) == s;
        forall i, j | 0 <= i < j < |s| ensures s[i] < s[j] {
          assert s[j] == tail[j - 1] && tail[j - 1] in tail;
          if i > 0 { assert s[i] == tail[i - 1]; }
        }
      }
    }
  }

  /** A value is yielded exactly when it is a power of two whose bit is set in `n`. */
  lemma YieldedIffSetBit(n: nat, x: nat)
    ensures x in SetBits(n, 1) <==> IsSetBitOf(n, x)
  {
    assert Pow2(0) == 1;
    if x in SetBits(n, 1) {
      SetBitsSound(n, 0, x);
      var k: nat :| x == Pow2(0 + k) && Bit(n, k);
      assert x == Pow2(k) && Bit(n, k);
    }
    if IsSetBitOf(n, x) {
      var k: nat :| x == Pow2(k) && Bit(n, k);
      SetBitsComplete(n, 0, k);
      assert 0 + k == k;
    }
  }

  lemma AllYieldedIffSetBit(n: nat)
    ensures forall x :: x in SetBits(n, 1) <==> IsSetBitOf(n, x)
  {
    forall x
      ensures x in SetBits(n, 1) <==> IsSetBitOf(n, x)
    {
      YieldedIffSetBit(n, x);
    }
  }

  /** `bits(n)`: repeatedly yield the lowest set bit and clear it, until `n` is 0.
      For a negative `n` the Python loop never ends, so `n` is a `nat` here. */
  method Bits(n: nat) returns (r: seq<nat>)
    ensures r == SetBits(n, 1)
    ensures Sum(r) == n && |r| == Popcount(n) && StrictlyIncreasing(r)
    ensures forall x :: x in r <==> IsSetBitOf(n, x)
  {
    var m := n;
    r := [];
    while m != 0
      invariant r + SetBits(m, 1) == SetBits(n, 1)
      decreases m
    {
      var b := LowBit(m);
      SetBitsStep(m, 1);
      assert 1 * b == b;
      assert SetBits(m, 1) == [b] + SetBits(m - b, 1);
      assert (r + [b]) + SetBits(m - b, 1) == r + SetBits(m, 1);
      r := r + [b];
      m := m - b;
    }
    SetBitsSumAndCount(n, 1);
    SetBitsIncreasing(n, 1);
    AllYieldedIffSetBit(n);
  }
}
