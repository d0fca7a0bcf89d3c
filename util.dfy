/**
 * Integer helpers of the host library: `align` and `bit`, together with the
 * Python semantics of `&`, `|` and `~` on unbounded (possibly negative)
 * integers that they rely on.  Python integers behave as infinite
 * two's-complement bit strings; `And` and `Or` below follow that reading bit
 * by bit, so `Not(x) == -x - 1` is exactly Python's `~x`.
 */
module Util {

  /** 2 to the power k, i.e. Python's `1 << k`. */
  function Pow2(k: nat): (r: nat)
    ensures r >= 1
  {
    if k == 0 then 1 else 2 * Pow2(k - 1)
  }

  /** Python's `~x`. */
  function Not(x: int): int
  {
    -x - 1
  }

  /**
   * Python's `x & y` on unbounded integers: the lowest bit is the AND of the
   * lowest bits, the rest is the AND of the floor-halved values.  0 and -1
   * (all bits clear, all bits set) end the recursion.
   */
  function And(x: int, y: int): (r: int)
    ensures x >= 0 || y >= 0 ==> r >= 0
    ensures y >= 0 ==> r <= y
    decreases (if x < 0 then -x else x) + (if y < 0 then -y else y)
  {
    if x == 0 || y == 0 then 0
    else if x == -1 then y
    else if y == -1 then x
    else 2 * And(x / 2, y / 2) + (x % 2) * (y % 2)
  }

  /** Python's `x | y` on non-negative integers. */
  function Or(x: nat, y: nat): nat
    decreases x + y
  {
    if x == 0 then y
    else if y == 0 then x
    else 2 * Or(x / 2, y / 2) + (if x % 2 == 1 || y % 2 == 1 then 1 else 0)
  }

  /** Bit i of x, i.e. Python's `(x >> i) & 1 == 1`. */
  predicate TestBit(x: nat, i: nat)
  {
    (x / Pow2(i)) % 2 == 1
  }

  /** True when a is 1, 2, 4, 8, ... */
  predicate IsPow2(a: nat)
  {
    a == 1 || (a > 1 && a % 2 == 0 && IsPow2(a / 2))
  }

  // ---------------------------------------------------------------------------
  // Arithmetic facts used below

  lemma {:induction false} MulAtLeast(d: int, n: int)
    requires d > 0 && n >= 1
    ensures d * n >= d
  {
    if n > 1 {
      MulAtLeast(d, n - 1);
      assert d * n == d * (n - 1) + d;
    }
  }

  lemma DivModSplit(n: int, d: int)
    requires d > 0
    ensures n == d * (n / d) + n % d
  {
  }

  lemma MulGap(d: int, a: int, b: int)
    requires d > 0 && a > b
    ensures d * a - d * b >= d
  {
    MulAtLeast(d, a - b);
    assert d * (a - b) == d * a - d * b;
  }

  lemma DivModUnique(x: int, d: int, q: int, r: int)
    requires d > 0 && 0 <= r < d && x == d * q + r
    ensures x / d == q && x % d == r
  {
    var q', r' := x / d, x % d;
    if q' > q {
      MulGap(d, q', q);
      assert false;
    } else if q' < q {
      MulGap(d, q, q');
      assert false;
    }
  }

  /** Splitting a modulus 2*P into its lowest bit and the rest. */
  lemma ModDouble(x: int, p: nat)
    requires p > 0
    ensures x % (2 * p) == 2 * ((x / 2) % p) + x % 2
    ensures x / (2 * p) == (x / 2) / p
  {
    var q, r := x / 2, x % 2;
    var q2, r2 := q / p, q % p;
    assert x == 2 * q + r;
    assert q == p * q2 + r2;
    assert x == (2 * p) * q2 + (2 * r2 + r);
    DivModUnique(x, 2 * p, q2, 2 * r2 + r);
  }

  lemma Pow2Pos(k: nat)
    ensures k > 0 ==> Pow2(k) % 2 == 0 && Pow2(k) / 2 == Pow2(k - 1)
  {
  }

  // ---------------------------------------------------------------------------
  // Bits of Or, and equality from bits

  lemma TestBitZero(x: nat)
    ensures TestBit(x, 0) <==> x % 2 == 1
    ensures !TestBit(0, x)
  {
  }

  lemma {:induction false} TestBitShift(x: nat, i: nat)
    ensures TestBit(x, i + 1) == TestBit(x / 2, i)
  {
    ModDouble(x, Pow2(i));
    assert Pow2(i + 1) == 2 * Pow2(i);
  }

  /** Bit i of x | y is set iff it is set in x or in y. */
  lemma {:induction false} OrBit(x: nat, y: nat, i: nat)
    ensures TestBit(Or(x, y), i) <==> TestBit(x, i) || TestBit(y, i)
    decreases x + y
  {
    TestBitZero(i);
    if x == 0 || y == 0 {
    } else {
      var low := if x % 2 == 1 || y % 2 == 1 then 1 else 0;
      var o := Or(x, y);
      assert o == 2 * Or(x / 2, y / 2) + low;
      if i == 0 {
        TestBitZero(o);
        TestBitZero(x);
        TestBitZero(y);
      } else {
        TestBitShift(o, i - 1);
        TestBitShift(x, i - 1);
        TestBitShift(y, i - 1);
        assert o / 2 == Or(x / 2, y / 2);
        OrBit(x / 2, y / 2, i - 1);
      }
    }
  }

  /** Two non-negative integers with the same bits are equal. */
  lemma {:induction false} BitsDetermine(x: nat, y: nat)
    requires forall i: nat :: TestBit(x, i) == TestBit(y, i)
    ensures x == y
    decreases x + y
  {
    if x != y {
      assert TestBit(x, 0) == TestBit(y, 0);
      assert x % 2 == y % 2;
      forall i: nat
        ensures TestBit(x / 2, i) == TestBit(y / 2, i)
      {
        TestBitShift(x, i);
        TestBitShift(y, i);
      }
      if x == 0 || y == 0 {
        var z := if x == 0 then y else x;
        var k := HighBit(z);
        assert false;
      } else {
        BitsDetermine(x / 2, y / 2);
      }
    }
  }

  /** Some bit of a positive number is set. */
  lemma {:induction false} HighBit(z: nat) returns (k: nat)
    requires z > 0
    ensures TestBit(z, k)
    decreases z
  {
    if z % 2 == 1 {
      k := 0;
    } else {
      var k' := HighBit(z / 2);
      TestBitShift(z, k');
      k := k' + 1;
    }
  }

  lemma {:induction false} Pow2Bit(k: nat, i: nat)
    ensures TestBit(Pow2(k), i) <==> i == k
  {
    if k == 0 {
      if i > 0 {
        TestBitShift(1, i - 1);
        assert TestBit(0, i - 1) == false;
      }
    } else {
      Pow2Pos(k);
      if i == 0 {
      } else {
        TestBitShift(Pow2(k), i - 1);
        Pow2Bit(k - 1, i - 1);
      }
    }
  }

  /** `|` is commutative, associative and idempotent, as bit sets are. */
  lemma OrLaws(x: nat, y: nat, z: nat)
    ensures Or(x, y) == Or(y, x)
    ensures Or(Or(x, y), z) == Or(x, Or(y, z))
    ensures Or(x, x) == x
  {
    forall i: nat
      ensures TestBit(Or(x, y), i) == TestBit(Or(y, x), i)
      ensures TestBit(Or(Or(x, y), z), i) == TestBit(Or(x, Or(y, z)), i)
      ensures TestBit(Or(x, x), i) == TestBit(x, i)
    {
      OrBit(x, y, i);
      OrBit(y, x, i);
      OrBit(Or(x, y), z, i);
      OrBit(y, z, i);
      OrBit(x, Or(y, z), i);
      OrBit(x, x, i);
    }
    BitsDetermine(Or(x, y), Or(y, x));
    BitsDetermine(Or(Or(x, y), z), Or(x, Or(y, z)));
    BitsDetermine(Or(x, x), x);
  }

  /** When y fits below bit k, `x << k | y` is plain addition. */
  lemma {:induction false} OrShiftAdd(x: nat, k: nat, y: nat)
    requires y < Pow2(k)
    ensures Or(x * Pow2(k), y) == x * Pow2(k) + y
  {
    var s := x * Pow2(k);
    forall i: nat
      ensures TestBit(Or(s, y), i) == TestBit(s + y, i)
    {
      OrBit(s, y, i);
      AddDisjointBit(x, k, y, i);
    }
    BitsDetermine(Or(s, y), s + y);
  }

  lemma {:induction false} AddDisjointBit(x: nat, k: nat, y: nat, i: nat)
    requires y < Pow2(k)
    ensures TestBit(x * Pow2(k) + y, i) <==> TestBit(x * Pow2(k), i) || TestBit(y, i)
    ensures TestBit(x * Pow2(k), i) ==> !TestBit(y, i)
    decreases k
  {
    if k == 0 {
      assert y == 0;
      assert TestBit(0, i) == false;
    } else {
      Pow2Pos(k);
      var p := Pow2(k - 1);
      assert x * Pow2(k) == 2 * (x * p);
      var s := x * Pow2(k) + y;
      assert s / 2 == x * p + y / 2 && s % 2 == y % 2;
      assert (x * Pow2(k)) / 2 == x * p && (x * Pow2(k)) % 2 == 0;
      if i == 0 {
      } else {
        TestBitShift(s, i - 1);
        TestBitShift(x * Pow2(k), i - 1);
        TestBitShift(y, i - 1);
        AddDisjointBit(x, k - 1, y / 2, i - 1);
      }
    }
  }

  // ---------------------------------------------------------------------------
  // align

  /** Masking with `~(2**k - 1)` clears the low k bits: rounding down to a multiple of 2**k. */
  lemma {:induction false} ClearLowBits(x: int, k: nat)
    ensures And(x, Not(Pow2(k) - 1)) == x - x % Pow2(k)
    decreases k
  {
    if k == 0 {
      assert Not(Pow2(k) - 1) == -1;
      DivModUnique(x, 1, x, 0);
    } else {
      Pow2Pos(k);
      var p: int := Pow2(k - 1);
      var m := Not(Pow2(k) - 1);
      assert m == -2 * p && m <= -2;
      if x == 0 {
        DivModUnique(x, 2 * p, 0, 0);
      } else if x == -1 {
        DivModUnique(x, 2 * p, -1, 2 * p - 1);
      } else {
        assert m / 2 == -p && m % 2 == 0;
        assert Not(p - 1) == -p;
        var rest := And(x / 2, -p);
        assert And(x, m) == 2 * rest + (x % 2) * (m % 2);
        assert (x % 2) * (m % 2) == 0;
        ClearLowBits(x / 2, k - 1);
        assert rest == x / 2 - (x / 2) % p;
        ModDouble(x, p);
        assert x == 2 * (x / 2) + x % 2;
      }
    }
  }

  /** x minus its remainder is a multiple of a, within a below x. */
  lemma MultipleOf(x: int, a: nat)
    requires a > 0
    ensures (x - x % a) % a == 0
    ensures x - a < x - x % a <= x
    ensures x % a == 0 ==> x - x % a == x
  {
    assert x - x % a == a * (x / a);
    DivModUnique(x - x % a, a, x / a, 0);
  }

  /** Masking a non-negative value with `2**k - 1` keeps its low k bits: the remainder modulo 2**k. */
  lemma {:induction false} LowBits(x: nat, k: nat)
    ensures And(x, Pow2(k) - 1) == x % Pow2(k)
    decreases k
  {
    if k == 0 {
      DivModUnique(x, 1, x, 0);
    } else {
      Pow2Pos(k);
      var p: int := Pow2(k - 1);
      var m := Pow2(k) - 1;
      assert m == 2 * p - 1 && m >= 1;
      if x == 0 {
        DivModUnique(x, 2 * p, 0, 0);
        assert And(x, m) == 0;
      } else if m == 1 {
        assert p == 1 && Pow2(k) == 2;
        assert And(x / 2, 0) == 0;
        assert And(x, m) == 2 * And(x / 2, 0) + (x % 2) * 1;
        assert And(x, m) == x % 2;
      } else {
        assert m / 2 == p - 1 && m % 2 == 1;
        var rest := And(x / 2, p - 1);
        assert And(x, m) == 2 * rest + (x % 2) * (m % 2);
        assert And(x, m) == 2 * rest + x % 2;
        LowBits(x / 2, k - 1);
        assert rest == (x / 2) % p;
        ModDouble(x, p);
        assert x % Pow2(k) == 2 * ((x / 2) % p) + x % 2;
      }
    }
  }

  /**
   * `align(value, a)`: with `up` it rounds value up to a multiple of a;
   * without it, it subtracts a - 1 first and then clears the low bits.
   */
  function Align(value: int, a: nat, up: bool): int
  {
    if up then And(value + a - 1, Not(a - 1))
    else And(value - (a - 1), Not(a - 1))
  }

  /** The exponent of a power of two. */
  function Log2(a: nat): (k: nat)
    requires IsPow2(a)
    ensures Pow2(k) == a
  {
    if a == 1 then 0 else Log2(a / 2) + 1
  }

  /** Rounding up: the least multiple of a that is at least value. */
  lemma AlignUp(value: int, a: nat)
    requires IsPow2(a)
    ensures Align(value, a, true) % a == 0
    ensures value <= Align(value, a, true) < value + a
  {
    var k := Log2(a);
    ClearLowBits(value + a - 1, k);
    MultipleOf(value + a - 1, a);
  }

  /**
   * Rounding down as written: the result is a multiple of a that is at
   * most value - (a - 1), and the largest such.
   */
  lemma AlignDownAsWritten(value: int, a: nat)
    requires IsPow2(a)
    ensures Align(value, a, false) % a == 0
    ensures value - (a - 1) - a < Align(value, a, false) <= value - (a - 1)
  {
    ClearLowBits(value - (a - 1), Log2(a));
    MultipleOf(value - (a - 1), a);
  }

  /** An already aligned value is rounded down to the previous multiple (0x1000 becomes 0). */
  lemma AlignDownDropsAligned()
    ensures Align(0x1000, 0x1000, false) == 0
  {
    // 0x1000 - 0xfff is 1, and 1 & ~0xfff clears its only bit.
    assert Align(0x1000, 0x1000, false) == And(1, -0x1000);
    assert And(1, -0x1000) == 2 * And(0, -0x800) + 0;
  }

  /** The evidently intended rounding down: `value & ~(a - 1)`. */
  function AlignDown(value: int, a: nat): int
  {
    And(value, Not(a - 1))
  }

  /** Rounding down gives the largest multiple of a that is at most value. */
  lemma AlignDownIsFloor(value: int, a: nat)
    requires IsPow2(a)
    ensures AlignDown(value, a) % a == 0
    ensures value - a < AlignDown(value, a) <= value
    ensures value % a == 0 ==> AlignDown(value, a) == value
  {
    ClearLowBits(value, Log2(a));
    MultipleOf(value, a);
  }

  // ---------------------------------------------------------------------------
  // bit

  /** What `bit(*args)` gives: the accumulated bits, or the ValueError `1 << arg` raises at the k-th argument. */
  datatype Shifted = Bits(value: nat) | NegativeShift(index: nat)

  /**
   * `bit(*args)`, left to right: each argument's bit ORed in; a negative
   * argument raises "negative shift count" and ends the loop there.
   */
  function BitsOf(args: seq<int>): Shifted
  {
    if args == [] then Bits(0)
    else
      var n := |args| - 1;
      match BitsOf(args[..n])
      case NegativeShift(k) => NegativeShift(k)
      case Bits(v) => if args[n] < 0 then NegativeShift(n) else Bits(Or(v, Pow2(args[n])))
  }

  /** `bit(*args)`: start at 0 and OR in `1 << arg` for each argument, stopping at the first negative one. */
  method Bit(args: seq<int>) returns (r: Shifted)
    ensures r == BitsOf(args)
  {
    var ret := 0;
    for k := 0 to |args|
      invariant BitsOf(args[..k]) == Bits(ret)
    {
      assert args[..k + 1][..k] == args[..k];
      if args[k] < 0 {
        NegativeStops(args, k);
        return NegativeShift(k);
      }
      ret := Or(ret, Pow2(args[k]));
    }
    assert args[..|args|] == args;
    r := Bits(ret);
  }

  /** Once the k-th argument has raised, the later ones change nothing. */
  lemma {:induction false} NegativeStops(args: seq<int>, k: nat)
    requires k < |args| && args[k] < 0 && BitsOf(args[..k]).Bits?
    ensures BitsOf(args) == NegativeShift(k)
    decreases |args|
  {
    var n := |args| - 1;
    if n == k {
      assert args[..n] == args[..k];
    } else {
      assert args[..n][..k] == args[..k];
      assert args[..n][k] == args[k];
      NegativeStops(args[..n], k);
    }
  }

  /** `bit(*args)` raises exactly when some argument is negative, and then at the first such argument. */
  lemma {:induction false} BitRaises(args: seq<int>)
    ensures BitsOf(args).NegativeShift? <==> exists j :: 0 <= j < |args| && args[j] < 0
    ensures BitsOf(args).NegativeShift? ==>
      var k := BitsOf(args).index;
      k < |args| && args[k] < 0 && forall j :: 0 <= j < k ==> args[j] >= 0
    decreases |args|
  {
    if args != [] {
      var n := |args| - 1;
      assert forall j :: 0 <= j < n ==> args[..n][j] == args[j];
      BitRaises(args[..n]);
    }
  }

  /** Bit i of `bit(*args)` is set exactly when i is one of the arguments, when none is negative. */
  lemma {:induction false} BitsOfBit(args: seq<nat>, i: nat)
    ensures BitsOf(args).Bits?
    ensures TestBit(BitsOf(args).value, i) <==> i in args
  {
    if args == [] {
      assert TestBit(0, i) == false;
    } else {
      var init, last := args[..|args| - 1], args[|args| - 1];
      assert args == init + [last];
      BitsOfBit(init, i);
      OrBit(BitsOf(init).value, Pow2(last), i);
      Pow2Bit(last, i);
    }
  }

  /** `bit()` is 0; `bit` depends only on the set of its arguments, not their order or repetition. */
  lemma BitSetOnly(args: seq<nat>, args': seq<nat>)
    requires forall x :: x in args <==> x in args'
    ensures BitsOf([]) == Bits(0)
    ensures BitsOf(args) == BitsOf(args')
  {
    BitsOfBit(args, 0);
    BitsOfBit(args', 0);
    forall i: nat
      ensures TestBit(BitsOf(args).value, i) == TestBit(BitsOf(args').value, i)
    {
      BitsOfBit(args, i);
      BitsOfBit(args', i);
    }
    BitsDetermine(BitsOf(args).value, BitsOf(args').value);
  }
}
