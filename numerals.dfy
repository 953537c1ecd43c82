/**
 * Decimal numerals and the fixed-width integer types the readers store into.
 * C's signed overflow and narrowing casts are modelled as two's-complement
 * wrapping (what GCC and Clang do in practice).
 */
module Numerals {
  import opened Bytes

  const TWO32: int := 0x1_0000_0000
  const TWO64: int := 0x1_0000_0000_0000_0000
  const INT32_MIN: int := -0x8000_0000
  const INT32_MAX: int := 0x7fff_ffff
  const UINT32_MAX: int := 0xffff_ffff
  const INT64_MIN: int := -0x8000_0000_0000_0000
  const INT64_MAX: int := 0x7fff_ffff_ffff_ffff
  const UINT64_MAX: int := 0xffff_ffff_ffff_ffff

  /** `int`, `unsigned`, `long long` and `unsigned long long`. */
  datatype Width = Int32 | UInt32 | Int64 | UInt64

  function Modulus(w: Width): int {
    if w.Int32? || w.UInt32? then TWO32 else TWO64
  }

  function Min(w: Width): int {
    match w
    case Int32 => INT32_MIN
    case Int64 => INT64_MIN
    case _ => 0
  }

  function Max(w: Width): int {
    match w
    case Int32 => INT32_MAX
    case UInt32 => UINT32_MAX
    case Int64 => INT64_MAX
    case UInt64 => UINT64_MAX
  }

  /**
   * The value of type `w` congruent to `x` modulo 2^32 or 2^64: what a
   * wrapping accumulator holds, or what a narrowing cast yields.
   */
  function Wrap(x: int, w: Width): (r: int)
    ensures Min(w) <= r <= Max(w)
    ensures Min(w) <= x <= Max(w) ==> r == x
    decreases if x > Max(w) then x - Max(w) else if x < Min(w) then Min(w) - x else 0
  {
    if x > Max(w) then Wrap(x - Modulus(w), w)
    else if x < Min(w) then Wrap(x + Modulus(w), w)
    else x
  }

  /** Wrapping moves a value by a whole number `k` of moduli. */
  lemma {:induction false} WrapDiff(x: int, w: Width) returns (k: int)
    ensures x - Wrap(x, w) == k * Modulus(w)
    decreases if x > Max(w) then x - Max(w) else if x < Min(w) then Min(w) - x else 0
  {
    if x > Max(w) {
      k := WrapDiff(x - Modulus(w), w);
      k := k + 1;
    } else if x < Min(w) {
      k := WrapDiff(x + Modulus(w), w);
      k := k - 1;
    } else {
      k := 0;
    }
  }

  /** Values that differ by a whole number of moduli wrap to the same value. */
  lemma WrapCongruent(x: int, y: int, k: int, w: Width)
    requires x - y == k * Modulus(w)
    ensures Wrap(x, w) == Wrap(y, w)
  {
    var m := Modulus(w);
    var a := WrapDiff(x, w);
    var b := WrapDiff(y, w);
    var j := k - a + b;
    assert Wrap(x, w) - Wrap(y, w) == j * m by {
      assert k * m - a * m + b * m == j * m;
    }
    assert j >= 1 ==> j * m >= m;
    assert j <= -1 ==> j * m <= -m;
  }

  /** Wrapping to 64 bits and then narrowing to 32 is narrowing to 32. */
  lemma NarrowAfterWrap(x: int, wide: Width, narrow: Width)
    requires Modulus(wide) == TWO64 && Modulus(narrow) == TWO32
    ensures Wrap(Wrap(x, wide), narrow) == Wrap(x, narrow)
  {
    var k := WrapDiff(x, wide);
    assert k * TWO64 == (k * TWO32) * TWO32;
    WrapCongruent(x, Wrap(x, wide), k * TWO32, narrow);
  }

  /** One wrapped accumulation step agrees with wrapping the exact step. */
  lemma WrapStep(x: int, a: int, w: Width)
    ensures Wrap(Wrap(x, w) * 10 + a, w) == Wrap(x * 10 + a, w)
  {
    var k := WrapDiff(x, w);
    assert (x * 10 + a) - (Wrap(x, w) * 10 + a) == (k * 10) * Modulus(w);
    WrapCongruent(x * 10 + a, Wrap(x, w) * 10 + a, k * 10, w);
  }

  /** One step of a wrapping accumulator over a numeral keeps it equal to the wrapped value. */
  lemma WrapSnoc(ds: seq<int>, c: int, w: Width)
    requires AllDigits(ds) && IsDigit(c)
    ensures AllDigits(ds + [c])
    ensures Wrap(Wrap(Value(ds), w) * 10 + (c - ZERO), w) == Wrap(Value(ds + [c]), w)
  {
    HornerSnoc(ds, c, 0);
    WrapStep(Value(ds), c - ZERO, w);
  }

  /** Multiplying by a sign commutes with wrapping. */
  lemma WrapSign(x: int, sign: int, w: Width)
    requires sign == 1 || sign == -1
    ensures Wrap(Wrap(x, w) * sign, w) == Wrap(x * sign, w)
  {
    if sign == -1 {
      var k := WrapDiff(x, w);
      var m := Modulus(w);
      assert (-k) * m == -(k * m);
      WrapCongruent(-x, -Wrap(x, w), -k, w);
    }
  }

  /** The factor an optional leading sign byte stands for. */
  function SignOf(c: int): (s: int)
    ensures s == 1 || s == -1
  {
    if c == MINUS then -1 else 1
  }

  predicate AllDigits(ds: seq<int>) {
    forall i :: 0 <= i < |ds| ==> IsDigit(ds[i])
  }

  /** The exact value of digits `ds` appended to accumulator `x`: x * 10^|ds| + value(ds). */
  function Horner(ds: seq<int>, x: int): (r: int)
    requires AllDigits(ds)
    ensures x >= 0 ==> r >= x
    ensures x >= 0 && ds != [] ==> r >= x * 10
  {
    if ds == [] then x else Horner(ds[1..], x * 10 + (ds[0] - ZERO))
  }

  /** The value of a decimal numeral. */
  function Value(ds: seq<int>): nat
    requires AllDigits(ds)
  {
    Horner(ds, 0)
  }

  lemma {:induction false} HornerSnoc(ds: seq<int>, c: int, x: int)
    requires AllDigits(ds) && IsDigit(c)
    ensures AllDigits(ds + [c])
    ensures Horner(ds + [c], x) == Horner(ds, x) * 10 + (c - ZERO)
  {
    if ds != [] {
      assert (ds + [c])[1..] == ds[1..] + [c];
      HornerSnoc(ds[1..], c, x * 10 + (ds[0] - ZERO));
    }
  }

  /** Appending digits: the value of the first part becomes the accumulator of the second. */
  lemma {:induction false} HornerAppend(a: seq<int>, b: seq<int>, x: int)
    requires AllDigits(a) && AllDigits(b)
    ensures AllDigits(a + b)
    ensures Horner(a + b, x) == Horner(b, Horner(a, x))
  {
    if a == [] {
      assert a + b == b;
    } else {
      assert (a + b)[1..] == a[1..] + b;
      HornerAppend(a[1..], b, x * 10 + (a[0] - ZERO));
    }
  }

  /** The shortest decimal numeral of `n`, as printf("%u") writes it. */
  function Digits(n: nat): (ds: seq<byte>)
    ensures 1 <= |ds| && AllDigits(ds)
    ensures Value(ds) == n
    ensures ds[0] != ZERO || n == 0
    decreases n
  {
    if n < 10 then
      assert [ZERO + n][1..] == [];
      assert Horner([ZERO + n], 0) == Horner([], n);
      [ZERO + n]
    else
      var prefix := Digits(n / 10);
      HornerSnoc(prefix, ZERO + n % 10, 0);
      prefix + [ZERO + n % 10]
  }

  /** Appending a digit to a numeral of at least one digit. */
  lemma DigitsSnoc(x: nat, d: nat)
    requires 0 < x && d < 10
    ensures Digits(x * 10 + d) == Digits(x) + [ZERO + d]
  {
    assert (x * 10 + d) / 10 == x && (x * 10 + d) % 10 == d;
  }

  /** A digit run followed by a non-digit is the whole digit run. */
  lemma DigitsRun(ds: seq<int>, rest: seq<int>)
    requires AllDigits(ds) && !IsDigit(At(rest, 0))
    ensures Run(ds + rest, Digit) == |ds| && (ds + rest)[..|ds|] == ds && (ds + rest)[|ds|..] == rest
  {
    var t := ds + rest;
    assert forall i :: 0 <= i < |ds| ==> t[i] == ds[i];
    if |ds| < |t| {
      assert t[|ds|] == rest[0];
    }
    RunUnique(t, Digit, |ds|);
  }

  /** The numeral of `v` with a leading '-' when negative, as printf("%d") writes it. */
  function Decimal(v: int): (s: seq<byte>)
    ensures |s| >= 1
  {
    if v < 0 then [MINUS] + Digits(-v) else Digits(v)
  }

  /** One step `x = x*10 + d` of a decimal accumulator of width `w`. */
  function Push(x: int, c: int, w: Width): int {
    Wrap(x * 10 + (c - ZERO), w)
  }

  /**
   * The accumulator of yscanf3.h after the first `k` digits of `s`: every
   * step `x = x*10 + d` wraps at the width of `w`.
   */
  function Accumulated(s: seq<int>, k: nat, w: Width): (x: int)
    requires k <= |s|
    ensures Min(w) <= x <= Max(w)
  {
    if k == 0 then 0 else Push(Accumulated(s, k - 1, w), s[k - 1], w)
  }

  /** Wrapping at every step leaves the exact value of the digits, wrapped once. */
  lemma {:induction false} AccumulatedWraps(s: seq<int>, k: nat, w: Width)
    requires k <= |s| && forall i :: 0 <= i < k ==> IsDigit(s[i])
    ensures AllDigits(s[..k])
    ensures Accumulated(s, k, w) == Wrap(Value(s[..k]), w)
  {
    if k > 0 {
      AccumulatedWraps(s, k - 1, w);
      assert s[..k] == s[..k - 1] + [s[k - 1]];
      WrapSnoc(s[..k - 1], s[k - 1], w);
    }
  }

  /**
   * The accumulator of yscanf2.h: a step whose wrapped result `next` is below
   * `x` stops the accumulation, keeps `x` and raises the overflow flag. The
   * test makes the accumulator monotone: what comes out is never below the
   * start, and anything new is a value of the width.
   */
  function Checked(ds: seq<int>, x: int, w: Width): (r: (int, bool))
    ensures x <= r.0 && (r.0 == x || Min(w) <= r.0 <= Max(w))
    ensures r.1 ==> ds != []
  {
    if ds == [] then (x, false)
    else
      var next := Push(x, ds[0], w);
      if next < x then (x, true) else Checked(ds[1..], next, w)
  }

  /** Without wrapping the check never fires and the exact value comes out. */
  lemma {:induction false} CheckedExact(ds: seq<int>, x: int, w: Width)
    requires AllDigits(ds) && 0 <= x && Horner(ds, x) <= Max(w)
    ensures Checked(ds, x, w) == (Horner(ds, x), false)
  {
    if ds != [] {
      var next := x * 10 + (ds[0] - ZERO);
      assert 0 <= next <= Horner(ds[1..], next) <= Max(w);
      assert Wrap(next, w) == next;
      CheckedExact(ds[1..], next, w);
    }
  }

  /** The kept value never decreases, stays in range, and is positive when the flag is up. */
  lemma {:induction false} CheckedBounds(ds: seq<int>, x: int, w: Width)
    requires AllDigits(ds) && 0 <= x <= Max(w)
    ensures x <= Checked(ds, x, w).0 <= Max(w)
    ensures Checked(ds, x, w).1 ==> Checked(ds, x, w).0 > 0
  {
    if ds != [] {
      var next := Push(x, ds[0], w);
      if next >= x {
        CheckedBounds(ds[1..], next, w);
      }
    }
  }

  /**
   * Once the exact value passes a bound `b` small enough that b*10+9 does not
   * wrap, the result is above `b` or the flag is up.
   */
  lemma {:induction false} CheckedPasses(ds: seq<int>, x: int, w: Width, b: int)
    requires AllDigits(ds) && 0 <= x <= b && b * 10 + 9 <= Max(w)
    requires Horner(ds, x) > b
    ensures Checked(ds, x, w).1 || Checked(ds, x, w).0 > b
  {
    var next := x * 10 + (ds[0] - ZERO);
    assert 0 <= next <= Max(w);
    if next <= b {
      CheckedPasses(ds[1..], next, w, b);
    } else {
      CheckedBounds(ds[1..], next, w);
    }
  }

  /** A prefix that does not wrap is absorbed into the accumulator. */
  lemma {:induction false} CheckedAppend(a: seq<int>, b: seq<int>, x: int, w: Width)
    requires AllDigits(a) && 0 <= x && Horner(a, x) <= Max(w)
    ensures Checked(a + b, x, w) == Checked(b, Horner(a, x), w)
  {
    if a == [] {
      assert a + b == b;
    } else {
      var next := x * 10 + (a[0] - ZERO);
      assert 0 <= next <= Horner(a[1..], next) <= Max(w);
      assert Push(x, a[0], w) == next;
      assert (a + b)[0] == a[0] && (a + b)[1..] == a[1..] + b;
      CheckedAppend(a[1..], b, next, w);
    }
  }
}
