/** Multi-limb integers: limbs of 64 bits updated in place, with the carries of each operation, and
    their exact value. */
module BigInteger {
  import opened Arithmetic
  import opened JsonText
  import opened Serial

  const BASE: nat := 0x1_0000_0000_0000_0000
  const WORD: nat := 0x1_0000_0000
  const CAPACITY: nat := 416

  // Values

  function Power(n: nat): (p: nat)
    ensures p > 0
  {
    if n == 0 then 1 else BASE * Power(n - 1)
  }

  // The integer that a sequence of limbs denotes, the lowest first.
  function Val(d: seq<U64>): nat {
    if d == [] then 0 else Val(d[..|d| - 1]) + d[|d| - 1] * Power(|d| - 1)
  }

  lemma {:induction false} ValAppend(d: seq<U64>, x: U64)
    ensures Val(d + [x]) == Val(d) + x * Power(|d|)
  {
    assert (d + [x])[..|d|] == d;
  }

  lemma {:induction false} ValUpdate(d: seq<U64>, i: nat, x: U64)
    requires i < |d|
    ensures Val(d[i := x]) == Val(d) + (x - d[i]) * Power(i)
  {
    var n := |d| - 1;
    if i == n {
      assert d[i := x][..n] == d[..n];
      assert (x - d[i]) * Power(i) == x * Power(i) - d[i] * Power(i);
    } else {
      assert d[i := x][..n] == d[..n][i := x];
      ValUpdate(d[..n], i, x);
    }
  }

  lemma {:induction false} ValBelow(d: seq<U64>)
    ensures Val(d) < Power(|d|)
  {
    if d != [] {
      var n := |d| - 1;
      ValBelow(d[..n]);
      var top: nat := d[n];
      MulMonotone(top + 1, BASE, Power(n));
      assert (top + 1) * Power(n) == top * Power(n) + Power(n);
    }
  }

  // A number whose top limb is not zero needs all its limbs.
  lemma {:induction false} ValAbove(d: seq<U64>)
    requires d != [] && d[|d| - 1] > 0
    ensures Val(d) >= Power(|d| - 1)
  {
    MulMonotone(1, d[|d| - 1], Power(|d| - 1));
  }

  lemma {:induction false} PowerMonotone(m: nat, n: nat)
    requires m <= n
    ensures Power(m) <= Power(n)
  {
    if m < n {
      PowerMonotone(m, n - 1);
      MulMonotone(1, BASE, Power(n - 1));
    }
  }

  // Double words

  // The 128-bit product and sum a * b + k through 32-bit halves, as its low and high word.
  method MulAdd64(a: U64, b: U64, k: U64) returns (low: U64, high: U64)
    ensures high * BASE + low == a * b + k
  {
    var a0, a1, b0, b1 := a % WORD, a / WORD, b % WORD, b / WORD;
    HalfProducts(a0, b0);
    HalfProducts(a0, b1);
    HalfProducts(a1, b0);
    HalfProducts(a1, b1);
    ProductOfHalves(a0, a1, b0, b1);
    assert a == a1 * WORD + a0 && b == b1 * WORD + b0;
    low, high := AddHalves(a0 * b0, a0 * b1, a1 * b0, a1 * b1, k);
  }

  // The four partial products and `k`, added with carries; the sum needs no third word.
  method AddHalves(x0: nat, y1: nat, x2: nat, y3: nat, k: U64) returns (low: U64, high: U64)
    requires x0 <= (WORD - 1) * (WORD - 1) && y1 <= (WORD - 1) * (WORD - 1)
    requires x2 <= (WORD - 1) * (WORD - 1) && y3 <= (WORD - 1) * (WORD - 1)
    ensures high * BASE + low == x0 + (y1 + x2) * WORD + y3 * BASE + k
  {
    var x1: U64, x3: U64 := y1 + x0 / WORD, y3;
    x1 := (x1 + x2) % BASE;
    if x1 < x2 {
      x3 := x3 + WORD;
    }
    assert x1 + x3 * WORD == y1 + x0 / WORD + x2 + y3 * WORD;
    low := x1 % WORD * WORD + x0 % WORD;
    high := x3 + x1 / WORD;
    assert high * BASE + low == x0 + (y1 + x2) * WORD + y3 * BASE;
    low := (low + k) % BASE;
    if low < k {
      high := high + 1;
    }
  }

  lemma HalfProducts(x: nat, y: nat)
    requires x < WORD && y < WORD
    ensures 0 <= x * y <= (WORD - 1) * (WORD - 1)
  {
    MulMonotone(0, x, y);
    MulMonotone(x, WORD - 1, y);
    MulMonotone(y, WORD - 1, WORD - 1);
    assert x * y <= (WORD - 1) * y == y * (WORD - 1);
  }

  lemma ProductOfHalves(a0: nat, a1: nat, b0: nat, b1: nat)
    ensures (a1 * WORD + a0) * (b1 * WORD + b0) == a0 * b0 + (a0 * b1 + a1 * b0) * WORD + a1 * b1 * BASE
  {
    assert a1 * WORD * (b1 * WORD) == a1 * b1 * BASE;
    assert a1 * WORD * b0 == a1 * b0 * WORD;
    assert a0 * (b1 * WORD) == a0 * b1 * WORD;
    assert a0 * b1 * WORD + a1 * b0 * WORD == (a0 * b1 + a1 * b0) * WORD;
  }

  // One limb times a 32-bit number through its halves, with a 32-bit carry in and out.
  method MulWord(digit: U64, u: nat, k: nat) returns (low: U64, high: nat)
    requires u < WORD && k < WORD
    ensures high < WORD && high * BASE + low == digit * u + k
  {
    var c, d := digit / WORD, digit % WORD;
    HalfProducts(u, c);
    HalfProducts(u, d);
    var p0 := u * d + k;
    var p1 := u * c + p0 / WORD;
    low := p0 % WORD + p1 % WORD * WORD;
    high := p1 / WORD;
    assert digit * u == (c * WORD + d) * u == u * c * WORD + u * d;
  }

  function Pow(b: nat, n: nat): nat {
    if n == 0 then 1 else b * Pow(b, n - 1)
  }

  lemma {:induction false} PowAdd(b: nat, m: nat, n: nat)
    ensures Pow(b, m + n) == Pow(b, m) * Pow(b, n)
  {
    if m > 0 {
      PowAdd(b, m - 1, n);
      assert b * (Pow(b, m - 1) * Pow(b, n)) == b * Pow(b, m - 1) * Pow(b, n);
    }
  }

  lemma Distribute(x: int, y: int, p: int)
    ensures (x + y) * p == x * p + y * p
  {
  }

  lemma Regrouped(x: int, y: int, p: int)
    ensures x * y * p == x * (y * p)
  {
  }

  lemma ProductAlgebra(a: nat, f: nat, u: nat, k: nat, d: nat, low: nat, high: nat, p: nat)
    requires a + k * p == f * u && high * BASE + low == d * u + k
    ensures a + low * p + high * (BASE * p) == (f + d * p) * u
  {
    Distribute(high * BASE, low, p);
    Regrouped(high, BASE, p);
    Distribute(d * u, k, p);
    Regrouped(u, d, p);
    Distribute(f, d * p, u);
  }

  // A limb of a product has been computed: `done` are the limbs so far, `front` those of the factor.
  lemma {:induction false} ProductStep(done: seq<U64>, front: seq<U64>, u: nat, k: nat, d: U64, low: U64, high: nat)
    requires |done| == |front| && Val(done) + k * Power(|done|) == Val(front) * u
    requires high * BASE + low == d * u + k
    ensures Val(done + [low]) + high * Power(|done| + 1) == Val(front + [d]) * u
  {
    ValAppend(done, low);
    ValAppend(front, d);
    ProductAlgebra(Val(done), Val(front), u, k, d, low, high, Power(|done|));
  }

  lemma NoZeroProduct(d: nat, u: nat, k: nat, low: nat, high: nat)
    requires high * BASE + low == d * u + k && u > 0
    ensures d > 0 && high == 0 ==> low > 0
  {
    if d > 0 {
      MulMonotone(1, d, u);
    }
  }

  lemma TrivialProducts(v: nat, u: nat)
    ensures v * u >= 0
    ensures u == 0 ==> v * u == 0
    ensures u == 1 ==> v * u == v
    ensures v == 1 ==> v * u == u
    ensures v == 0 ==> v * u == 0
  {
  }

  // Shifting

  // For a shift by s bits inside the limbs, m is 2^s and t is 2^(64 - s).
  predicate Split(m: nat, t: nat) {
    m * t == BASE
  }

  // The bits of a limb that stay in it, moved up, and those that go to the next one.
  lemma ShiftSplits(x: U64, m: nat, t: nat)
    requires Split(m, t)
    ensures t > 0 && m > 0 && x * m == x / t * BASE + x * m % BASE
    ensures 0 <= x / t < m && 0 <= x * m % BASE <= BASE - m
  {
    ScaledLimb(x, m, t);
    DivUnique(x * m, BASE, x / t, x % t * m);
  }

  lemma ScaledLimb(x: U64, m: nat, t: nat)
    requires Split(m, t)
    ensures t > 0 && m > 0 && 0 <= x % t < t && 0 <= x / t < m
    ensures 0 <= x % t * m <= BASE - m
    ensures x * m == x / t * BASE + x % t * m
  {
  }

  // What limb `j` hands to the one above it.
  function High(d: seq<U64>, j: nat, m: nat, t: nat): (h: nat)
    requires j <= |d| && Split(m, t)
    ensures h < m
  {
    if j == 0 then (ShiftSplits(0, m, t); 0) else (ShiftSplits(d[j - 1], m, t); d[j - 1] / t)
  }

  // Limb `j` of the shifted number: its own low bits moved up, and the high bits of the limb below.
  function ShiftedLimb(d: seq<U64>, j: nat, m: nat, t: nat): U64
    requires j <= |d| && Split(m, t)
  {
    var own: U64 := if j < |d| then d[j] else 0;
    ShiftSplits(own, m, t);
    own * m % BASE + High(d, j, m, t)
  }

  function ShiftedAll(d: seq<U64>, m: nat, t: nat): (r: seq<U64>)
    requires Split(m, t)
    ensures |r| == |d| + 1
  {
    seq(|d| + 1, j requires 0 <= j <= |d| => ShiftedLimb(d, j, m, t))
  }

  lemma {:induction false} ShiftedPrefix(d: seq<U64>, m: nat, t: nat, i: nat)
    requires Split(m, t) && i <= |d|
    ensures Val(ShiftedAll(d, m, t)[..i]) + High(d, i, m, t) * Power(i) == Val(d[..i]) * m
  {
    var r := ShiftedAll(d, m, t);
    if i == 0 {
      assert r[..0] == [] && d[..0] == [];
    } else {
      var x := d[i - 1];
      ShiftedPrefix(d, m, t, i - 1);
      ShiftSplits(x, m, t);
      ProductStep(r[..i - 1], d[..i - 1], m, High(d, i - 1, m, t), x, r[i - 1], High(d, i, m, t));
      assert r[..i] == r[..i - 1] + [r[i - 1]] && d[..i] == d[..i - 1] + [x];
    }
  }

  lemma {:induction false} ShiftedValue(d: seq<U64>, m: nat, t: nat)
    requires Split(m, t)
    ensures Val(ShiftedAll(d, m, t)) == Val(d) * m
  {
    var r := ShiftedAll(d, m, t);
    ShiftedPrefix(d, m, t, |d|);
    assert d[..|d|] == d && r == r[..|d|] + [r[|d|]];
    ShiftSplits(0, m, t);
    ValAppend(r[..|d|], r[|d|]);
  }

  function Zeros(n: nat): (z: seq<U64>)
    ensures |z| == n
  {
    seq(n, _ => 0)
  }

  // What a shift by whole limbs leaves in the `n + offset` limbs of the result: it moves `n` limbs
  // from the top limb on, not from the lowest. `w` are all limbs of the buffer.
  function Moved(w: seq<U64>, n: nat, offset: nat): (r: seq<U64>)
    requires 0 < n && 2 * n - 1 + offset <= |w|
    ensures |r| == n + offset
  {
    seq(n + offset, j requires 0 <= j < n + offset => MovedLimb(w, n, offset, j))
  }

  function MovedLimb(w: seq<U64>, n: nat, offset: nat, j: nat): U64
    requires 0 < n && 2 * n - 1 + offset <= |w| && j < n + offset
  {
    if j < offset then 0 else if j < n + offset - 1 then w[j] else w[n - 1]
  }

  // Limbs of zero below a number multiply it by a power of the base.
  lemma {:induction false} ValZeros(n: nat, d: seq<U64>)
    ensures Val(Zeros(n) + d) == Val(d) * Power(n)
  {
    if d == [] {
      assert Zeros(n) + d == Zeros(n);
      OnlyZeros(n);
    } else {
      var front, x := d[..|d| - 1], d[|d| - 1];
      ValZeros(n, front);
      assert Zeros(n) + d == Zeros(n) + front + [x] && d == front + [x];
      ValAppend(Zeros(n) + front, x);
      ValAppend(front, x);
      PowerAdd(n, |front|);
      Distribute(Val(front), x * Power(|front|), Power(n));
      Regrouped(x, Power(|front|), Power(n));
    }
  }

  lemma {:induction false} OnlyZeros(n: nat)
    ensures Val(Zeros(n)) == 0
  {
    if n > 0 {
      assert Zeros(n)[..n - 1] == Zeros(n - 1);
      OnlyZeros(n - 1);
    }
  }

  lemma {:induction false} PowerAdd(m: nat, n: nat)
    ensures Power(m + n) == Power(n) * Power(m)
  {
    if m > 0 {
      PowerAdd(m - 1, n);
      assert BASE * (Power(n) * Power(m - 1)) == Power(n) * (BASE * Power(m - 1));
    }
  }

  // A number with a top limb of zero is smaller than one whose top limb below it counts.
  lemma {:induction false} TopCounts(d: seq<U64>, v: nat)
    requires d != [] && Val(d) == v > 0 && (|d| > 1 ==> v >= Power(|d| - 1))
    ensures d[|d| - 1] > 0
  {
    var n := |d| - 1;
    ValBelow(d[..n]);
    if n == 0 {
      assert d[..0] == [];
    }
  }

  lemma {:induction false} ValInjective(a: seq<U64>, b: seq<U64>)
    requires |a| == |b| && Val(a) == Val(b)
    ensures a == b
  {
    if a != [] {
      var n := |a| - 1;
      ValBelow(a[..n]);
      ValBelow(b[..n]);
      var x: nat, y: nat := a[n], b[n];
      if x < y {
        MulMonotone(x + 1, y, Power(n));
        Distribute(x, 1, Power(n));
      } else if y < x {
        MulMonotone(y + 1, x, Power(n));
        Distribute(y, 1, Power(n));
      }
      ValInjective(a[..n], b[..n]);
      assert a == a[..n] + [a[n]] && b == b[..n] + [b[n]];
    }
  }

  // A shift by whole limbs is exact if and only if the limbs it leaves in place happen to be those
  // that belong there; with a single limb they always are.
  lemma {:induction false} MovedExact(w: seq<U64>, n: nat, offset: nat)
    requires 0 < n && 2 * n - 1 + offset <= |w|
    ensures Val(Moved(w, n, offset)) == Val(w[..n]) * Power(offset) <==> w[offset..offset + n - 1] == w[..n - 1]
    ensures n == 1 ==> Val(Moved(w, n, offset)) == Val(w[..n]) * Power(offset)
  {
    var moved, right := Moved(w, n, offset), Zeros(offset) + w[..n];
    ValZeros(offset, w[..n]);
    if Val(moved) == Val(right) {
      ValInjective(moved, right);
      var left, low := w[offset..offset + n - 1], w[..n - 1];
      forall j | 0 <= j < n - 1 ensures left[j] == low[j] {
        assert moved[offset + j] == right[offset + j];
      }
    }
    if w[offset..offset + n - 1] == w[..n - 1] {
      forall j | 0 <= j < n + offset ensures moved[j] == right[j] {
        if offset <= j < n + offset - 1 {
          assert w[offset..offset + n - 1][j - offset] == w[..n - 1][j - offset];
        }
      }
      assert moved == right;
    }
  }

  // 1 + 2 * 2^64 shifted by 64 bits becomes 2 * 2^64 + 2 * 2^128.
  lemma WholeLimbShiftWrong()
    ensures Val(Moved([1, 2, 0, 0], 2, 1)) != Val([1, 2]) * Power(1)
  {
    var w: seq<U64> := [1, 2, 0, 0];
    MovedExact(w, 2, 1);
    assert w[..2] == [1, 2] && w[1..2][0] == 2 && w[..1][0] == 1;
  }

  lemma AtLeast(v: nat, m: nat, p: nat, q: nat)
    requires v >= q && m >= 1
    ensures v * m * p >= q * p && v * m >= v
  {
    MulMonotone(1, m, v);
    MulMonotone(q, v * m, p);
  }

  lemma {:induction false} ShiftedLarge(d: seq<U64>, offset: nat, m: nat)
    requires d != [] && d[|d| - 1] > 0 && m > 0
    ensures Val(d) * m * Power(offset) >= Power(|d| + offset - 1) > 0
  {
    ValAbove(d);
    AtLeast(Val(d), m, Power(offset), Power(|d| - 1));
    PowerAdd(offset, |d| - 1);
  }

  // The limbs of a shift inside the limbs have the exact value, without a top limb of zero.
  lemma {:induction false} BitsValue(d: seq<U64>, offset: nat, m: nat, t: nat, all: seq<U64>, c: nat)
    requires d != [] && d[|d| - 1] > 0 && Split(m, t) && all == Zeros(offset) + ShiftedAll(d, m, t)
    requires c == if all[|d| + offset] != 0 then |d| + offset + 1 else |d| + offset
    ensures Val(all[..c]) == Val(d) * m * Power(offset) && all[c - 1] > 0
  {
    var n := |d| + offset;
    ShiftSplits(0, m, t);
    ShiftedLarge(d, offset, m);
    ValZeros(offset, ShiftedAll(d, m, t));
    ShiftedValue(d, m, t);
    DropTop(all, c, Val(d) * m * Power(offset));
  }

  // A top limb of zero may be dropped; the one below it is not zero when the number is large.
  lemma {:induction false} DropTop(all: seq<U64>, c: nat, v: nat)
    requires |all| >= 2 && Val(all) == v >= Power(|all| - 2)
    requires c == if all[|all| - 1] != 0 then |all| else |all| - 1
    ensures Val(all[..c]) == v && all[c - 1] > 0
  {
    var n := |all| - 1;
    if c == n {
      TopCounts(all[..n], v);
    } else {
      assert all[..n + 1] == all;
    }
  }

  lemma {:induction false} PowPower(n: nat)
    ensures Pow(2, 64 * n) == Power(n)
  {
    if n > 0 {
      PowPower(n - 1);
      PowAdd(2, 64, 64 * (n - 1));
      TwoTo64();
    }
  }

  lemma TwoTo64()
    ensures Pow(2, 64) == BASE
  {
    assert Pow(2, 4) == 16;
    PowAdd(2, 4, 4);
    PowAdd(2, 8, 8);
    PowAdd(2, 16, 16);
    PowAdd(2, 32, 32);
  }

  // The two factors of a limb shift.
  lemma SplitOf(s: nat)
    requires 0 < s < 64
    ensures Split(Pow(2, s), Pow(2, 64 - s)) && 0 < Pow(2, s) < BASE && 0 < Pow(2, 64 - s) < BASE
  {
    TwoTo64();
    PowAdd(2, s, 64 - s);
    PowAdd(2, 1, s - 1);
    PowAdd(2, 1, 63 - s);
    var m, t := Pow(2, s), Pow(2, 64 - s);
    assert m >= 2 && t >= 2 by { PowPositive(s - 1); PowPositive(63 - s); }
    MulMonotone(2, t, m);
    MulMonotone(2, m, t);
  }

  lemma {:induction false} PowPositive(n: nat)
    ensures Pow(2, n) >= 1
  {
    if n > 0 {
      PowPositive(n - 1);
    }
  }

  // Decimal text

  const POW5_27: U64 := 0x6765_C793_FA10_079D
  const POW5_13: nat := 1220703125
  const POW5: seq<nat> := [5, 25, 125, 625, 3125, 15625, 78125, 390625, 1953125, 9765625, 48828125, 244140625]

  lemma PowersOfFive()
    ensures Pow(5, 13) == POW5_13 && Pow(5, 27) == POW5_27
  {
    assert Pow(5, 6) == 15625;
    PowAdd(5, 6, 7);
    PowAdd(5, 13, 14);
  }

  lemma SmallPowersOfFive(e: nat)
    requires 1 <= e <= 12
    ensures POW5[e - 1] == Pow(5, e) && POW5[e - 1] < WORD
  {
    assert Pow(5, 4) == 625;
    PowAdd(5, 4, e - if e < 4 then e else 4);
    if e < 4 {
    } else if e < 8 {
      assert Pow(5, 3) == 125;
    } else {
      PowAdd(5, 4, 4);
      PowAdd(5, 8, e - 8);
    }
  }

  lemma {:induction false} TenIsFiveTimesTwo(e: nat)
    ensures Pow(5, e) * Pow(2, e) == Pow10(e)
  {
    if e > 0 {
      TenIsFiveTimesTwo(e - 1);
      assert 5 * Pow(5, e - 1) * (2 * Pow(2, e - 1)) == 10 * (Pow(5, e - 1) * Pow(2, e - 1));
    }
  }

  lemma {:induction false} DecimalBelow(d: Bytes)
    requires AllDigits(d)
    ensures Decimal(d) < Pow10(|d|)
  {
    if d != [] {
      DecimalBelow(d[..|d| - 1]);
    }
  }

  lemma NineteenDigits()
    ensures Pow10(19) < BASE
  {
    assert Pow10(4) == 10000 && Pow10(8) == 100000000 && Pow10(12) == 1000000000000;
    assert Pow10(16) == 10000000000000000;
  }

  lemma {:induction false} Pow10Monotone(m: nat, n: nat)
    requires m <= n
    ensures Pow10(m) <= Pow10(n)
  {
    if m < n {
      Pow10Monotone(m, n - 1);
    }
  }

  lemma TenTimes(x: nat, p: nat)
    ensures 10 * (x * p) == x * (10 * p)
  {
  }

  lemma {:induction false} DecimalConcat(a: Bytes, b: Bytes)
    ensures Decimal(a + b) == Decimal(a) * Pow10(|b|) + Decimal(b)
  {
    if b == [] {
      assert a + b == a;
    } else {
      var front := b[..|b| - 1];
      assert (a + b)[..|a + b| - 1] == a + front;
      DecimalConcat(a, front);
      TenTimes(Decimal(a), Pow10(|front|));
      assert Decimal(a + b) == 10 * Decimal(a + front) + DigitValue(b[|b| - 1]);
    }
  }

  // Up to 19 digits fit one limb.
  method ParseUint64(s: Bytes) returns (r: U64)
    requires |s| <= 19 && AllDigits(s)
    ensures r == Decimal(s)
  {
    r := 0;
    var i := 0;
    NineteenDigits();
    while i < |s|
      invariant 0 <= i <= |s| && r == Decimal(s[..i])
    {
      assert s[..i + 1][..i] == s[..i];
      DecimalBelow(s[..i + 1]);
      Pow10Monotone(i + 1, 19);
      r := r * 10 + (s[i] as int - 48);
      i := i + 1;
    }
    assert s[..|s|] == s;
  }

  class Big {
    // How many limbs the buffer has: CAPACITY.
    const capacity: nat
    var digits: array<U64>
    var count: nat

    // The top limb is not zero, unless it is the only one.
    predicate Valid()
      reads this, digits
    {
      && digits.Length == capacity > 1 && 1 <= count <= capacity
      && (count > 1 ==> digits[count - 1] > 0)
    }

    function Value(): nat
      requires count <= digits.Length
      reads this, digits
    {
      Val(digits[..count])
    }

    constructor (u: U64)
      ensures Valid() && Value() == u && fresh(digits) && capacity == CAPACITY
    {
      capacity := CAPACITY;
      digits := new U64[CAPACITY](_ => 0);
      count := 1;
      new;
      digits[0] := u;
      ValAppend([], u);
      assert digits[..1] == [] + [u];
    }

    predicate IsZero()
      requires digits.Length > 0
      reads this, digits
    {
      count == 1 && digits[0] == 0
    }

    // A number with one limb is that limb, and no other number is that small.
    lemma Small()
      requires Valid()
      ensures count == 1 ==> Value() == digits[0]
      ensures count > 1 ==> Value() >= BASE
      ensures IsZero() <==> Value() == 0
    {
      if count == 1 {
        ValAppend([], digits[0]);
        assert digits[..1] == [] + [digits[0]];
      } else {
        ValAbove(digits[..count]);
        PowerMonotone(1, count - 1);
        assert Power(1) == BASE;
      }
    }

    method Assign(u: U64)
      requires Valid()
      modifies this`count, digits
      ensures Valid() && Value() == u
    {
      digits[0] := u;
      count := 1;
      Small();
    }

    method PushBack(digit: U64)
      requires digits.Length == capacity > 1 && 1 <= count < capacity && digit > 0
      modifies this`count, digits
      ensures Valid() && count == old(count) + 1 && Value() == old(Value()) + digit * Power(old(count))
    {
      ValAppend(digits[..count], digit);
      digits[count] := digit;
      count := count + 1;
      assert digits[..count] == old(digits[..count]) + [digit];
    }

    // The value when limb `i` is set to `x`.
    lemma SetLimb(before: seq<U64>, i: nat, x: U64)
      requires i < count <= digits.Length && |before| == count && digits[..count] == before[i := x]
      ensures Value() == Val(before) + (x - before[i]) * Power(i)
    {
      ValUpdate(before, i, x);
    }

    // What a carry into limb `n` is worth.
    static function Carried(carry: nat, n: nat): nat {
      if carry == 0 then 0 else Power(n)
    }

    // One limb of an addition: `c` is added to it, and what no longer fits is the carry.
    method AddLimb(i: nat, c: U64) returns (carry: nat)
      requires i < count <= digits.Length
      modifies digits
      ensures carry <= 1 && digits[i] == (old(digits[i]) + c) % BASE
      ensures carry == if digits[i] < old(digits[i]) then 1 else 0
      ensures Value() + Carried(carry, i + 1) == old(Value()) + c * Power(i)
      ensures forall j :: 0 <= j < digits.Length && j != i ==> digits[j] == old(digits[j])
    {
      ghost var before := digits[..count];
      var backup := digits[i];
      digits[i] := (digits[i] + c) % BASE;
      carry := if digits[i] < backup then 1 else 0;
      SetLimb(before, i, digits[i]);
      CarryOut(backup, c, digits[i], carry, Power(i));
    }

    static lemma CarryOut(d: U64, c: U64, r: U64, carry: nat, p: nat)
      requires r == (d + c) % BASE && carry == if r < d then 1 else 0
      ensures (r - d) * p + (if carry == 0 then 0 else BASE * p) == c * p
    {
      assert r - d + carry * BASE == c;
      assert (r - d + carry * BASE) * p == (r - d) * p + carry * BASE * p;
      assert carry * BASE * p == carry * (BASE * p);
    }

    method AddU64(u: U64)
      requires Valid() && Value() + u < Power(digits.Length)
      modifies this`count, digits
      ensures Valid() && Value() == old(Value()) + u
    {
      ghost var total := Value() + u;
      TrivialProducts(u, Power(0));
      var carry := AddLimb(0, u);
      Propagate(carry, total);
    }

    // A carry out of the lowest limb goes up until a limb takes it, or becomes a limb itself.
    method Propagate(first: nat, ghost total: nat)
      requires digits.Length == capacity > 1 && 1 <= count <= capacity && first <= 1
      requires Value() + Carried(first, 1) == total < Power(digits.Length)
      requires count > 1 ==> digits[count - 1] > 0
      modifies this`count, digits
      ensures Valid() && Value() == total
    {
      var carry, i := first, 0;
      while i < count - 1 && carry > 0
        invariant 0 <= i < count == old(count) <= digits.Length && carry <= 1
        invariant Value() + Carried(carry, i + 1) == total
        invariant count > 1 && (i < count - 1 || carry == 0) ==> digits[count - 1] > 0
      {
        i := i + 1;
        carry := AddLimb(i, 1);
      }
      if carry > 0 {
        if count == capacity {
          assert false;
        }
        PushBack(1);
      }
    }

    // The last carry of a product becomes a limb.
    method FinishProduct(k: U64, ghost product: nat)
      requires digits.Length == capacity > 1 && 1 <= count <= capacity && product < Power(digits.Length)
      requires Value() + k * Power(count) == product && (k == 0 && count > 1 ==> digits[count - 1] > 0)
      modifies this`count, digits
      ensures Valid() && Value() == product
    {
      TrivialProducts(k, Power(count));
      if k > 0 {
        MulMonotone(1, k, Power(count));
        if count == capacity {
          assert false;
        }
        PushBack(k);
      }
    }

    // The first `i` limbs of the product of `u` and the limbs `d` are in place, with the carry `k`;
    // the other limbs of `d` are untouched.
    predicate Multiplied(d: seq<U64>, i: nat, u: nat, k: nat)
      reads this, digits
    {
      && i <= count == |d| && count <= digits.Length
      && digits[i..count] == d[i..] && Val(digits[..i]) + k * Power(i) == Val(d[..i]) * u
    }

    lemma StartProduct(d: seq<U64>, u: nat)
      requires count <= digits.Length && d == digits[..count]
      ensures Multiplied(d, 0, u, 0)
    {
      assert digits[..0] == [] && d[..0] == [];
    }

    // Limb `i` of a product becomes `low`, with the carry `high`.
    method SetProductLimb(i: nat, low: U64, ghost high: nat, ghost d: seq<U64>, ghost u: nat, ghost k: nat)
      requires i < |d| && Multiplied(d, i, u, k) && high * BASE + low == d[i] * u + k
      modifies digits
      ensures Multiplied(d, i + 1, u, high) && digits[i] == low
    {
      ghost var done := digits[..i];
      ProductStep(done, d[..i], u, k, d[i], low, high);
      ghost var rest := digits[i..count];
      digits[i] := low;
      assert digits[..i + 1] == done + [low] && d[..i + 1] == d[..i] + [d[i]];
      assert digits[i + 1..count] == rest[1..] == d[i + 1..];
    }

    method MulLimbs64(u: U64)
      requires Valid() && 0 < u && Value() * u < Power(digits.Length)
      modifies this`count, digits
      ensures Valid() && Value() == old(Value()) * u
    {
      ghost var d := digits[..count];
      TrivialProducts(Value(), u);
      ghost var product: nat := Value() * u;
      var k: U64 := 0;
      var i := 0;
      StartProduct(d, u);
      while i < count
        invariant 0 <= i <= count == |d| == old(count) <= capacity && Multiplied(d, i, u, k)
        invariant i == count && k == 0 && d[|d| - 1] > 0 ==> digits[count - 1] > 0
      {
        assert digits[i] == digits[i..count][0] == d[i];
        var low, high := MulAdd64(digits[i], u, k);
        NoZeroProduct(d[i], u, k, low, high);
        SetProductLimb(i, low, high, d, u, k);
        k := high;
        i := i + 1;
      }
      assert d[..count] == d && digits[..count] == digits[..i];
      FinishProduct(k, product);
    }

    method MulU64(u: U64)
      requires Valid() && Value() * u < Power(digits.Length)
      modifies this`count, digits
      ensures Valid() && Value() == old(Value()) * u
    {
      Small();
      TrivialProducts(Value(), u);
      if u == 0 {
        Assign(0);
      } else if u == 1 {
      } else if count == 1 && digits[0] == 1 {
        Assign(u);
      } else {
        MulLimbs64(u);
      }
    }

    method MulLimbs32(u: nat)
      requires Valid() && 0 < u < WORD && Value() * u < Power(digits.Length)
      modifies this`count, digits
      ensures Valid() && Value() == old(Value()) * u
    {
      ghost var d := digits[..count];
      TrivialProducts(Value(), u);
      ghost var product: nat := Value() * u;
      var k: nat := 0;
      var i := 0;
      StartProduct(d, u);
      while i < count
        invariant 0 <= i <= count == |d| == old(count) <= capacity && k < WORD && Multiplied(d, i, u, k)
        invariant i == count && k == 0 && d[|d| - 1] > 0 ==> digits[count - 1] > 0
      {
        assert digits[i] == digits[i..count][0] == d[i];
        var low, high := MulWord(digits[i], u, k);
        NoZeroProduct(d[i], u, k, low, high);
        SetProductLimb(i, low, high, d, u, k);
        k := high;
        i := i + 1;
      }
      assert d[..count] == d && digits[..count] == digits[..i];
      FinishProduct(k, product);
    }

    method MulU32(u: nat)
      requires Valid() && u < WORD && Value() * u < Power(digits.Length)
      modifies this`count, digits
      ensures Valid() && Value() == old(Value()) * u
    {
      Small();
      TrivialProducts(Value(), u);
      if u == 0 {
        Assign(0);
      } else if u == 1 {
      } else if count == 1 && digits[0] == 1 {
        Assign(u);
      } else {
        MulLimbs32(u);
      }
    }

    // A shift inside the limbs by `s` bits and by `offset` limbs, from the top limb down.
    method ShiftBits(offset: nat, m: nat, t: nat)
      requires Valid() && Split(m, t) && count + offset < capacity && m < BASE && t < BASE
      modifies this`count, digits
      ensures digits.Length == capacity && old(count) + offset <= count <= old(count) + offset + 1
      ensures count + offset <= capacity + offset && old(count) + offset + 1 <= digits.Length
      ensures digits[..old(count) + offset + 1] == Zeros(offset) + ShiftedAll(old(digits[..count]), m, t)
      ensures count == old(count) + offset + 1 <==> digits[old(count) + offset] != 0
    {
      hide Split, ShiftedLimb, ShiftedAll, High, Val, Power;
      ghost var d := digits[..count];
      digits[count] := 0;
      var i := count;
      while i > 0
        invariant 0 <= i <= count == |d| == old(count)
        invariant forall j :: 0 <= j <= i ==> digits[j] == if j < count then d[j] else 0
        invariant forall j :: i < j <= count ==> digits[j + offset] == ShiftedLimb(d, j, m, t)
      {
        LimbShifted(d, i, digits[i], digits[i - 1], m, t);
        digits[i + offset] := digits[i] * m % BASE + digits[i - 1] / t;
        i := i - 1;
      }
      LowestShifted(d, m, t);
      digits[offset] := digits[0] * m % BASE;
      ghost var n := count;
      count := count + offset;
      if digits[count] != 0 {
        count := count + 1;
      }
      ghost var w := digits[..];
      Clear(offset);
      ShiftedIs(d, offset, m, t, w);
      assert digits[..n + offset + 1] == digits[..][..n + offset + 1];
    }

    static lemma LimbShifted(d: seq<U64>, i: nat, x: U64, y: U64, m: nat, t: nat)
      requires Split(m, t) && 0 < i <= |d| && x == (if i < |d| then d[i] else 0) && y == d[i - 1]
      ensures t > 0 && 0 <= x * m % BASE + y / t < BASE && x * m % BASE + y / t == ShiftedLimb(d, i, m, t)
    {
      ShiftSplits(x, m, t);
      ShiftSplits(y, m, t);
    }

    static lemma LowestShifted(d: seq<U64>, m: nat, t: nat)
      requires Split(m, t) && d != []
      ensures d[0] * m % BASE == ShiftedLimb(d, 0, m, t)
    {
      ShiftSplits(d[0], m, t);
    }

    static lemma ShiftedIs(d: seq<U64>, offset: nat, m: nat, t: nat, w: seq<U64>)
      requires Split(m, t) && |w| >= |d| + offset + 1
      requires forall j :: 0 <= j <= |d| ==> w[j + offset] == ShiftedLimb(d, j, m, t)
      ensures (Zeros(offset) + w[offset..])[..|d| + offset + 1] == Zeros(offset) + ShiftedAll(d, m, t)
    {
      hide ShiftedLimb, Split;
      var r, all := (Zeros(offset) + w[offset..])[..|d| + offset + 1], Zeros(offset) + ShiftedAll(d, m, t);
      forall j | 0 <= j < |r| ensures r[j] == all[j] {
        if j >= offset {
          assert w[(j - offset) + offset] == ShiftedLimb(d, j - offset, m, t);
        }
      }
    }

    // A shift by whole limbs.
    method ShiftLimbs(offset: nat)
      requires Valid() && 2 * count - 1 + offset <= capacity
      modifies this`count, digits
      ensures digits.Length == capacity && count == old(count) + offset
      ensures digits[..count] == Moved(old(digits[..]), old(count), offset)
    {
      hide Moved, Val, Power, ShiftedAll;
      ghost var w := digits[..];
      var n := count;
      CopyUp(n - 1, n, offset);
      count := n + offset;
      Clear(offset);
      MovedIs(w, n, offset);
      assert digits[..count] == digits[..][..n + offset];
    }

    // Sets the lowest limbs to zero.
    method Clear(n: nat)
      requires n <= digits.Length
      modifies digits
      ensures digits[..] == Zeros(n) + old(digits[n..])
    {
      forall j | 0 <= j < n {
        digits[j] := 0;
      }
    }

    static lemma MovedIs(w: seq<U64>, n: nat, offset: nat)
      requires 0 < n && 2 * n - 1 + offset <= |w|
      ensures (Zeros(offset) + CopiedUp(w, n - 1, n, offset)[offset..])[..n + offset] == Moved(w, n, offset)
    {
      var up := CopiedUp(w, n - 1, n, offset);
      var r := (Zeros(offset) + up[offset..])[..n + offset];
      forall j | 0 <= j < n + offset ensures r[j] == MovedLimb(w, n, offset, j) {
        if j >= offset {
          assert r[j] == up[offset..][j - offset] == up[j];
          assert up[j] == if j < n - 1 + offset then w[j] else w[n - 1..2 * n - 1][0];
        }
      }
    }

    static function CopiedUp(w: seq<U64>, from: nat, n: nat, offset: nat): (r: seq<U64>)
      requires from + n + offset <= |w|
      ensures |r| == |w|
    {
      w[..from + offset] + w[from..from + n] + w[from + offset + n..]
    }

    // Moves the `n` limbs at `from` up by `offset`, as if through a copy.
    method CopyUp(from: nat, n: nat, offset: nat)
      requires from + n + offset <= digits.Length
      modifies digits
      ensures digits[..] == CopiedUp(old(digits[..]), from, n, offset)
    {
      var block := digits[from..from + n];
      forall j | 0 <= j < n {
        digits[from + offset + j] := block[j];
      }
      assert digits[from + offset..from + offset + n] == block;
    }

    // The result of a shift inside the limbs has the exact value, and its top limb counts.
    lemma BitsShifted(d: seq<U64>, offset: nat, m: nat, t: nat)
      requires digits.Length == capacity > 1 && d != [] && d[|d| - 1] > 0 && Split(m, t)
      requires |d| + offset <= count <= |d| + offset + 1 <= capacity
      requires digits[..|d| + offset + 1] == Zeros(offset) + ShiftedAll(d, m, t)
      requires count == |d| + offset + 1 <==> digits[|d| + offset] != 0
      ensures Valid() && Value() == Val(d) * m * Power(offset)
    {
      var all := digits[..|d| + offset + 1];
      BitsValue(d, offset, m, t, all, count);
      assert all[..count] == digits[..count];
    }

    // All limbs that a left shift writes are inside the buffer.
    predicate ShiftFits(shift: nat)
      reads this
    {
      if shift % 64 == 0 then 2 * count - 1 + shift / 64 <= capacity else count + shift / 64 < capacity
    }

    // The limbs that a left shift leaves; see `Moved` for a shift by whole limbs.
    method ShiftLeft(shift: nat)
      requires Valid() && (IsZero() || shift == 0 || ShiftFits(shift))
      modifies this`count, digits
      ensures digits.Length == capacity
      ensures shift % 64 != 0 || shift == 0 || old(count) == 1 ==> Valid() && Value() == old(Value()) * Pow(2, shift)
      ensures shift % 64 == 0 && shift > 0 && old(count) > 1 ==>
                count == old(count) + shift / 64 && digits[..count] == Moved(old(digits[..]), old(count), shift / 64)
    {
      Small();
      if IsZero() || shift == 0 {
        TrivialProducts(Pow(2, shift), Value());
        TrivialProducts(Value(), Pow(2, shift));
        return;
      }
      var offset, inter := shift / 64, shift % 64;
      ghost var d, v := digits[..count], Value();
      PowPower(offset);
      PowAdd(2, inter, 64 * offset);
      if inter == 0 {
        ghost var w := digits[..];
        MovedExact(w, count, offset);
        assert w[..count] == d;
        ShiftLimbs(offset);
        if |d| == 1 {
          assert digits[..count][count - 1] == w[0] == d[0];
        }
      } else {
        SplitOf(inter);
        ShiftBits(offset, Pow(2, inter), Pow(2, 64 - inter));
        BitsShifted(d, offset, Pow(2, inter), Pow(2, 64 - inter));
        Regrouped(v, Pow(2, inter), Power(offset));
      }
    }

    // Multiplies by 5^27, or by 5^13, out of the 5^e that are to come.
    method Times27(ghost e: nat)
      requires Valid() && e >= 27 && Value() * Pow(5, e) < Power(digits.Length)
      modifies this`count, digits
      ensures Valid() && Value() * Pow(5, e - 27) == old(Value()) * Pow(5, e)
    {
      PowersOfFive();
      PowerSplits(Value(), 27, e - 27);
      MulU64(POW5_27);
    }

    method Times13(ghost e: nat)
      requires Valid() && e >= 13 && Value() * Pow(5, e) < Power(digits.Length)
      modifies this`count, digits
      ensures Valid() && Value() * Pow(5, e - 13) == old(Value()) * Pow(5, e)
    {
      PowersOfFive();
      PowerSplits(Value(), 13, e - 13);
      MulU32(POW5_13);
    }

    // Multiplies by the rest, from the table.
    method TimesTable(e: nat)
      requires Valid() && e <= 12 && Value() * Pow(5, e) < Power(digits.Length)
      modifies this`count, digits
      ensures Valid() && Value() == old(Value()) * Pow(5, e)
    {
      TrivialProducts(Value(), Pow(5, e));
      if e > 0 {
        SmallPowersOfFive(e);
        MulU32(POW5[e - 1]);
      }
    }

    method MultiplyPow5(exp: nat)
      requires Valid() && Value() * Pow(5, exp) < Power(digits.Length)
      modifies this`count, digits
      ensures Valid() && Value() == old(Value()) * Pow(5, exp)
    {
      ghost var goal := Value() * Pow(5, exp);
      var e := exp;
      while e >= 27
        invariant Valid() && 0 <= e && Value() * Pow(5, e) == goal
      {
        Times27(e);
        e := e - 27;
      }
      while e >= 13
        invariant Valid() && 0 <= e < 27 && Value() * Pow(5, e) == goal
      {
        Times13(e);
        e := e - 13;
      }
      TimesTable(e);
    }

    // A power of five in two steps: the first product is no larger than the whole.
    static lemma PowerSplits(v: nat, a: nat, b: nat)
      ensures v * Pow(5, a) * Pow(5, b) == v * Pow(5, a + b) && 0 <= v * Pow(5, a) <= v * Pow(5, a + b)
    {
      PowAdd(5, a, b);
      Regrouped(v, Pow(5, a), Pow(5, b));
      FivePositive(b);
      MulMonotone(1, Pow(5, b), v * Pow(5, a));
    }

    static lemma {:induction false} FivePositive(n: nat)
      ensures Pow(5, n) >= 1
    {
      if n > 0 {
        FivePositive(n - 1);
      }
    }

    // A number below the base to the power of the capacity less one leaves the top limb of the buffer free.
    lemma LimbFree()
      requires Valid() && Value() < Power(digits.Length - 1)
      ensures count < capacity
    {
      if count > 1 {
        ValAbove(digits[..count]);
      }
    }

    static lemma TimesTen(v: nat, e: nat)
      ensures v * Pow(5, e) * Pow(2, e) == v * Pow10(e) && 0 <= v * Pow(5, e) <= v * Pow10(e)
    {
      TenIsFiveTimesTwo(e);
      FivePositive(e);
      Regrouped(v, Pow(5, e), Pow(2, e));
      PowPositive(e);
      MulMonotone(0, v, Pow(5, e));
      MulMonotone(1, Pow(2, e), v * Pow(5, e));
    }

    // The product of `v` by 5^e leaves a limb of `n` free.
    static predicate Room(v: nat, e: nat, n: nat) {
      n > 0 && v * Pow(5, e) < Power(n - 1)
    }

    // What `v` becomes when digits are written after it.
    static function Appended(v: nat, s: Bytes): nat {
      v * Pow10(|s|) + Decimal(s)
    }

    // With a limb free after the product by 5^e there is room for the shift and for the digits.
    static lemma RoomForTen(v: nat, e: nat, u: U64, n: nat)
      requires e <= 19 && Room(v, e, n)
      ensures v * Pow10(e) + u < Power(n)
    {
      TimesTen(v, e);
      PowPositive(e);
      PowAdd(2, e, 19 - e);
      PowPositive(19 - e);
      assert Pow(2, 19) == 524288 by {
        PowAdd(2, 9, 10);
        assert Pow(2, 9) == 512 && Pow(2, 10) == 1024;
      }
      MulMonotone(1, Pow(2, 19 - e), Pow(2, e));
      ScaledBelow(v * Pow(5, e), Pow(2, e), Power(n - 1), u);
    }

    static lemma ScaledBelow(x: nat, m: nat, p: nat, u: U64)
      requires x < p && m < BASE
      ensures x * m + u < BASE * p
    {
      MulMonotone(x, p - 1, m);
      MulMonotone(m, BASE - 1, p - 1);
      assert (p - 1) * m == m * (p - 1) <= (BASE - 1) * (p - 1) == BASE * p - BASE - p + 1;
    }

    // Appends up to 19 decimal digits: the value becomes itself times 10^n plus theirs.
    method AppendDecimal64(s: Bytes)
      requires Valid() && 0 < |s| <= 19 && AllDigits(s)
      requires Room(Value(), |s|, digits.Length)
      modifies this`count, digits
      ensures Valid() && Value() == Appended(old(Value()), s)
    {
      var u := ParseUint64(s);
      Small();
      TrivialProducts(Value(), Pow10(|s|));
      if IsZero() {
        Assign(u);
      } else {
        RoomForTen(Value(), |s|, u, digits.Length);
        MultiplyTen(|s|);
        AddU64(u);
      }
    }

    // Multiplies by 10^e, as 5^e and then e bits.
    method MultiplyTen(e: nat)
      requires Valid() && 0 < e <= 19 && Value() * Pow(5, e) < Power(digits.Length - 1)
      modifies this`count, digits
      ensures Valid() && Value() == old(Value()) * Pow10(e)
    {
      TimesTen(Value(), e);
      MultiplyFive(e);
      assert e / 64 == 0 && e % 64 == e;
      ShiftLeft(e);
    }

    // Multiplies by 5^e when there is room for more.
    method MultiplyFive(e: nat)
      requires Valid() && Value() * Pow(5, e) < Power(digits.Length - 1)
      modifies this`count, digits
      ensures Valid() && Value() == old(Value()) * Pow(5, e) && count < capacity
    {
      PowerMonotone(digits.Length - 1, digits.Length);
      MultiplyPow5(e);
      LimbFree();
    }

    // How many digits the last of the chunks of 19 has.
    static function LastChunk(n: nat): (e: nat)
      requires n > 0
      ensures 1 <= e <= 19 && e <= n && (n - e) % 19 == 0
    {
      (n - 1) % 19 + 1
    }

    // What the digits before the last chunk denote, times five once for each digit of that chunk,
    // leaves a limb of `n` free: the source stays inside its buffer.
    static predicate Fits(decimals: Bytes, n: nat)
      requires decimals != [] && n > 0
    {
      var e := LastChunk(|decimals|);
      Room(Decimal(decimals[..|decimals| - e]), e, n)
    }

    static lemma {:induction false} Pow10Chunks(k: nat)
      ensures Pow10(19 * k) <= Power(k)
    {
      if k > 0 {
        Pow10Chunks(k - 1);
        NineteenDigits();
        Pow10Sum(19, 19 * (k - 1));
        MulMonotone(Pow10(19), BASE, Pow10(19 * (k - 1)));
        MulMonotone(Pow10(19 * (k - 1)), Power(k - 1), BASE);
      }
    }

    static lemma {:induction false} Pow10Sum(m: nat, n: nat)
      ensures Pow10(m + n) == Pow10(m) * Pow10(n)
    {
      if m > 0 {
        Pow10Sum(m - 1, n);
        assert 10 * (Pow10(m - 1) * Pow10(n)) == 10 * Pow10(m - 1) * Pow10(n);
      }
    }

    // Nineteen digits for each limb but one always fit.
    static lemma DigitsFit(decimals: Bytes, n: nat)
      requires decimals != [] && AllDigits(decimals) && n > 0 && |decimals| <= 19 * (n - 1)
      ensures Fits(decimals, n)
    {
      hide Pow10, Power, Pow, Decimal, LastChunk;
      var e := LastChunk(|decimals|);
      var front := decimals[..|decimals| - e];
      DecimalBelow(front);
      Pow10Monotone(|decimals|, 19 * (n - 1));
      Pow10Chunks(n - 1);
      RoomBelow(Decimal(front), |front|, e, n);
    }

    static lemma RoomBelow(v: nat, m: nat, e: nat, n: nat)
      requires v < Pow10(m) && n > 0 && Pow10(m + e) <= Power(n - 1)
      ensures Room(v, e, n)
    {
      hide Pow10, Power, Pow;
      TimesTen(v, e);
      Pow10Sum(m, e);
      MulMonotone(v + 1, Pow10(m), Pow10(e));
      assert (v + 1) * Pow10(e) == v * Pow10(e) + Pow10(e);
    }

    // The exact value of any string of decimal digits for which the buffer suffices, in chunks of
    // 19 digits.
    constructor FromDecimal(decimals: Bytes)
      requires decimals != [] && AllDigits(decimals) && Fits(decimals, CAPACITY)
      ensures Valid() && Value() == Decimal(decimals) && fresh(digits) && capacity == CAPACITY
    {
      capacity := CAPACITY;
      digits := new U64[CAPACITY](_ => 0);
      count := 1;
      new;
      Small();
      ReadDecimal(decimals);
    }

    method ReadDecimal(decimals: Bytes)
      requires Valid() && Value() == 0 && decimals != [] && AllDigits(decimals)
      requires Fits(decimals, digits.Length)
      modifies this`count, digits
      ensures Valid() && Value() == Decimal(decimals)
    {
      assert decimals[..0] == [] && Decimal(decimals[..0]) == 0;
      hide *;
      var i := 0;
      ghost var k := 0;
      while |decimals| - i >= 19
        invariant 0 <= i <= |decimals| && i == 19 * k && Valid() && Value() == Decimal(decimals[..i])
      {
        ChunkFits(decimals, i, 19, k, digits.Length);
        AppendDecimal64(decimals[i..i + 19]);
        i := i + 19;
        k := k + 1;
      }
      if i < |decimals| {
        ChunkFits(decimals, i, |decimals| - i, k, digits.Length);
        assert decimals[i..] == decimals[i..i + (|decimals| - i)];
        AppendDecimal64(decimals[i..]);
      }
      assert decimals[..|decimals|] == decimals;
    }

    // Digits before a chunk and digits of it, and that the last chunk leaves room for all before it.
    static lemma {:induction false} ChunkFits(d: Bytes, i: nat, n: nat, k: nat, limbs: nat)
      requires i < i + n <= |d| && i == 19 * k && (n == 19 || (n < 19 && i + n == |d|))
      requires limbs > 0 && Fits(d, limbs) && AllDigits(d)
      ensures AllDigits(d[i..i + n])
      ensures Decimal(d[..i + n]) == Appended(Decimal(d[..i]), d[i..i + n])
      ensures Room(Decimal(d[..i]), n, limbs)
    {
      hide Decimal, Pow, Pow10, Power, Room;
      assert d[..i + n] == d[..i] + d[i..i + n];
      DecimalConcat(d[..i], d[i..i + n]);
      var e := LastChunk(|d|);
      if i + n == |d| {
        assert n == e;
      } else {
        var before, front := d[..i + n], d[..|d| - e];
        assert i + n <= |d| - e;
        assert front == before + front[i + n..];
        DecimalGrows(before, front[i + n..]);
        RoomEarlier(Decimal(d[..i]), n, Decimal(front), e, limbs);
      }
    }

    // A smaller number has room when a larger one, with the digits of `v` before its own, has.
    static lemma RoomEarlier(v: nat, n: nat, w: nat, e: nat, limbs: nat)
      requires v * Pow10(n) <= w && Room(w, e, limbs)
      ensures Room(v, n, limbs)
    {
      hide Pow, Pow10, Power;
      TimesTen(v, n);
      FivePositive(e);
      MulMonotone(1, Pow(5, e), w);
    }
  }
}
