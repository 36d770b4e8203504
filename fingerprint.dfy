/** Tour fingerprint: the power table, the positional weighted sum and the
    rotation to node 0 of lin_kernighan/algorithms/utils/hash.py.

    Arithmetic is done on unbounded integers. Where numpy works on 64-bit
    integers, the model says so: a Python integer stored into the int64 table
    must fit (Overflow otherwise), and the element-wise product and the sum
    wrap around explicitly (Wrap64). Python's and numpy's `%`, which round the
    quotient towards minus infinity, are written out as FloorMod. */
module Fingerprint {

  /** The exceptions the hashing code can raise: the ValueError of np.zeros
      for a negative size, the IndexError of writing entry 0 or 1 of a shorter
      table, the OverflowError of a Python integer that does not fit in int64,
      and the ZeroDivisionError of `% 0`. */
  datatype Error = NegativeSize | IndexOutOfBounds | Overflow | ZeroDivision

  datatype Result<T> = Success(value: T) | Failure(error: Error)

  /** Default base and modulus of generate_hash. */
  const DefaultNumber: int := 333667
  const DefaultModule: int := 909090909090909091

  const TwoTo63: int := 0x8000_0000_0000_0000
  const TwoTo64: int := 0x1_0000_0000_0000_0000

  // ---------------------------------------------------------------------
  // Arithmetic of the source language
  // ---------------------------------------------------------------------

  /** Python's `a % m`: the remainder takes the sign of the divisor. */
  function FloorMod(a: int, m: int): (r: int)
    requires m != 0
    ensures m > 0 ==> 0 <= r < m
    ensures m < 0 ==> m < r <= 0
  {
    if m > 0 then a % m else -((-a) % (-m))
  }

  /** FloorMod(a, m) differs from `a` by a multiple of `m`: with the range
      above, this pins it down as the remainder of `a`. */
  lemma FloorModIsCongruent(a: int, m: int)
    requires m != 0
    ensures (a - FloorMod(a, m)) % (if m > 0 then m else -m) == 0
  {
    if m > 0 {
      RemainderCongruent(a, m);
    } else {
      RemainderCongruent(-a, -m);
    }
  }

  predicate InInt64(x: int) {
    -TwoTo63 <= x < TwoTo63
  }

  /** Two's-complement wrap-around of a numpy int64 result: the int64 value
      that differs from x by a multiple of 2^64. */
  function Wrap64(x: int): (r: int)
    ensures InInt64(r)
    ensures (x - r) % TwoTo64 == 0
    ensures InInt64(x) ==> r == x
  {
    MultipleMod(TwoTo64, (x + TwoTo63) / TwoTo64);
    (x + TwoTo63) % TwoTo64 - TwoTo63
  }

  function Pow(b: int, e: nat): (p: int) {
    if e == 0 then 1 else b * Pow(b, e - 1)
  }

  function Pow2(i: nat): (p: nat)
    ensures p >= 1
  {
    if i == 0 then 1 else 2 * Pow2(i - 1)
  }

  // ---------------------------------------------------------------------
  // generate_degrees
  // ---------------------------------------------------------------------

  /** One step of the loop of generate_degrees, `number * number % module`:
      a remainder of the square, of the sign of the modulus. */
  function SquareMod(x: int, modulus: int): (r: int)
    requires modulus != 0
    ensures modulus > 0 ==> 0 <= r < modulus
    ensures modulus < 0 ==> modulus < r <= 0
    ensures (x * x - r) % (if modulus > 0 then modulus else -modulus) == 0
  {
    FloorModIsCongruent(x * x, modulus);
    FloorMod(x * x, modulus)
  }

  /** The value of `number` after i rounds of that step. From the first round
      on it is a remainder modulo `modulus`. */
  function Squared(number: int, modulus: int, i: nat): (r: int)
    requires modulus != 0
    ensures i >= 1 && modulus > 0 ==> 0 <= r < modulus
    ensures i >= 1 && modulus < 0 ==> modulus < r <= 0
  {
    if i == 0 then number else SquareMod(Squared(number, modulus, i - 1), modulus)
  }

  /** The table generate_degrees returns, or the error it raises:
      - np.zeros raises ValueError for a negative size;
      - the writes to entries 0 and 1 raise IndexError when size is 0 or 1;
      - storing `number` into entry 1 raises OverflowError when it does not fit in int64;
      - the first squaring of the loop divides by zero when modulus == 0;
      - storing a squared value that does not fit in int64 raises OverflowError.
      Entry 0 is the literal 1 (not reduced), entry i >= 1 is `number` squared i times. */
  function Degrees(number: int, modulus: int, size: int): (r: Result<seq<int>>)
    ensures size < 0 ==> r == Failure(NegativeSize)
    ensures 0 <= size < 2 ==> r == Failure(IndexOutOfBounds)
    ensures size >= 2 && !InInt64(number) ==> r == Failure(Overflow)
    ensures size >= 2 && InInt64(number) && modulus == 0 ==> r == Failure(ZeroDivision)
    ensures size >= 2 && InInt64(number) && InInt64(modulus) && modulus != 0 ==> r.Success?
    ensures r.Success? ==> |r.value| == size && r.value[0] == 1
    ensures r.Success? ==> forall i | 0 <= i < size :: InInt64(r.value[i])
  {
    if size < 0 then Failure(NegativeSize)
    else if size < 2 then Failure(IndexOutOfBounds)
    else if !InInt64(number) then Failure(Overflow)
    else if modulus == 0 then Failure(ZeroDivision)
    else if exists i | 1 <= i < size :: !InInt64(Squared(number, modulus, i)) then Failure(Overflow)
    else Success(SquaringTable(number, modulus, size))
  }

  /** Entry i >= 1 of the table is number^(2^i) mod modulus, and with
      modulus > 1 every entry lies in [0, modulus). */
  lemma DegreesArePowersOfPowersOfTwo(number: int, modulus: int, size: int)
    requires modulus > 0 && Degrees(number, modulus, size).Success?
    ensures forall i | 1 <= i < size :: Degrees(number, modulus, size).value[i] == Pow(number, Pow2(i)) % modulus
    ensures modulus > 1 ==> forall i | 0 <= i < size :: 0 <= Degrees(number, modulus, size).value[i] < modulus
  {
    var table := Degrees(number, modulus, size).value;
    forall i | 1 <= i < size ensures table[i] == Pow(number, Pow2(i)) % modulus {
      SquaredIsPowerOfPowerOfTwo(number, modulus, i);
    }
  }

  /** [1, Squared(1), ..., Squared(size - 1)]: what the loop of generate_degrees writes. */
  function SquaringTable(number: int, modulus: int, size: nat): (table: seq<int>)
    requires modulus != 0 && size >= 1
    ensures |table| == size && table[0] == 1
    ensures forall i | 1 <= i < size :: table[i] == Squared(number, modulus, i)
  {
    [1] + seq(size - 1, k requires 0 <= k < size - 1 => Squared(number, modulus, k + 1))
  }

  /** The loop of generate_degrees squares repeatedly, so entry i is
      number^(2^i) mod modulus, not the number^i its comment announces. */
  lemma {:induction false} SquaredIsPowerOfPowerOfTwo(number: int, modulus: int, i: nat)
    requires modulus > 0 && i >= 1
    ensures Squared(number, modulus, i) == Pow(number, Pow2(i)) % modulus
  {
    var e := Pow2(i - 1);
    PowAdd(number, e, e);
    assert Pow2(i) == e + e;
    if i == 1 {
      assert Pow(number, 1) == number;
      assert Pow(number, Pow2(i)) == number * number;
    } else {
      SquaredIsPowerOfPowerOfTwo(number, modulus, i - 1);
      var p := Pow(number, e);
      assert Squared(number, modulus, i - 1) == p % modulus;
      ModOfProductOfMods(p, p, modulus);
    }
  }

  /** The comment of generate_degrees promises [1, number, number^2, ...]:
      with number 2 and modulus 1000 the third entry is 16, not 4. */
  lemma DegreesAreNotPlainPowers()
    ensures Degrees(2, 1000, 3).Success?
    ensures Degrees(2, 1000, 3).value[2] == 16
    ensures Pow(2, 2) % 1000 == 4
  {
    assert Squared(2, 1000, 1) == 4;
    assert Squared(2, 1000, 2) == 16;
  }

  /** generate_degrees, filling the table in place. */
  method GenerateDegrees(number: int, modulus: int, size: int) returns (r: Result<seq<int>>)
    ensures r == Degrees(number, modulus, size)
  {
    if size < 0 {
      return Failure(NegativeSize);
    }
    var nums := new int[size];
    if size < 2 {
      return Failure(IndexOutOfBounds);
    }
    nums[0] := 1;
    if !InInt64(number) {
      return Failure(Overflow);
    }
    nums[1] := number;
    if modulus == 0 {
      // the first squaring of the loop divides by zero
      return Failure(ZeroDivision);
    }
    var fits := FillSquares(nums, number, modulus);
    if !fits {
      return Failure(Overflow);
    }
    IsSquaringTable(nums[..], number, modulus);
    return Success(nums[..]);
  }

  /** The loop of generate_degrees: entry i >= 1 receives `number` squared i
      times, and the loop stops at the first value that does not fit in int64. */
  method FillSquares(nums: array<int>, number: int, modulus: int) returns (fits: bool)
    requires modulus != 0 && nums.Length >= 1
    modifies nums
    ensures fits <==> forall k | 1 <= k < nums.Length :: InInt64(Squared(number, modulus, k))
    ensures nums[0] == old(nums[0])
    ensures fits ==> forall k | 1 <= k < nums.Length :: nums[k] == Squared(number, modulus, k)
  {
    var x := number;
    for i := 1 to nums.Length
      invariant nums[0] == old(nums[0])
      invariant x == Squared(number, modulus, i - 1)
      invariant forall k | 1 <= k < i :: nums[k] == Squared(number, modulus, k) && InInt64(nums[k])
    {
      x := SquareMod(x, modulus);
      if !InInt64(x) {
        assert x == Squared(number, modulus, i);
        return false;
      }
      nums[i] := x;
    }
    return true;
  }

  lemma IsSquaringTable(s: seq<int>, number: int, modulus: int)
    requires modulus != 0 && |s| >= 1 && s[0] == 1
    requires forall k | 1 <= k < |s| :: s[k] == Squared(number, modulus, k)
    ensures s == SquaringTable(number, modulus, |s|)
  {
  }

  // ---------------------------------------------------------------------
  // generate_hash_from
  // ---------------------------------------------------------------------

  /** One entry of `tour * degrees % modulus`: the int64 product, reduced by
      floor mod. */
  function Term(node: int, degree: int, modulus: int): (r: int)
    requires modulus != 0
    ensures modulus > 0 ==> 0 <= r < modulus
    ensures (Wrap64(node * degree) - r) % (if modulus > 0 then modulus else -modulus) == 0
  {
    FloorModIsCongruent(Wrap64(node * degree), modulus);
    FloorMod(Wrap64(node * degree), modulus)
  }

  /** Sum of the first k entries of `tour * degrees % modulus`, before numpy's
      64-bit wrap-around: each entry adds at most modulus - 1. */
  function TermSum(tour: seq<int>, degrees: seq<int>, modulus: int, k: nat): (s: int)
    requires modulus != 0 && k <= |tour| == |degrees|
    ensures modulus > 0 ==> 0 <= s <= k * (modulus - 1)
  {
    if k == 0 then 0
    else TermSum(tour, degrees, modulus, k - 1) + Term(tour[k - 1], degrees[k - 1], modulus)
  }

  /** generate_hash_from: `(tour * degrees % modulus).sum() % modulus`, where
      the numpy sum wraps at 64 bits. Besides the errors of generate_degrees,
      numpy refuses a modulus that does not fit in int64 (OverflowError). */
  function GenerateHashFrom(tour: seq<int>, number: int, modulus: int): (r: Result<int>)
    ensures r.Failure? <==> |tour| < 2 || modulus == 0 || !InInt64(number) || !InInt64(modulus)
    ensures |tour| < 2 ==> r == Failure(IndexOutOfBounds)
    ensures |tour| >= 2 && !InInt64(number) ==> r == Failure(Overflow)
    ensures r.Success? && modulus > 0 ==> 0 <= r.value < modulus
    ensures r.Success? && modulus < 0 ==> modulus < r.value <= 0
  {
    match Degrees(number, modulus, |tour|)
    case Failure(e) => Failure(e)
    case Success(degrees) =>
      if !InInt64(modulus) then Failure(Overflow)
      else Success(FloorMod(Wrap64(TermSum(tour, degrees, modulus, |tour|)), modulus))
  }

  /** The exponent that entry i of the power table carries. */
  function Exponent(i: nat): (e: nat) {
    if i == 0 then 0 else Pow2(i)
  }

  /** Reference polynomial: sum of tour[i] * number^Exponent(i) over the first k nodes. */
  function PolySum(tour: seq<int>, number: int, k: nat): (s: int)
    requires k <= |tour|
  {
    if k == 0 then 0 else PolySum(tour, number, k - 1) + tour[k - 1] * Pow(number, Exponent(k - 1))
  }

  /** The arguments on which generate_hash_from succeeds with a positive modulus. */
  predicate HashableWith(tour: seq<int>, number: int, modulus: int) {
    |tour| >= 2 && InInt64(number) && 0 < modulus < TwoTo63
  }

  /** No numpy int64 product or partial sum leaves the 64-bit range. */
  predicate NoWrap(tour: seq<int>, number: int, modulus: int)
    requires HashableWith(tour, number, modulus)
  {
    var degrees := Degrees(number, modulus, |tour|).value;
    (forall i | 0 <= i < |tour| :: InInt64(tour[i] * degrees[i]))
    && InInt64(TermSum(tour, degrees, modulus, |tour|))
  }

  /** When nothing wraps around, the hash is the polynomial
      sum of tour[i] * number^Exponent(i), reduced mod modulus. */
  lemma HashFromMatchesPolynomial(tour: seq<int>, number: int, modulus: int)
    requires HashableWith(tour, number, modulus)
    requires NoWrap(tour, number, modulus)
    ensures GenerateHashFrom(tour, number, modulus) == Success(PolySum(tour, number, |tour|) % modulus)
  {
    var degrees := Degrees(number, modulus, |tour|).value;
    TermSumIsPolynomial(tour, number, modulus, degrees, |tour|);
  }

  lemma {:induction false} TermSumIsPolynomial(tour: seq<int>, number: int, modulus: int, degrees: seq<int>, k: nat)
    requires HashableWith(tour, number, modulus) && k <= |tour|
    requires degrees == Degrees(number, modulus, |tour|).value
    requires forall i | 0 <= i < |tour| :: InInt64(tour[i] * degrees[i])
    ensures TermSum(tour, degrees, modulus, k) % modulus == PolySum(tour, number, k) % modulus
  {
    if k > 0 {
      var i := k - 1;
      TermSumIsPolynomial(tour, number, modulus, degrees, i);
      TermIsReducedMonomial(tour, number, modulus, degrees, i);
      AddCongruent(TermSum(tour, degrees, modulus, i), PolySum(tour, number, i),
                   tour[i] * Pow(number, Exponent(i)), modulus);
    }
  }

  /** Adding t mod m to one of two congruent numbers and t to the other keeps them congruent. */
  lemma AddCongruent(s: int, p: int, t: int, m: int)
    requires m > 0 && s % m == p % m
    ensures (s + t % m) % m == (p + t) % m
  {
    calc {
      (s + t % m) % m;
      { ModOfSumOfMods(s, t, m); }
      (t + s) % m;
      { ModOfSumOfMods(t, s, m); }
      (t + s % m) % m;
      (t + p % m) % m;
      { ModOfSumOfMods(t, p, m); }
      (p + t) % m;
    }
  }

  lemma TermIsReducedMonomial(tour: seq<int>, number: int, modulus: int, degrees: seq<int>, i: nat)
    requires HashableWith(tour, number, modulus) && i < |tour|
    requires degrees == Degrees(number, modulus, |tour|).value
    requires InInt64(tour[i] * degrees[i])
    ensures Term(tour[i], degrees[i], modulus) == (tour[i] * Pow(number, Exponent(i))) % modulus
  {
    if i > 0 {
      SquaredIsPowerOfPowerOfTwo(number, modulus, i);
      ModOfProductWithMod(tour[i], Pow(number, Pow2(i)), modulus);
    }
  }

  // ---------------------------------------------------------------------
  // generate_hash
  // ---------------------------------------------------------------------

  /** Index of the first occurrence of x in t. */
  function FirstIndex(t: seq<int>, x: int): (k: nat)
    requires x in t
    ensures k < |t| && t[k] == x
    ensures forall j | 0 <= j < k :: t[j] != x
  {
    if t[0] == x then 0 else 1 + FirstIndex(t[1..], x)
  }

  /** The tour read from position k onwards, wrapping around. */
  function Rotate(t: seq<int>, k: nat): (r: seq<int>)
    requires k <= |t|
    ensures |r| == |t|
    ensures forall i | 0 <= i < |t| :: r[i] == t[(k + i) % |t|]
  {
    RotationIndices(t, k);
    t[k..] + t[..k]
  }

  lemma RotationIndices(t: seq<int>, k: nat)
    requires k <= |t|
    ensures forall i | 0 <= i < |t| :: (t[k..] + t[..k])[i] == t[(k + i) % |t|]
  {
    forall i | 0 <= i < |t| ensures (t[k..] + t[..k])[i] == t[(k + i) % |t|] {
      ModSmall(k + i, |t|);
    }
  }

  /** rotate_zero: a rotation of the tour that puts the first node 0 in front;
      a tour without node 0 is left as it is. */
  function RotateZero(t: seq<int>): (r: seq<int>)
    ensures |r| == |t|
    ensures 0 in t ==> r[0] == 0
    ensures 0 !in t ==> r == t
  {
    if 0 in t then
      var k := FirstIndex(t, 0);
      RotateAtWrapped(t, k, 0, k);
      Rotate(t, k)
    else
      t
  }

  /** What rotate_zero returns is always a rotation of the tour. */
  lemma RotateZeroIsRotation(t: seq<int>)
    ensures exists k | 0 <= k <= |t| :: RotateZero(t) == Rotate(t, k)
  {
    if 0 in t {
      assert RotateZero(t) == Rotate(t, FirstIndex(t, 0));
    } else {
      RotateByNothing(t);
      assert RotateZero(t) == Rotate(t, 0);
    }
  }

  lemma RotateByNothing(t: seq<int>)
    ensures Rotate(t, 0) == t
  {
    assert t[0..] + t[..0] == t;
  }

  /** generate_hash: the hash of the tour rotated to start at node 0. */
  function GenerateHash(tour: seq<int>, number: int, modulus: int): (r: Result<int>)
    ensures r.Failure? <==> |tour| < 2 || modulus == 0 || !InInt64(number) || !InInt64(modulus)
    ensures r.Success? && modulus > 0 ==> 0 <= r.value < modulus
  {
    GenerateHashFrom(RotateZero(tour), number, modulus)
  }

  /** generate_hash with its default base 333667 and modulus 909090909090909091. */
  function TourHash(tour: seq<int>): (r: Result<int>)
    ensures r.Failure? <==> |tour| < 2
    ensures r.Success? ==> 0 <= r.value < DefaultModule
  {
    GenerateHash(tour, DefaultNumber, DefaultModule)
  }

  /** Node 0 occurs exactly once, as in every tour over nodes 0 .. n-1. */
  predicate ZeroOnce(t: seq<int>) {
    0 in t && forall i, j | 0 <= i < |t| && 0 <= j < |t| && t[i] == 0 && t[j] == 0 :: i == j
  }

  /** Where node 0 sits once a tour with a single node 0 at position p is
      rotated to start at position k. */
  lemma FirstZeroOfRotation(t: seq<int>, k: nat, p: nat)
    requires k <= |t| && ZeroOnce(t) && p == FirstIndex(t, 0)
    ensures 0 in Rotate(t, k)
    ensures FirstIndex(Rotate(t, k), 0) == if p >= k then p - k else p - k + |t|
  {
    var n := |t|;
    var r := Rotate(t, k);
    var q := if p >= k then p - k else p - k + n;
    assert r[q] == 0 by {
      RotateAtWrapped(t, k, q, p);
    }
    var f := FirstIndex(r, 0);
    assert f <= q;
    var g := if k + f < n then k + f else k + f - n;
    assert t[g] == 0 by {
      RotateAtWrapped(t, k, f, g);
    }
    assert g == p;
  }

  /** Position i of the tour rotated by k is position j of the original,
      when k + i is j or j + |t|. */
  lemma RotateAtWrapped(t: seq<int>, k: nat, i: nat, j: nat)
    requires k <= |t| && i < |t| && j < |t|
    requires k + i == j || k + i == j + |t|
    ensures Rotate(t, k)[i] == t[j]
  {
    ModSmall(k + i, |t|);
  }

  /** Two tours that differ only in their starting point have the same image
      under rotate_zero ... */
  lemma RotateZeroOfRotation(t: seq<int>, k: nat)
    requires k <= |t| && ZeroOnce(t)
    ensures RotateZero(Rotate(t, k)) == RotateZero(t)
  {
    var p := FirstIndex(t, 0);
    FirstZeroOfRotation(t, k, p);
    var q := if p >= k then p - k else p - k + |t|;
    RotatedTwice(t, k, q, p);
  }

  /** Rotating by k and then by q is rotating by p, when k + q is p or p + |t|. */
  lemma RotatedTwice(t: seq<int>, k: nat, q: nat, p: nat)
    requires k <= |t| && q < |t| && p < |t|
    requires k + q == p || k + q == p + |t|
    ensures Rotate(Rotate(t, k), q) == Rotate(t, p)
  {
    forall i | 0 <= i < |t| ensures Rotate(Rotate(t, k), q)[i] == Rotate(t, p)[i] {
      RotatedTwiceAt(t, k, q, p, i);
    }
  }

  lemma RotatedTwiceAt(t: seq<int>, k: nat, q: nat, p: nat, i: nat)
    requires k <= |t| && q < |t| && p < |t| && i < |t|
    requires k + q == p || k + q == p + |t|
    ensures Rotate(Rotate(t, k), q)[i] == Rotate(t, p)[i]
  {
    var n := |t|;
    ModSmall(q + i, n);
    ModSmall(k + (q + i) % n, n);
    ModSmall(p + i, n);
  }

  /** ... so generate_hash does not depend on where the tour starts. */
  lemma GenerateHashRotationInvariant(t: seq<int>, k: nat, number: int, modulus: int)
    requires k <= |t| && ZeroOnce(t)
    ensures GenerateHash(Rotate(t, k), number, modulus) == GenerateHash(t, number, modulus)
  {
    RotateZeroOfRotation(t, k);
  }

  // ---------------------------------------------------------------------
  // Modular arithmetic
  // ---------------------------------------------------------------------

  lemma {:induction false} PowAdd(b: int, e1: nat, e2: nat)
    ensures Pow(b, e1 + e2) == Pow(b, e1) * Pow(b, e2)
  {
    if e1 > 0 {
      PowAdd(b, e1 - 1, e2);
      assert Pow(b, e1 + e2) == b * Pow(b, e1 - 1 + e2);
    }
  }

  /** Euclidean division is unique. */
  lemma DivModUnique(n: int, m: int, q: int, r: int)
    requires m > 0 && 0 <= r < m && n == m * q + r
    ensures n % m == r && n / m == q
  {
    var d := q - n / m;
    assert m * d == n % m - r;
    MultipleIsZeroOrLarge(m, d);
  }

  lemma MultipleIsZeroOrLarge(m: int, d: int)
    requires m > 0
    ensures d == 0 || m * d >= m || m * d <= -m
  {
    if d > 0 {
      assert m * d == m * (d - 1) + m;
      assert m * (d - 1) >= 0;
    } else if d < 0 {
      assert m * d == -(m * (-d - 1)) - m;
      assert m * (-d - 1) >= 0;
    }
  }

  lemma ModOfMod(a: int, m: int)
    requires m > 0
    ensures (a % m) % m == a % m
  {
    DivModUnique(a % m, m, 0, a % m);
  }

  lemma ModOfSumOfMods(a: int, b: int, m: int)
    requires m > 0
    ensures (a + b % m) % m == (a + b) % m
  {
    var qb := b / m;
    var rb := b % m;
    var qs := (a + rb) / m;
    var rs := (a + rb) % m;
    assert a + b == m * (qs + qb) + rs;
    DivModUnique(a + b, m, qs + qb, rs);
  }

  lemma ModOfProductWithMod(a: int, b: int, m: int)
    requires m > 0
    ensures (a * (b % m)) % m == (a * b) % m
  {
    var qb := b / m;
    var rb := b % m;
    var qs := (a * rb) / m;
    var rs := (a * rb) % m;
    assert a * b == a * (m * qb + rb) == m * (a * qb) + a * rb;
    assert a * b == m * (a * qb + qs) + rs;
    DivModUnique(a * b, m, a * qb + qs, rs);
  }

  lemma ModOfProductOfMods(a: int, b: int, m: int)
    requires m > 0
    ensures (a % m) * (b % m) % m == (a * b) % m
  {
    ModOfProductWithMod(a, b, m);
    ModOfProductWithMod(b % m, a, m);
    assert (b % m) * (a % m) == (a % m) * (b % m);
    assert (b % m) * a == a * (b % m);
  }

  /** a and a % n differ by a multiple of n. */
  lemma RemainderCongruent(a: int, n: int)
    requires n > 0
    ensures (a - a % n) % n == 0 && (a % n - a) % n == 0
  {
    DivModUnique(a - a % n, n, a / n, 0);
    DivModUnique(a % n - a, n, -(a / n), 0);
  }

  lemma MultipleMod(m: int, q: int)
    requires m > 0
    ensures (m * q) % m == 0
  {
    DivModUnique(m * q, m, q, 0);
  }

  lemma ModSmall(x: int, n: int)
    requires 0 <= x < 2 * n
    ensures x % n == if x < n then x else x - n
  {
    if x < n {
      DivModUnique(x, n, 0, x);
    } else {
      DivModUnique(x, n, 1, x - n);
    }
  }
}
