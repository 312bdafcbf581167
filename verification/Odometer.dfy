/** Digits counting through all ways to choose one element from each of several lists, the last digit fastest. */
module Odometer {

  ghost predicate InRange(digits: seq<int>, sizes: seq<int>) {
    |digits| == |sizes| && forall i :: 0 <= i < |digits| ==> 0 <= digits[i] < sizes[i]
  }

  ghost predicate Positive(sizes: seq<int>) {
    forall i :: 0 <= i < |sizes| ==> sizes[i] > 0
  }

  /** How many ways there are to choose. */
  ghost function Total(sizes: seq<int>): (n: int)
    requires Positive(sizes)
    ensures n > 0
  {
    if sizes == [] then 1
    else
      Product(Total(sizes[..|sizes| - 1]), sizes[|sizes| - 1]);
      Total(sizes[..|sizes| - 1]) * sizes[|sizes| - 1]
  }

  /** The digits as one number. */
  ghost function Number(digits: seq<int>, sizes: seq<int>): int
    requires |digits| == |sizes|
    decreases |digits|
  {
    var n := |digits| - 1;
    if n < 0 then 0 else Number(digits[..n], sizes[..n]) * sizes[n] + digits[n]
  }

  /** The digits of a number. */
  ghost function Digits(number: int, sizes: seq<int>): (digits: seq<int>)
    requires Positive(sizes)
    ensures |digits| == |sizes|
    decreases |sizes|
  {
    var n := |sizes| - 1;
    if n < 0 then [] else Digits(number / sizes[n], sizes[..n]) + [number % sizes[n]]
  }

  ghost predicate AllLast(digits: seq<int>, sizes: seq<int>)
    requires |digits| == |sizes|
  {
    forall i :: 0 <= i < |digits| ==> digits[i] == sizes[i] - 1
  }

  function Zeros(n: nat): (z: seq<int>)
    ensures |z| == n && forall i :: 0 <= i < n ==> z[i] == 0
  {
    seq(n, _ => 0)
  }

  lemma Product(a: int, b: int)
    ensures a > 0 && b > 0 ==> a * b > 0
  {
  }

  lemma Scaled(a: int, b: int, size: int)
    requires a < b && size > 0
    ensures a * size + size <= b * size
    decreases b - a
  {
    if a + 1 < b {
      Scaled(a, b - 1, size);
    }
    assert b * size == (b - 1) * size + size;
  }

  lemma Front(digits: seq<int>, sizes: seq<int>)
    requires digits != [] && InRange(digits, sizes)
    ensures InRange(digits[..|digits| - 1], sizes[..|digits| - 1]) && Positive(sizes)
  {
  }

  /** The number says exactly which way to choose it is: it is below the total and determines the digits. */
  lemma {:induction false} NumberDigits(digits: seq<int>, sizes: seq<int>)
    requires InRange(digits, sizes)
    ensures Positive(sizes) && 0 <= Number(digits, sizes) < Total(sizes)
    ensures Digits(Number(digits, sizes), sizes) == digits
    decreases |digits|
  {
    if digits != [] {
      var n := |digits| - 1;
      Front(digits, sizes);
      NumberDigits(digits[..n], sizes[..n]);
      var high := Number(digits[..n], sizes[..n]);
      Scaled(high, Total(sizes[..n]), sizes[n]);
      Quotient(high, sizes[n], digits[n]);
      assert digits == digits[..n] + [digits[n]];
    }
  }

  lemma Quotient(high: int, size: int, low: int)
    requires high >= 0 && 0 <= low < size
    ensures 0 <= high * size + low
    ensures (high * size + low) / size == high && (high * size + low) % size == low
  {
    Scaled(-1, high, size);
    var q, r := (high * size + low) / size, (high * size + low) % size;
    assert q * size + r == high * size + low;
    if q < high {
      Scaled(q, high, size);
    } else if q > high {
      Scaled(high, q, size);
    }
  }

  /** Every number below the total stands for a way to choose. */
  lemma {:induction false} DigitsNumber(number: int, sizes: seq<int>)
    requires Positive(sizes) && 0 <= number < Total(sizes)
    ensures InRange(Digits(number, sizes), sizes) && Number(Digits(number, sizes), sizes) == number
    decreases |sizes|
  {
    if sizes != [] {
      var n := |sizes| - 1;
      var high, low := number / sizes[n], number % sizes[n];
      assert high * sizes[n] + low == number;
      if high >= Total(sizes[..n]) {
        Scaled(Total(sizes[..n]) - 1, high, sizes[n]);
      } else if high < 0 {
        Scaled(high, 0, sizes[n]);
      }
      DigitsNumber(high, sizes[..n]);
      assert Digits(number, sizes)[..n] == Digits(high, sizes[..n]);
    }
  }

  /** Only when all digits are at their last values is there no next number. */
  lemma {:induction false} LastNumber(digits: seq<int>, sizes: seq<int>)
    requires InRange(digits, sizes) && Positive(sizes)
    ensures AllLast(digits, sizes) <==> Number(digits, sizes) == Total(sizes) - 1
    decreases |digits|
  {
    if digits != [] {
      var n := |digits| - 1;
      Front(digits, sizes);
      LastNumber(digits[..n], sizes[..n]);
      NumberDigits(digits[..n], sizes[..n]);
      var high, total := Number(digits[..n], sizes[..n]), Total(sizes[..n]);
      if high < total - 1 {
        Scaled(high, total - 1, sizes[n]);
        Scaled(total - 1, total, sizes[n]);
      } else {
        assert high * sizes[n] + sizes[n] == total * sizes[n];
      }
      assert AllLast(digits, sizes) <==> AllLast(digits[..n], sizes[..n]) && digits[n] == sizes[n] - 1;
    }
  }

  /** All zeros stand for the number zero. */
  lemma {:induction false} ZeroNumber(sizes: seq<int>)
    ensures Number(Zeros(|sizes|), sizes) == 0
    decreases |sizes|
  {
    if sizes != [] {
      var n := |sizes| - 1;
      ZeroNumber(sizes[..n]);
      assert Zeros(|sizes|)[..n] == Zeros(n);
    }
  }

  /** Raising the digit at i when all digits behind it are at their last values, and these starting over, adds one. */
  lemma {:induction false} CarryAddsOne(before: seq<int>, after: seq<int>, sizes: seq<int>, i: nat)
    requires i < |before| == |after| == |sizes|
    requires after[..i] == before[..i] && after[i] == before[i] + 1
    requires forall j :: i < j < |sizes| ==> before[j] == sizes[j] - 1 && after[j] == 0
    ensures Number(after, sizes) == Number(before, sizes) + 1
    decreases |before|
  {
    var n := |before| - 1;
    if i < n {
      assert after[..n][..i] == after[..i] == before[..n][..i];
      CarryAddsOne(before[..n], after[..n], sizes[..n], i);
      assert (Number(before[..n], sizes[..n]) + 1) * sizes[n] == Number(before[..n], sizes[..n]) * sizes[n] + sizes[n];
    }
  }
}
