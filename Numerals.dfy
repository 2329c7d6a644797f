/** Positional numerals: the digit sequence `Converter.to_base_unicode`
    builds, as a specification function, and the fold that reads a digit
    sequence back as a number. */
module Numerals {

  /** The digits of `number` in base `base`, most significant first; zero has
      no digits at all. The recursion peels off the least significant digit,
      as one turn of the conversion loop does. */
  function Digits(number: int, base: int): (ds: seq<int>)
    requires number >= 0
    requires number == 0 || base >= 2
    ensures number == 0 <==> ds == []
    ensures forall i :: 0 <= i < |ds| ==> 0 <= ds[i] < base
    ensures ds != [] ==> ds[0] != 0
    decreases number
  {
    if number == 0 then []
    else
      DivModBasics(number, base);
      Digits(number / base, base) + [number % base]
  }

  /** Horner's rule: fold the digits most significant first with
      `acc * base + digit`. */
  function FromDigits(ds: seq<int>, base: int): int {
    if ds == [] then 0
    else FromDigits(ds[..|ds| - 1], base) * base + ds[|ds| - 1]
  }

  /** Reading the digits back gives the number that was converted. */
  lemma {:induction false} FromDigitsOfDigits(number: int, base: int)
    requires number >= 0
    requires number == 0 || base >= 2
    ensures FromDigits(Digits(number, base), base) == number
  {
    if number != 0 {
      DivModBasics(number, base);
      var q, r := number / base, number % base;
      var ds := Digits(number, base);
      assert ds == Digits(q, base) + [r];
      assert ds[..|ds| - 1] == Digits(q, base);
      FromDigitsOfDigits(q, base);
      assert FromDigits(ds, base) == FromDigits(Digits(q, base), base) * base + r;
    }
  }

  /** Euclidean division by a base of at least two, on a non-negative
      number (where it agrees with Python's floor division). */
  lemma DivModBasics(n: int, base: int)
    requires n >= 0 && base >= 2
    ensures n == (n / base) * base + n % base
    ensures 0 <= n % base < base && 0 <= n / base
    ensures n > 0 ==> n / base < n
    ensures n / base == 0 <==> n < base
    ensures n < base ==> n % base == n
  {
  }

  lemma MulAtLeast(k: int, base: int)
    requires k >= 1 && base >= 0
    ensures k * base >= base
  {
  }

  /** Quotient and remainder are unique. */
  lemma DivModOf(q: int, r: int, base: int)
    requires base >= 2 && 0 <= r < base
    ensures (q * base + r) / base == q && (q * base + r) % base == r
  {
    var n := q * base + r;
    var q', r' := n / base, n % base;
    assert n == q' * base + r' && 0 <= r' < base;
    var k := q - q';
    assert k * base == r' - r;
    if k >= 1 {
      MulAtLeast(k, base);
    } else if k <= -1 {
      MulAtLeast(-k, base);
    }
  }

  /** A digit sequence with every digit below the base and no leading zero
      denotes a positive number unless it is empty. */
  lemma {:induction false} FromDigitsPositive(ds: seq<int>, base: int)
    requires base >= 2
    requires forall i :: 0 <= i < |ds| ==> 0 <= ds[i] < base
    requires ds != [] && ds[0] != 0
    ensures FromDigits(ds, base) > 0
  {
    var prefix := ds[..|ds| - 1];
    if prefix != [] {
      FromDigitsPositive(prefix, base);
    }
  }

  /** The converse round trip: a well-formed digit sequence (digits below
      the base, no leading zero) is exactly what conversion produces for the
      number it denotes, so the representation is unique. */
  lemma {:induction false} DigitsOfFromDigits(ds: seq<int>, base: int)
    requires base >= 2
    requires forall i :: 0 <= i < |ds| ==> 0 <= ds[i] < base
    requires ds == [] || ds[0] != 0
    ensures FromDigits(ds, base) >= 0
    ensures Digits(FromDigits(ds, base), base) == ds
  {
    if ds != [] {
      var prefix := ds[..|ds| - 1];
      var last := ds[|ds| - 1];
      DigitsOfFromDigits(prefix, base);
      var q := FromDigits(prefix, base);
      var n := FromDigits(ds, base);
      assert n == q * base + last;
      FromDigitsPositive(ds, base);
      DivModOf(q, last, base);
      assert n / base == q && n % base == last;
      assert Digits(n, base) == Digits(q, base) + [last];
      assert prefix + [last] == ds;
    }
  }

  lemma DivMonotone(a: int, c: int, base: int)
    requires 0 <= a <= c && base >= 2
    ensures a / base <= c / base
  {
    var qa, ra, qc, rc := a / base, a % base, c / base, c % base;
    assert a == qa * base + ra && 0 <= ra < base;
    assert c == qc * base + rc && 0 <= rc < base;
    if qa > qc {
      MulAtLeast(qa - qc, base);
    }
  }

  /** Larger positive numbers never have fewer digits. */
  lemma {:induction false} DigitsLengthMonotone(n1: int, n2: int, base: int)
    requires 1 <= n1 <= n2 && base >= 2
    ensures |Digits(n1, base)| <= |Digits(n2, base)|
    decreases n1
  {
    DivModBasics(n1, base);
    DivModBasics(n2, base);
    var q1, q2 := n1 / base, n2 / base;
    assert |Digits(n1, base)| == |Digits(q1, base)| + 1;
    assert |Digits(n2, base)| == |Digits(q2, base)| + 1;
    DivMonotone(n1, n2, base);
    if q1 >= 1 {
      DigitsLengthMonotone(q1, q2, base);
    }
  }
}
