/** Big-endian positional numerals: what math/big's SetBytes, Bytes and DivMod
    loops compute. A digit sequence is most-significant-first. */
module Radix {

  ghost predicate ValidDigits(ds: seq<nat>, base: nat) {
    forall i :: 0 <= i < |ds| ==> ds[i] < base
  }

  /** The number a digit sequence denotes. */
  function Value(ds: seq<nat>, base: nat): nat {
    if ds == [] then 0 else Value(ds[..|ds| - 1], base) * base + ds[|ds| - 1]
  }

  /** The digits of n without leading zeros; zero has none. */
  function Digits(n: nat, base: nat): (ds: seq<nat>)
    requires base >= 2
    ensures ValidDigits(ds, base)
    ensures ds != [] ==> ds[0] != 0
  {
    if n == 0 then []
    else
      QuotientIsSmaller(n, base);
      Digits(n / base, base) + [n % base]
  }

  function Zeros(k: nat): seq<nat> {
    seq(k, _ => 0)
  }

  /** How many zeros lead the sequence. */
  function LeadingZeros(ds: seq<nat>): (k: nat)
    ensures k <= |ds|
    ensures forall i :: 0 <= i < k ==> ds[i] == 0
    ensures k < |ds| ==> ds[k] != 0
  {
    if ds == [] || ds[0] != 0 then 0 else 1 + LeadingZeros(ds[1..])
  }

  lemma TimesStep(a: nat, b: nat, c: nat)
    ensures a < b ==> a * c + c <= b * c
  {
    if a < b {
      var k: nat := b - a - 1;
      assert (a + 1 + k) * c == a * c + c + k * c;
    }
  }

  /** One more digit below a multiple of the base stays below it. */
  lemma HornerBound(q: nat, r: nat, p: nat, base: nat)
    requires r < base
    ensures q < p <==> q * base + r < p * base
  {
    TimesStep(q, p, base);
    TimesStep(p, q, base);
  }

  lemma QuotientIsSmaller(n: nat, base: nat)
    requires base >= 2 && n > 0
    ensures 0 <= n / base < n
    ensures n == (n / base) * base + n % base
  {
  }

  /** A number has only one quotient and remainder. */
  lemma QuotientUnique(q: nat, r: nat, v: nat, d: nat, base: nat)
    requires r < base && d < base && q * base + r == v * base + d
    ensures q == v && r == d
  {
    TimesStep(q, v, base);
    TimesStep(v, q, base);
  }

  /** Euclidean division undoes one Horner step. */
  lemma HornerStep(v: nat, base: nat, d: nat)
    requires d < base
    ensures (v * base + d) / base == v
    ensures (v * base + d) % base == d
  {
    var x := v * base + d;
    QuotientUnique(x / base, x % base, v, d, base);
  }

  lemma {:induction false} ValueOfDigits(n: nat, base: nat)
    requires base >= 2
    ensures Value(Digits(n, base), base) == n
  {
    if n != 0 {
      QuotientIsSmaller(n, base);
      ValueOfDigits(n / base, base);
      var ds := Digits(n, base);
      assert ds[..|ds| - 1] == Digits(n / base, base);
    }
  }

  lemma {:induction false} ValuePositive(ds: seq<nat>, base: nat)
    requires base >= 2 && ds != [] && ds[0] != 0
    ensures Value(ds, base) > 0
  {
    if |ds| > 1 {
      ValuePositive(ds[..|ds| - 1], base);
      assert Value(ds[..|ds| - 1], base) * base > 0;
    }
  }

  /** A numeral with no leading zero is the one Digits produces. */
  lemma {:induction false} DigitsOfValue(ds: seq<nat>, base: nat)
    requires base >= 2 && ValidDigits(ds, base)
    requires ds != [] ==> ds[0] != 0
    ensures Digits(Value(ds, base), base) == ds
  {
    if ds != [] {
      var front, d := ds[..|ds| - 1], ds[|ds| - 1];
      DigitsOfValue(front, base);
      ValuePositive(ds, base);
      HornerStep(Value(front, base), base, d);
      assert ds == front + [d];
    }
  }

  /** Leading zeros do not change the value. */
  lemma {:induction false} ValueDropsZeros(k: nat, ds: seq<nat>, base: nat)
    ensures Value(Zeros(k) + ds, base) == Value(ds, base)
  {
    var all := Zeros(k) + ds;
    if ds != [] {
      ValueDropsZeros(k, ds[..|ds| - 1], base);
      assert all[..|all| - 1] == Zeros(k) + ds[..|ds| - 1];
    } else if k > 0 {
      ValueDropsZeros(k - 1, [], base);
      assert all[..|all| - 1] == Zeros(k - 1) + [];
    }
  }

  /** Every digit sequence is its zeros followed by the minimal numeral. */
  lemma SplitZeros(ds: seq<nat>, base: nat)
    requires base >= 2 && ValidDigits(ds, base)
    ensures ds == Zeros(LeadingZeros(ds)) + Digits(Value(ds, base), base)
  {
    var k := LeadingZeros(ds);
    var rest := ds[k..];
    assert ds == Zeros(k) + rest;
    ValueDropsZeros(k, rest, base);
    DigitsOfValue(rest, base);
  }

  /** The leading-zero count of padded minimal digits is the padding. */
  lemma {:induction false} LeadingZerosOfPadded(k: nat, rest: seq<nat>)
    requires rest != [] ==> rest[0] != 0
    ensures LeadingZeros(Zeros(k) + rest) == k
  {
    var all := Zeros(k) + rest;
    if k > 0 {
      LeadingZerosOfPadded(k - 1, rest);
      assert all[1..] == Zeros(k - 1) + rest;
    }
  }

  /** Numerals of at most `width` digits are those below base^width. */
  function Power(base: nat, width: nat): nat {
    if width == 0 then 1 else Power(base, width - 1) * base
  }

  lemma {:induction false} DigitCount(n: nat, base: nat, width: nat)
    requires base >= 2
    ensures |Digits(n, base)| <= width <==> n < Power(base, width)
  {
    if width == 0 {
    } else if n == 0 {
      DigitCount(0, base, width - 1);
      assert Power(base, width - 1) * base > 0;
    } else {
      QuotientIsSmaller(n, base);
      DigitCount(n / base, base, width - 1);
      HornerBound(n / base, n % base, Power(base, width - 1), base);
      assert Digits(n, base) == Digits(n / base, base) + [n % base];
    }
  }
}
