/** Ratios of fungible amounts: scaling amounts by them with three rounding
    modes, and exact arithmetic on them. */
module Ratio {
  import opened Wrappers
  import opened SafeMath

  type Brand = nat

  datatype NatAmount = NatAmount(brand: Brand, value: nat)

  /** A record that passes for a ratio may have a zero denominator; one made
      by `MakeRatio` has not. */
  datatype Ratio = Ratio(numerator: NatAmount, denominator: NatAmount)

  datatype RatioError = WrongBrand | ZeroDenominator | AboveOne | NotNumeric | Arith(error: ArithError)

  datatype Rounding = Floor | Ceil | Bankers

  function MakeRatio(n: nat, nBrand: Brand, d: nat, dBrand: Brand): Result<Ratio, RatioError> {
    if d == 0 then Failure(ZeroDenominator)
    else Success(Ratio(NatAmount(nBrand, n), NatAmount(dBrand, d)))
  }

  function Lift(r: Result<nat, ArithError>): Result<nat, RatioError> {
    if r.Failure? then Failure(Arith(r.error)) else Success(r.value)
  }

  /** `v` is x/y rounded down, up, or to the nearest with ties to even. */
  ghost predicate Rounded(x: nat, y: nat, mode: Rounding, v: nat) {
    match mode
    case Floor => v * y <= x < (v + 1) * y
    case Ceil => (v - 1) * y < x <= v * y
    case Bankers => NearestEven(x, y, v)
  }

  function RoundedQuotient(x: nat, y: nat, mode: Rounding): (r: Result<nat, RatioError>)
    ensures r.Success? <==> y != 0
    ensures r.Success? ==> Rounded(x, y, mode, r.value)
    ensures r.Failure? ==> r.error.Arith?
  {
    match mode
    case Floor => Lift(FloorDivide(x, y))
    case Ceil => Lift(CeilDivide(x, y))
    case Bankers => Lift(BankersDivide(x, y))
  }

  // ----------------------------------------------------- scaling amounts

  function MultiplyBy(a: NatAmount, r: Ratio, mode: Rounding): (m: Result<NatAmount, RatioError>)
    ensures m.Success? <==> a.brand == r.denominator.brand && r.denominator.value != 0
    ensures m.Success? ==> m.value.brand == r.numerator.brand
    ensures m.Success? ==> Rounded(a.value * r.numerator.value, r.denominator.value, mode, m.value.value)
    ensures m == Failure(WrongBrand) <==> a.brand != r.denominator.brand
    ensures m.Failure? ==> m.error == WrongBrand || m.error.Arith?
  {
    if a.brand != r.denominator.brand then Failure(WrongBrand)
    else
      var v :- RoundedQuotient(a.value * r.numerator.value, r.denominator.value, mode);
      Success(NatAmount(r.numerator.brand, v))
  }

  function DivideBy(a: NatAmount, r: Ratio, mode: Rounding): (m: Result<NatAmount, RatioError>)
    ensures m.Success? <==> a.brand == r.numerator.brand && r.numerator.value != 0
    ensures m.Success? ==> m.value.brand == r.denominator.brand
    ensures m.Success? ==> Rounded(a.value * r.denominator.value, r.numerator.value, mode, m.value.value)
    ensures m == Failure(WrongBrand) <==> a.brand != r.numerator.brand
    ensures m.Failure? ==> m.error == WrongBrand || m.error.Arith?
  {
    if a.brand != r.numerator.brand then Failure(WrongBrand)
    else
      var v :- RoundedQuotient(a.value * r.denominator.value, r.numerator.value, mode);
      Success(NatAmount(r.denominator.brand, v))
  }

  ghost predicate Positive(r: Ratio) {
    0 < r.numerator.value && 0 < r.denominator.value
  }

  /** Multiplying down and dividing up answer each other's question: the
      least amount that buys at least `y` is `y` divided up. */
  lemma FloorMultiplyCeilDivide(x: NatAmount, y: NatAmount, r: Ratio)
    requires Positive(r) && x.brand == r.denominator.brand && y.brand == r.numerator.brand
    ensures y.value <= MultiplyBy(x, r, Floor).value.value <==> DivideBy(y, r, Ceil).value.value <= x.value
  {
    var n, d := r.numerator.value, r.denominator.value;
    FloorGalois(x.value * n, d, y.value);
    CeilGalois(y.value * d, n, x.value);
  }

  lemma CeilMultiplyFloorDivide(x: NatAmount, y: NatAmount, r: Ratio)
    requires Positive(r) && x.brand == r.denominator.brand && y.brand == r.numerator.brand
    ensures MultiplyBy(x, r, Ceil).value.value <= y.value <==> x.value <= DivideBy(y, r, Floor).value.value
  {
    var n, d := r.numerator.value, r.denominator.value;
    CeilGalois(x.value * n, d, y.value);
    FloorGalois(y.value * d, n, x.value);
  }

  /** Scaling there and back errs on one side only, for either pairing. */
  lemma RoundTrips(x: NatAmount, y: NatAmount, r: Ratio)
    requires Positive(r) && x.brand == r.denominator.brand && y.brand == r.numerator.brand
    ensures DivideBy(MultiplyBy(x, r, Floor).value, r, Ceil).value.value <= x.value
    ensures y.value <= MultiplyBy(DivideBy(y, r, Ceil).value, r, Floor).value.value
    ensures x.value <= DivideBy(MultiplyBy(x, r, Ceil).value, r, Floor).value.value
    ensures MultiplyBy(DivideBy(y, r, Floor).value, r, Ceil).value.value <= y.value
  {
    FloorMultiplyCeilDivide(x, MultiplyBy(x, r, Floor).value, r);
    FloorMultiplyCeilDivide(DivideBy(y, r, Ceil).value, y, r);
    CeilMultiplyFloorDivide(x, MultiplyBy(x, r, Ceil).value, r);
    CeilMultiplyFloorDivide(DivideBy(y, r, Floor).value, y, r);
  }

  /** The three rounding modes are ordered, and a whole apart at most. */
  lemma ModesOrdered(x: NatAmount, r: Ratio)
    ensures MultiplyBy(x, r, Floor).Success? ==>
      MultiplyBy(x, r, Floor).value.value
      <= MultiplyBy(x, r, Bankers).value.value
      <= MultiplyBy(x, r, Ceil).value.value
      <= MultiplyBy(x, r, Floor).value.value + 1
    ensures DivideBy(x, r, Floor).Success? ==>
      DivideBy(x, r, Floor).value.value
      <= DivideBy(x, r, Bankers).value.value
      <= DivideBy(x, r, Ceil).value.value
      <= DivideBy(x, r, Floor).value.value + 1
  {
    if r.denominator.value != 0 {
      QuotientsOrdered(x.value * r.numerator.value, r.denominator.value);
    }
    if r.numerator.value != 0 {
      QuotientsOrdered(x.value * r.denominator.value, r.numerator.value);
    }
  }

  lemma QuotientsOrdered(a: nat, b: nat)
    requires b != 0
    ensures FloorDivide(a, b).value <= BankersDivide(a, b).value <= CeilDivide(a, b).value
    ensures CeilDivide(a, b).value <= FloorDivide(a, b).value + 1
  {
    BankersBetween(a, b);
    var f := FloorDivide(a, b).value;
    assert (f + 1) * b >= a;
    CeilGalois(a, b, f + 1);
  }

  lemma Cancel(a: int, b: int, k: nat)
    requires 0 < k
    ensures a * k <= b * k ==> a <= b
    ensures a * k < b * k ==> a < b
  {
    Multiples(b, a, k);
  }

  lemma ChainLower(a: nat, u: nat, d1: nat, n2: nat, d2: nat, c: nat)
    requires u * d1 <= a && c * d2 <= u * n2
    ensures c * (d1 * d2) <= a * n2
  {
    Multiples(c * d2, u * n2, d1);
    Multiples(u * d1, a, n2);
    assert c * (d1 * d2) == c * d2 * d1;
    assert u * n2 * d1 == u * d1 * n2;
  }

  lemma ChainUpper(a: nat, u: nat, d1: nat, n2: nat, d2: nat, f: nat, c: nat, k: nat)
    requires 0 < d1 && 0 < d2
    requires a < (u + 1) * d1 && u * n2 < (c + 1) * d2 && n2 <= k * d2
    requires f * (d1 * d2) <= a * n2
    ensures f <= c + k
  {
    assert f * d2 <= (u + 1) * n2 by {
      Multiples(a, (u + 1) * d1, n2);
      assert (u + 1) * d1 * n2 == (u + 1) * n2 * d1;
      assert f * (d1 * d2) == f * d2 * d1;
      Cancel(f * d2, (u + 1) * n2, d1);
    }
    assert (u + 1) * n2 == u * n2 + n2;
    assert (c + 1) * d2 + k * d2 == (c + 1 + k) * d2;
    Cancel(f, c + 1 + k, d2);
  }

  /** Two chained multiplications rounded down fall short of one by the
      product, by the second ratio rounded up at most. */
  lemma ChainedFloor(x: nat, n1: nat, d1: nat, n2: nat, d2: nat)
    requires 0 < d1 && 0 < d2
    ensures 0 < d1 * d2
    ensures
      var step := FloorDivide(x * n1, d1).value;
      var chained := FloorDivide(step * n2, d2).value;
      var direct := FloorDivide(x * (n1 * n2), d1 * d2).value;
      chained <= direct <= chained + CeilDivide(n2, d2).value
  {
    assert 0 < d1 * d2;
    var u := FloorDivide(x * n1, d1).value;
    var c := FloorDivide(u * n2, d2).value;
    var f := FloorDivide(x * (n1 * n2), d1 * d2).value;
    assert x * (n1 * n2) == x * n1 * n2;
    ChainLower(x * n1, u, d1, n2, d2, c);
    FloorGalois(x * (n1 * n2), d1 * d2, c);
    ChainUpper(x * n1, u, d1, n2, d2, f, c, CeilDivide(n2, d2).value);
  }

  /** The same for amounts and an exchange through a third brand. */
  lemma ChainedFloorMultiply(x: NatAmount, r1: Ratio, r2: Ratio)
    requires Finite(r1) && Finite(r2)
    requires x.brand == r1.denominator.brand && r1.numerator.brand == r2.denominator.brand
    ensures
      var product := Ratio(
        NatAmount(r2.numerator.brand, r1.numerator.value * r2.numerator.value),
        NatAmount(r1.denominator.brand, r1.denominator.value * r2.denominator.value));
      var chained := MultiplyBy(MultiplyBy(x, r1, Floor).value, r2, Floor);
      var direct := MultiplyBy(x, product, Floor);
      && chained.Success? && direct.Success? && chained.value.brand == direct.value.brand
      && chained.value.value <= direct.value.value
      && direct.value.value <= chained.value.value + CeilDivide(r2.numerator.value, r2.denominator.value).value
  {
    ChainedFloor(x.value, r1.numerator.value, r1.denominator.value, r2.numerator.value, r2.denominator.value);
  }

  // -------------------------------------------------- exact arithmetic

  /** The rational number a ratio stands for. */
  ghost function Value(r: Ratio): real
    requires r.denominator.value != 0
  {
    r.numerator.value as real / r.denominator.value as real
  }

  /** A ratio is determined by cross-multiplication. */
  lemma ValueIs(r: Ratio, q: real)
    requires r.denominator.value != 0
    ensures Value(r) == q <==> q * r.denominator.value as real == r.numerator.value as real
  {
    var n, d := r.numerator.value as real, r.denominator.value as real;
    assert n / d * d == n;
    if q * d == n {
      assert (n / d - q) * d == 0.0;
    }
  }

  predicate SingleBrand(r: Ratio) {
    r.numerator.brand == r.denominator.brand
  }

  predicate SameBrands(l: Ratio, r: Ratio) {
    l.numerator.brand == r.numerator.brand && l.denominator.brand == r.denominator.brand
  }

  predicate Finite(r: Ratio) {
    r.denominator.value != 0
  }

  function InvertRatio(r: Ratio): Result<Ratio, RatioError> {
    MakeRatio(r.denominator.value, r.denominator.brand, r.numerator.value, r.numerator.brand)
  }

  function AddRatios(l: Ratio, r: Ratio): Result<Ratio, RatioError> {
    if !SameBrands(l, r) then Failure(WrongBrand)
    else
      MakeRatio(
        l.numerator.value * r.denominator.value + l.denominator.value * r.numerator.value, l.numerator.brand,
        l.denominator.value * r.denominator.value, l.denominator.brand)
  }

  function SubtractRatios(l: Ratio, r: Ratio): Result<Ratio, RatioError> {
    if !SameBrands(l, r) then Failure(WrongBrand)
    else
      var n :- Lift(Subtract(l.numerator.value * r.denominator.value, l.denominator.value * r.numerator.value));
      MakeRatio(n, l.numerator.brand, l.denominator.value * r.denominator.value, l.denominator.brand)
  }

  /** The brands that remain after one pair cancels.  The left operand's
      brands are preferred. */
  function RemainingBrands(l: Ratio, r: Ratio): Option<(Brand, Brand)> {
    if r.numerator.brand == r.denominator.brand then Some((l.numerator.brand, l.denominator.brand))
    else if r.numerator.brand == l.denominator.brand then Some((l.numerator.brand, r.denominator.brand))
    else if l.numerator.brand == r.denominator.brand then Some((r.numerator.brand, l.denominator.brand))
    else if l.numerator.brand == l.denominator.brand then Some((r.numerator.brand, r.denominator.brand))
    else None
  }

  function MultiplyRatios(l: Ratio, r: Ratio): Result<Ratio, RatioError> {
    var brands := RemainingBrands(l, r);
    if brands.None? then Failure(WrongBrand)
    else
      MakeRatio(l.numerator.value * r.numerator.value, brands.value.0,
                l.denominator.value * r.denominator.value, brands.value.1)
  }

  function OneMinus(r: Ratio): Result<Ratio, RatioError> {
    if r.numerator.brand != r.denominator.brand then Failure(WrongBrand)
    else if r.denominator.value < r.numerator.value then Failure(AboveOne)
    else
      MakeRatio(r.denominator.value - r.numerator.value, r.numerator.brand,
                r.denominator.value, r.numerator.brand)
  }

  /** Brands are compared in two of the possible cases only. */
  function RatioGTE(l: Ratio, r: Ratio): Result<bool, RatioError> {
    if l.numerator.brand == r.numerator.brand && l.denominator.brand != r.denominator.brand then
      Failure(WrongBrand)
    else if l.numerator.brand != r.numerator.brand && l.numerator.brand == l.denominator.brand
            && r.numerator.brand != r.denominator.brand then
      Failure(WrongBrand)
    else
      Success(l.numerator.value * r.denominator.value >= r.numerator.value * l.denominator.value)
  }

  lemma QuotientIs(a: real, b: real, q: real)
    requires b != 0.0
    ensures a / b == q <==> q * b == a
  {
  }

  lemma SumOfQuotients(a: real, b: real, c: real, d: real)
    requires b != 0.0 && d != 0.0
    ensures b * d != 0.0
    ensures a / b + c / d == (a * d + b * c) / (b * d)
    ensures a / b - c / d == (a * d - b * c) / (b * d)
    ensures a / b * (c / d) == (a * c) / (b * d)
  {
    var p, q := a / b, c / d;
    assert p * b == a && q * d == c;
    assert (p + q) * (b * d) == p * b * d + b * (q * d);
    assert (p - q) * (b * d) == p * b * d - b * (q * d);
    assert p * q * (b * d) == (p * b) * (q * d);
  }

  lemma AddIsExact(l: Ratio, r: Ratio)
    ensures AddRatios(l, r).Success? <==> SameBrands(l, r) && Finite(l) && Finite(r)
    ensures AddRatios(l, r).Failure? ==>
      AddRatios(l, r).error == if SameBrands(l, r) then ZeroDenominator else WrongBrand
    ensures AddRatios(l, r).Success? ==>
      var s := AddRatios(l, r).value;
      SameBrands(s, l) && Finite(s) && Value(s) == Value(l) + Value(r)
  {
    assert l.denominator.value * r.denominator.value == 0 <==> !Finite(l) || !Finite(r);
    if AddRatios(l, r).Success? {
      SumOfQuotients(l.numerator.value as real, l.denominator.value as real,
                     r.numerator.value as real, r.denominator.value as real);
    }
  }

  /** A difference exists if and only if the comparison says so. */
  lemma SubtractIsExact(l: Ratio, r: Ratio)
    ensures SubtractRatios(l, r).Success? <==>
      SameBrands(l, r) && Finite(l) && Finite(r) && RatioGTE(l, r) == Success(true)
    ensures SubtractRatios(l, r) == Failure(WrongBrand) <==> !SameBrands(l, r)
    ensures SubtractRatios(l, r) == Failure(Arith(NotNatural)) <==> SameBrands(l, r) && RatioGTE(l, r) == Success(false)
    ensures SubtractRatios(l, r).Failure? ==>
      SubtractRatios(l, r).error in {WrongBrand, Arith(NotNatural), ZeroDenominator}
    ensures SubtractRatios(l, r).Success? ==>
      var s := SubtractRatios(l, r).value;
      SameBrands(s, l) && Finite(s) && Value(s) == Value(l) - Value(r)
  {
    assert l.denominator.value * r.denominator.value == 0 <==> !Finite(l) || !Finite(r);
    assert l.denominator.value * r.numerator.value == r.numerator.value * l.denominator.value;
    if SubtractRatios(l, r).Success? {
      SumOfQuotients(l.numerator.value as real, l.denominator.value as real,
                     r.numerator.value as real, r.denominator.value as real);
    }
  }

  lemma Meet(a: Brand, b: Brand, c: Brand, d: Brand)
    ensures {a, b} * {c, d} != {} <==> a == c || a == d || b == c || b == d
  {
    assert a in {c, d} ==> a in {a, b} * {c, d};
    assert b in {c, d} ==> b in {a, b} * {c, d};
  }

  lemma BrandsCancel(l: Ratio, r: Ratio)
    ensures RemainingBrands(l, r).Some? ==>
      var (n, d) := RemainingBrands(l, r).value;
      multiset{l.numerator.brand, r.numerator.brand, d} == multiset{l.denominator.brand, r.denominator.brand, n}
  {
  }

  /** The brands of a product are those of its factors after one numerator has
      cancelled against one denominator, and a product exists whenever some
      pair can. */
  lemma MultiplyIsExact(l: Ratio, r: Ratio)
    ensures MultiplyRatios(l, r).Success? <==>
      && ({l.numerator.brand, r.numerator.brand} * {l.denominator.brand, r.denominator.brand} != {})
      && Finite(l) && Finite(r)
    ensures MultiplyRatios(l, r) == Failure(WrongBrand) <==>
            {l.numerator.brand, r.numerator.brand} * {l.denominator.brand, r.denominator.brand} == {}
    ensures MultiplyRatios(l, r).Failure? ==> MultiplyRatios(l, r).error in {WrongBrand, ZeroDenominator}
    ensures MultiplyRatios(l, r).Success? ==>
      var p := MultiplyRatios(l, r).value;
      && (SingleBrand(r) ==> SameBrands(p, l))
      && (!SingleBrand(r) && r.numerator.brand == l.denominator.brand ==>
            p.numerator.brand == l.numerator.brand && p.denominator.brand == r.denominator.brand)
      && (!SingleBrand(r) && r.numerator.brand != l.denominator.brand && l.numerator.brand == r.denominator.brand ==>
            p.numerator.brand == r.numerator.brand && p.denominator.brand == l.denominator.brand)
      && Finite(p) && Value(p) == Value(l) * Value(r)
      && multiset{l.numerator.brand, r.numerator.brand, p.denominator.brand}
         == multiset{l.denominator.brand, r.denominator.brand, p.numerator.brand}
  {
    assert l.denominator.value * r.denominator.value == 0 <==> !Finite(l) || !Finite(r);
    Meet(l.numerator.brand, r.numerator.brand, l.denominator.brand, r.denominator.brand);
    if MultiplyRatios(l, r).Success? {
      BrandsCancel(l, r);
      SumOfQuotients(l.numerator.value as real, l.denominator.value as real,
                     r.numerator.value as real, r.denominator.value as real);
    }
  }

  lemma OneMinusIsExact(r: Ratio)
    ensures OneMinus(r).Success? <==>
      r.numerator.brand == r.denominator.brand && Finite(r) && Value(r) <= 1.0
    ensures OneMinus(r) == Failure(WrongBrand) <==> !SingleBrand(r)
    ensures OneMinus(r) == Failure(AboveOne) <==> SingleBrand(r) && r.denominator.value < r.numerator.value
    ensures OneMinus(r).Failure? ==> OneMinus(r).error in {WrongBrand, AboveOne, ZeroDenominator}
    ensures OneMinus(r).Success? ==> SameBrands(OneMinus(r).value, r) && Value(OneMinus(r).value) == 1.0 - Value(r)
    ensures OneMinus(r).Success? ==> OneMinus(OneMinus(r).value) == Success(r)
  {
    if Finite(r) {
      var n, d := r.numerator.value as real, r.denominator.value as real;
      assert n / d <= 1.0 <==> n <= d;
      QuotientIs(n, d, n / d);
      QuotientIs(d - n, d, 1.0 - n / d);
    }
  }

  lemma InvertIsExact(r: Ratio)
    ensures InvertRatio(r).Success? <==> r.numerator.value != 0
    ensures InvertRatio(r).Failure? ==> InvertRatio(r).error == ZeroDenominator
    ensures InvertRatio(r).Success? ==>
      InvertRatio(r).value.numerator.brand == r.denominator.brand &&
      InvertRatio(r).value.denominator.brand == r.numerator.brand
    ensures InvertRatio(r).Success? && Finite(r) ==>
      Value(InvertRatio(r).value) * Value(r) == 1.0 && InvertRatio(InvertRatio(r).value) == Success(r)
  {
    if InvertRatio(r).Success? && Finite(r) {
      var n, d := r.numerator.value as real, r.denominator.value as real;
      SumOfQuotients(d, n, n, d);
      assert (d * n) / (n * d) == 1.0;
    }
  }

  lemma CrossMultiplied(l: Ratio, r: Ratio)
    requires Finite(l) && Finite(r)
    ensures Value(l) >= Value(r) <==>
      l.numerator.value * r.denominator.value >= r.numerator.value * l.denominator.value
  {
    var a, b := l.numerator.value as real, l.denominator.value as real;
    var c, d := r.numerator.value as real, r.denominator.value as real;
    assert Value(l) * b == a && Value(r) * d == c;
    assert a * d == Value(l) * (b * d) && c * b == Value(r) * (b * d);
    CompareScaled(Value(l), Value(r), b * d);
    assert (l.numerator.value * r.denominator.value) as real == a * d;
    assert (r.numerator.value * l.denominator.value) as real == c * b;
  }

  /** Comparing ratios of matching brands compares the numbers, so it is a
      total preorder that addition respects. */
  lemma ComparesValues(l: Ratio, r: Ratio)
    requires SameBrands(l, r) && Finite(l) && Finite(r)
    ensures RatioGTE(l, r) == Success(Value(l) >= Value(r))
  {
    CrossMultiplied(l, r);
  }

  lemma CompareScaled(x: real, y: real, k: real)
    requires 0.0 < k
    ensures x >= y <==> x * k >= y * k
  {
  }

  lemma ComparisonIsTotalPreorder(a: Ratio, b: Ratio, c: Ratio)
    requires SameBrands(a, b) && SameBrands(b, c) && Finite(a) && Finite(b) && Finite(c)
    ensures RatioGTE(a, a) == Success(true)
    ensures RatioGTE(a, b) == Success(true) || RatioGTE(b, a) == Success(true)
    ensures RatioGTE(a, b) == Success(true) && RatioGTE(b, c) == Success(true) ==> RatioGTE(a, c) == Success(true)
    ensures RatioGTE(a, b) == RatioGTE(AddRatios(a, c).value, AddRatios(b, c).value)
  {
    ComparesValues(a, b);
    ComparesValues(b, a);
    ComparesValues(b, c);
    ComparesValues(a, c);
    AddIsExact(a, c);
    AddIsExact(b, c);
    ComparesValues(AddRatios(a, c).value, AddRatios(b, c).value);
  }

  /** What the comparison checks of brands.  Ratios whose numerators differ are
      compared as bare numbers, however unrelated, unless the left one has a
      single brand and the right one has two.  The check is therefore passed
      one way and failed the other exactly when one of them has a single brand. */
  lemma BrandCheckIsOneSided(l: Ratio, r: Ratio)
    ensures l.numerator.brand == r.numerator.brand ==>
      (RatioGTE(l, r).Failure? <==> !SameBrands(l, r)) && RatioGTE(l, r).Failure? == RatioGTE(r, l).Failure?
    ensures l.numerator.brand != r.numerator.brand ==>
      && (RatioGTE(l, r).Failure? <==> SingleBrand(l) && !SingleBrand(r))
      && (RatioGTE(l, r).Failure? != RatioGTE(r, l).Failure? <==> SingleBrand(l) != SingleBrand(r))
  {
  }

  // ------------------------------------------------------------ quantize

  function Quantize(r: Ratio, newDen: int): Result<Ratio, RatioError> {
    var oldDen, oldNum := r.denominator.value, r.numerator.value;
    if newDen > oldDen then Success(r)
    else
      var newNum :- if newDen == oldDen then Success(oldNum) else Lift(BankersDivide(oldNum * newDen, oldDen));
      if newDen <= 0 then Failure(ZeroDenominator)
      else MakeRatio(newNum, r.numerator.brand, newDen, r.denominator.brand)
  }

  lemma QuantizeOutcome(r: Ratio, newDen: int)
    ensures Quantize(r, newDen).Failure? <==> newDen <= 0
    ensures Quantize(r, newDen) == Failure(ZeroDenominator) <==>
            newDen == 0 || (newDen < 0 && r.numerator.value == 0 && r.denominator.value != 0)
    ensures newDen > r.denominator.value ==> Quantize(r, newDen) == Success(r)
    ensures 0 < newDen <= r.denominator.value ==>
      var q := Quantize(r, newDen).value;
      && SameBrands(q, r) && q.denominator.value == newDen
      && NearestEven(r.numerator.value * newDen, r.denominator.value, q.numerator.value)
  {
    if 0 < newDen == r.denominator.value {
      assert NearestEven(r.numerator.value * newDen, newDen, r.numerator.value);
    }
    if newDen < 0 {
      assert r.numerator.value * newDen <= 0;
    }
  }

  lemma OffBound(q: real, D: real, n: real, d: real)
    requires 0.0 < D && 0.0 < d && -d <= 2.0 * (q * d - n * D) <= d
    ensures -1.0 <= 2.0 * D * (q / D - n / d) <= 1.0
  {
    var x, y := q / D, n / d;
    var w := 2.0 * D * (x - y);
    assert x * D == q && y * d == n;
    assert w * d == 2.0 * (x * D) * d - 2.0 * D * (y * d);
    CompareScaled(1.0, w, d);
    CompareScaled(w, -1.0, d);
  }

  lemma NearestAsReal(n: nat, D: nat, d: nat, q: nat)
    requires 0 < D && 0 < d && NearestEven(n * D, d, q)
    ensures -1.0 <= 2.0 * D as real * (q as real / D as real - n as real / d as real) <= 1.0
  {
    ProductAsReal(q, d);
    ProductAsReal(n, D);
    HalfAsReal(q * d, n * D, d);
    OffBound(q as real, D as real, n as real, d as real);
  }

  lemma ProductAsReal(a: nat, b: nat)
    ensures (a * b) as real == a as real * b as real
  {
  }

  lemma HalfAsReal(x: nat, y: nat, d: nat)
    requires -(d as int) <= 2 * (x - y) <= d
    ensures -(d as real) <= 2.0 * (x as real - y as real) <= d as real
  {
  }

  /** Quantizing moves a ratio by half of the new unit at most. */
  lemma QuantizeError(r: Ratio, newDen: nat)
    requires 0 < newDen <= r.denominator.value
    ensures -1.0 <= 2.0 * newDen as real * (Value(Quantize(r, newDen).value) - Value(r)) <= 1.0
  {
    QuantizeOutcome(r, newDen);
    NearestError(r, newDen, Quantize(r, newDen).value);
  }

  lemma NearestError(r: Ratio, newDen: nat, q: Ratio)
    requires 0 < newDen == q.denominator.value && Finite(r)
    requires NearestEven(r.numerator.value * newDen, r.denominator.value, q.numerator.value)
    ensures -1.0 <= 2.0 * newDen as real * (Value(q) - Value(r)) <= 1.0
  {
    NearestAsReal(r.numerator.value, newDen, r.denominator.value, q.numerator.value);
  }

  lemma ScaledProducts(a: nat, b: nat, c: nat, d: nat, k: nat)
    requires a * d <= c * b
    ensures a * k * d <= c * k * b
  {
    Multiples(a * d, c * b, k);
    assert a * k * d == a * d * k && c * k * b == c * b * k;
  }

  /** At one denominator quantizing is monotone. */
  lemma QuantizeMonotone(l: Ratio, r: Ratio, newDen: nat)
    requires 0 < newDen <= l.denominator.value && newDen <= r.denominator.value
    requires Value(l) <= Value(r)
    ensures Value(Quantize(l, newDen).value) <= Value(Quantize(r, newDen).value)
  {
    QuantizeOutcome(l, newDen);
    QuantizeOutcome(r, newDen);
    CrossMultiplied(r, l);
    var a, b, c, d := l.numerator.value, l.denominator.value, r.numerator.value, r.denominator.value;
    ScaledProducts(a, b, c, d, newDen);
    var l', r' := Quantize(l, newDen).value, Quantize(r, newDen).value;
    NearestMonotone(a * newDen, b, l'.numerator.value, c * newDen, d, r'.numerator.value);
    Multiples(l'.numerator.value, r'.numerator.value, newDen);
    CrossMultiplied(r', l');
  }

  /** Quantizing twice is quantizing once. */
  lemma QuantizeIdempotent(r: Ratio, newDen: int)
    requires 0 < newDen
    ensures Quantize(Quantize(r, newDen).value, newDen) == Quantize(r, newDen)
  {
    QuantizeOutcome(r, newDen);
  }

  // ------------------------------------------------------------- parsing

  predicate IsDigit(c: char) {
    '0' <= c <= '9'
  }

  predicate AllDigits(s: string) {
    forall c | c in s :: IsDigit(c)
  }

  function DigitPrefix(s: string): (n: nat)
    ensures n <= |s| && AllDigits(s[..n])
    ensures n < |s| ==> !IsDigit(s[n])
  {
    if s == "" || !IsDigit(s[0]) then 0
    else
      var n := 1 + DigitPrefix(s[1..]);
      assert s[..n] == [s[0]] + s[1..][..n - 1];
      n
  }

  /** Digits, and then possibly a point and more digits. */
  function MatchNumeric(s: string): (m: Option<(string, string)>)
  {
    var n := DigitPrefix(s);
    if n == 0 then None
    else if n == |s| then Some((s, ""))
    else if s[n] == '.' && AllDigits(s[n + 1..]) then Some((s[..n], s[n + 1..]))
    else None
  }

  /** The match succeeds on exactly the numerals, and takes them apart. */
  lemma MatchNumericExact(s: string, whole: string, part: string)
    ensures MatchNumeric(s) == Some((whole, part)) <==>
      && whole != "" && AllDigits(whole) && AllDigits(part)
      && (s == whole + "." + part || (s == whole && part == ""))
  {
    var n := DigitPrefix(s);
    if whole != "" && AllDigits(whole) && (s == whole + "." + part || s == whole) {
      DigitPrefixIs(s, |whole|);
      assert s[..|whole|] == whole;
      assert s != whole ==> s[|whole|] == '.' && s[|whole| + 1..] == part;
    }
    if n < |s| && s[n] == '.' {
      assert s == s[..n] + "." + s[n + 1..];
    }
  }

  lemma {:induction false} DigitPrefixIs(s: string, n: nat)
    requires n <= |s| && AllDigits(s[..n]) && (n < |s| ==> !IsDigit(s[n]))
    ensures DigitPrefix(s) == n
    decreases |s|
  {
    if n == 0 {
    } else {
      assert s[0] == s[..n][0];
      assert s[1..][..n - 1] == s[..n][1..];
      DigitPrefixIs(s[1..], n - 1);
    }
  }

  function DigitValue(c: char): nat
    requires IsDigit(c)
  {
    (c - '0') as nat
  }

  function NatOf(s: string): nat
    requires AllDigits(s)
  {
    if s == "" then 0
    else
      var n := |s| - 1;
      assert s[n] in s && forall c | c in s[..n] :: c in s;
      NatOf(s[..n]) * 10 + DigitValue(s[n])
  }

  function Power10(n: nat): (p: nat)
    ensures 0 < p
  {
    if n == 0 then 1 else 10 * Power10(n - 1)
  }

  /** A number written with `width` digits. */
  function Digits(n: nat, width: nat): (s: string)
    ensures |s| == width
    decreases width
  {
    if width == 0 then "" else Digits(n / 10, width - 1) + ["0123456789"[n % 10]]
  }

  lemma DigitIs(c: char)
    ensures IsDigit(c) <==> c in "0123456789"
    ensures IsDigit(c) ==> DigitValue(c) < 10 && "0123456789"[DigitValue(c)] == c
  {
    if IsDigit(c) {
      assert c in ['0', '1', '2', '3', '4', '5', '6', '7', '8', '9'];
    }
  }

  lemma DigitsAre(s: string)
    ensures AllDigits(s) <==> forall c | c in s :: c in "0123456789"
  {
    forall c ensures IsDigit(c) <==> c in "0123456789" {
      DigitIs(c);
    }
  }

  lemma OneDigitMore(n: nat, c: char, k: nat)
    requires IsDigit(c) && n < Power10(k)
    ensures Digits(n * 10 + DigitValue(c), k + 1) == Digits(n, k) + [c]
    ensures n * 10 + DigitValue(c) < Power10(k + 1)
  {
    DigitIs(c);
    var v := DigitValue(c);
    assert (n * 10 + v) / 10 == n && (n * 10 + v) % 10 == v;
  }

  /** Reading digits is undone by writing them: a text of decimal digits is the
      number that has those digits. */
  lemma {:induction false} ReadingIsExact(s: string)
    requires AllDigits(s)
    ensures NatOf(s) < Power10(|s|) && Digits(NatOf(s), |s|) == s
    decreases |s|
  {
    if s != "" {
      var init, last := s[..|s| - 1], s[|s| - 1];
      assert s == init + [last];
      DigitsJoin(init, [last]);
      assert last in [last];
      ReadingIsExact(init);
      OneDigitMore(NatOf(init), last, |init|);
      assert NatOf(s) == NatOf(init) * 10 + DigitValue(last);
    }
  }

  function ParseRatio(numeric: string, nBrand: Brand, dBrand: Brand): Result<Ratio, RatioError> {
    var m := MatchNumeric(numeric);
    if m.None? then Failure(NotNumeric)
    else
      var (whole, part) := m.value;
      MatchNumericExact(numeric, whole, part);
      DigitsJoin(whole, part);
      MakeRatio(NatOf(whole + part), nBrand, Power10(|part|), dBrand)
  }

  lemma DigitsJoin(s: string, t: string)
    ensures AllDigits(s + t) <==> AllDigits(s) && AllDigits(t)
  {
    assert AllDigits(s + t) ==> AllDigits(s) && AllDigits(t) by {
      if AllDigits(s + t) {
        assert forall c | c in s :: c in s + t;
        assert forall c | c in t :: c in s + t;
      }
    }
  }

  /** What the digits after a point are worth: each a tenth of the one before. */
  ghost function Fraction(s: string): real
    requires AllDigits(s)
  {
    if s == "" then 0.0
    else
      assert s[0] in s && forall c | c in s[1..] :: c in s;
      (DigitValue(s[0]) as real + Fraction(s[1..])) / 10.0
  }

  /** `x` with the point moved `k` places to the right. */
  ghost function Shifted(x: real, k: nat): real {
    x * Power10(k) as real
  }

  lemma ShiftOne(n: nat, d: nat, f: real, k: nat)
    ensures Shifted(n as real + (d as real + f) / 10.0, k + 1) == Shifted((n * 10 + d) as real + f, k)
  {
    var p := Power10(k) as real;
    assert Power10(k + 1) as real == 10.0 * p;
    ShiftProduct(n as real, d as real, f, p);
  }

  lemma ShiftProduct(n: real, d: real, f: real, p: real)
    ensures (n + (d + f) / 10.0) * (10.0 * p) == (n * 10.0 + d + f) * p
  {
  }

  /** Digits appended move the point to the right. */
  lemma {:induction false} JoinedDigits(s: string, t: string)
    requires AllDigits(s) && AllDigits(t)
    ensures AllDigits(s + t)
    ensures Shifted(NatOf(s) as real + Fraction(t), |t|) == NatOf(s + t) as real
    decreases |t|
  {
    DigitsJoin(s, t);
    if t == "" {
      assert s + t == s;
    } else {
      var c, rest := [t[0]], t[1..];
      assert t[0] in t && forall d | d in rest :: d in t;
      DigitsJoin(s, c);
      assert (s + c)[..|s|] == s;
      assert s + t == (s + c) + rest;
      JoinedDigits(s + c, rest);
      ShiftOne(NatOf(s), DigitValue(t[0]), Fraction(rest), |rest|);
    }
  }

  /** The ratio a numeral is parsed into is the number it denotes: the whole
      digits, plus the digits after the point as a decimal fraction. */
  lemma ParseIsExact(numeric: string, nBrand: Brand, dBrand: Brand)
    ensures ParseRatio(numeric, nBrand, dBrand).Success? <==> MatchNumeric(numeric).Some?
    ensures ParseRatio(numeric, nBrand, dBrand).Failure? ==> ParseRatio(numeric, nBrand, dBrand).error == NotNumeric
    ensures ParseRatio(numeric, nBrand, dBrand).Success? ==>
      var r := ParseRatio(numeric, nBrand, dBrand).value;
      var (whole, part) := MatchNumeric(numeric).value;
      && r.numerator.brand == nBrand && r.denominator.brand == dBrand && Finite(r)
      && AllDigits(whole) && AllDigits(part)
      && Value(r) == NatOf(whole) as real + Fraction(part)
  {
    if MatchNumeric(numeric).Some? {
      var (whole, part) := MatchNumeric(numeric).value;
      MatchNumericExact(numeric, whole, part);
      DigitsJoin(whole, part);
      JoinedDigits(whole, part);
      ShiftedBack(ParseRatio(numeric, nBrand, dBrand).value, NatOf(whole) as real + Fraction(part), |part|);
    }
  }

  lemma ShiftedBack(r: Ratio, x: real, k: nat)
    requires r.denominator.value == Power10(k) && Shifted(x, k) == r.numerator.value as real
    ensures Value(r) == x
  {
    ValueIs(r, x);
  }
}
