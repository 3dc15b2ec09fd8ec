/** Arithmetic on natural numbers that throws instead of leaving them. */
module SafeMath {
  import opened Wrappers

  datatype ArithError = NotNatural | DivisionByZero

  /** The naturals pass, everything below throws. */
  function AsNat(x: int): (r: Result<nat, ArithError>)
    ensures r.Success? <==> 0 <= x
    ensures r.Success? ==> r.value == x
    ensures r.Failure? ==> r.error == NotNatural
  {
    if x < 0 then Failure(NotNatural) else Success(x)
  }

  function Divide(x: nat, y: nat): (r: Result<nat, ArithError>)
    ensures r.Success? <==> y != 0
    ensures r.Success? ==> r.value * y <= x < (r.value + 1) * y
    ensures r.Failure? ==> r.error == DivisionByZero
  {
    if y == 0 then Failure(DivisionByZero) else Quotient(x, y); Success(x / y)
  }

  lemma Quotient(x: nat, y: nat)
    requires y != 0
    ensures x / y * y <= x < (x / y + 1) * y
    ensures x == x / y * y + x % y && x % y < y
  {
  }

  function Subtract(x: int, y: int): (r: Result<nat, ArithError>)
    ensures r.Success? <==> 0 <= y <= x
    ensures r.Success? ==> r.value + y == x
  {
    var x' :- AsNat(x);
    var y' :- AsNat(y);
    AsNat(x' - y')
  }

  /** The greatest natural not above x/y. */
  function FloorDivide(x: int, y: int): (r: Result<nat, ArithError>)
    ensures r.Success? <==> 0 <= x && 0 < y
    ensures r.Success? ==> r.value * y <= x < (r.value + 1) * y
    ensures r == Failure(DivisionByZero) <==> 0 <= x && y == 0
  {
    var x' :- AsNat(x);
    var y' :- AsNat(y);
    Divide(x', y')
  }

  /** The least natural not below x/y.  A zero divisor throws one way or the
      other: the sum is negative for a zero dividend. */
  function CeilDivide(x: int, y: int): (r: Result<nat, ArithError>)
    ensures r.Success? <==> 0 <= x && 0 < y
    ensures r.Success? ==> (r.value - 1) * y < x <= r.value * y
    ensures r == Failure(DivisionByZero) <==> 0 < x && y == 0
  {
    var y' :- AsNat(y);
    var x' :- AsNat(x);
    var sum :- AsNat(x' + y' - 1);
    Divide(sum, y')
  }

  /** `q` is as near to a/b as a natural can be, and even if two are. */
  ghost predicate NearestEven(a: nat, b: nat, q: nat) {
    var twiceOff := 2 * (q * b - a);
    && -(b as int) <= twiceOff <= b
    && (twiceOff == b || twiceOff == -(b as int) ==> q % 2 == 0)
  }

  function BankersDivide(a: int, b: int): (r: Result<nat, ArithError>)
    ensures r.Success? <==> 0 <= a && 0 < b
    ensures r.Success? ==> NearestEven(a, b, r.value)
    ensures r == Failure(DivisionByZero) <==> 0 <= a && b == 0
  {
    var a' :- AsNat(a);
    var b' :- AsNat(b);
    var div :- Divide(a', b');
    var rem := a' % b';
    assert a' == div * b' + rem by { Quotient(a', b'); }
    assert (div + 1) * b' == div * b' + b';
    if rem * 2 > b' then Success(div + 1)
    else if rem * 2 == b' && div % 2 == 1 then Success(div + 1)
    else Success(div)
  }

  // ------------------------------------------------------------------ laws

  lemma Multiples(x: int, y: int, b: nat)
    ensures x <= y ==> x * b <= y * b
    ensures x < y ==> x * b + b <= y * b
  {
    if x < y {
      assert (x + 1) * b <= y * b;
    }
  }

  lemma FloorGalois(a: nat, b: nat, k: nat)
    requires 0 < b
    ensures k <= FloorDivide(a, b).value <==> k * b <= a
  {
    var q := FloorDivide(a, b).value;
    Multiples(k, q, b);
    Multiples(q + 1, k, b);
  }

  lemma CeilGalois(a: nat, b: nat, k: nat)
    requires 0 < b
    ensures CeilDivide(a, b).value <= k <==> a <= k * b
  {
    var q: int := CeilDivide(a, b).value;
    Multiples(q, k, b);
    Multiples(k, q - 1, b);
  }

  /** Larger quotients have larger nearest naturals, whatever the divisors. */
  lemma NearestMonotone(a: nat, b: nat, q: nat, a': nat, b': nat, q': nat)
    requires 0 < b && 0 < b' && a * b' <= a' * b
    requires NearestEven(a, b, q) && NearestEven(a', b', q')
    ensures q <= q'
  {
    Scaled(a, b, q, b');
    Scaled(a', b', q', b);
    var B := b * b';
    assert b' * b == B && 0 < B;
    NearestOrdered(a * b', q, a' * b, q', B);
  }

  lemma NearestOrdered(a: nat, q: nat, a': nat, q': nat, b: nat)
    requires 0 < b && a <= a' && NearestEven(a, b, q) && NearestEven(a', b, q')
    ensures q <= q'
  {
    Multiples(q', q, b);
    Multiples(q' + 1, q, b);
    assert (q' + 1) * b == q' * b + b;
  }

  lemma Scaled(a: nat, b: nat, q: nat, k: nat)
    requires 0 < k && NearestEven(a, b, q)
    ensures NearestEven(a * k, b * k, q)
  {
    var d := 2 * (q * b - a);
    assert 2 * (q * (b * k) - a * k) == d * k;
    var lo, hi: int := -(b as int), b;
    assert lo * k == -((b * k) as int);
    Multiples(lo, d, k);
    Multiples(d, hi, k);
  }

  /** The result is the one natural that is nearest with ties to even. */
  lemma BankersUnique(a: nat, b: nat, q: nat)
    requires 0 < b
    ensures NearestEven(a, b, q) <==> BankersDivide(a, b) == Success(q)
  {
    if NearestEven(a, b, q) {
      var r := BankersDivide(a, b).value;
      NearestOrdered(a, q, a, r, b);
      NearestOrdered(a, r, a, q, b);
    }
  }

  /** No natural is nearer to a/b than the result. */
  lemma BankersNearest(a: nat, b: nat, k: nat)
    requires 0 < b
    ensures
      var e := BankersDivide(a, b).value * b - a;
      var f := k * b - a;
      (if e < 0 then -e else e) <= (if f < 0 then -f else f)
  {
    var q := BankersDivide(a, b).value;
    Multiples(k, q, b);
    Multiples(q, k, b);
  }

  lemma BankersBetween(a: nat, b: nat)
    requires 0 < b
    ensures FloorDivide(a, b).value <= BankersDivide(a, b).value <= CeilDivide(a, b).value
  {
    var q := BankersDivide(a, b).value;
    var f, c := FloorDivide(a, b).value, CeilDivide(a, b).value;
    Multiples(q, f, b);
    Multiples(c, q, b);
  }

  lemma BankersMonotone(a: nat, a': nat, b: nat)
    requires 0 < b && a <= a'
    ensures BankersDivide(a, b).value <= BankersDivide(a', b).value
  {
    NearestOrdered(a, BankersDivide(a, b).value, a', BankersDivide(a', b).value, b);
  }
}
