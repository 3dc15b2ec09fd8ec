/** Amounts of ERTP: a brand and a value of one of the four asset kinds.

    Every value stands for a multiset of rights (`Rights`).  Addition,
    subtraction and comparison, which each kind implements in its own way,
    are proved to be union, difference and inclusion of those multisets. */
module AmountMath {
  import opened Wrappers

  /** The identity of a brand, a remotable. */
  type Brand = nat

  /** What a set or a bag may hold.  `Unit` also stands for one unit of a
      fungible asset, so that all kinds share one notion of rights. */
  datatype Key = Unit | Element(id: nat)

  datatype AssetKind = NatKind | SetKind | CopySetKind | CopyBagKind

  datatype Value =
    | Nat(n: int)
    | Set(elems: set<Key>)
    | CopySet(elems: set<Key>)
    | CopyBag(bag: multiset<Key>)

  datatype Amount = Amount(brand: Brand, value: Value)

  datatype MathError = WrongBrand | WrongKind | NotNatural | Overlap | NotContained

  function KindOf(v: Value): AssetKind {
    match v
    case Nat(_) => NatKind
    case Set(_) => SetKind
    case CopySet(_) => CopySetKind
    case CopyBag(_) => CopyBagKind
  }

  /** The rights a value stands for. */
  function Rights(v: Value): multiset<Key> {
    match v
    case Nat(n) => multiset{}[Unit := if n < 0 then 0 else n]
    case Set(s) => multiset(s)
    case CopySet(s) => multiset(s)
    case CopyBag(b) => b
  }

  predicate Natural(v: Value) {
    v.Nat? ==> 0 <= v.n
  }

  predicate SetLike(k: AssetKind) {
    k.SetKind? || k.CopySetKind?
  }

  /** Two values of one kind with the same rights are the same value. */
  lemma RightsDetermineValue(v: Value, w: Value)
    requires Natural(v) && Natural(w) && KindOf(v) == KindOf(w)
    requires Rights(v) == Rights(w)
    ensures v == w
  {
    match v {
      case Nat(n) =>
        assert Rights(v)[Unit] == n && Rights(w)[Unit] == w.n;
      case Set(s) =>
        assert forall k :: k in s <==> k in Rights(v);
        assert forall k :: k in w.elems <==> k in Rights(w);
      case CopySet(s) =>
        assert forall k :: k in s <==> k in Rights(v);
        assert forall k :: k in w.elems <==> k in Rights(w);
      case CopyBag(_) =>
    }
  }

  /** Sets compare and combine as the multisets of their elements do. */
  lemma SetsAsRights(s: set<Key>, t: set<Key>)
    ensures s !! t <==> multiset(s) !! multiset(t)
    ensures t <= s <==> multiset(t) <= multiset(s)
    ensures s !! t ==> multiset(s + t) == multiset(s) + multiset(t)
    ensures s == {} <==> multiset(s) == multiset{}
  {
    assert forall k :: k in s * t <==> k in multiset(s) * multiset(t);
    assert forall k :: k in t ==> multiset(t)[k] == 1;
    assert forall k :: k in s <==> k in multiset(s);
  }

  // ---------------------------------------------------------------- helpers
  // One function per entry of the MathHelpers record, by kind.

  function DoCoerce(v: Value): (r: Result<Value, MathError>)
    ensures r.Success? <==> Natural(v)
    ensures r.Success? ==> r.value == v
    ensures r.Failure? ==> r.error == NotNatural
  {
    if v.Nat? && v.n < 0 then Failure(NotNatural) else Success(v)
  }

  function DoMakeEmpty(k: AssetKind): (v: Value)
    ensures KindOf(v) == k && Natural(v) && Rights(v) == multiset{}
  {
    match k
    case NatKind => Nat(0)
    case SetKind => Set({})
    case CopySetKind => CopySet({})
    case CopyBagKind => CopyBag(multiset{})
  }

  function DoIsEmpty(v: Value): (r: bool)
    requires Natural(v)
    ensures r <==> Rights(v) == multiset{}
  {
    match v
    case Nat(n) => assert Rights(v)[Unit] == n; n == 0
    case Set(s) => SetsAsRights(s, {}); s == {}
    case CopySet(s) => SetsAsRights(s, {}); s == {}
    case CopyBag(b) => b == multiset{}
  }

  function DoIsGTE(l: Value, r: Value): (b: bool)
    requires Natural(l) && Natural(r) && KindOf(l) == KindOf(r)
    ensures b <==> Rights(r) <= Rights(l)
  {
    match l
    case Nat(n) =>
      assert Rights(l)[Unit] == n && Rights(r)[Unit] == r.n;
      n >= r.n
    case Set(s) =>
      SetsAsRights(s, r.elems);
      r.elems <= s
    case CopySet(s) =>
      SetsAsRights(s, r.elems);
      r.elems <= s
    case CopyBag(b) => r.bag <= b
  }

  /** Fungible values and bags always add up; sets must be disjoint. */
  function DoAdd(l: Value, r: Value): (v: Result<Value, MathError>)
    requires Natural(l) && Natural(r) && KindOf(l) == KindOf(r)
    ensures v.Success? <==> !SetLike(KindOf(l)) || Rights(l) !! Rights(r)
    ensures v.Success? ==> Natural(v.value) && KindOf(v.value) == KindOf(l)
    ensures v.Success? ==> Rights(v.value) == Rights(l) + Rights(r)
    ensures v.Failure? ==> v.error == Overlap
  {
    match l
    case Nat(n) => Success(Nat(n + r.n))
    case Set(s) =>
      SetsAsRights(s, r.elems);
      if s !! r.elems then Success(Set(s + r.elems)) else Failure(Overlap)
    case CopySet(s) =>
      SetsAsRights(s, r.elems);
      if s !! r.elems then Success(CopySet(s + r.elems)) else Failure(Overlap)
    case CopyBag(b) => Success(CopyBag(b + r.bag))
  }

  function DoSubtract(l: Value, r: Value): (v: Result<Value, MathError>)
    requires Natural(l) && Natural(r) && KindOf(l) == KindOf(r)
    ensures v.Success? <==> Rights(r) <= Rights(l)
    ensures v.Success? ==> Natural(v.value) && KindOf(v.value) == KindOf(l)
    ensures v.Success? ==> Rights(v.value) == Rights(l) - Rights(r)
    ensures v.Failure? ==> v.error == if KindOf(l) == NatKind then NotNatural else NotContained
  {
    if !DoIsGTE(l, r) then Failure(if l.Nat? then NotNatural else NotContained)
    else match l
      case Nat(n) => Success(Nat(n - r.n))
      case Set(s) => Success(Set(s - r.elems))
      case CopySet(s) => Success(CopySet(s - r.elems))
      case CopyBag(b) => Success(CopyBag(b - r.bag))
  }

  // ------------------------------------------------------------- operations

  function Make(brand: Brand, v: Value): (r: Result<Amount, MathError>)
    ensures r.Success? <==> Natural(v)
    ensures r.Success? ==> r.value == Amount(brand, v)
  {
    var value :- DoCoerce(v);
    Success(Amount(brand, value))
  }

  function Coerce(brand: Brand, a: Amount): (r: Result<Amount, MathError>)
    ensures r.Success? <==> a.brand == brand && Natural(a.value)
    ensures r.Success? ==> r.value == a
    ensures r == Failure(WrongBrand) <==> a.brand != brand
    ensures r == Failure(NotNatural) <==> a.brand == brand && !Natural(a.value)
  {
    if brand != a.brand then Failure(WrongBrand) else Make(brand, a.value)
  }

  function MakeEmpty(brand: Brand, kind: AssetKind): (a: Amount)
    ensures a.brand == brand && KindOf(a.value) == kind
    ensures Natural(a.value) && Rights(a.value) == multiset{}
  {
    Amount(brand, DoMakeEmpty(kind))
  }

  function IsEmpty(a: Amount): (r: Result<bool, MathError>)
    ensures r.Success? <==> Natural(a.value)
    ensures r.Success? ==> (r.value <==> Rights(a.value) == multiset{})
  {
    var v :- DoCoerce(a.value);
    Success(DoIsEmpty(v))
  }

  /** What makes two amounts comparable: one brand (the expected one, when one
      is given), one kind, and values that coerce. */
  predicate Compatible(l: Amount, r: Amount, brand: Option<Brand>) {
    && (brand.Some? ==> l.brand == brand.value)
    && l.brand == r.brand
    && KindOf(l.value) == KindOf(r.value)
    && Natural(l.value) && Natural(r.value)
  }

  /** The checks made before a binary operation, in the order they are made. */
  function CheckLR(l: Amount, r: Amount, brand: Option<Brand>): (c: Result<(Value, Value), MathError>)
    ensures c.Success? <==> Compatible(l, r, brand)
    ensures c.Success? ==> c.value == (l.value, r.value)
    ensures c == Failure(WrongBrand) <==> l.brand != r.brand || (brand.Some? && l.brand != brand.value)
    ensures c == Failure(WrongKind) <==>
            l.brand == r.brand && (brand.Some? ==> l.brand == brand.value) && KindOf(l.value) != KindOf(r.value)
    ensures c.Failure? ==> c.error in {WrongBrand, WrongKind, NotNatural}
  {
    if brand.Some? && (l.brand != brand.value || r.brand != brand.value) then Failure(WrongBrand)
    else if l.brand != r.brand then Failure(WrongBrand)
    else if KindOf(l.value) != KindOf(r.value) then Failure(WrongKind)
    else
      var lv :- DoCoerce(l.value);
      var rv :- DoCoerce(r.value);
      Success((lv, rv))
  }

  function IsGTE(l: Amount, r: Amount, brand: Option<Brand>): (b: Result<bool, MathError>)
    ensures b.Success? <==> Compatible(l, r, brand)
    ensures b.Success? ==> (b.value <==> Rights(r.value) <= Rights(l.value))
  {
    var lr :- CheckLR(l, r, brand);
    Success(DoIsGTE(lr.0, lr.1))
  }

  function IsEqual(l: Amount, r: Amount, brand: Option<Brand>): (b: Result<bool, MathError>)
    ensures b.Success? <==> Compatible(l, r, brand)
    ensures b.Success? ==> (b.value <==> l == r)
    ensures b.Success? ==> (b.value <==> Rights(l.value) == Rights(r.value))
  {
    var lr :- CheckLR(l, r, brand);
    assert Rights(l.value) == Rights(r.value) ==> l.value == r.value by {
      if Rights(l.value) == Rights(r.value) {
        RightsDetermineValue(l.value, r.value);
      }
    }
    Success(lr.0 == lr.1)
  }

  function Add(l: Amount, r: Amount, brand: Option<Brand>): (s: Result<Amount, MathError>)
    ensures s.Success? <==>
            && Compatible(l, r, brand)
            && (SetLike(KindOf(l.value)) ==> Rights(l.value) !! Rights(r.value))
    ensures s.Success? ==> s.value.brand == l.brand && KindOf(s.value.value) == KindOf(l.value)
    ensures s.Success? ==> Natural(s.value.value)
    ensures s.Success? ==> Rights(s.value.value) == Rights(l.value) + Rights(r.value)
    ensures s == Failure(Overlap) <==>
            && Compatible(l, r, brand) && SetLike(KindOf(l.value)) && !(Rights(l.value) !! Rights(r.value))
  {
    var lr :- CheckLR(l, r, brand);
    var v :- DoAdd(lr.0, lr.1);
    Success(Amount(l.brand, v))
  }

  function Subtract(l: Amount, r: Amount, brand: Option<Brand>): (s: Result<Amount, MathError>)
    ensures s.Success? <==> Compatible(l, r, brand) && Rights(r.value) <= Rights(l.value)
    ensures s.Success? ==> s.value.brand == l.brand && KindOf(s.value.value) == KindOf(l.value)
    ensures s.Success? ==> Natural(s.value.value)
    ensures s.Success? ==> Rights(s.value.value) == Rights(l.value) - Rights(r.value)
    ensures Compatible(l, r, brand) && s.Failure? ==>
      s.error == if KindOf(l.value) == NatKind then NotNatural else NotContained
  {
    var lr :- CheckLR(l, r, brand);
    var v :- DoSubtract(lr.0, lr.1);
    Success(Amount(l.brand, v))
  }

  // ------------------------------------------------------------------- laws

  lemma AddCommutes(l: Amount, r: Amount)
    ensures Add(l, r, None).Success? == Add(r, l, None).Success?
    ensures Add(l, r, None).Success? ==> Add(l, r, None) == Add(r, l, None)
  {
    assert Rights(l.value) * Rights(r.value) == Rights(r.value) * Rights(l.value);
    if Add(l, r, None).Success? {
      RightsDetermineValue(Add(l, r, None).value.value, Add(r, l, None).value.value);
    }
  }

  /** Whichever way three amounts are added, the same additions succeed and
      give the same sum. */
  lemma AddAssociates(a: Amount, b: Amount, c: Amount)
    ensures
      var ab := Add(a, b, None);
      var bc := Add(b, c, None);
      var l := if ab.Success? then Add(ab.value, c, None) else ab;
      var r := if bc.Success? then Add(a, bc.value, None) else bc;
      l.Success? == r.Success? && (l.Success? ==> l == r)
  {
    var ab := Add(a, b, None);
    var bc := Add(b, c, None);
    var l := if ab.Success? then Add(ab.value, c, None) else ab;
    var r := if bc.Success? then Add(a, bc.value, None) else bc;
    var A, B, C := Rights(a.value), Rights(b.value), Rights(c.value);
    assert A !! B && (A + B) !! C <==> B !! C && A !! (B + C) by {
      assert forall k :: k in (A + B) * C <==> k in A * C || k in B * C;
      assert forall k :: k in A * (B + C) <==> k in A * B || k in A * C;
    }
    if l.Success? && r.Success? {
      RightsDetermineValue(l.value.value, r.value.value);
    }
  }

  lemma SubtractUndoesAdd(l: Amount, r: Amount)
    requires Add(l, r, None).Success?
    ensures Subtract(Add(l, r, None).value, r, None) == Success(l)
  {
    var s := Add(l, r, None).value;
    assert Rights(s.value) - Rights(r.value) == Rights(l.value);
    RightsDetermineValue(Subtract(s, r, None).value.value, l.value);
  }

  lemma AddUndoesSubtract(l: Amount, r: Amount)
    requires Subtract(l, r, None).Success?
    ensures Add(Subtract(l, r, None).value, r, None) == Success(l)
  {
    var d := Subtract(l, r, None).value;
    if SetLike(KindOf(l.value)) {
      assert forall k :: Rights(l.value)[k] <= 1;
      assert forall k :: k !in Rights(d.value) * Rights(r.value);
    }
    RightsDetermineValue(Add(d, r, None).value.value, l.value);
  }
}
