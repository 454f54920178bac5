/** Request ids: the two independent readers of a JSON value, and the writer. */
module RequestIds {
  import opened Prelude
  import opened Float64
  import opened Json

  datatype RequestId = StringId(s: string) | NumberId(n: i64)

  /** The integer an integral float id stands for, if it is exactly representable. */
  function IntegralFloatId(f: F64): Option<i64> {
    if f.Finite? && f.Integral() && f.AbsAtMostTwo53() then Some(f.AsI64()) else None
  }

  /** `RequestId::from_json`. */
  function FromJson(v: Value): Option<RequestId> {
    match v
    case Str(s) => Some(StringId(s))
    case Num(n) =>
      var viaInteger := n.AsI64();
      var id :- if viaInteger.Some? then viaInteger else IntegralFloatId(n.AsF64());
      Some(NumberId(id))
    case _ => None
  }

  /** `RequestId::deserialize`: one visitor method per JSON form. */
  function Visit(v: Value): Option<RequestId> {
    match v
    case Str(s) => Some(StringId(s))
    case Num(NegInt(i)) => Some(NumberId(i))
    case Num(PosInt(u)) => if u <= I64_MAX then Some(NumberId(u)) else None
    case Num(Float(f)) =>
      var id :- IntegralFloatId(f);
      Some(NumberId(id))
    case _ => None
  }

  function ToJson(id: RequestId): Value {
    match id
    case StringId(s) => Str(s)
    case NumberId(n) => OfI64(n)
  }

  /** A float is an id exactly when it denotes an integer of magnitude at most 2^53, and then it is that integer. */
  lemma FloatIdExact(f: F64, n: int)
    requires f.Canonical()
    ensures IntegralFloatId(f) == Some(n) <==> f.Denotes(n) && 0 - TWO_53 <= n <= TWO_53
  {
    if f.Finite? && f.e < 0 {
      var k, a := -f.e, if n < 0 then 0 - n else n;
      ShlOrder(f.Magnitude(), TWO_53, k);
      ShlOrder(a, TWO_53, k);
      if Shl(a, k) == f.m {
        UnitPositive(k);
        ShrUnique(f.m, k, a);
      }
    }
  }

  /** Both readers accept the same JSON values and read the same id. */
  lemma ReadersAgree(v: Value)
    ensures FromJson(v) == Visit(v)
  {
    if v.Num? && v.n.PosInt? && v.n.u > I64_MAX {
      // The visitor rejects it; the other reader goes through a rounded float, which is at least 2^63.
      FromNatLarge(v.n.u);
      FromNatCanonical(v.n.u);
      LargeFloatIsNoId(FromNat(v.n.u));
    }
  }

  lemma LargeFloatIsNoId(f: F64)
    requires f.Canonical() && f.Finite? && f.Magnitude() > TWO_53
    ensures IntegralFloatId(f) == None
  {
    if f.e < 0 {
      ShrBounds(f.m, -f.e);
      ShlGrows(f.Magnitude(), 0, -f.e);
    }
  }

  /** Reading back a written id is the identity, through either reader. */
  lemma WrittenIdReadsBack(id: RequestId)
    ensures FromJson(ToJson(id)) == Some(id) && Visit(ToJson(id)) == Some(id)
  {}

  /** Whatever form an id had on the wire, it is echoed as a string or an integer that reads as the same id. */
  lemma EchoIsCanonical(v: Value)
    requires FromJson(v).Some?
    ensures var echo := ToJson(FromJson(v).value);
            (echo.Str? || (echo.Num? && !echo.n.Float?)) && FromJson(echo) == FromJson(v)
  {}

  /** Different floats, other than the two zeros, are different ids. */
  lemma FloatIdsInjective(f: finite64, g: finite64)
    requires FromJson(Num(Float(f))).Some? && FromJson(Num(Float(f))) == FromJson(Num(Float(g)))
    ensures f == g || (f.m == 0 && g.m == 0)
  {
    var n := IntegralFloatId(f).value;
    FloatIdExact(f, n);
    FloatIdExact(g, n);
    if n != 0 {
      DenotesInjective(f, g, n);
    } else {
      ZeroMantissa(f);
      ZeroMantissa(g);
    }
  }

  lemma ZeroMantissa(f: F64)
    requires f.Denotes(0)
    ensures f.m == 0
  {
    ZeroShl(if f.e >= 0 then f.e else -f.e);
    if f.e >= 0 {
      ShlOrder(f.m, 0, f.e);
    }
  }

  /** Every integer up to 2^53 in magnitude can be written as a float and is read as that integer. */
  lemma EveryExactIntegerHasAFloatForm(n: int)
    requires 0 - TWO_53 <= n <= TWO_53
    ensures var f := FromInt(n);
            f.Canonical() && f.Finite? && FromJson(Num(Float(f))) == Some(NumberId(n))
  {
    var a := if n < 0 then -n else n;
    FromNatCanonical(a);
    FromNatExact(a);
    var f := FromInt(n);
    FloatIdExact(f, n);
  }

  /** `v` is a wire form of `id`: a string, an integer, or a float that is exactly that integer and at most 2^53. */
  predicate RendersId(v: Value, id: RequestId) {
    match id
    case StringId(s) => v == Str(s)
    case NumberId(n) =>
      v.Num? && match v.n
                case PosInt(u) => n == u
                case NegInt(i) => n == i
                case Float(f) => f.Denotes(n) && 0 - TWO_53 <= n <= TWO_53
  }

  /** Both readers take exactly the wire forms of an id. */
  lemma IdsReadExactly(v: Value, id: RequestId)
    ensures FromJson(v) == Some(id) <==> RendersId(v, id)
    ensures Visit(v) == Some(id) <==> RendersId(v, id)
  {
    ReadersAgree(v);
    if v.Num? && v.n.Float? && id.NumberId? {
      FloatIdExact(v.n.f, id.n);
    }
  }
}
