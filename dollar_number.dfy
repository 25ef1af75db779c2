/**
 * me.neilellis.dollar.types.DollarNumber with an integer (Long or Integer)
 * value: every arithmetic method computes in Java `long`, so sums,
 * differences, products and negations wrap around modulo 2^64, division
 * truncates toward zero, the remainder takes the dividend's sign and a zero
 * divisor throws ArithmeticException. Truthiness and `I()` look only at
 * `intValue()`, the low 32 bits read as a signed int.
 */
module DollarNumber {
  import opened Results
  import JavaStrings

  const TWO_32: int := 0x1_0000_0000
  const TWO_63: int := 0x8000_0000_0000_0000
  const TWO_64: int := 0x1_0000_0000_0000_0000
  const MIN_LONG: int := -TWO_63
  const MAX_LONG: int := TWO_63 - 1

  /** A Java long. */
  type Long = x: int | MIN_LONG <= x <= MAX_LONG

  /** The long a computation in `long` arithmetic yields: x modulo 2^64, read as signed. */
  function Wrap(x: int): (r: Long)
    ensures MIN_LONG <= x <= MAX_LONG ==> r == x
    ensures (r - x) % TWO_64 == 0
  {
    var q, m := (x - MIN_LONG) / TWO_64, (x - MIN_LONG) % TWO_64;
    assert x - MIN_LONG == q * TWO_64 + m;
    assert m + MIN_LONG - x == -q * TWO_64;
    m + MIN_LONG
  }

  /** `intValue()` of a long: its low 32 bits read as a signed int. */
  function IntValue(x: int): (r: int)
    ensures -0x8000_0000 <= r < 0x8000_0000
    ensures r == 0 <==> x % TWO_32 == 0
  {
    (x + 0x8000_0000) % TWO_32 - 0x8000_0000
  }

  /** `intValue()` is the identity on the int range. */
  lemma IntValueOfInt(x: int)
    requires -0x8000_0000 <= x < 0x8000_0000
    ensures IntValue(x) == x
  {
  }

  /** `intValue()` repeats every 2^32. */
  lemma IntValuePeriodic(x: int)
    ensures IntValue(x + TWO_32) == IntValue(x)
  {
  }

  function Abs(x: int): nat
  {
    if x < 0 then -x else x
  }

  /** Java's integer division: the quotient truncated toward zero. */
  function TruncDiv(a: int, b: int): (r: int)
    requires b != 0
    ensures Abs(r) == Abs(a) / Abs(b)
    ensures r == 0 || (r > 0 <==> (a > 0) == (b > 0))
  {
    DivOfNats(Abs(a), Abs(b));
    var q := Abs(a) / Abs(b);
    if (a > 0) == (b > 0) then q else -q
  }

  lemma DivOfNats(x: nat, y: nat)
    requires y > 0
    ensures x / y >= 0
  {
  }

  /** Java's remainder: the magnitude of the Euclidean one, with the dividend's sign. */
  function TruncRem(a: int, b: int): (r: int)
    requires b != 0
    ensures Abs(r) < Abs(b) && Abs(r) <= Abs(a)
    ensures r == 0 || (r < 0 <==> a < 0)
  {
    EuclidNat(Abs(a), Abs(b));
    if a >= 0 then Abs(a) % Abs(b) else -(Abs(a) % Abs(b))
  }

  /** A DollarNumber holding an integer, with the errors it carries. */
  datatype Number = Number(errors: seq<string>, value: Long)

  /** The kind of `var` an argument is. */
  datatype Kind = IntegerKind | DecimalKind | OtherKind

  /** An argument typed Object: a `var` of some kind with its L(), or any other Java object. */
  datatype Operand = VarOf(kind: Kind, l: Long) | Plain

  /** What an arithmetic method returns, or which branch it leaves this model through. */
  datatype Outcome =
    | Num(n: Number)
    | DecimalBranch   // the double computation, not modelled
    | SuperPlus       // handed to the superclass's $plus, not modelled
    | SuperMinus      // handed to the superclass's $minus, not modelled

  datatype Exception = ArithmeticException | UnsupportedOperationException

  /** The cast targets of this generation's Type enum; the rest are Other. */
  datatype Type = BooleanType | StringType | ListType | MapType | NumberType | VoidType | Other(name: string)

  /** What $as returns. */
  datatype Cast =
    | AsBoolean(b: bool)
    | AsString(s: string)
    | AsList(items: seq<Number>)
    | AsMap(key: string, value: Number)
    | AsNumber(n: Number)
    | AsVoid

  // -------------------------------------------------------------- $inc, $dec

  /** $inc: the value plus amount.L() in long arithmetic, keeping the receiver's errors. */
  function Inc(x: Number, amount: Long): (r: Number)
    ensures r.errors == x.errors
    ensures (r.value - (x.value + amount)) % TWO_64 == 0
  {
    Number(x.errors, Wrap(x.value + amount))
  }

  /** $dec: the value minus amount.L() in long arithmetic, keeping the receiver's errors. */
  function Dec(x: Number, amount: Long): (r: Number)
    ensures r.errors == x.errors
    ensures (r.value - (x.value - amount)) % TWO_64 == 0
  {
    Number(x.errors, Wrap(x.value - amount))
  }

  lemma WrapNear(x: int)
    requires MIN_LONG - TWO_64 <= x <= MAX_LONG + TWO_64
    ensures Wrap(x) == if x < MIN_LONG then x + TWO_64 else if x > MAX_LONG then x - TWO_64 else x
  {
  }

  /** Decrementing by the amount just added gives the number back, overflow or not. */
  lemma DecUndoesInc(x: Number, amount: Long)
    ensures Dec(Inc(x, amount), amount) == x
  {
    WrapNear(x.value + amount);
    WrapNear(Wrap(x.value + amount) - amount);
  }

  /** Incrementing by the amount just subtracted gives the number back, overflow or not. */
  lemma IncUndoesDec(x: Number, amount: Long)
    ensures Inc(Dec(x, amount), amount) == x
  {
    WrapNear(x.value - amount);
    WrapNear(Wrap(x.value - amount) + amount);
  }

  // ------------------------------------------------------- $negate, $abs

  /** $negate: a fresh number holding -value in long arithmetic. */
  function Negate(x: Number): (r: Number)
    ensures r.errors == []
    ensures x.value != MIN_LONG ==> r.value == -(x.value as int)
    ensures x.value == MIN_LONG ==> r.value == MIN_LONG
  {
    WrapNear(-(x.value as int));
    Number([], Wrap(-(x.value as int)))
  }

  /** Negating twice gives the value back, Long.MIN_VALUE included. */
  lemma NegateTwice(x: Number)
    ensures Negate(Negate(x)).value == x.value
  {
  }

  /** $abs: Math.abs of the value, a fresh number. */
  function AbsOf(x: Number): (r: Number)
    ensures r.errors == []
    ensures r.value == x.value || r.value == -(x.value as int)
    ensures r.value >= 0 <==> x.value != MIN_LONG
    ensures x.value == MIN_LONG ==> r.value == MIN_LONG
  {
    WrapNear(-(x.value as int));
    Number([], if x.value < 0 then Wrap(-(x.value as int)) else x.value)
  }

  // ------------------------------------------------ $multiply, $divide, $modulus

  /** $multiply: value * v.L() in long arithmetic, a fresh number. */
  function Multiply(x: Number, v: Long): (r: Number)
    ensures r.errors == []
    ensures (r.value - x.value * v) % TWO_64 == 0
    ensures MIN_LONG <= x.value * v <= MAX_LONG ==> r.value == x.value * v
  {
    Number([], Wrap(x.value * v))
  }

  /** $divide: value / v.L() truncated toward zero; a zero divisor throws. */
  function Divide(x: Number, v: Long): (r: Result<Number, Exception>)
    ensures v == 0 <==> r.Err?
    ensures r.Err? ==> r.error == ArithmeticException
    ensures r.Ok? ==> r.value.errors == []
  {
    if v == 0 then Err(ArithmeticException) else Ok(Number([], Wrap(TruncDiv(x.value, v))))
  }

  /** $modulus: value % v.L() with the dividend's sign; a zero divisor throws. */
  function Modulus(x: Number, v: Long): (r: Result<Number, Exception>)
    ensures v == 0 <==> r.Err?
    ensures r.Err? ==> r.error == ArithmeticException
    ensures r.Ok? ==> r.value.errors == [] && Abs(r.value.value) < Abs(v)
    ensures r.Ok? ==> r.value.value == 0 || (r.value.value < 0 <==> x.value < 0)
  {
    if v == 0 then Err(ArithmeticException) else Ok(Number([], TruncRem(x.value, v)))
  }

  lemma MulAtLeast(q: int, k: int)
    requires q >= 0 && k >= 1
    ensures q * k >= q
  {
    assert q * k == q + q * (k - 1);
  }

  lemma EuclidNat(A: int, B: int)
    requires A >= 0 && B > 0
    ensures A == (A / B) * B + A % B && 0 <= A % B < B && 0 <= A / B <= A
  {
    MulAtLeast(A / B, B);
  }

  lemma DivRemExact(a: int, b: int)
    requires b != 0
    ensures TruncDiv(a, b) * b + TruncRem(a, b) == a
    ensures Abs(TruncDiv(a, b)) <= Abs(a)
  {
    var A: int, B: int := Abs(a), Abs(b);
    EuclidNat(A, B);
    var q: int, r: int := A / B, A % B;
    if a >= 0 && b > 0 {
      assert TruncDiv(a, b) * b == q * B;
    } else if a >= 0 {
      assert TruncDiv(a, b) * b == q * B by {
        assert TruncDiv(a, b) == -q && b == -B;
        assert (-q) * (-B) == q * B;
      }
    } else if b > 0 {
      assert TruncDiv(a, b) * b == -(q * B) by {
        assert TruncDiv(a, b) == -q && b == B;
        assert (-q) * B == -(q * B);
      }
    } else {
      assert TruncDiv(a, b) * b == -(q * B) by {
        assert TruncDiv(a, b) == q && b == -B;
        assert q * (-B) == -(q * B);
      }
    }
  }

  /**
   * Truncating quotient and remainder put back together give the dividend:
   * (a / b) * b + a % b == a in long arithmetic, Long.MIN_VALUE / -1 included.
   */
  lemma DivideModulusIdentity(x: Number, v: Long)
    requires v != 0
    ensures var q := Divide(x, v).value.value;
            var r := Modulus(x, v).value.value;
            Wrap(Wrap(q * v) + r) == x.value
  {
    var a := x.value;
    DivRemExact(a, v);
    var d := TruncDiv(a, v);
    if a == MIN_LONG && v == -1 {
      assert d == TWO_63;
      WrapNear(d);
      assert Wrap(d) * v == TWO_63;
      WrapNear(TWO_63);
    } else {
      assert d != TWO_63;
      assert MIN_LONG <= d * v <= MAX_LONG by {
        assert d * v == a - TruncRem(a, v);
        assert Abs(TruncRem(a, v)) < Abs(v);
      }
    }
  }

  /** When the quotient fits, the division is exactly the truncated one, which never overshoots. */
  lemma DivideTruncates(x: Number, v: Long)
    requires v != 0 && !(x.value == MIN_LONG && v == -1)
    ensures Divide(x, v).value.value == TruncDiv(x.value, v)
    ensures Abs(Divide(x, v).value.value * v) <= Abs(x.value)
  {
    var a: int := x.value;
    DivRemExact(a, v);
    var d := TruncDiv(a, v);
    var rem := TruncRem(a, v);
    assert d * v == a - rem;
    assert TWO_63 * v != a - rem;
    assert d != TWO_63;
  }

  // ------------------------------------------------------- $plus, $minus

  /**
   * $plus: a `var` argument is added as value + rhs.L() in long arithmetic,
   * keeping the receiver's errors; any other object goes to the superclass.
   */
  function Plus(x: Number, rhs: Operand): (r: Outcome)
    ensures rhs.VarOf? <==> r.Num?
    ensures r.Num? ==> r.n.errors == x.errors && (r.n.value - (x.value + rhs.l)) % TWO_64 == 0
    ensures rhs.Plain? ==> r == SuperPlus
  {
    if rhs.VarOf? then Num(Number(x.errors, Wrap(x.value + rhs.l))) else SuperPlus
  }

  /**
   * $minus: an integer `var` is subtracted in long arithmetic keeping the
   * errors; a decimal one is subtracted as doubles; anything else is handed
   * to the superclass's $plus.
   */
  function Minus(x: Number, rhs: Operand): (r: Outcome)
    ensures r.Num? <==> rhs.VarOf? && rhs.kind == IntegerKind
    ensures r.Num? ==> r.n.errors == x.errors && (r.n.value - (x.value - rhs.l)) % TWO_64 == 0
    ensures r.DecimalBranch? <==> rhs.VarOf? && rhs.kind == DecimalKind
    ensures r.SuperPlus? <==> rhs.Plain? || (rhs.VarOf? && rhs.kind == OtherKind)
  {
    match rhs
    case VarOf(IntegerKind, l) => Num(Number(x.errors, Wrap(x.value - l)))
    case VarOf(DecimalKind, _) => DecimalBranch
    case _ => SuperPlus
  }

  /**
   * As written, whatever $minus does not subtract itself it adds: on any
   * argument that is not a numeric var, minus and plus both go to the
   * superclass's $plus.
   */
  lemma MinusFallsToPlus(x: Number, rhs: Operand)
    requires rhs.Plain? || rhs.kind == OtherKind
    ensures Minus(x, rhs) == SuperPlus
    ensures rhs.Plain? ==> Minus(x, rhs) == Plus(x, rhs)
  {
  }

  /**
   * $minus as intended: the same integer and decimal branches, and every
   * other argument handed to the superclass's $minus.
   */
  function MinusIntended(x: Number, rhs: Operand): (r: Outcome)
    ensures r.Num? <==> rhs.VarOf? && rhs.kind == IntegerKind
    ensures r.Num? ==> r.n.errors == x.errors && (r.n.value - (x.value - rhs.l)) % TWO_64 == 0
    ensures r.DecimalBranch? <==> rhs.VarOf? && rhs.kind == DecimalKind
    ensures r.SuperMinus? <==> rhs.Plain? || (rhs.VarOf? && rhs.kind == OtherKind)
    ensures !r.SuperPlus?
  {
    match rhs
    case VarOf(IntegerKind, l) => Num(Number(x.errors, Wrap(x.value - l)))
    case VarOf(DecimalKind, _) => DecimalBranch
    case _ => SuperMinus
  }

  /** The intended $minus differs from the one written only where that one hands over to $plus. */
  lemma MinusIntendedAgrees(x: Number, rhs: Operand)
    ensures Minus(x, rhs) != MinusIntended(x, rhs) <==> Minus(x, rhs) == SuperPlus
    ensures MinusIntended(x, rhs) != Plus(x, rhs) || rhs.VarOf?
  {
  }

  /** Subtracting an integer after adding it gives the value back. */
  lemma MinusUndoesPlus(x: Number, l: Long)
    ensures MinusIntended(Plus(x, VarOf(IntegerKind, l)).n, VarOf(IntegerKind, l)) == Num(x)
  {
    DecUndoesInc(x, l);
  }

  // -------------------------------------------- truth, equality and order

  /** isTruthy: intValue() != 0, so only the low 32 bits count. */
  predicate Truthy(x: Number)
  {
    IntValue(x.value) != 0
  }

  /** A number is truthy exactly when its low 32 bits are not all zero; 2^32 is not truthy. */
  lemma TruthyLow32(x: Number)
    ensures Truthy(x) <==> x.value % TWO_32 != 0
    ensures x.value == TWO_32 ==> !Truthy(x)
  {
  }

  predicate IsBoolean(x: Number) { false }
  predicate IsTrue(x: Number) { false }
  predicate IsFalse(x: Number) { false }
  predicate IsNeitherTrueNorFalse(x: Number) { true }

  /** $equals for an integer receiver: value == other.L(). */
  predicate Equals(x: Number, otherL: Long)
  {
    x.value == otherL
  }

  /** Equality ignores the errors and is what subtracting to zero detects. */
  lemma EqualsIffZeroDifference(x: Number, y: Number)
    ensures Equals(x, y.value) <==> Minus(x, VarOf(IntegerKind, y.value)).n.value == 0
    ensures Equals(x, y.value) <==> Equals(y, x.value)
  {
    WrapNear(x.value - y.value);
  }

  /**
   * compareTo exactly as written: $minus(o).I(), the 32-bit intValue of the
   * 64-bit difference; None where $minus leaves this model.
   */
  function CompareToAsWritten(x: Number, o: Operand): (r: Option<int>)
    ensures r.Some? <==> o.VarOf? && o.kind == IntegerKind
    ensures r.Some? ==> -0x8000_0000 <= r.value < 0x8000_0000
  {
    match Minus(x, o)
    case Num(d) => Some(IntValue(d.value))
    case _ => None
  }

  /** As written, 2^32 compares equal to 0, and 2^31 compares below 0. */
  lemma CompareToTruncates()
    ensures CompareToAsWritten(Number([], TWO_32), VarOf(IntegerKind, 0)) == Some(0)
    ensures CompareToAsWritten(Number([], 0x8000_0000), VarOf(IntegerKind, 0)).value < 0
  {
  }

  /** As written, compareTo has the right sign whenever the values are less than 2^31 apart. */
  lemma CompareToRightOnSmallGaps(x: Number, l: Long)
    requires -0x8000_0000 <= x.value - l < 0x8000_0000
    ensures CompareToAsWritten(x, VarOf(IntegerKind, l)) == Some(x.value - l)
  {
  }

  /** compareTo as intended: the sign of the comparison of the two longs (Long.compare). */
  function CompareTo(x: Number, o: Operand): (r: Option<int>)
    ensures r.Some? <==> o.VarOf? && o.kind == IntegerKind
    ensures r.Some? ==> (r.value < 0 <==> x.value < o.l)
    ensures r.Some? ==> (r.value == 0 <==> x.value == o.l)
    ensures r.Some? ==> (r.value > 0 <==> x.value > o.l)
  {
    if o.VarOf? && o.kind == IntegerKind then
      Some(if x.value < o.l then -1 else if x.value == o.l then 0 else 1)
    else None
  }

  /** The intended order is antisymmetric and agrees with $equals. */
  lemma CompareToAntisymmetric(x: Number, y: Number)
    ensures CompareTo(x, VarOf(IntegerKind, y.value)).value ==
            -CompareTo(y, VarOf(IntegerKind, x.value)).value
    ensures CompareTo(x, VarOf(IntegerKind, y.value)).value == 0 <==> Equals(x, y.value)
  {
  }

  // ------------------------------------------------------------ $as, is

  /** S(): the decimal string of the value. */
  function S(x: Number): string
  {
    JavaStrings.IntToString(x.value)
  }

  /**
   * $as: BOOLEAN is intValue() != 0, STRING the decimal string, LIST the
   * singleton list, MAP {"value": this}, NUMBER the number itself, VOID
   * void; any other target throws UnsupportedOperationException.
   */
  function As(x: Number, t: Type): (r: Result<Cast, Exception>)
    ensures r.Err? <==> t.Other?
    ensures r.Err? ==> r.error == UnsupportedOperationException
    ensures t == BooleanType ==> r == Ok(AsBoolean(Truthy(x)))
    ensures t == ListType ==> r.Ok? && r.value.AsList? && |r.value.items| == 1 && r.value.items[0] == x
    ensures t == MapType ==> r == Ok(AsMap("value", x))
    ensures t == NumberType ==> r == Ok(AsNumber(x))
    ensures t == VoidType ==> r == Ok(AsVoid)
    ensures t == StringType ==> r == Ok(AsString(JavaStrings.IntToString(x.value)))
  {
    match t
    case BooleanType => Ok(AsBoolean(IntValue(x.value) != 0))
    case StringType => Ok(AsString(S(x)))
    case ListType => Ok(AsList([x]))
    case MapType => Ok(AsMap("value", x))
    case NumberType => Ok(AsNumber(x))
    case VoidType => Ok(AsVoid)
    case Other(_) => Err(UnsupportedOperationException)
  }

  /** The string cast reads back as the value. */
  lemma AsStringReadsBack(x: Number)
    requires x.value >= 0
    ensures As(x, StringType).value.AsString?
    ensures JavaStrings.ParseNat(As(x, StringType).value.s) == x.value
  {
    JavaStrings.NatToStringRoundTrip(x.value);
  }

  /** A negative number's string cast is a minus sign followed by digits that read back as its magnitude. */
  lemma AsStringReadsBackNegative(x: Number)
    requires x.value < 0
    ensures As(x, StringType).value.AsString?
    ensures var s := As(x, StringType).value.s;
            |s| >= 2 && s[0] == '-' && JavaStrings.ParseNat(s[1..]) == -(x.value as int)
  {
    var magnitude: nat := -(x.value as int);
    var digits := JavaStrings.NatToString(magnitude);
    JavaStrings.NatToStringRoundTrip(magnitude);
    assert JavaStrings.IntToString(x.value) == "-" + digits;
    assert ("-" + digits)[1..] == digits;
  }

  /** is(types...): true when one of the types is NUMBER, found by a loop over them. */
  method Is(types: seq<Type>) returns (r: bool)
    ensures r <==> NumberType in types
  {
    var i := 0;
    while i < |types|
      invariant 0 <= i <= |types|
      invariant NumberType !in types[..i]
    {
      if types[i] == NumberType {
        return true;
      }
      assert types[..i + 1] == types[..i] + [types[i]];
      i := i + 1;
    }
    assert types[..i] == types;
    return false;
  }
}
