/** Python values as the rule engine sees them, with the parts of Python's semantics the engine
    relies on: `==`, `str()`, truthiness, `int()`, `float()` and `math.isclose`. */
module PyValues {
  import opened Text

  datatype Option<T> = Nothing | Some(value: T)

  /** The Python exceptions the engine raises or catches. */
  datatype PyError =
    | ValueError(msg: string)
    | TypeError(msg: string)
    | AttributeError(msg: string)
    | IndexError(msg: string)
    | KeyError(key: string)
    | RegexError(msg: string)  // `re.error`, which is not a kind of ValueError

  /** The outcome of a Python call: its value, or the exception it raises. */
  datatype Result<T> = Ok(value: T) | Err(error: PyError) {
    predicate IsFailure() {
      Err?
    }

    function PropagateFailure<U>(): Result<U>
      requires Err?
    {
      Err(error)
    }

    function Extract(): T
      requires Ok?
    {
      value
    }
  }

  /** A Python value. `Null` is `None`; `NaN` is the float `nan` (also what a missing
      spreadsheet cell holds). `Rec` is a dict (`isDict`) or a Speckle `Base` object: its
      members are the dict items, or the `get_member_names()` attributes, in order, and
      `id` is the object's identity `id(obj)`. */
  datatype Value =
    | Null
    | Bool(b: bool)
    | Int(i: int)
    | Float(r: real)
    | NaN
    | Str(s: string)
    | List(items: seq<Value>)
    | Rec(id: nat, isDict: bool, members: seq<(string, Value)>)

  /** A number as `float()` yields it. */
  datatype Num = Finite(x: real) | NotANumber

  /** `isinstance(v, float | int)`: `bool` is a subclass of `int`. */
  predicate IsNumeric(v: Value) {
    v.Bool? || v.Int? || v.Float? || v.NaN?
  }

  function NumOf(v: Value): Num
    requires IsNumeric(v)
  {
    match v
    case Bool(b) => Finite(if b then 1.0 else 0.0)
    case Int(i) => Finite(i as real)
    case Float(r) => Finite(r)
    case NaN => NotANumber
  }

  /** Numeric `==`: `nan` equals nothing. */
  predicate NumEq(a: Num, b: Num) {
    a.Finite? && b.Finite? && a.x == b.x
  }

  /** `pandas.isna` on a single cell. */
  predicate IsNa(v: Value) {
    v.Null? || v.NaN?
  }

  /** The first member named exactly `key`: dict indexing, or attribute access on `Base`. */
  function Get(members: seq<(string, Value)>, key: string): (r: Option<Value>)
    ensures r.Some? <==> exists k :: 0 <= k < |members| && members[k].0 == key
    ensures r.Some? ==> exists k :: 0 <= k < |members| && members[k] == (key, r.value)
  {
    if |members| == 0 then Nothing
    else if members[0].0 == key then Some(members[0].1)
    else Get(members[1..], key)
  }

  /** Python `==`. Numbers compare by value across `bool`/`int`/`float`, strings and lists
      by contents, dicts by their items, `Base` objects by identity. */
  predicate PyEq(a: Value, b: Value)
    decreases a, 2
  {
    if IsNumeric(a) && IsNumeric(b) then NumEq(NumOf(a), NumOf(b))
    else match (a, b)
      case (Null, Null) => true
      case (Str(s), Str(t)) => s == t
      case (List(xs), List(ys)) => |xs| == |ys| && ItemsEq(a, b, 0)
      case (Rec(i, d, ms), Rec(j, e, ns)) =>
        if d && e then |ms| == |ns| && MembersEq(a, b, 0)
        else !d && !e && i == j
      case _ => false
  }

  predicate ItemsEq(a: Value, b: Value, k: nat)
    requires a.List? && b.List? && |a.items| == |b.items| && k <= |a.items|
    decreases a, 1, |a.items| - k
  {
    k == |a.items| || (PyEq(a.items[k], b.items[k]) && ItemsEq(a, b, k + 1))
  }

  predicate MembersEq(a: Value, b: Value, k: nat)
    requires a.Rec? && b.Rec? && k <= |a.members|
    decreases a, 1, |a.members| - k
  {
    k == |a.members|
    || (var other := Get(b.members, a.members[k].0);
        other.Some? && PyEq(a.members[k].1, other.value) && MembersEq(a, b, k + 1))
  }

  /** Python truthiness. A `Base` object defines no length, so it is always true. */
  predicate PyTruthy(v: Value) {
    match v
    case Null => false
    case Bool(b) => b
    case Int(i) => i != 0
    case Float(r) => r != 0.0
    case NaN => true
    case Str(s) => s != []
    case List(xs) => xs != []
    case Rec(_, isDict, ms) => !isDict || ms != []
  }

  // ---------------------------------------------------------------------------
  // str() and repr()

  function DigitChar(d: nat): char
    requires d < 10
  {
    '0' + d as char
  }

  /** Up to `n` decimal digits of a fraction `0 <= f < 1`. */
  function FractionDigits(f: real, n: nat): string
    requires 0.0 <= f < 1.0
    decreases n
  {
    if n == 0 || f == 0.0 then []
    else
      var d := (f * 10.0).Floor;
      [DigitChar(d)] + FractionDigits(f * 10.0 - d as real, n - 1)
  }

  function DropTrailingZeros(s: string): string
    decreases |s|
  {
    if |s| > 0 && s[|s| - 1] == '0' then DropTrailingZeros(s[..|s| - 1]) else s
  }

  /** `repr(float)`: integral values print as "N.0", others with their decimal expansion
      (at most 17 fractional digits). */
  function FloatRepr(r: real): string {
    if r == r.Floor as real then IntToString(r.Floor) + ".0"
    else
      var m := if r < 0.0 then -r else r;
      var frac := DropTrailingZeros(FractionDigits(m - m.Floor as real, 17));
      (if r < 0.0 then "-" else "") + NatToString(m.Floor) + "." + (if frac == [] then "0" else frac)
  }

  function JoinWith(parts: seq<string>, sep: string): string
    decreases |parts|
  {
    if |parts| == 0 then []
    else if |parts| == 1 then parts[0]
    else parts[0] + sep + JoinWith(parts[1..], sep)
  }

  /** `repr(v)`. A `Base` object prints as its class name and identity. */
  function PyRepr(v: Value): string
    decreases v, 1
  {
    match v
    case Null => "None"
    case Bool(b) => if b then "True" else "False"
    case Int(i) => IntToString(i)
    case Float(r) => FloatRepr(r)
    case NaN => "nan"
    case Str(s) => "'" + s + "'"
    case List(xs) => "[" + JoinWith(ItemReprs(v, 0), ", ") + "]"
    case Rec(id, isDict, _) =>
      if isDict then "{" + JoinWith(MemberReprs(v, 0), ", ") + "}"
      else "Base(id=" + NatToString(id) + ")"
  }

  function ItemReprs(v: Value, k: nat): seq<string>
    requires v.List? && k <= |v.items|
    decreases v, 0, |v.items| - k
  {
    if k == |v.items| then [] else [PyRepr(v.items[k])] + ItemReprs(v, k + 1)
  }

  function MemberReprs(v: Value, k: nat): seq<string>
    requires v.Rec? && k <= |v.members|
    decreases v, 0, |v.members| - k
  {
    if k == |v.members| then []
    else ["'" + v.members[k].0 + "': " + PyRepr(v.members[k].1)] + MemberReprs(v, k + 1)
  }

  /** `str(v)`: a string is itself, everything else its `repr`. */
  function PyStr(v: Value): string {
    if v.Str? then v.s else PyRepr(v)
  }

  // ---------------------------------------------------------------------------
  // int() and float()

  predicate AllDigits(s: string) {
    forall i :: 0 <= i < |s| ==> IsDigit(s[i])
  }

  /** The number a run of decimal digits denotes. */
  function DigitsValue(s: string): nat
    requires AllDigits(s)
    decreases |s|
  {
    if |s| == 0 then 0 else DigitsValue(s[..|s| - 1]) * 10 + (s[|s| - 1] as int - '0' as int)
  }

  /** The fraction `0.d1d2...` a run of decimal digits denotes after a point. */
  function FractionValue(s: string): real
    requires AllDigits(s)
    decreases |s|
  {
    if |s| == 0 then 0.0 else ((s[0] as int - '0' as int) as real + FractionValue(s[1..])) / 10.0
  }

  /** Splits an optional leading sign off: (is it negative, the rest). */
  function SignOf(s: string): (bool, string) {
    if |s| > 0 && (s[0] == '-' || s[0] == '+') then (s[0] == '-', s[1..]) else (false, s)
  }

  /** An integer literal as `int()` accepts it, after stripping: sign and digits. */
  function IntLiteral(s: string): Option<int> {
    var (neg, body) := SignOf(s);
    if IsDigits(body) then Some(if neg then -(DigitsValue(body) as int) else DigitsValue(body))
    else Nothing
  }

  /** An unsigned float literal: "nan", or digits with at most one point and at least one
      digit. */
  function UnsignedFloatLiteral(body: string): Option<Num> {
    if Lower(body) == "nan" then Some(NotANumber)
    else if '.' in body then
      var i := IndexOf(body, '.');
      var whole := body[..i];
      var frac := body[i + 1..];
      if AllDigits(whole) && AllDigits(frac) && |whole| + |frac| > 0 then
        Some(Finite(DigitsValue(whole) as real + FractionValue(frac)))
      else Nothing
    else if IsDigits(body) then Some(Finite(DigitsValue(body) as real))
    else Nothing
  }

  /** A float literal as `float()` accepts it, after stripping: an optional sign, then an
      unsigned literal. */
  function FloatLiteral(s: string): Option<Num> {
    var u := UnsignedFloatLiteral(SignOf(s).1);
    if SignOf(s).0 && u.Some? && u.value.Finite? then Some(Finite(-u.value.x)) else u
  }

  /** Truncation toward zero, as `int(float)` does. */
  function Truncate(r: real): int {
    if r >= 0.0 then r.Floor else -((-r).Floor)
  }

  /** `int(v)`. */
  function PyInt(v: Value): Result<int> {
    match v
    case Bool(b) => Ok(if b then 1 else 0)
    case Int(i) => Ok(i)
    case Float(r) => Ok(Truncate(r))
    case NaN => Err(ValueError("cannot convert float NaN to integer"))
    case Str(s) =>
      var lit := IntLiteral(Strip(s));
      if lit.Some? then Ok(lit.value) else Err(ValueError("invalid literal for int()"))
    case _ => Err(TypeError("int() argument must be a string or a real number"))
  }

  /** `float(v)`. */
  function PyFloat(v: Value): Result<Num> {
    match v
    case Bool(b) => Ok(Finite(if b then 1.0 else 0.0))
    case Int(i) => Ok(Finite(i as real))
    case Float(r) => Ok(Finite(r))
    case NaN => Ok(NotANumber)
    case Str(s) =>
      var lit := FloatLiteral(Strip(s));
      if lit.Some? then Ok(lit.value) else Err(ValueError("could not convert string to float"))
    case _ => Err(TypeError("float() argument must be a string or a real number"))
  }

  function Abs(x: real): real {
    if x < 0.0 then -x else x
  }

  function Max(x: real, y: real): real {
    if x < y then y else x
  }

  /** `math.isclose(a, b, abs_tol=tol)` with the default relative tolerance 1e-9. */
  predicate IsClose(a: Num, b: Num, tol: real) {
    a.Finite? && b.Finite?
    && (a.x == b.x || Abs(a.x - b.x) <= Max(0.000000001 * Max(Abs(a.x), Abs(b.x)), tol))
  }

  // ---------------------------------------------------------------------------
  // Lemmas

  /** The decimal rendering of a natural number is all digits and denotes it. */
  lemma {:induction false} NatToStringDigits(n: nat)
    ensures AllDigits(NatToString(n)) && DigitsValue(NatToString(n)) == n
    decreases n
  {
    var s := NatToString(n);
    if n >= 10 {
      NatToStringDigits(n / 10);
      assert s[..|s| - 1] == NatToString(n / 10);
    }
  }

  /** `int(str(i)) == i`. */
  /** `str(i)` is unspaced, reads back as `i`, and is digits after an optional minus sign. */
  lemma IntTextShape(i: int)
    ensures Strip(IntToString(i)) == IntToString(i)
    ensures IntLiteral(IntToString(i)) == Some(i)
    ensures i < 0 ==> IntToString(i)[0] == '-' && IsDigits(IntToString(i)[1..])
    ensures i >= 0 ==> IsDigits(IntToString(i))
  {
    var n := if i < 0 then -i else i;
    var digits := NatToString(n);
    NatToStringDigits(n);
    var s := IntToString(i);
    if i < 0 {
      assert s == "-" + digits;
      assert s[1..] == digits;
    }
    assert SignOf(s).1 == digits;
    assert s[|s| - 1] == digits[|digits| - 1];
    StripUnspaced(s);
  }

  lemma IntStrRoundTrip(i: int)
    ensures PyInt(Str(PyStr(Int(i)))) == Ok(i)
  {
    IntTextShape(i);
  }

  /** Whatever `int()` accepts, `float()` accepts with the same value. */
  lemma IntLiteralAsFloat(s: string)
    requires IntLiteral(s).Some?
    ensures FloatLiteral(s) == Some(Finite(IntLiteral(s).value as real))
  {
    var body := SignOf(s).1;
    assert Lower(body)[0] == body[0];
    assert '.' !in body by {
      assert forall k :: 0 <= k < |body| ==> IsDigit(body[k]);
    }
  }

  lemma NotNanText(body: string)
    requires |body| > 0 && body[|body| - 1] == '0'
    ensures Lower(body) != "nan"
  {
    assert Lower(body)[|body| - 1] == '0';
  }

  lemma PointPosition(digits: string)
    requires AllDigits(digits)
    ensures '.' in digits + ".0" && IndexOf(digits + ".0", '.') == |digits|
  {
    assert '.' !in digits by {
      assert forall k :: 0 <= k < |digits| ==> IsDigit(digits[k]);
    }
    IndexOfAfterPrefix(digits, '.', "0");
    assert digits + ".0" == digits + ['.'] + "0";
  }

  lemma PointZeroLiteral(digits: string)
    requires IsDigits(digits)
    ensures UnsignedFloatLiteral(digits + ".0") == Some(Finite(DigitsValue(digits) as real))
  {
    var body := digits + ".0";
    NotNanText(body);
    PointPosition(digits);
    assert body[..|digits|] == digits;
    assert body[|digits| + 1..] == "0";
    assert FractionValue("0") == 0.0 by {
      assert "0"[1..] == [];
    }
  }

  lemma FloatLiteralSigned(s: string, m: real)
    requires UnsignedFloatLiteral(SignOf(s).1) == Some(Finite(m))
    ensures FloatLiteral(s) == Some(Finite(if SignOf(s).0 then -m else m))
  {
  }

  /** Text with nothing to strip is parsed by `float()` as its literal. */
  lemma PyFloatOfUnspaced(t: string, n: Num)
    requires Strip(t) == t && FloatLiteral(t) == Some(n)
    ensures PyFloat(Str(t)) == Ok(n)
  {
  }

  /** The text of an integral float, "N.0", is a float literal of its value. */
  lemma IntegralFloatLiteral(s: string, neg: bool, digits: string)
    requires IsDigits(digits)
    requires if neg then |s| > 0 && s[0] == '-' && s[1..] == digits + ".0" else s == digits + ".0"
    ensures FloatLiteral(s) == Some(Finite(if neg then -(DigitsValue(digits) as real) else DigitsValue(digits) as real))
    ensures |s| > 0 && !IsSpace(s[0]) && !IsSpace(s[|s| - 1])
  {
    PointZeroLiteral(digits);
    if neg {
      assert SignOf(s) == (true, digits + ".0");
    } else {
      assert s[0] == digits[0];
      assert SignOf(s) == (false, digits + ".0");
    }
    FloatLiteralSigned(s, DigitsValue(digits) as real);
    assert s[|s| - 1] == '0';
  }

  lemma IntegralFloatRepr(r: real)
    requires r == r.Floor as real
    ensures PyStr(Float(r)) == IntToString(r.Floor) + ".0"
  {
  }

  /** `float(str(x)) == x` for every integral float. */
  lemma IntegralFloatStrRoundTrip(r: real)
    requires r == r.Floor as real
    ensures PyFloat(Str(PyStr(Float(r)))) == Ok(Finite(r))
  {
    var i := r.Floor;
    var n: nat := if i < 0 then -i else i;
    NatToStringDigits(n);
    var digits := NatToString(n);
    var s := PyStr(Float(r));
    IntegralFloatRepr(r);
    if i < 0 {
      assert s == "-" + digits + ".0";
      assert s[1..] == digits + ".0";
    }
    IntegralFloatLiteral(s, i < 0, digits);
    StripUnspaced(s);
    PyFloatOfUnspaced(s, Finite(r));
  }

  /** `nan` is not close to anything, and every number is close to itself. */
  lemma IsCloseNaN(a: Num, tol: real)
    ensures !IsClose(NotANumber, a, tol) && !IsClose(a, NotANumber, tol)
    ensures a.Finite? ==> IsClose(a, a, tol)
  {
  }

  /** `math.isclose` is symmetric. */
  lemma IsCloseSymmetric(a: Num, b: Num, tol: real)
    ensures IsClose(a, b, tol) == IsClose(b, a, tol)
  {
  }

  /** `==` on primitive values is symmetric. */
  lemma PyEqSymmetricPrimitive(a: Value, b: Value)
    requires !a.List? && !a.Rec? && !b.List? && !b.Rec?
    ensures PyEq(a, b) == PyEq(b, a)
  {
  }
}
