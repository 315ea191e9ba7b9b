/** Interpreter: expressions are trees of number leaves and addition nodes,
    evaluated with C#'s 32-bit `int` arithmetic; `ExpressionInterpreter`
    turns a text of the form "a + b" into such a tree and evaluates it. */
module Interpreter {
  import opened Wrappers

  const TwoTo31: int := 0x8000_0000
  const TwoTo32: int := 0x1_0000_0000

  /** The values of C#'s `int`. */
  type Int32 = x: int | -0x8000_0000 <= x < 0x8000_0000

  /** `x` wrapped into 32 bits: what unchecked `int` arithmetic keeps of the
      mathematical result. */
  function Wrap(x: int): (r: Int32)
    ensures -TwoTo31 <= x < TwoTo31 ==> r == x
  {
    (x + TwoTo31) % TwoTo32 - TwoTo31
  }

  /** `Wrap` forgets whole multiples of 2^32. */
  lemma WrapPeriodic(x: int, k: int)
    ensures Wrap(x + TwoTo32 * k) == Wrap(x)
  {
    var a := x + TwoTo31;
    var q, r := a / TwoTo32, a % TwoTo32;
    assert a == TwoTo32 * q + r && 0 <= r < TwoTo32;
    assert a + TwoTo32 * k == TwoTo32 * (q + k) + r;
    DivModUnique(a + TwoTo32 * k, q + k, r);
  }

  /** Euclidean division by 2^32 has a unique quotient and remainder. */
  lemma DivModUnique(a: int, q: int, r: int)
    requires a == TwoTo32 * q + r && 0 <= r < TwoTo32
    ensures a % TwoTo32 == r
  {
    var q', r' := a / TwoTo32, a % TwoTo32;
    assert a == TwoTo32 * q' + r' && 0 <= r' < TwoTo32;
    assert TwoTo32 * (q - q') == r' - r;
  }

  /** Wrapping the operands first does not change the wrapped sum. */
  lemma WrapAdd(x: int, y: int)
    ensures Wrap(Wrap(x) + Wrap(y)) == Wrap(x + y)
  {
    var qx := (x + TwoTo31) / TwoTo32;
    var qy := (y + TwoTo31) / TwoTo32;
    assert Wrap(x) == x - TwoTo32 * qx;
    assert Wrap(y) == y - TwoTo32 * qy;
    assert Wrap(x) + Wrap(y) == (x + y) + TwoTo32 * (-(qx + qy));
    WrapPeriodic(x + y, -(qx + qy));
  }

  /** The expression tree: `NumberExpression` and `AddExpression`. */
  datatype Expression = Number(n: Int32) | Add(first: Expression, second: Expression)

  /** The mathematical sum of the tree's leaves. */
  function LeafSum(e: Expression): int {
    match e
    case Number(n) => n
    case Add(first, second) => LeafSum(first) + LeafSum(second)
  }

  /** `Interpret`: a number yields itself, an addition the 32-bit
      (unchecked) sum of its operands' values. Wrapping at every node is the
      same as wrapping once at the end: any tree evaluates to the sum of its
      leaves reduced into 32 bits, and to exactly that sum when it fits. */
  function Interpret(e: Expression): (r: Int32)
    ensures r == Wrap(LeafSum(e))
    ensures -TwoTo31 <= LeafSum(e) < TwoTo31 ==> r == LeafSum(e)
  {
    match e
    case Number(n) => n
    case Add(first, second) =>
      WrapAdd(LeafSum(first), LeafSum(second));
      Wrap(Interpret(first) + Interpret(second))
  }

  /** `int.MaxValue + 1` wraps to `int.MinValue`. */
  lemma AdditionOverflows()
    ensures Interpret(Add(Number(0x7FFF_FFFF), Number(1))) == -0x8000_0000
  {
  }

  // ---------------------------------------------------------------------
  // `string.Split(' ')`

  /** `s.Split(' ')`: the pieces between single spaces, keeping empty pieces
      (two spaces in a row, or a space at either end). */
  function Split(s: string): (parts: seq<string>)
    ensures |parts| >= 1
    ensures forall i | 0 <= i < |parts| :: ' ' !in parts[i]
    decreases |s|
  {
    if |s| == 0 then [""]
    else
      var rest := Split(s[1..]);
      if s[0] == ' ' then [""] + rest
      else [[s[0]] + rest[0]] + rest[1..]
  }

  /** The pieces joined back with single spaces. */
  function Join(parts: seq<string>): string
    requires |parts| >= 1
  {
    if |parts| == 1 then parts[0] else parts[0] + " " + Join(parts[1..])
  }

  /** Splitting loses nothing: joining the pieces gives back the text. */
  lemma {:induction false} SplitJoin(s: string)
    ensures Join(Split(s)) == s
    decreases |s|
  {
    if |s| > 0 {
      SplitJoin(s[1..]);
      var rest := Split(s[1..]);
      if s[0] == ' ' {
        assert s == [' '] + s[1..];
      } else if |rest| == 1 {
        assert s == [s[0]] + rest[0];
      } else {
        assert Split(s)[1..] == rest[1..];
        assert s == [s[0]] + (rest[0] + " " + Join(rest[1..]));
      }
    }
  }

  /** A text without spaces is a single piece. */
  lemma {:induction false} SplitNoSpace(a: string)
    requires ' ' !in a
    ensures Split(a) == [a]
    decreases |a|
  {
    if |a| > 0 {
      assert ' ' !in a[1..];
      SplitNoSpace(a[1..]);
      assert a == [a[0]] + a[1..];
    }
  }

  /** A space-free first piece followed by a space splits off first. */
  lemma {:induction false} SplitFirstPiece(a: string, b: string)
    requires ' ' !in a
    ensures Split(a + " " + b) == [a] + Split(b)
    decreases |a|
  {
    if |a| == 0 {
      assert a + " " + b == [' '] + b;
      assert (a + " " + b)[1..] == b;
    } else {
      assert ' ' !in a[1..];
      SplitFirstPiece(a[1..], b);
      assert (a + " " + b)[1..] == a[1..] + " " + b;
      assert a == [a[0]] + a[1..];
    }
  }

  // ---------------------------------------------------------------------
  // `int.Parse`, restricted to an optional '-' followed by decimal digits

  /** The exceptions `Evaluate` can throw. */
  datatype Fault = FormatException | OverflowException | IndexOutOfRangeException

  predicate IsDigit(c: char) {
    '0' <= c <= '9'
  }

  predicate AllDigits(s: string) {
    forall i | 0 <= i < |s| :: IsDigit(s[i])
  }

  /** The value of a string of decimal digits. */
  function DigitsValue(s: string): (v: nat)
    requires AllDigits(s)
    decreases |s|
  {
    if |s| == 0 then 0
    else DigitsValue(s[..|s| - 1]) * 10 + (s[|s| - 1] as int - '0' as int)
  }

  /** `int.Parse(s)`: an optional minus sign and at least one digit, whose
      value must fit in an `int`. */
  function ParseInt(s: string): (r: Result<Int32, Fault>)
    ensures r.Err? <==> !IsNumeral(s) || !(-TwoTo31 <= NumeralValue(s) < TwoTo31)
    ensures r.Err? ==> (r.error == FormatException <==> !IsNumeral(s))
    ensures r.Ok? ==> r.value == NumeralValue(s)
  {
    if !IsNumeral(s) then Err(FormatException)
    else
      var v := NumeralValue(s);
      if -TwoTo31 <= v < TwoTo31 then Ok(v) else Err(OverflowException)
  }

  /** The text after the optional minus sign. */
  function Magnitude(s: string): string {
    if |s| > 0 && s[0] == '-' then s[1..] else s
  }

  /** What `ParseInt` accepts as a numeral. */
  predicate IsNumeral(s: string) {
    |Magnitude(s)| > 0 && AllDigits(Magnitude(s))
  }

  /** The mathematical value of a numeral. */
  function NumeralValue(s: string): int
    requires IsNumeral(s)
  {
    if |s| > 0 && s[0] == '-' then -(DigitsValue(Magnitude(s)) as int) else DigitsValue(Magnitude(s))
  }

  /** The decimal digits of `n`, most significant first. */
  function Digits(n: nat): (s: string)
    ensures |s| > 0 && AllDigits(s)
  {
    if n < 10 then [('0' as int + n) as char]
    else Digits(n / 10) + [('0' as int + n % 10) as char]
  }

  /** `n.ToString()` for an `int`. */
  function Format(n: Int32): string {
    if n < 0 then "-" + Digits(-(n as int)) else Digits(n)
  }

  /** Reading back the digits of `n` yields `n`. */
  lemma {:induction false} DigitsRoundTrip(n: nat)
    ensures DigitsValue(Digits(n)) == n
  {
    if n >= 10 {
      DigitsRoundTrip(n / 10);
      var s := Digits(n);
      assert s[..|s| - 1] == Digits(n / 10);
    }
  }

  /** A string of digits has no sign and no space. */
  lemma DigitsAreBare(s: string)
    requires |s| > 0 && AllDigits(s)
    ensures Magnitude(s) == s && ' ' !in s
  {
    assert IsDigit(s[0]);
  }

  /** `int.Parse` inverts formatting, and a formatted number is one piece. */
  lemma ParseFormat(n: Int32)
    ensures ParseInt(Format(n)) == Ok(n)
    ensures ' ' !in Format(n)
  {
    if n < 0 {
      var m: nat := -(n as int);
      DigitsRoundTrip(m);
      DigitsAreBare(Digits(m));
      var s := Format(n);
      assert s == "-" + Digits(m);
      assert s[0] == '-' && s[1..] == Digits(m);
      assert Magnitude(s) == Digits(m);
      assert NumeralValue(s) == n;
    } else {
      DigitsRoundTrip(n);
      DigitsAreBare(Digits(n));
      assert NumeralValue(Format(n)) == n;
    }
  }

  // ---------------------------------------------------------------------
  // `ExpressionInterpreter.Evaluate`

  /** `ExpressionInterpreter.Evaluate`: splits on spaces, parses piece 0,
      then reads piece 2 (the index throws when there are fewer than three
      pieces) and parses it, and returns the 32-bit sum. Piece 1, the
      operator, is never looked at, nor is anything after piece 2. */
  function Evaluate(expression: string): (r: Result<Int32, Fault>)
    ensures var parts := Split(expression);
      && (r.Ok? <==> ParseInt(parts[0]).Ok? && |parts| >= 3 && ParseInt(parts[2]).Ok?)
      && (ParseInt(parts[0]).Err? ==> r == Err(ParseInt(parts[0]).error))
      && (ParseInt(parts[0]).Ok? && |parts| < 3 ==> r == Err(IndexOutOfRangeException))
      && (ParseInt(parts[0]).Ok? && |parts| >= 3 && ParseInt(parts[2]).Err? ==> r == Err(ParseInt(parts[2]).error))
      && (r.Ok? ==> r.value == Wrap(ParseInt(parts[0]).value + ParseInt(parts[2]).value))
  {
    var parts := Split(expression);
    match ParseInt(parts[0])
    case Err(e) => Err(e)
    case Ok(a) =>
      if |parts| < 3 then Err(IndexOutOfRangeException)
      else
        match ParseInt(parts[2])
        case Err(e) => Err(e)
        case Ok(b) =>
          assert Interpret(Number(a)) == a && Interpret(Number(b)) == b;
          Ok(Interpret(Add(Number(a), Number(b))))
  }

  /** Three space-free pieces, and whatever follows a further space,
      split into those three pieces first. */
  lemma SplitThree(x: string, y: string, z: string, tail: string)
    requires ' ' !in x && ' ' !in y && ' ' !in z
    requires tail == [] || tail[0] == ' '
    ensures var parts := Split(x + " " + y + " " + z + tail);
      |parts| >= 3 && parts[0] == x && parts[1] == y && parts[2] == z
  {
    var rest := if tail == [] then [] else Split(tail[1..]);
    assert Split(z + tail) == [z] + rest by {
      if tail == [] {
        assert z + tail == z;
        SplitNoSpace(z);
      } else {
        assert z + tail == z + " " + tail[1..];
        SplitFirstPiece(z, tail[1..]);
      }
    }
    SplitFirstPiece(y, z + tail);
    SplitFirstPiece(x, y + " " + (z + tail));
    assert x + " " + y + " " + z + tail == x + " " + (y + " " + (z + tail));
  }

  /** For any two `int`s, any operator token and anything after a further
      space, `Evaluate` returns the 32-bit sum of the two numbers: the
      operator is ignored, so "5 * 10" is 15 as well, and so is everything
      after the third piece. */
  lemma EvaluateAddsFirstAndThird(a: Int32, op: string, b: Int32, tail: string)
    requires ' ' !in op
    requires tail == [] || tail[0] == ' '
    ensures Evaluate(Format(a) + " " + op + " " + Format(b) + tail) == Ok(Wrap(a + b))
  {
    ParseFormat(a);
    ParseFormat(b);
    SplitThree(Format(a), op, Format(b), tail);
  }

  /** The driver's "5 + 10" is 15, and so is "5 * 10". */
  lemma DriverExpression()
    ensures Evaluate("5 + 10") == Ok(15)
    ensures Evaluate("5 * 10") == Ok(15)
  {
    assert Format(5) == "5";
    assert Format(10) == "10";
    EvaluateAddsFirstAndThird(5, "+", 10, "");
    assert "5 + 10" == Format(5) + " " + "+" + " " + Format(10) + "";
    EvaluateAddsFirstAndThird(5, "*", 10, "");
    assert "5 * 10" == Format(5) + " " + "*" + " " + Format(10) + "";
  }

  /** A single piece makes reading piece 2 throw. */
  lemma EvaluateTooFewPieces()
    ensures Evaluate("5") == Err(IndexOutOfRangeException)
  {
    SplitNoSpace("5");
    assert Format(5) == "5";
    ParseFormat(5);
  }

  /** A first piece that is not a numeral throws a format error. */
  lemma EvaluateBadFirstPiece()
    ensures Evaluate("x + 1") == Err(FormatException)
  {
    SplitFirstPiece("x", "+ 1");
    assert "x + 1" == "x" + " " + "+ 1";
    assert !IsDigit("x"[0]);
  }

  /** Whatever `int.Parse` throws on the third piece, `Evaluate` throws,
      once the first piece has parsed. */
  lemma EvaluateRejectsThirdPiece(a: Int32, op: string, third: string, tail: string)
    requires ' ' !in op && ' ' !in third
    requires tail == [] || tail[0] == ' '
    requires ParseInt(third).Err?
    ensures Evaluate(Format(a) + " " + op + " " + third + tail) == Err(ParseInt(third).error)
  {
    ParseFormat(a);
    SplitThree(Format(a), op, third, tail);
  }

  /** A third piece that is not a numeral throws a format error. */
  lemma EvaluateBadThirdPiece()
    ensures Evaluate("1 + x") == Err(FormatException)
  {
    assert Format(1) == "1";
    assert !IsDigit("x"[0]);
    EvaluateRejectsThirdPiece(1, "+", "x", "");
    assert "1 + x" == Format(1) + " " + "+" + " " + "x" + "";
  }

  /** A third piece beyond `int.MaxValue` throws an overflow error, even
      though the sum would wrap. */
  lemma EvaluateOverflowingThirdPiece()
    ensures Evaluate("1 + 2147483648") == Err(OverflowException)
  {
    assert Format(1) == "1";
    ParseTwoTo31();
    EvaluateRejectsThirdPiece(1, "+", "2147483648", "");
    assert "1 + 2147483648" == Format(1) + " " + "+" + " " + "2147483648" + "";
  }

  /** 2^31 is a numeral outside the range of `int`. */
  lemma ParseTwoTo31()
    ensures ParseInt("2147483648") == Err(OverflowException)
  {
    var s := "2147483648";
    assert Magnitude(s) == s by { assert s[0] == '2'; }
    assert AllDigits(s);
    Digits2147483648();
    assert NumeralValue(s) == TwoTo31;
  }

  /** The digits of 2^31. */
  lemma Digits2147483648()
    ensures DigitsValue("2147483648") == 2147483648
  {
    assert DigitsValue("2") == 2;
    assert "21"[..1] == "2";
    assert DigitsValue("21") == 21;
    assert "214"[..2] == "21";
    assert DigitsValue("214") == 214;
    assert "2147"[..3] == "214";
    assert DigitsValue("2147") == 2147;
    assert "21474"[..4] == "2147";
    assert DigitsValue("21474") == 21474;
    assert "214748"[..5] == "21474";
    assert DigitsValue("214748") == 214748;
    assert "2147483"[..6] == "214748";
    assert DigitsValue("2147483") == 2147483;
    assert "21474836"[..7] == "2147483";
    assert DigitsValue("21474836") == 21474836;
    assert "214748364"[..8] == "21474836";
    assert DigitsValue("214748364") == 214748364;
    assert "2147483648"[..9] == "214748364";
  }
}
