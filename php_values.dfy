/** The PHP values a decoded JSON request or a query string can hold, and the
    handful of PHP and SQL conversions the endpoints rely on. */
module PhpValues {
  import opened Wrappers

  /** A scalar produced by `json_decode(..., true)` or found in `$_GET`.
      Floats, arrays and objects are not modelled. */
  datatype PhpValue = Null | Bool(b: bool) | Int(i: int) | Str(s: string)

  /** A decoded request body; a body that is not a JSON object reads like `{}`. */
  type Input = map<string, PhpValue>

  /** PHP `empty()` on a scalar: null, false, 0, "" and "0" are all missing. */
  predicate Empty(v: PhpValue)
  {
    v == Null || v == Bool(false) || v == Int(0) || v == Str("") || v == Str("0")
  }

  /** PHP truthiness, as in `if ($type)`. */
  predicate Truthy(v: PhpValue)
  {
    !Empty(v)
  }

  /** `$input[key] ?? default`: a missing key and an explicit null both give the default. */
  function Field(input: Input, key: string, default: PhpValue): (v: PhpValue)
    ensures v != Null || default == Null
  {
    if key in input && input[key] != Null then input[key] else default
  }

  predicate IsDigit(c: char)
  {
    '0' <= c <= '9'
  }

  /** The bytes PHP skips before a number: space, tab, newline, carriage return, vertical tab, form feed. */
  predicate IsPhpSpace(c: char)
  {
    c == ' ' || c == '\t' || c == '\n' || c == '\r' || c == '\U{B}' || c == '\U{C}'
  }

  predicate AllDigits(s: string)
  {
    forall i :: 0 <= i < |s| ==> IsDigit(s[i])
  }

  function SkipSpace(s: string): (r: string)
    ensures |r| <= |s| && r == s[|s| - |r|..]
    ensures r == [] || !IsPhpSpace(r[0])
  {
    if s != [] && IsPhpSpace(s[0]) then SkipSpace(s[1..]) else s
  }

  /** The longest prefix of `s` made of decimal digits. */
  function DigitRun(s: string): (r: string)
    ensures |r| <= |s| && r == s[..|r|] && AllDigits(r)
    ensures |r| == |s| || !IsDigit(s[|r|])
  {
    if s != [] && IsDigit(s[0]) then [s[0]] + DigitRun(s[1..]) else []
  }

  function DigitsValue(d: string): nat
    requires AllDigits(d)
  {
    if d == [] then 0 else DigitsValue(d[..|d| - 1]) * 10 + (d[|d| - 1] as int - '0' as int)
  }

  /** PHP's `(int)` cast. On a string it skips leading white space, takes an optional sign
      and then the longest run of digits; anything else gives 0. */
  function IntCast(v: PhpValue): int
  {
    match v
    case Null => 0
    case Bool(b) => if b then 1 else 0
    case Int(i) => i
    case Str(s) =>
      var t := SkipSpace(s);
      if t != [] && t[0] == '-' then 0 - DigitsValue(DigitRun(t[1..]))
      else if t != [] && t[0] == '+' then DigitsValue(DigitRun(t[1..]))
      else DigitsValue(DigitRun(t))
  }

  function DigitChar(n: nat): (c: char)
    requires n < 10
    ensures IsDigit(c) && c as int - '0' as int == n
  {
    ('0' as int + n) as char
  }

  /** The decimal spelling of a natural number, without leading zeros. */
  function DecimalString(n: nat): (s: string)
    ensures s != [] && AllDigits(s)
    ensures |s| > 1 ==> s[0] != '0'
  {
    if n < 10 then [DigitChar(n)] else DecimalString(n / 10) + [DigitChar(n % 10)]
  }

  function IntToString(i: int): string
  {
    if i < 0 then "-" + DecimalString(-i) else DecimalString(i)
  }

  /** PHP's string conversion, used for string interpolation and for every value PDO binds:
      null and false give "", true gives "1". */
  function StringOf(v: PhpValue): string
  {
    match v
    case Null => ""
    case Bool(b) => if b then "1" else ""
    case Int(i) => IntToString(i)
    case Str(s) => s
  }

  /** What a bound parameter selects when compared with, or stored into, an integer column:
      NULL for null (which equals nothing), otherwise the integer PHP's `(int)` cast reads from it. */
  function SqlInt(v: PhpValue): (k: Option<int>)
    ensures k.None? <==> v == Null
  {
    if v == Null then None else Some(IntCast(v))
  }

  /** How PDO binds a parameter: `PDO::PARAM_STR`, which `execute(array)` uses for every value,
      or `PDO::PARAM_INT`, which only an explicit `bindValue` gives. */
  datatype ParamType = StrParam | IntParam

  /** The text that stands after `LIMIT` for a bound integer under emulated prepares, which
      `3DNA/backend/config/Database.php` switches on: PDO writes the value into the statement,
      quoted as a string literal when it is bound as a string. */
  function LimitText(p: ParamType, n: int): string
  {
    match p
    case StrParam => "'" + IntToString(n) + "'"
    case IntParam => IntToString(n)
  }

  /** The row count MySQL reads after `LIMIT`: only an unsigned integer literal is accepted;
      a sign or a quoted string is a syntax error. */
  function LimitCount(text: string): (r: Option<nat>)
    ensures r.Some? <==> text != [] && AllDigits(text)
  {
    if text != [] && AllDigits(text) then Some(DigitsValue(text)) else None
  }

  /** A limit bound as an integer is read back as itself, and refused when negative. */
  lemma IntLimit(n: int)
    ensures LimitCount(LimitText(IntParam, n)) == if n < 0 then None else Some(n)
  {
    if n < 0 {
      assert LimitText(IntParam, n)[0] == '-';
    } else {
      DecimalValue(n);
    }
  }

  /** A limit bound as a string is refused whatever its value: MySQL receives `LIMIT '20'`. */
  lemma StrLimitRefused(n: int)
    ensures LimitCount(LimitText(StrParam, n)) == None
  {
    assert LimitText(StrParam, n)[0] == '\'';
  }

  lemma {:induction false} DecimalValue(n: nat)
    ensures DigitsValue(DecimalString(n)) == n
  {
    if n >= 10 {
      var s := DecimalString(n);
      assert s[..|s| - 1] == DecimalString(n / 10);
      DecimalValue(n / 10);
    }
  }

  lemma DigitRunOfDigits(s: string)
    requires AllDigits(s)
    ensures DigitRun(s) == s
  {
  }

  /** `(int)` reads a non-empty run of digits as its decimal value. */
  lemma CastOfDigits(d: string)
    requires d != [] && AllDigits(d)
    ensures IntCast(Str(d)) == DigitsValue(d)
  {
    assert IsDigit(d[0]);
    assert SkipSpace(d) == d;
    DigitRunOfDigits(d);
  }

  lemma CastOfDecimal(n: nat)
    ensures IntCast(Str(DecimalString(n))) == n
  {
    CastOfDigits(DecimalString(n));
    DecimalValue(n);
  }

  lemma CastOfNegative(n: nat)
    requires n > 0
    ensures IntCast(Str("-" + DecimalString(n))) == 0 - n
  {
    var d := DecimalString(n);
    var t := "-" + d;
    assert SkipSpace(t) == t;
    assert t[1..] == d;
    DigitRunOfDigits(d);
    DecimalValue(n);
  }

  /** `(int)` undoes the decimal spelling of every integer. */
  lemma IntCastRoundTrip(i: int)
    ensures IntCast(Str(IntToString(i))) == i
  {
    if i < 0 { CastOfNegative(-i); } else { CastOfDecimal(i); }
  }

  /** `empty()` holds exactly of the values whose string form is "" or "0". */
  lemma EmptyIffBlankString(v: PhpValue)
    ensures Empty(v) <==> (StringOf(v) == "" || StringOf(v) == "0")
  {
    if v.Int? && (StringOf(v) == "" || StringOf(v) == "0") {
      IntCastRoundTrip(v.i);
      assert IntToString(v.i) == "0";
    }
  }
}
