/** JavaScript values as the account layer sees them, plain objects as maps,
    and the errors the layer and its store report. */
module Values {

  datatype Option<+T> = None | Some(value: T)

  datatype Result<+T, +E> = Success(value: T) | Failure(error: E)

  /** A JavaScript value. Numbers are integers (balances are counted in cents);
      `Object` is any object or function reference, named by `tag` for readability. */
  datatype Value =
    | Undefined
    | Null
    | Bool(b: bool)
    | Num(n: int)
    | Str(s: string)
    | Object(tag: string)

  /** JavaScript truthiness: `undefined`, `null`, `false`, `0` and `''` are falsy. */
  predicate Truthy(v: Value)
  {
    match v
    case Undefined => false
    case Null => false
    case Bool(b) => b
    case Num(n) => n != 0
    case Str(s) => s != ""
    case Object(_) => true
  }

  /** The own enumerable properties of a plain object. A missing key reads as `undefined`. */
  type Attrs = map<string, Value>

  function Get(a: Attrs, k: string): Value
  {
    if k in a then a[k] else Undefined
  }

  /** `typeof a[k] !== 'undefined'` */
  predicate Defined(a: Attrs, k: string)
  {
    Get(a, k) != Undefined
  }

  /** The names every plain object inherits from `Object.prototype`; reading one of
      them from an object that does not own it yields a (truthy) function or object. */
  const ObjectPrototypeMembers: set<string> :=
    {"constructor", "hasOwnProperty", "isPrototypeOf", "propertyIsEnumerable",
     "toLocaleString", "toString", "valueOf", "__proto__",
     "__defineGetter__", "__defineSetter__", "__lookupGetter__", "__lookupSetter__"}

  /** The character of a decimal digit. */
  function DigitChar(d: nat): (c: char)
    requires d < 10
    ensures '0' <= c <= '9' && (c - '0') as int == d
  {
    ('0' as int + d) as char
  }

  /** Decimal digits of `n`, most significant first, without leading zeros. */
  function Decimal(n: nat): (r: string)
    ensures |r| >= 1
    ensures forall i :: 0 <= i < |r| ==> '0' <= r[i] <= '9'
    ensures n >= 10 ==> r[0] != '0'
  {
    if n < 10 then [DigitChar(n)] else Decimal(n / 10) + [DigitChar(n % 10)]
  }

  /** `String(n)` for an integer: its decimal digits, after a minus sign when negative. */
  function NumberText(n: int): string
  {
    if n < 0 then "-" + Decimal(-n) else Decimal(n)
  }

  /** The property key a value is converted to when it indexes an object (`String(v)`).
      Objects are keyed as `[object Object]`. */
  function PropertyKey(v: Value): (k: string)
    ensures v.Str? ==> k == v.s
  {
    match v
    case Undefined => "undefined"
    case Null => "null"
    case Bool(b) => if b then "true" else "false"
    case Num(n) => NumberText(n)
    case Str(s) => s
    case Object(_) => "[object Object]"
  }

  predicate IsDigits(s: string)
  {
    |s| >= 1 && forall i :: 0 <= i < |s| ==> '0' <= s[i] <= '9'
  }

  /** The number a run of decimal digits denotes (leading zeros allowed). */
  function DigitsValue(s: string): nat
    requires forall i :: 0 <= i < |s| ==> '0' <= s[i] <= '9'
  {
    if s == [] then 0 else DigitsValue(s[..|s| - 1]) * 10 + (s[|s| - 1] - '0') as nat
  }

  /** The integer a text denotes when the server reads it as an integer: decimal digits
      with an optional sign; any other text is not an integer. */
  function IntegerText(s: string): Option<int>
  {
    if |s| >= 2 && (s[0] == '-' || s[0] == '+') && IsDigits(s[1..]) then
      var v: int := DigitsValue(s[1..]);
      Some(if s[0] == '-' then -v else v)
    else if IsDigits(s) then Some(DigitsValue(s))
    else None
  }

  /** The digits `Decimal` writes denote the number written. */
  lemma {:induction false} DecimalValue(n: nat)
    ensures DigitsValue(Decimal(n)) == n
  {
    if n >= 10 {
      DecimalValue(n / 10);
      var d := Decimal(n / 10) + [DigitChar(n % 10)];
      assert d[..|d| - 1] == Decimal(n / 10);
    }
  }

  /** A signed run of digits denotes the signed value of the digits. */
  lemma SignedDigits(sign: char, digits: string)
    requires IsDigits(digits) && (sign == '-' || sign == '+')
    ensures var v: int := DigitsValue(digits);
            IntegerText([sign] + digits) == Some(if sign == '-' then -v else v)
  {
    var s := [sign] + digits;
    assert s[0] == sign && s[1..] == digits;
  }

  /** Unsigned digits denote their value. */
  lemma UnsignedDigits(digits: string)
    requires IsDigits(digits) && digits[0] != '-' && digits[0] != '+'
    ensures IntegerText(digits) == Some(DigitsValue(digits) as int)
  {
  }

  /** Reading back the text of a number gives the number. */
  lemma NumberTextRoundTrip(n: int)
    ensures IntegerText(NumberText(n)) == Some(n)
  {
    if n < 0 {
      NegativeTextRoundTrip(-n);
    } else {
      var digits := Decimal(n);
      DecimalValue(n);
      UnsignedDigits(digits);
      assert NumberText(n) == digits;
    }
  }

  lemma NegativeTextRoundTrip(m: nat)
    requires m > 0
    ensures IntegerText(NumberText(-(m as int))) == Some(-(m as int))
  {
    var digits := Decimal(m);
    DecimalValue(m);
    SignedDigits('-', digits);
    assert NumberText(-(m as int)) == ['-'] + digits;
  }

  /** The errors the account layer raises itself and those its store and driver report. */
  datatype Error =
      /** `account discriminator "<name>" is already defined` */
    | DiscriminatorDefined(name: string)
      /** `unrecognized account type "<type>"` */
    | UnrecognizedType(typeName: Value)
      /** `bad or missing query params` */
    | BadQueryParams
      /** `unable to update account entry (missing attributes.id)` */
    | MissingId
      /** An update matched no row (the corrected update reports this). */
    | AccountNotFound
      /** `TypeError`: the value used with `new` is not a constructor. */
    | NotAConstructor(typeName: Value)
      /** `TypeError`: a property called as a method is not a function. */
    | NotAFunction(property: string)
      /** `TypeError`: a property was read from `null`. */
    | NullProperty(property: string)
      /** SQLSTATE 23502: a NOT NULL column received NULL. */
    | NotNullViolation(column: string)
      /** SQLSTATE 23505: a unique index already holds the value. */
    | UniqueViolation(constraint: string)
      /** SQLSTATE 23514: a CHECK constraint failed. */
    | CheckViolation(constraint: string)
      /** SQLSTATE 22P02, 22001, 22003: a parameter does not convert to its column's type. */
    | InvalidInput(column: string)
      /** The statement does not fit the table (unknown column, unbound placeholder). */
    | MalformedQuery
      /** Any failure the pool or the connection reports (a broken socket, a refused login). */
    | Driver(message: string)
}
