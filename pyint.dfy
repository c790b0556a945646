/**
 * Python's `int(s)` on a header value, and `str(n)` as its inverse.
 *
 * `int` accepts surrounding white space, an optional sign and decimal
 * digits in which single underscores may stand between two digits; leading
 * zeros are allowed. Anything else raises `ValueError`, modelled as `None`,
 * and so does a number of more than 4300 digits, CPython's default
 * `sys.get_int_max_str_digits()`.
 *
 * Header text is decoded as Latin-1. CPython first maps every non-ASCII
 * character that Unicode counts as white space (in Latin-1, U+0085 and
 * U+00A0) to a space and leaves ASCII alone; it then skips only `\t \n \v
 * \f \r` and space. Latin-1 has no decimal digits besides `0`..`9`.
 */
module PyInt {
  import opened Wrappers

  predicate IsSpace(c: char) {
    0x09 <= c as int <= 0x0D || c == ' ' || c as int == 0x85 || c as int == 0xA0
  }

  /** The most digits `int` converts: the default of `sys.set_int_max_str_digits`. */
  const MaxStrDigits: nat := 4300

  predicate IsDigit(c: char) {
    '0' <= c <= '9'
  }

  function TrimSpace(s: string): (r: string)
    ensures |r| <= |s|
    ensures r == [] || (!IsSpace(r[0]) && !IsSpace(r[|r| - 1]))
    decreases |s|
  {
    if s == [] then []
    else if IsSpace(s[0]) then TrimSpace(s[1..])
    else if IsSpace(s[|s| - 1]) then TrimSpace(s[..|s| - 1])
    else s
  }

  /** Digits, with single underscores only between two digits. */
  predicate WellFormedDigits(s: string) {
    && s != []
    && IsDigit(s[0]) && IsDigit(s[|s| - 1])
    && (forall k :: 0 <= k < |s| ==> IsDigit(s[k]) || s[k] == '_')
    && (forall k :: 0 <= k < |s| - 1 && s[k] == '_' ==> s[k + 1] != '_')
  }

  /** The number the digits of `s` denote, underscores skipped. */
  function DigitsValue(s: string): nat
    decreases |s|
  {
    if s == [] then 0
    else if s[|s| - 1] == '_' then DigitsValue(s[..|s| - 1])
    else
      var d := s[|s| - 1] as int - '0' as int;
      DigitsValue(s[..|s| - 1]) * 10 + (if 0 <= d < 10 then d else 0)
  }

  /** How many digits `s` holds; underscores do not count towards the limit. */
  function DigitCount(s: string): (r: nat)
    ensures r <= |s|
    ensures (forall k :: 0 <= k < |s| ==> IsDigit(s[k])) ==> r == |s|
    decreases |s|
  {
    if s == [] then 0 else DigitCount(s[..|s| - 1]) + (if IsDigit(s[|s| - 1]) then 1 else 0)
  }

  /** `int(s)`: `None` where Python raises `ValueError`. */
  function ParseInt(s: string): Option<int> {
    var t := TrimSpace(s);
    if t == [] then None
    else if t[0] == '-' then
      match ParseDigits(t[1..])
      case None => None
      case Some(v) => Some(-(v as int))
    else if t[0] == '+' then ParseDigits(t[1..])
    else ParseDigits(t)
  }

  /** The unsigned part of `int(s)`. */
  function ParseDigits(digits: string): Option<nat> {
    if !WellFormedDigits(digits) || DigitCount(digits) > MaxStrDigits then None
    else Some(DigitsValue(digits))
  }

  /** `str(n)` for a natural number: its decimal digits, no leading zero. */
  function NatDecimal(n: nat): (s: string)
    ensures s != [] && forall k :: 0 <= k < |s| ==> IsDigit(s[k])
    decreases n
  {
    var d := [((n % 10) + '0' as int) as char];
    if n < 10 then d else NatDecimal(n / 10) + d
  }

  /** `str(n)`. */
  function Decimal(n: int): string {
    if n < 0 then "-" + NatDecimal(-n) else NatDecimal(n)
  }

  lemma {:induction false} NatDecimalValue(n: nat)
    ensures DigitsValue(NatDecimal(n)) == n
    decreases n
  {
    var s := NatDecimal(n);
    if n >= 10 {
      NatDecimalValue(n / 10);
      assert s[..|s| - 1] == NatDecimal(n / 10);
    }
  }

  /** How many digits the decimal numeral of `n` has. */
  function DecimalLength(n: int): nat {
    |NatDecimal(if n < 0 then -n else n)|
  }

  /**
   * A number written in decimal reads back as itself, `int(str(n)) == n`,
   * as long as it has at most 4300 digits; a longer one raises.
   */
  lemma ParseDecimal(n: int)
    ensures ParseInt(Decimal(n)) == if DecimalLength(n) <= MaxStrDigits then Some(n) else None
  {
    var m: nat := if n < 0 then -n else n;
    NatDecimalValue(m);
    if n < 0 {
      ParseNegative(Decimal(n), NatDecimal(m));
    } else {
      ParseUnsigned(NatDecimal(m));
    }
  }

  /** Plain digits read as the number they denote, up to the digit limit. */
  lemma ParseUnsigned(t: string)
    requires t != [] && forall k :: 0 <= k < |t| ==> IsDigit(t[k])
    ensures ParseInt(t) == if |t| <= MaxStrDigits then Some(DigitsValue(t) as int) else None
  {
    AllDigits(t);
    DigitIsNotSpace(t[0]);
    DigitIsNotSpace(t[|t| - 1]);
    NothingToTrim(t);
  }

  /** Digits after a minus sign read as the negated number, up to the digit limit. */
  lemma ParseNegative(s: string, t: string)
    requires t != [] && forall k :: 0 <= k < |t| ==> IsDigit(t[k])
    requires s == "-" + t
    ensures ParseInt(s) == if |t| <= MaxStrDigits then Some(-(DigitsValue(t) as int)) else None
  {
    AllDigits(t);
    DigitIsNotSpace(t[|t| - 1]);
    assert s[0] == '-' && s[|s| - 1] == t[|t| - 1];
    NothingToTrim(s);
    assert s[1..] == t;
    ParseMinus(s);
  }

  lemma ParseMinus(s: string)
    requires s != [] && s[0] == '-' && TrimSpace(s) == s
    ensures ParseInt(s) == match ParseDigits(s[1..]) case None => None case Some(v) => Some(-(v as int))
  {
  }

  lemma AllDigits(t: string)
    requires t != [] && forall k :: 0 <= k < |t| ==> IsDigit(t[k])
    ensures WellFormedDigits(t) && DigitCount(t) == |t|
  {
  }

  lemma DigitIsNotSpace(c: char)
    requires IsDigit(c)
    ensures !IsSpace(c)
  {
  }

  /** Text that neither starts nor ends with white space is left as it is. */
  lemma NothingToTrim(s: string)
    requires s != [] && !IsSpace(s[0]) && !IsSpace(s[|s| - 1])
    ensures TrimSpace(s) == s
  {
  }
}
