/** The parsed JSON request body as JavaScript sees it: JavaScript truthiness and
    `parseInt(v, 10) || 0`, the conversion the admin endpoints apply to `limite_consultas`. */
module JsValues {
  import opened Wrappers

  /** A field of a parsed JSON body. Numbers are integers here. */
  datatype BodyValue = Absent | Number(n: int) | Text(s: string)

  /** JavaScript truthiness: `undefined`, `0` and `""` are falsy. */
  predicate Truthy(v: BodyValue): (t: bool)
    ensures !t <==> v == Absent || v == Number(0) || v == Text("")
  {
    match v
    case Absent => false
    case Number(n) => n != 0
    case Text(s) => s != ""
  }

  /** Truthiness of a string-valued field, header or query parameter (None when missing). */
  function PresentText(v: Option<string>): (present: bool)
    ensures !present <==> v.None? || |v.value| == 0
  {
    v.Some? && v.value != ""
  }

  /** A parameter the handler requires: `if (!x) return 400`. None means the request is
      refused; otherwise the value to use. */
  function RequiredText(v: Option<string>): (r: Option<string>)
    ensures r.Some? <==> PresentText(v)
    ensures r.Some? ==> r.value == v.value && r.value != ""
  {
    if PresentText(v) then v else None
  }

  predicate IsDigit(c: char) {
    '0' <= c <= '9'
  }

  /** The white space (and line terminators) that `parseInt` skips before the number. */
  predicate IsJsSpace(c: char) {
    c == ' ' || c == '\t' || c == '\n' || c == '\U{B}' || c == '\U{C}' || c == '\r'
    || c == '\U{A0}' || c == '\U{1680}' || ('\U{2000}' <= c <= '\U{200A}')
    || c == '\U{2028}' || c == '\U{2029}' || c == '\U{202F}' || c == '\U{205F}'
    || c == '\U{3000}' || c == '\U{FEFF}'
  }

  /** `s` without its leading white space. */
  function TrimStart(s: string): (r: string)
    ensures |r| <= |s| && r == s[|s| - |r|..]
    ensures r == [] || !IsJsSpace(r[0])
    ensures forall i :: 0 <= i < |s| - |r| ==> IsJsSpace(s[i])
  {
    if s != [] && IsJsSpace(s[0]) then TrimStart(s[1..]) else s
  }

  /** The longest prefix of `s` made of decimal digits. */
  function DigitRun(s: string): (ds: string)
    ensures ds <= s
    ensures forall i :: 0 <= i < |ds| ==> IsDigit(ds[i])
    ensures |ds| < |s| ==> !IsDigit(s[|ds|])
  {
    if s != [] && IsDigit(s[0]) then [s[0]] + DigitRun(s[1..]) else []
  }

  /** The value of one decimal digit. */
  function DigitValue(c: char): (d: nat)
    requires IsDigit(c)
    ensures d < 10
  {
    c as int - '0' as int
  }

  /** The value of a string of decimal digits, most significant first. */
  function DigitsValue(ds: string): nat
    requires forall i :: 0 <= i < |ds| ==> IsDigit(ds[i])
  {
    if ds == [] then 0
    else DigitsValue(ds[..|ds| - 1]) * 10 + DigitValue(ds[|ds| - 1])
  }

  /** `parseInt(s, 10)`: skip white space, an optional sign, then as many decimal digits
      as there are; None stands for NaN (no digit at all). */
  function ParseDecimal(s: string): (r: Option<int>)
    ensures var t := TrimStart(s);
      r.Some? ==> t != [] && (IsDigit(t[0]) || ((t[0] == '-' || t[0] == '+') && |t| > 1 && IsDigit(t[1])))
    ensures var t := TrimStart(s); t != [] && IsDigit(t[0]) ==> r.Some? && r.value >= 0
  {
    ParseSigned(TrimStart(s))
  }

  /** An optional sign followed by the digit run. */
  function ParseSigned(t: string): (r: Option<int>)
    ensures t != [] && t[0] == '-' ==>
      (r.Some? <==> ParseUnsigned(t[1..]).Some?) && (r.Some? ==> r.value == -ParseUnsigned(t[1..]).value)
    ensures t != [] && t[0] == '+' ==> r == ParseUnsigned(t[1..])
    ensures t == [] || (t[0] != '-' && t[0] != '+') ==> r == ParseUnsigned(t)
    ensures r.Some? && r.value < 0 ==> t[0] == '-'
  {
    if t != [] && t[0] == '-' then
      match ParseUnsigned(t[1..])
      case None => None
      case Some(m) => Some(-m)
    else if t != [] && t[0] == '+' then ParseUnsigned(t[1..])
    else ParseUnsigned(t)
  }

  /** The value of the leading digit run; None when there is none. */
  function ParseUnsigned(t: string): (r: Option<int>)
    ensures r.Some? <==> t != [] && IsDigit(t[0])
    ensures r.Some? ==> r.value >= 0
  {
    var ds := DigitRun(t);
    if ds == [] then None else Some(DigitsValue(ds))
  }

  /** `parseInt(v, 10) || 0`: NaN (and -0) become 0. */
  function ParseIntOrZero(v: BodyValue): (n: int)
    ensures !Truthy(v) ==> n == 0
    ensures v.Number? ==> n == v.n
    ensures v.Text? && ParseDecimal(v.s).None? ==> n == 0
    ensures v.Text? && ParseDecimal(v.s).Some? ==> n == ParseDecimal(v.s).value
  {
    match v
    case Absent => 0
    case Number(n) => n
    case Text(s) => ParseDecimal(s).GetOr(0)
  }

  /** The decimal form of a natural number, without leading zeros. */
  function NatDigits(n: nat): (ds: string)
    ensures ds != [] && forall i :: 0 <= i < |ds| ==> IsDigit(ds[i])
  {
    var last := [('0' as int + n % 10) as char];
    if n < 10 then last else NatDigits(n / 10) + last
  }

  /** The decimal form of an integer, as JavaScript's `String(n)` writes it. */
  function Decimal(n: int): string {
    if n < 0 then "-" + NatDigits(-n) else NatDigits(n)
  }

  /** Reading back the decimal digits of `n` gives `n`. */
  lemma {:induction false} DigitsValueOfNatDigits(n: nat)
    ensures DigitsValue(NatDigits(n)) == n
  {
    var last := [('0' as int + n % 10) as char];
    if n >= 10 {
      var ds := NatDigits(n / 10) + last;
      assert ds[..|ds| - 1] == NatDigits(n / 10);
      DigitsValueOfNatDigits(n / 10);
    }
  }

  /** The digit run of `p + rest` is `p` when `p` is all digits and `rest` does not go on
      with a digit. */
  lemma {:induction false} DigitRunOfDigitsThen(p: string, rest: string)
    requires forall i :: 0 <= i < |p| ==> IsDigit(p[i])
    requires rest == [] || !IsDigit(rest[0])
    ensures DigitRun(p + rest) == p
  {
    var s := p + rest;
    var ds := DigitRun(s);
    assert ds == s[..|ds|] && p == s[..|p|];
  }

  /** Text that starts with something other than white space is not trimmed. */
  lemma TrimStartOfNonSpace(s: string)
    requires s != [] && !IsJsSpace(s[0])
    ensures TrimStart(s) == s
  {
  }

  /** The digit run of `ds + rest` is all of `ds`, so its value is that of `ds`. */
  lemma {:induction false} ParseUnsignedOfDigitsThen(ds: string, rest: string)
    requires ds != [] && forall i :: 0 <= i < |ds| ==> IsDigit(ds[i])
    requires rest == [] || !IsDigit(rest[0])
    ensures ParseUnsigned(ds + rest) == Some(DigitsValue(ds))
  {
    DigitRunOfDigitsThen(ds, rest);
  }

  /** A leading minus sign negates whatever the digits after it give. */
  lemma {:induction false} ParseSignedOfMinus(tail: string, m: int)
    requires ParseUnsigned(tail) == Some(m)
    ensures ParseSigned(['-'] + tail) == Some(-m)
  {
    assert (['-'] + tail)[1..] == tail;
  }

  /** `parseInt` of a digit run `ds` followed by `rest`, with no sign. */
  lemma {:induction false} ParseDecimalUnsigned(ds: string, rest: string)
    requires ds != [] && forall i :: 0 <= i < |ds| ==> IsDigit(ds[i])
    requires rest == [] || !IsDigit(rest[0])
    ensures ParseDecimal(ds + rest) == Some(DigitsValue(ds))
  {
    var s := ds + rest;
    assert s[0] == ds[0];
    TrimStartOfNonSpace(s);
    ParseUnsignedOfDigitsThen(ds, rest);
  }

  /** `parseInt` of a minus sign, a digit run `ds` of value `v` and `rest`. */
  lemma {:induction false} ParseDecimalNegative(ds: string, v: nat, rest: string)
    requires ds != [] && forall i :: 0 <= i < |ds| ==> IsDigit(ds[i])
    requires DigitsValue(ds) == v
    requires rest == [] || !IsDigit(rest[0])
    ensures ParseDecimal("-" + ds + rest) == Some(-(v as int))
  {
    var tail := ds + rest;
    var s := ['-'] + tail;
    assert "-" + ds + rest == s;
    TrimStartOfNonSpace(s);
    ParseUnsignedOfDigitsThen(ds, rest);
    ParseSignedOfMinus(tail, v);
  }

  /** `parseInt` reads back the decimal form of a natural number followed by `rest`. */
  lemma {:induction false} ParseDecimalOfNatDigits(n: nat, rest: string)
    requires rest == [] || !IsDigit(rest[0])
    ensures ParseDecimal(NatDigits(n) + rest) == Some(n)
  {
    DigitsValueOfNatDigits(n);
    ParseDecimalUnsigned(NatDigits(n), rest);
  }

  /** `parseInt` reads back a minus sign and the decimal form of `m` followed by `rest`. */
  lemma {:induction false} ParseDecimalOfMinusNatDigits(m: nat, rest: string)
    requires rest == [] || !IsDigit(rest[0])
    ensures ParseDecimal("-" + NatDigits(m) + rest) == Some(-(m as int))
  {
    DigitsValueOfNatDigits(m);
    ParseDecimalNegative(NatDigits(m), m, rest);
  }

  /** `parseInt` reads back what `String(n)` wrote, and stops at the first character that
      cannot continue the number: `parseInt("12abc", 10)` is 12. */
  lemma {:induction false} ParseDecimalOfDecimal(n: int, rest: string)
    requires rest == [] || !IsDigit(rest[0])
    ensures ParseDecimal(Decimal(n) + rest) == Some(n)
  {
    if n < 0 {
      ParseDecimalOfMinusNatDigits(-n, rest);
    } else {
      ParseDecimalOfNatDigits(n, rest);
    }
  }

  /** The body value JSON gives for `limite_consultas: "<n>"` parses to `n`; one with
      `limite_consultas: <n>` gives `n` directly. */
  lemma ParseIntOrZeroOfText(n: int)
    ensures ParseIntOrZero(Text(Decimal(n))) == n
    ensures ParseIntOrZero(Number(n)) == n
  {
    ParseDecimalOfDecimal(n, "");
    assert Decimal(n) + "" == Decimal(n);
  }

  /** Text that does not start a number (after white space) is NaN, and becomes 0. */
  lemma ParseIntOrZeroOfNonNumber(s: string)
    requires var t := TrimStart(s); t == [] || (!IsDigit(t[0]) && t[0] != '-' && t[0] != '+')
    ensures ParseIntOrZero(Text(s)) == 0
  {
  }

  /** The text "0" is a non-empty string, so truthy, and parses to 0. */
  lemma ZeroTextParsesToZero()
    ensures Truthy(Text("0")) && ParseIntOrZero(Text("0")) == 0
  {
    ParseDecimalUnsigned("0", "");
    assert "0" + "" == "0";
  }

  /** The text "abc" is truthy, and NaN under `parseInt`, so it becomes 0. */
  lemma LetterTextParsesToZero()
    ensures Truthy(Text("abc")) && ParseIntOrZero(Text("abc")) == 0
  {
    TrimStartOfNonSpace("abc");
    assert DigitRun("abc") == [];
  }

  /** Validation and conversion disagree on zero: the number 0 is falsy, but the text "0"
      is truthy and converts to 0, as does the truthy text "abc". */
  lemma ZeroLimits()
    ensures !Truthy(Number(0))
    ensures Truthy(Text("0")) && ParseIntOrZero(Text("0")) == 0
    ensures Truthy(Text("abc")) && ParseIntOrZero(Text("abc")) == 0
  {
    ZeroTextParsesToZero();
    LetterTextParsesToZero();
  }
}
