/** The request rules the savings and credit routes apply before a service
    is called, as predicates over the request fields, and what they
    guarantee the services. The rules call the validator library's
    `isString`, `isNumeric`, `isFloat` and `isInt`, which read a string by
    its text; the forms they accept are defined here on the characters. */
module Validation {
  import opened Common
  import opened Text
  import Credit

  /** A request field as the rules see it: absent (undefined), a JSON
      number, a string (every query value, and a JSON string in a body),
      or anything else (null, a boolean, an object). */
  datatype Value = Absent | Num(x: real) | Str(s: string) | Other

  predicate IsInteger(x: real)
  {
    x == x.Floor as real
  }

  // ---------------------------------------------------------------------
  // Number text

  /** The number of ASCII digits `s` starts with. */
  function DigitRun(s: string): (n: nat)
    ensures n <= |s|
    ensures forall i :: 0 <= i < n ==> IsDigit(s[i])
    ensures n < |s| ==> !IsDigit(s[n])
  {
    if s == [] || !IsDigit(s[0]) then 0 else 1 + DigitRun(s[1..])
  }

  predicate AllDigits(d: string)
  {
    forall i :: 0 <= i < |d| ==> IsDigit(d[i])
  }

  function Pow10(n: nat): (p: nat)
    ensures p >= 1
  {
    if n == 0 then 1 else 10 * Pow10(n - 1)
  }

  /** The value of a run of decimal digits, most significant first. */
  function DecimalValue(d: string): (v: nat)
    requires AllDigits(d)
  {
    if d == [] then 0 else DecimalValue(d[..|d| - 1]) * 10 + (d[|d| - 1] as int - '0' as int)
  }

  /** 1 when `s` starts with `+` or `-`, else 0. */
  function SignLength(s: string): (k: nat)
    ensures k <= |s|
  {
    if s != [] && (s[0] == '+' || s[0] == '-') then 1 else 0
  }

  /** `v` with the sign `s` starts with. */
  function Signed(s: string, v: nat): int
  {
    if s != [] && s[0] == '-' then 0 - v else v
  }

  function SignedReal(s: string, v: real): real
  {
    if s != [] && s[0] == '-' then -v else v
  }

  /** `isInt`'s form (leading zeros allowed): an optional sign and one or
      more digits, and nothing else; `Some` of the integer it writes. */
  function IntLiteral(s: string): (r: Option<int>)
    ensures r.Some? ==> |s| > SignLength(s) && forall i :: SignLength(s) <= i < |s| ==> IsDigit(s[i])
  {
    var d := s[SignLength(s)..];
    if d != [] && DigitRun(d) == |d| then Some(Signed(s, DecimalValue(d))) else None
  }

  /** An exponent suffix: nothing (exponent 0), or `e`/`E` and an integer. */
  function Exponent(t: string): Option<int>
  {
    if t == [] then Some(0)
    else if t[0] == 'e' || t[0] == 'E' then IntLiteral(t[1..])
    else None
  }

  /** Ten to the integer power `e`. */
  function Scale(e: int): (r: real)
    ensures r > 0.0
  {
    if e >= 0 then Pow10(e) as real else 1.0 / Pow10(-e) as real
  }

  /** An unsigned decimal: digits, optionally a point and more digits,
      optionally an exponent, with at least one digit before the exponent;
      `Some` of the number it writes. */
  function UnsignedFloat(m: string): (r: Option<real>)
    ensures r.Some? ==> r.value >= 0.0
    ensures r.Some? ==> m != [] && (IsDigit(m[0]) || m[0] == '.')
  {
    var i := DigitRun(m);
    var dot := if i < |m| && m[i] == '.' then 1 else 0;
    var f := DigitRun(m[i + dot..]);
    var e := Exponent(m[i + dot + f..]);
    if i + f == 0 || e.None? then None
    else
      var whole := DecimalValue(m[..i]);
      var fraction := DecimalValue(m[i + dot..i + dot + f]);
      var v := DecimalReal(whole, fraction, Pow10(f), Scale(e.value));
      Some(v)
  }

  /** `whole.fraction` times `scale`, the fraction's digits standing for
      `fraction / unit`. */
  function DecimalReal(whole: nat, fraction: nat, unit: nat, scale: real): (v: real)
    requires unit >= 1 && scale > 0.0
    ensures v >= 0.0
  {
    var a := whole as real + fraction as real / unit as real;
    assert a >= 0.0;
    a * scale
  }

  /** `isFloat`'s form: an optional sign and an unsigned decimal (without a
      digit before the exponent `parseFloat` gives NaN, which no `min`
      admits); `Some` of the number it writes. */
  function FloatLiteral(s: string): (r: Option<real>)
    ensures r.Some? ==> s != [] && !IsSpace(s[0])
    ensures r.Some? && r.value < 0.0 ==> s[0] == '-'
  {
    match UnsignedFloat(s[SignLength(s)..])
    case None => None
    case Some(v) => Some(SignedReal(s, v))
  }

  /** `isNumeric`'s form: an optional sign, then digits, or digits, a point
      and at least one digit; no exponent. */
  predicate NumericLiteral(s: string)
  {
    var m := s[SignLength(s)..];
    var i := DigitRun(m);
    || (m != [] && i == |m|)
    || (i < |m| && m[i] == '.' && DigitRun(m[i + 1..]) == |m| - i - 1 > 0)
  }

  /** `parseInt(s)` for decimal text: leading `\s` skipped, an optional
      sign, then the longest run of digits; no digit at all is NaN (`None`). */
  function ParseInt(s: string): (r: Option<int>)
    ensures AllSpace(s) ==> r.None?
  {
    var t := s[SkipSpace(s, 0)..];
    var d := t[SignLength(t)..];
    var n := DigitRun(d);
    if n == 0 then None else Some(Signed(t, DecimalValue(d[..n])))
  }

  /** A string `isInt` accepts is one `isFloat` accepts, with the same value. */
  lemma IntLiteralIsFloat(s: string)
    requires IntLiteral(s).Some?
    ensures FloatLiteral(s) == Some(IntLiteral(s).value as real)
  {
    var m := s[SignLength(s)..];
    var i := DigitRun(m);
    assert i == |m| && m[..i] == m && m[i..] == [];
    assert DigitRun([]) == 0 && Exponent([]) == Some(0);
    assert DecimalValue(m[i..i]) == 0;
    var v := DecimalValue(m);
    assert UnsignedFloat(m) == Some(v as real);
    assert IntLiteral(s).value as real == SignedReal(s, v as real);
  }

  /** A string `isNumeric` accepts is one `isFloat` reads as a number. */
  lemma NumericIsFloat(s: string)
    requires NumericLiteral(s)
    ensures FloatLiteral(s).Some?
  {
    var m := s[SignLength(s)..];
    var i := DigitRun(m);
    if i == |m| {
      assert m[i..] == [] && DigitRun([]) == 0 && Exponent([]) == Some(0);
    } else {
      assert m[i + 1 + DigitRun(m[i + 1..])..] == [];
      assert Exponent([]) == Some(0);
    }
  }

  /** `parseInt` reads a string `isInt` accepts as the same integer, and
      it stops at the first character that is not a digit. */
  lemma IntLiteralParses(s: string, tail: string)
    requires IntLiteral(s).Some?
    requires tail == [] || !IsDigit(tail[0])
    ensures ParseInt(s + tail) == IntLiteral(s)
  {
    var u := s + tail;
    assert u[0] == s[0] && (s[0] == '+' || s[0] == '-' || IsDigit(s[0]));
    assert !IsSpace(u[0]);
    assert u[0..] == u;
    assert SignLength(u) == SignLength(s);
    var k := SignLength(s);
    var d := u[k..];
    assert d == s[k..] + tail;
    DigitRunStops(s[k..], tail);
    assert d[..|s| - k] == s[k..];
  }

  lemma {:induction false} DigitRunStops(d: string, tail: string)
    requires AllDigits(d)
    requires tail == [] || !IsDigit(tail[0])
    ensures DigitRun(d + tail) == |d|
    decreases |d|
  {
    if d == [] {
      assert d + tail == tail;
    } else {
      assert (d + tail)[1..] == d[1..] + tail;
      DigitRunStops(d[1..], tail);
    }
  }

  // ---------------------------------------------------------------------
  // Readings of a field

  /** The number `isFloat` reads in a field: a JSON number as it is, a
      string by its text. */
  function FloatReading(v: Value): (r: Option<real>)
    ensures v.Num? ==> r == Some(v.x)
    ensures v.Absent? || v.Other? ==> r.None?
  {
    match v
    case Num(x) => Some(x)
    case Str(s) => FloatLiteral(s)
    case _ => None
  }

  /** The integer `isInt` reads in a field: a whole JSON number, or a
      string written as an integer. */
  function IntReading(v: Value): (r: Option<int>)
    ensures v.Num? && r.Some? ==> v.x == r.value as real
    ensures v.Absent? || v.Other? ==> r.None?
  {
    match v
    case Num(x) => if IsInteger(x) then Some(x.Floor) else None
    case Str(s) => IntLiteral(s)
    case _ => None
  }

  /** `isNumeric` (a JSON number is written out as decimal text). */
  predicate IsNumeric(v: Value)
  {
    v.Num? || (v.Str? && NumericLiteral(v.s))
  }

  /** `isFloat({ min })`. */
  predicate FloatAtLeast(v: Value, min: real)
  {
    FloatReading(v).Some? && FloatReading(v).value >= min
  }

  /** `isInt({ min, max })`; an absent bound is `None`. */
  predicate IntIn(v: Value, min: int, max: Option<int>)
  {
    IntReading(v).Some? && IntReading(v).value >= min && (max.None? || IntReading(v).value <= max.value)
  }

  /** `optional().isString()`. */
  predicate OptionalString(v: Value)
  {
    v.Absent? || v.Str?
  }

  // ---------------------------------------------------------------------
  // The rule sets

  /** The smallest amount a deposit, withdrawal, credit request or repayment may carry. */
  const MinAmount: real := 0.01

  /** `depositValidation` and `withdrawValidation` (the same two rules). */
  function MovementBody(amount: Value, description: Value): (ok: bool)
    ensures ok ==> FloatReading(amount).Some? && FloatReading(amount).value >= MinAmount
    ensures amount.Absent? || amount.Other? || (amount.Str? && !NumericLiteral(amount.s)) ==> !ok
    ensures description.Num? || description.Other? ==> !ok
    ensures amount.Num? && amount.x >= MinAmount && (description.Absent? || description.Str?) ==> ok
  {
    IsNumeric(amount) && FloatAtLeast(amount, MinAmount) && OptionalString(description)
  }

  /** `getTransactionsValidation`, `getRepaymentHistoryValidation`, and the
      paging part of `getCreditRequestsValidation`. */
  function PageQuery(page: Value, limit: Value): (ok: bool)
    ensures page.Absent? && limit.Absent? ==> ok
    ensures ok && !page.Absent? ==> IntReading(page).Some? && IntReading(page).value >= 1
    ensures ok && !limit.Absent? ==> IntReading(limit).Some? && 1 <= IntReading(limit).value <= 100
    ensures page.Other? || limit.Other? ==> !ok
    ensures (page.Str? && IntLiteral(page.s).None?) || (limit.Str? && IntLiteral(limit.s).None?) ==> !ok
    ensures ((page.Absent? || (page.Str? && IntLiteral(page.s).Some? && IntLiteral(page.s).value >= 1))
             && (limit.Absent? || (limit.Str? && IntLiteral(limit.s).Some? && 1 <= IntLiteral(limit.s).value <= 100))) ==> ok
    ensures (page.Num? && IsInteger(page.x) && page.x >= 1.0 && limit.Absent?) ==> ok
  {
    (page.Absent? || IntIn(page, 1, None)) && (limit.Absent? || IntIn(limit, 1, Some(100)))
  }

  /** `createAccountValidation`. */
  function CreateAccountBody(name: Value, currency: Value, initialDeposit: Value): (ok: bool)
    ensures (name.Absent? || name.Str?) && (currency.Absent? || currency.Str?) && initialDeposit.Absent? ==> ok
    ensures name.Num? || name.Other? || currency.Num? || currency.Other? ==> !ok
    ensures ok && !initialDeposit.Absent? ==> FloatReading(initialDeposit).Some? && FloatReading(initialDeposit).value >= 0.0
    ensures initialDeposit.Num? && initialDeposit.x < 0.0 ==> !ok
    ensures ((name.Absent? || name.Str?) && (currency.Absent? || currency.Str?)
             && FloatReading(initialDeposit).Some? && FloatReading(initialDeposit).value >= 0.0) ==> ok
  {
    OptionalString(name) && OptionalString(currency) && (initialDeposit.Absent? || FloatAtLeast(initialDeposit, 0.0))
  }

  /** `updateAccountValidation`. */
  function UpdateAccountBody(name: Value, currency: Value): (ok: bool)
    ensures (name.Absent? || name.Str?) && (currency.Absent? || currency.Str?) ==> ok
    ensures name.Num? || name.Other? || currency.Num? || currency.Other? ==> !ok
  {
    OptionalString(name) && OptionalString(currency)
  }

  /** The variation selectors U+FE0E and U+FE0F, which `isLength` leaves
      out of its count. */
  predicate IsPresentationSelector(c: char)
  {
    c == '\U{FE0E}' || c == '\U{FE0F}'
  }

  /** The length `isLength` measures: the characters of `s`, less the
      variation selectors. */
  function CountedLength(s: string): (n: nat)
    ensures n <= |s|
    ensures (forall i :: 0 <= i < |s| ==> !IsPresentationSelector(s[i])) ==> n == |s|
  {
    if s == [] then 0 else (if IsPresentationSelector(s[0]) then 0 else 1) + CountedLength(s[1..])
  }

  /** Appending a character adds one to the count, unless it is a variation
      selector, which adds nothing. */
  lemma {:induction false} CountedLengthAppend(s: string, c: char)
    ensures CountedLength(s + [c]) == CountedLength(s) + (if IsPresentationSelector(c) then 0 else 1)
    decreases |s|
  {
    if s == [] {
      assert [] + [c] == [c] && [c][1..] == [];
    } else {
      assert (s + [c])[1..] == s[1..] + [c];
      CountedLengthAppend(s[1..], c);
    }
  }

  const MinPurpose: nat := 10
  const MaxPurpose: nat := 500

  /** `requestCreditValidation`: the purpose is checked after trimming. */
  function RequestCreditBody(amount: Value, purpose: Value, durationMonths: Value): (ok: bool)
    ensures ok ==> FloatReading(amount).Some? && FloatReading(amount).value >= MinAmount
    ensures ok ==> purpose.Str? && MinPurpose <= CountedLength(PurposeAfterRules(purpose)) <= MaxPurpose
    ensures ok ==> IntReading(durationMonths).Some? && 1 <= IntReading(durationMonths).value <= 120
    ensures purpose.Str? && !(MinPurpose <= CountedLength(Trim(purpose.s)) <= MaxPurpose) ==> !ok
    ensures purpose.Str? && AllSpace(purpose.s) ==> !ok
    ensures ok ==> |purpose.s| >= MinPurpose
    ensures (amount.Num? && amount.x >= MinAmount && purpose.Str? && MinPurpose <= CountedLength(Trim(purpose.s)) <= MaxPurpose
             && durationMonths.Num? && IsInteger(durationMonths.x) && 1.0 <= durationMonths.x <= 120.0) ==> ok
  {
    TrimEmptyIff(if purpose.Str? then purpose.s else []);
    && FloatAtLeast(amount, MinAmount)
    && purpose.Str? && MinPurpose <= CountedLength(Trim(purpose.s)) <= MaxPurpose
    && IntIn(durationMonths, 1, Some(120))
  }

  /** A variation selector after an unpadded purpose does not count
      towards its length, so it never changes the verdict. */
  lemma SelectorDoesNotCount(amount: Value, purpose: string, durationMonths: Value)
    requires purpose != [] && !IsSpace(purpose[0]) && !IsSpace(purpose[|purpose| - 1])
    ensures RequestCreditBody(amount, Str(purpose + ['\U{FE0F}']), durationMonths)
      == RequestCreditBody(amount, Str(purpose), durationMonths)
  {
    var padded := purpose + ['\U{FE0F}'];
    TrimKeepsUnpadded(purpose);
    assert padded[0] == purpose[0];
    TrimKeepsUnpadded(padded);
    CountedLengthAppend(purpose, '\U{FE0F}');
  }

  /** Nine letters and a variation selector make a purpose too short. */
  lemma NineLettersAndSelectorAreShort(amount: Value, durationMonths: Value)
    ensures !RequestCreditBody(amount, Str(seq(9, _ => 'a') + ['\U{FE0F}']), durationMonths)
  {
    var p: string := seq(9, _ => 'a');
    assert p[0] == 'a' && p[8] == 'a';
    SelectorDoesNotCount(amount, p, durationMonths);
    TrimKeepsUnpadded(p);
    assert CountedLength(p) == 9;
  }

  /** The purpose that reaches the service: the trimmed string. */
  function PurposeAfterRules(purpose: Value): (p: string)
    requires purpose.Str?
    ensures p == Trim(purpose.s)
    ensures p == [] || (!IsSpace(p[0]) && !IsSpace(p[|p| - 1]))
  {
    TrimIsCore(purpose.s);
    Trim(purpose.s)
  }

  /** Padding a purpose with `\s` never changes the verdict: a purpose and
      its trimmed form are accepted or refused alike. */
  lemma RequestCreditIgnoresPadding(amount: Value, purpose: string, durationMonths: Value)
    ensures RequestCreditBody(amount, Str(purpose), durationMonths)
      == RequestCreditBody(amount, Str(Trim(purpose)), durationMonths)
  {
    TrimIdempotent(purpose);
  }

  /** `getCreditRequestsValidation`. */
  function CreditListQuery(page: Value, limit: Value, status: Value): (ok: bool)
    ensures ok ==> PageQuery(page, limit)
    ensures PageQuery(page, limit) && (status.Absent? || status.Str?) ==> ok
    ensures status.Num? || status.Other? ==> !ok
  {
    PageQuery(page, limit) && OptionalString(status)
  }

  /** `repaymentValidation`: `isFloat` alone, without `isNumeric`. */
  function RepaymentBody(amount: Value): (ok: bool)
    ensures MovementBody(amount, Absent) ==> ok
    ensures ok ==> FloatReading(amount).Some? && FloatReading(amount).value >= MinAmount
    ensures !amount.Str? ==> (ok <==> MovementBody(amount, Absent))
  {
    FloatAtLeast(amount, MinAmount)
  }

  /** `parseInt(value) || fallback` as the controllers read `page` and
      `limit`: a query string is parsed, and NaN or zero falls back. */
  function ParseIntOr(v: Value, fallback: int): (n: int)
    ensures v.Str? && ParseInt(v.s).Some? && ParseInt(v.s).value != 0 ==> n == ParseInt(v.s).value
    ensures v.Num? && IsInteger(v.x) && v.x != 0.0 ==> n as real == v.x
    ensures v.Absent? || v.Other? ==> n == fallback
    ensures fallback != 0 ==> n != 0
  {
    match v
    case Str(s) =>
      var r := ParseInt(s);
      if r.None? || r.value == 0 then fallback else r.value
    case Num(x) =>
      var t := if x >= 0.0 then x.Floor else -((-x).Floor);
      if t == 0 then fallback else t
    case _ => fallback
  }

  /** A query the paging rules accept gives the services a page of at least
      1 and a limit between 1 and 100, whatever the defaults stand in for. */
  lemma PageQueryMeetsServices(page: Value, limit: Value)
    requires PageQuery(page, limit)
    ensures ParseIntOr(page, 1) >= 1
    ensures 1 <= ParseIntOr(limit, 10) <= 100
  {
    if !page.Absent? {
      AcceptedIntParses(page, 1);
    }
    if !limit.Absent? {
      AcceptedIntParses(limit, 10);
    }
  }

  /** A non-zero integer `isInt` accepts is the one `parseInt` reads. */
  lemma AcceptedIntParses(v: Value, fallback: int)
    requires IntReading(v).Some? && IntReading(v).value != 0
    ensures ParseIntOr(v, fallback) == IntReading(v).value
  {
    if v.Str? {
      IntLiteralParses(v.s, []);
      assert v.s + [] == v.s;
    }
  }

  /** A numeric name or currency and a numeric status are strings like
      any other, so the rules accept them. */
  lemma NumericStringsAreStrings()
    ensures CreateAccountBody(Str("2024"), Str("840"), Absent)
    ensures UpdateAccountBody(Str("2024"), Absent)
    ensures CreditListQuery(Absent, Absent, Str("1"))
  {
  }

  /** A third page, and an opening deposit of 100, are accepted. */
  lemma SuppliedValuesAreAccepted()
    ensures PageQuery(Str("3"), Absent)
    ensures CreateAccountBody(Absent, Absent, Num(100.0))
  {
    assert IntLiteral("3") == Some(3) by {
      assert "3"[1..] == [] && "3"[..0] == [];
    }
  }

  /** `isInt` refuses text with a point or an exponent, whatever number
      it writes. */
  lemma IntLiteralHasNoPointOrExponent(s: string)
    ensures '.' in s || 'e' in s || 'E' in s ==> IntLiteral(s).None?
  {
    if IntLiteral(s).Some? {
      forall i | 0 <= i < |s|
        ensures s[i] != '.' && s[i] != 'e' && s[i] != 'E'
      {
        assert i < SignLength(s) ==> s[i] == '+' || s[i] == '-';
      }
    }
  }

  /** A page or limit must be written as an integer: `2` and `100` pass,
      `2.0` and `1e1` do not, though both read as whole numbers. */
  lemma PagesAreWrittenAsIntegers()
    ensures PageQuery(Str("2"), Str("100"))
    ensures !PageQuery(Str("2.0"), Absent) && !PageQuery(Str("1e1"), Absent)
  {
    TwoAndHundredAreIntegers();
    IntLiteralHasNoPointOrExponent("2.0");
    assert "2.0"[1] == '.';
    IntLiteralHasNoPointOrExponent("1e1");
    assert "1e1"[1] == 'e';
  }

  lemma TwoAndHundredAreIntegers()
    ensures IntLiteral("2") == Some(2) && IntLiteral("100") == Some(100)
  {
    assert IntLiteral("2") == Some(2) by {
      assert "2"[1..] == [] && "2"[..0] == [];
    }
    assert DigitRun("100") == 3 by {
      assert "100"[1..] == "00" && "00"[1..] == "0" && "0"[1..] == [];
    }
    assert DecimalValue("100") == 100 by {
      assert "100"[..2] == "10" && "10"[..1] == "1" && "1"[..0] == [];
    }
  }

  /** `0.5` is read as one half by both `isNumeric` and `isFloat`. */
  lemma DecimalStringIsRead()
    ensures FloatLiteral("0.5") == Some(0.5)
    ensures MovementBody(Str("0.5"), Absent)
  {
    HalfIsRead();
    var m := "0.5";
    assert DigitRun(m) == 1 by { assert m[1..] == ".5"; }
    assert DigitRun(m[2..]) == 1 by { assert m[2..] == "5" && "5"[1..] == []; }
    assert NumericLiteral(m);
  }

  lemma HalfIsRead()
    ensures UnsignedFloat("0.5") == Some(0.5)
  {
    var m := "0.5";
    assert DigitRun(m) == 1 by { assert m[1..] == ".5"; }
    assert DigitRun(m[2..]) == 1 by { assert m[2..] == "5" && "5"[1..] == []; }
    assert m[3..] == [] && Exponent([]) == Some(0);
    assert DecimalValue(m[..1]) == 0 by { assert m[..1] == "0" && "0"[..0] == []; }
    assert DecimalValue(m[2..3]) == 5 by { assert m[2..3] == "5" && "5"[..0] == []; }
    assert Pow10(1) == 10;
  }

  /** `isFloat` alone accepts the exponent form `1e1` (ten), which the
      `isNumeric` rule in front of a deposit refuses: a repayment of `1e1`
      passes its rules and a deposit of `1e1` does not. */
  lemma ExponentFormSeparatesRules()
    ensures FloatLiteral("1e1") == Some(10.0)
    ensures RepaymentBody(Str("1e1")) && !MovementBody(Str("1e1"), Absent)
  {
    TenIsRead();
    assert DigitRun("1e1") == 1 by { assert "1e1"[1..] == "e1"; }
    assert !NumericLiteral("1e1");
  }

  lemma TenIsRead()
    ensures UnsignedFloat("1e1") == Some(10.0)
  {
    var m := "1e1";
    assert DigitRun(m) == 1 by { assert m[1..] == "e1"; }
    assert m[1..] == "e1" && m[1..1] == [] && DigitRun("e1") == 0;
    assert Exponent("e1") == Some(1) by {
      assert "e1"[1..] == "1" && "1"[1..] == [] && "1"[..0] == [];
    }
    assert DecimalValue(m[..1]) == 1 by { assert m[..1] == "1" && "1"[..0] == []; }
    assert DecimalValue(m[1..1]) == 0;
    assert Pow10(0) == 1 && Pow10(1) == 10;
  }

  /** A credit request the rules accept passes `requestCredit`'s own
      checks on the numbers the service compares. */
  lemma RequestCreditBodyMeetsService(amount: Value, purpose: Value, durationMonths: Value)
    requires RequestCreditBody(amount, purpose, durationMonths)
    ensures FloatReading(amount).value > 0.0
    ensures Credit.MinDuration <= IntReading(durationMonths).value <= Credit.MaxDuration
  {
  }

  /** A repayment the rules accept is never refused as non-positive. */
  lemma RepaymentBodyIsPositive(amount: Value)
    requires RepaymentBody(amount)
    ensures FloatReading(amount).value > 0.0
  {
  }

  /** A movement the rules accept is positive, so a deposit cannot make a
      balance negative; the rules refuse zero and every negative amount. */
  lemma MovementBodyIsPositive(amount: Value, description: Value)
    ensures MovementBody(amount, description) ==> FloatReading(amount).value > 0.0
    ensures FloatReading(amount).Some? && FloatReading(amount).value <= 0.0 ==> !MovementBody(amount, description)
  {
  }
}
