/** The browser client's form checks: email and password shape, password
    strength, Rwandan phone numbers, amounts, required and length checks on
    trimmed input, and tag stripping. */
module ClientValidation {
  import opened Common
  import opened Text
  import Validation

  /** The first position of `c` in `s`. */
  function IndexOf(s: string, c: char): (r: Option<nat>)
    ensures r.Some? ==> r.value < |s| && s[r.value] == c && forall k :: 0 <= k < r.value ==> s[k] != c
    ensures r.None? <==> forall k :: 0 <= k < |s| ==> s[k] != c
  {
    if s == [] then None
    else if s[0] == c then Some(0)
    else match IndexOf(s[1..], c)
      case None => None
      case Some(k) => Some(k + 1)
  }

  // ---------------------------------------------------------------------
  // isValidEmail

  /** One part of an address, `s[lo..hi]`: non-empty, with no `\s` and no `@`. */
  predicate Part(s: string, lo: nat, hi: nat)
    requires lo <= hi <= |s|
  {
    lo < hi && forall k :: lo <= k < hi ==> !IsSpace(s[k]) && s[k] != '@'
  }

  /** The addresses `/^[^\s@]+@[^\s@]+\.[^\s@]+$/` accepts: a local part,
      `@`, a name, `.`, and a last part. */
  ghost predicate EmailShape(s: string)
  {
    exists i, j :: 0 < i < j < |s| - 1 && s[i] == '@' && s[j] == '.'
      && Part(s, 0, i) && Part(s, i + 1, j) && Part(s, j + 1, |s|)
  }

  /** `isValidEmail`, read left to right: no `\s` anywhere, a first `@` that
      is not the first character, no second `@`, and a `.` after the `@`
      with at least one character on each side. */
  function IsValidEmail(s: string): (ok: bool)
    ensures ok ==> 5 <= |s| && s[0] != '@' && s[|s| - 1] != '@'
    ensures '@' !in s ==> !ok
  {
    match IndexOf(s, '@')
    case None => false
    case Some(at) =>
      && at > 0
      && (forall k :: 0 <= k < |s| ==> !IsSpace(s[k]))
      && (forall k :: at < k < |s| ==> s[k] != '@')
      && (exists k :: at + 1 < k < |s| - 1 && s[k] == '.')
  }

  /** The scan accepts exactly the addresses of the regular expression's shape. */
  lemma EmailShapeIff(s: string)
    ensures IsValidEmail(s) <==> EmailShape(s)
  {
    if IsValidEmail(s) {
      ScanHasShape(s);
    }
    if EmailShape(s) {
      ShapePassesScan(s);
    }
  }

  lemma ScanHasShape(s: string)
    requires IsValidEmail(s)
    ensures EmailShape(s)
  {
    var at := IndexOf(s, '@').value;
    var j :| at + 1 < j < |s| - 1 && s[j] == '.';
    assert Part(s, 0, at) && Part(s, at + 1, j) && Part(s, j + 1, |s|);
  }

  lemma ShapePassesScan(s: string)
    requires EmailShape(s)
    ensures IsValidEmail(s)
  {
    var i, j :| 0 < i < j < |s| - 1 && s[i] == '@' && s[j] == '.'
      && Part(s, 0, i) && Part(s, i + 1, j) && Part(s, j + 1, |s|);
    assert !IsSpace('@') && !IsSpace('.');
    forall k | 0 <= k < |s| ensures !IsSpace(s[k]) && (k != i ==> s[k] != '@') {
      if k < i {
        assert Part(s, 0, i);
      } else if i < k < j {
        assert Part(s, i + 1, j);
      } else if j < k {
        assert Part(s, j + 1, |s|);
      }
    }
    var r := IndexOf(s, '@');
    assert r.Some? && r.value <= i;
    assert r.value == i;
  }

  // ---------------------------------------------------------------------
  // isValidPassword and getPasswordStrength

  predicate HasLower(p: string) { exists k :: 0 <= k < |p| && IsLower(p[k]) }
  predicate HasUpper(p: string) { exists k :: 0 <= k < |p| && IsUpper(p[k]) }
  predicate HasDigit(p: string) { exists k :: 0 <= k < |p| && IsDigit(p[k]) }
  /** A character that is neither a letter nor a digit (`[^a-zA-Z\d]`). */
  predicate HasOther(p: string) { exists k :: 0 <= k < |p| && !IsLower(p[k]) && !IsUpper(p[k]) && !IsDigit(p[k]) }

  /** `isValidPassword`: `/^(?=.*[a-z])(?=.*[A-Z])(?=.*\d).{8,}$/`, where `.`
      matches every character except a line terminator. */
  function IsValidPassword(p: string): (ok: bool)
    ensures |p| < 8 ==> !ok
    ensures ok ==> Score(p) >= 4
  {
    && (forall k :: 0 <= k < |p| ==> !IsLineTerminator(p[k]))
    && |p| >= 8 && HasLower(p) && HasUpper(p) && HasDigit(p)
  }

  datatype Strength = Weak | Medium | Strong

  /** The number of the five criteria a password meets. */
  function Score(p: string): (n: nat)
    ensures n <= 5
    ensures n == 5 <==> |p| >= 8 && HasLower(p) && HasUpper(p) && HasDigit(p) && HasOther(p)
  {
    (if |p| >= 8 then 1 else 0) + (if HasLower(p) then 1 else 0) + (if HasUpper(p) then 1 else 0)
    + (if HasDigit(p) then 1 else 0) + (if HasOther(p) then 1 else 0)
  }

  /** `getPasswordStrength`. */
  function PasswordStrength(p: string): (s: Strength)
    ensures |p| < 6 ==> s == Weak
    ensures s == Strong <==> |p| >= 8 && HasLower(p) && HasUpper(p) && HasDigit(p) && HasOther(p)
    ensures s == Medium <==> |p| >= 6 && 3 <= Score(p) <= 4
    ensures s == Weak <==> |p| < 6 || Score(p) <= 2
  {
    if |p| < 6 then Weak
    else
      var n := Score(p);
      if n <= 2 then Weak else if n <= 4 then Medium else Strong
  }

  /** A password the form accepts is never rated weak; it is strong exactly
      when it also holds a character other than a letter or a digit. */
  lemma ValidPasswordNotWeak(p: string)
    requires IsValidPassword(p)
    ensures PasswordStrength(p) != Weak
    ensures PasswordStrength(p) == Strong <==> HasOther(p)
  {
    assert Score(p) >= 4;
  }

  // ---------------------------------------------------------------------
  // isValidPhoneNumber

  /** `phone.replace(/\D/g, '')`: the digits, in order. */
  function Digits(s: string): (r: string)
    ensures |r| <= |s|
    ensures forall k :: 0 <= k < |r| ==> IsDigit(r[k])
    ensures (forall k :: 0 <= k < |s| ==> IsDigit(s[k])) ==> r == s
  {
    if s == [] then []
    else (if IsDigit(s[0]) then [s[0]] else []) + Digits(s[1..])
  }

  lemma {:induction false} DigitsAppend(a: string, b: string)
    ensures Digits(a + b) == Digits(a) + Digits(b)
  {
    if a == [] {
      assert a + b == b;
    } else {
      assert (a + b)[0] == a[0] && (a + b)[1..] == a[1..] + b;
      DigitsAppend(a[1..], b);
    }
  }

  /** `isValidPhoneNumber`: after dropping non-digits, a `250` number has 12
      digits and a `07` number 10; anything else is refused. */
  function IsValidPhoneNumber(phone: string): (b: bool)
    ensures b <==> var d := Digits(phone);
      ("250" <= d && |d| == 12) || ("07" <= d && |d| == 10)
  {
    var cleaned := Digits(phone);
    if "250" <= cleaned then
      assert !("07" <= cleaned) by {
        assert cleaned[0] == "250"[0];
      }
      |cleaned| == 12
    else if "07" <= cleaned then |cleaned| == 10
    else false
  }

  /** Separators do not matter: inserting a non-digit anywhere leaves the
      verdict unchanged, and so does keeping only the digits. */
  lemma PhoneIgnoresFormatting(a: string, c: char, b: string)
    requires !IsDigit(c)
    ensures IsValidPhoneNumber(a + [c] + b) == IsValidPhoneNumber(a + b)
    ensures IsValidPhoneNumber(Digits(a + b)) == IsValidPhoneNumber(a + b)
  {
    DigitsSkipNonDigit(a, c, b);
    SameDigitsSameVerdict(a + [c] + b, a + b);
    SameDigitsSameVerdict(Digits(a + b), a + b);
  }

  lemma DigitsSkipNonDigit(a: string, c: char, b: string)
    requires !IsDigit(c)
    ensures Digits(a + [c] + b) == Digits(a + b)
    ensures Digits(Digits(a + b)) == Digits(a + b)
  {
    DigitsAppend(a + [c], b);
    DigitsAppend(a, [c]);
    assert Digits([c]) == [] + Digits([c][1..]);
    DigitsAppend(a, b);
  }

  lemma SameDigitsSameVerdict(x: string, y: string)
    requires Digits(x) == Digits(y)
    ensures IsValidPhoneNumber(x) == IsValidPhoneNumber(y)
  {
  }

  // ---------------------------------------------------------------------
  // isValidAmount, isRequired, hasMinLength, hasMaxLength

  /** `isValidAmount` (NaN is not a real here). */
  function IsValidAmount(amount: real): (ok: bool)
    ensures amount >= Validation.MinAmount ==> ok
    ensures amount <= 0.0 ==> !ok
  {
    amount > 0.0
  }

  /** Every amount the server's rules accept the form accepts too, but not
      the other way round: 0.005 passes the form and fails the server. */
  lemma AmountRulesCompared(v: Validation.Value)
    ensures Validation.FloatAtLeast(v, Validation.MinAmount) ==> IsValidAmount(Validation.FloatReading(v).value)
    ensures IsValidAmount(0.005) && !Validation.FloatAtLeast(Validation.Num(0.005), Validation.MinAmount)
  {
  }

  /** `isRequired`: absent is refused; a string is accepted unless trimming empties it. */
  function IsRequired(value: Option<string>): (b: bool)
    ensures b <==> value.Some? && !AllSpace(value.value)
  {
    match value
    case None => false
    case Some(v) => TrimEmptyIff(v); |Trim(v)| > 0
  }

  /** `hasMinLength`. */
  function HasMinLength(value: string, minLength: int): (ok: bool)
    ensures ok ==> |value| >= minLength
    ensures AllSpace(value) ==> (ok <==> minLength <= 0)
  {
    TrimEmptyIff(value);
    |Trim(value)| >= minLength
  }

  /** `hasMaxLength`. */
  function HasMaxLength(value: string, maxLength: int): (ok: bool)
    ensures |value| <= maxLength ==> ok
    ensures AllSpace(value) ==> (ok <==> maxLength >= 0)
  {
    TrimEmptyIff(value);
    |Trim(value)| <= maxLength
  }

  /** The length checks look through surrounding whitespace: a value and its
      trimmed form pass or fail them alike. */
  lemma LengthChecksIgnorePadding(value: string, n: int)
    ensures HasMinLength(Trim(value), n) == HasMinLength(value, n)
    ensures HasMaxLength(Trim(value), n) == HasMaxLength(value, n)
  {
    TrimIdempotent(value);
  }

  // ---------------------------------------------------------------------
  // sanitizeInput

  /** `input.replace(/<[^>]*>/g, '')`: from left to right, every `<` with a
      `>` somewhere after it is removed together with everything up to the
      first such `>`; a `<` with no `>` after it stays. */
  function SanitizeInput(s: string): (r: string)
    ensures |r| <= |s|
    ensures forall c :: c in r ==> c in s
    decreases |s|
  {
    if s == [] then []
    else if s[0] == '<' && IndexOf(s, '>').Some? then
      var close := IndexOf(s, '>').value;
      var rest := SanitizeInput(s[close + 1..]);
      assert forall c :: c in s[close + 1..] ==> c in s;
      rest
    else
      var rest := SanitizeInput(s[1..]);
      assert forall c :: c in s[1..] ==> c in s;
      [s[0]] + rest
  }

  /** No `<` has a `>` after it: nothing left that the pattern could match. */
  predicate TagFree(s: string)
  {
    forall i, j :: 0 <= i < j < |s| && s[i] == '<' ==> s[j] != '>'
  }

  /** The output never holds a `<` followed later by a `>`. */
  lemma {:induction false} SanitizeIsTagFree(s: string)
    ensures TagFree(SanitizeInput(s))
    decreases |s|
  {
    if s == [] {
    } else if s[0] == '<' && IndexOf(s, '>').Some? {
      SanitizeIsTagFree(s[IndexOf(s, '>').value + 1..]);
    } else {
      SanitizeIsTagFree(s[1..]);
      var rest := SanitizeInput(s[1..]);
      if s[0] == '<' {
        assert forall c :: c in rest ==> c != '>';
      }
      assert SanitizeInput(s) == [s[0]] + rest;
      forall i, j | 0 <= i < j < |rest| + 1 && ([s[0]] + rest)[i] == '<'
        ensures ([s[0]] + rest)[j] != '>'
      {
        if i > 0 {
          assert rest[i - 1] == '<';
        } else {
          assert rest[j - 1] in rest;
        }
      }
    }
  }

  /** Input with nothing to strip comes back unchanged. */
  lemma {:induction false} SanitizeKeepsTagFree(s: string)
    requires TagFree(s)
    ensures SanitizeInput(s) == s
    decreases |s|
  {
    if s != [] {
      if s[0] == '<' {
        assert IndexOf(s, '>').None? by {
          forall k | 0 <= k < |s| ensures s[k] != '>' {
            if k > 0 {
              assert s[0] == '<';
            }
          }
        }
      }
      assert TagFree(s[1..]) by {
        forall i, j | 0 <= i < j < |s| - 1 && s[1..][i] == '<' ensures s[1..][j] != '>' {
          assert s[i + 1] == '<';
        }
      }
      SanitizeKeepsTagFree(s[1..]);
    }
  }

  /** Text before the first `<` is kept as it is. */
  lemma {:induction false} SanitizeKeepsPlainPrefix(a: string, b: string)
    requires '<' !in a
    ensures SanitizeInput(a + b) == a + SanitizeInput(b)
    decreases |a|
  {
    if a == [] {
      assert a + b == b;
    } else {
      assert (a + b)[0] == a[0] && (a + b)[1..] == a[1..] + b;
      assert a[1..] + b == (a + b)[1..];
      assert '<' !in a[1..] by {
        forall c | c in a[1..] ensures c != '<' {
          assert c in a;
        }
      }
      assert a[0] in a;
      assert SanitizeInput(a + b) == [a[0]] + SanitizeInput(a[1..] + b);
      SanitizeKeepsPlainPrefix(a[1..], b);
      assert a == [a[0]] + a[1..];
    }
  }

  /** A `<`, then anything without `>`, then `>` is removed, and what follows
      is sanitized on its own. */
  lemma SanitizeDropsTag(m: string, b: string)
    requires '>' !in m
    ensures SanitizeInput(['<'] + m + ['>'] + b) == SanitizeInput(b)
  {
    var s := ['<'] + m + ['>'] + b;
    assert s[|m| + 1] == '>';
    assert forall k :: 0 <= k < |m| + 1 ==> s[k] != '>' by {
      forall k | 0 <= k < |m| + 1 ensures s[k] != '>' {
        if k > 0 {
          assert s[k] == m[k - 1] && m[k - 1] in m;
        }
      }
    }
    assert IndexOf(s, '>') == Some(|m| + 1);
    assert s[|m| + 2..] == b;
  }

  /** Sanitizing twice is sanitizing once. */
  lemma SanitizeIdempotent(s: string)
    ensures SanitizeInput(SanitizeInput(s)) == SanitizeInput(s)
  {
    SanitizeIsTagFree(s);
    SanitizeKeepsTagFree(SanitizeInput(s));
  }
}
