/** The JavaScript string primitives the validators rely on: the `\s`
    character class (WhiteSpace and LineTerminator of ECMAScript) and
    `String.prototype.trim`, which removes that class from both ends. */
module Text {

  /** ECMAScript LineTerminator: the characters `.` in a regular expression does not match. */
  predicate IsLineTerminator(c: char)
  {
    c == '\n' || c == '\r' || c == '\U{2028}' || c == '\U{2029}'
  }

  /** ECMAScript `\s`: WhiteSpace (tab, vertical tab, form feed, space, no-break
      space, byte order mark, the Space_Separator characters) or a LineTerminator. */
  predicate IsSpace(c: char)
  {
    || c == '\t' || c == '\U{000B}' || c == '\U{000C}' || c == ' '
    || c == '\U{00A0}' || c == '\U{FEFF}' || c == '\U{1680}'
    || ('\U{2000}' <= c <= '\U{200A}') || c == '\U{202F}' || c == '\U{205F}' || c == '\U{3000}'
    || IsLineTerminator(c)
  }

  predicate IsDigit(c: char) { '0' <= c <= '9' }
  predicate IsLower(c: char) { 'a' <= c <= 'z' }
  predicate IsUpper(c: char) { 'A' <= c <= 'Z' }

  /** True when every character of `s` is in `\s`. */
  predicate AllSpace(s: string)
  {
    forall k :: 0 <= k < |s| ==> IsSpace(s[k])
  }

  /** The first position at or after `i` that does not hold a `\s`
      character (`|s|` when there is none). */
  function SkipSpace(s: string, i: nat): (j: nat)
    requires i <= |s|
    ensures i <= j <= |s|
    ensures forall k :: i <= k < j ==> IsSpace(s[k])
    ensures j < |s| ==> !IsSpace(s[j])
    decreases |s| - i
  {
    if i < |s| && IsSpace(s[i]) then SkipSpace(s, i + 1) else i
  }

  /** Moving back from `j`, never below `lo`: the position just after the
      last character that is not `\s` (`lo` when there is none). */
  function BackSpace(s: string, lo: nat, j: nat): (e: nat)
    requires lo <= j <= |s|
    ensures lo <= e <= j
    ensures forall k :: e <= k < j ==> IsSpace(s[k])
    ensures e > lo ==> !IsSpace(s[e - 1])
    decreases j
  {
    if j > lo && IsSpace(s[j - 1]) then BackSpace(s, lo, j - 1) else j
  }

  /** `String.prototype.trim`: `\s` cut from the start, then from the end. */
  function Trim(s: string): (t: string)
    ensures |t| <= |s|
    ensures t != [] ==> !IsSpace(t[0]) && !IsSpace(t[|t| - 1])
  {
    var i := SkipSpace(s, 0);
    s[i..BackSpace(s, i, |s|)]
  }

  /** What trim returns: the contiguous piece of its input that starts at
      the first character that is not `\s`, with only `\s` characters cut
      off on either side and none left at either end. */
  lemma TrimIsCore(s: string)
    ensures var t, i := Trim(s), SkipSpace(s, 0);
      && i + |t| <= |s|
      && t == s[i..i + |t|]
      && (forall k :: 0 <= k < i ==> IsSpace(s[k]))
      && (forall k :: i + |t| <= k < |s| ==> IsSpace(s[k]))
  {
    var i := SkipSpace(s, 0);
    var e := BackSpace(s, i, |s|);
    var t := s[i..e];
    assert |t| == e - i && t == s[i..i + |t|];
    if t != [] {
      assert t[0] == s[i] && t[|t| - 1] == s[e - 1];
    }
  }

  /** Trim leaves nothing behind exactly when the string is all `\s`. */
  lemma TrimEmptyIff(s: string)
    ensures Trim(s) == [] <==> AllSpace(s)
  {
    var i := SkipSpace(s, 0);
    if i < |s| {
      assert !IsSpace(s[i]);
      assert BackSpace(s, i, |s|) > i;
    }
  }

  /** A string with no `\s` at either end is its own trim. */
  lemma TrimKeepsUnpadded(s: string)
    requires s != [] && !IsSpace(s[0]) && !IsSpace(s[|s| - 1])
    ensures Trim(s) == s
  {
    assert SkipSpace(s, 0) == 0;
    assert BackSpace(s, 0, |s|) == |s|;
    assert s[0..|s|] == s;
  }

  /** Trimming twice is trimming once. */
  lemma TrimIdempotent(s: string)
    ensures Trim(Trim(s)) == Trim(s)
  {
    var t := Trim(s);
    TrimIsCore(s);
    if t != [] {
      assert SkipSpace(t, 0) == 0;
      assert BackSpace(t, 0, |t|) == |t|;
      assert t[0..|t|] == t;
    }
  }
}
