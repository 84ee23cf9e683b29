/** The JavaScript string semantics the handlers depend on: `String.prototype.trim`,
    the falsiness of strings and nullable ids (`!s`), and the decimal rendering of a
    number in a template literal (`${n}`), used to mint new ids. */
module JsText {

  datatype Option<T> = None | Some(value: T)

  /** The code points `trim` removes. ECMAScript WhiteSpace: TAB, VT, FF, SP, NBSP,
      ZWNBSP and the Zs code points; and LineTerminator: LF, CR, LS, PS. */
  const Whitespace: set<char> :=
    {'\U{0009}', '\U{000B}', '\U{000C}', '\U{0020}', '\U{00A0}', '\U{FEFF}', '\U{1680}',
     '\U{2000}', '\U{2001}', '\U{2002}', '\U{2003}', '\U{2004}', '\U{2005}', '\U{2006}',
     '\U{2007}', '\U{2008}', '\U{2009}', '\U{200A}', '\U{202F}', '\U{205F}', '\U{3000}',
     '\U{000A}', '\U{000D}', '\U{2028}', '\U{2029}'}

  predicate IsWhitespace(c: char)
  {
    c in Whitespace
  }

  /** The index of the first non-whitespace character at or after `i`. */
  function SkipLeading(s: string, i: nat): (k: nat)
    requires i <= |s|
    ensures i <= k <= |s|
    ensures forall m :: i <= m < k ==> IsWhitespace(s[m])
    ensures k < |s| ==> !IsWhitespace(s[k])
    decreases |s| - i
  {
    if i < |s| && IsWhitespace(s[i]) then SkipLeading(s, i + 1) else i
  }

  /** The index just past the last non-whitespace character before `j`, not below `lo`. */
  function SkipTrailing(s: string, lo: nat, j: nat): (k: nat)
    requires lo <= j <= |s|
    ensures lo <= k <= j
    ensures forall m :: k <= m < j ==> IsWhitespace(s[m])
    ensures k > lo ==> !IsWhitespace(s[k - 1])
  {
    if j > lo && IsWhitespace(s[j - 1]) then SkipTrailing(s, lo, j - 1) else j
  }

  /** `s.trim()`: `s` without its leading and trailing whitespace. */
  function Trim(s: string): (r: string)
  {
    var i := SkipLeading(s, 0);
    s[i..SkipTrailing(s, i, |s|)]
  }

  /** `!s.trim()`: the string is empty after trimming. */
  predicate IsBlank(s: string)
  {
    Trim(s) == ""
  }

  /** `!s` for a nullable string: null and "" are both falsy. */
  predicate IsFalsy(s: Option<string>)
  {
    s.None? || s.value == ""
  }

  /** The trimmed string is the middle slice of `s`, cut only at whitespace, and
      neither starts nor ends with whitespace. */
  lemma TrimIsCore(s: string) returns (i: nat, j: nat)
    ensures i <= j <= |s| && Trim(s) == s[i..j]
    ensures forall k :: 0 <= k < i ==> IsWhitespace(s[k])
    ensures forall k :: j <= k < |s| ==> IsWhitespace(s[k])
    ensures Trim(s) != [] ==> !IsWhitespace(Trim(s)[0]) && !IsWhitespace(Trim(s)[|Trim(s)| - 1])
  {
    i := SkipLeading(s, 0);
    j := SkipTrailing(s, i, |s|);
    var t := Trim(s);
    assert t == s[i..j];
    if t != [] {
      assert t[0] == s[i] && t[|t| - 1] == s[j - 1];
    }
  }

  /** A string is blank exactly when every character in it is whitespace. */
  lemma BlankIffAllWhitespace(s: string)
    ensures IsBlank(s) <==> forall k :: 0 <= k < |s| ==> IsWhitespace(s[k])
  {
    var i, j := TrimIsCore(s);
    if IsBlank(s) {
      assert |s[i..j]| == 0;
      forall k | 0 <= k < |s| ensures IsWhitespace(s[k]) {
        assert k < i || j <= k;
      }
    }
  }

  /** Trimming is idempotent, so a trimmed value is stored in its final form. */
  lemma TrimIdempotent(s: string)
    ensures Trim(Trim(s)) == Trim(s)
  {
    var t := Trim(s);
    var _, _ := TrimIsCore(s);
    if t != [] {
      assert SkipLeading(t, 0) == 0;
      assert SkipTrailing(t, 0, |t|) == |t|;
      assert t[0..|t|] == t;
    }
  }

  // ---- decimal rendering of ids: `${n}` ----

  function DigitChar(d: nat): (c: char)
    requires d < 10
    ensures '0' <= c <= '9'
  {
    ('0' as int + d) as char
  }

  function DigitValue(c: char): (d: nat)
    requires '0' <= c <= '9'
    ensures d < 10
  {
    (c as int - '0' as int) as nat
  }

  /** `${n}` for a non-negative integer: its decimal digits, most significant first. */
  function DecimalString(n: nat): (s: string)
    ensures s != []
    ensures forall k :: 0 <= k < |s| ==> '0' <= s[k] <= '9'
    ensures |s| > 1 ==> s[0] != '0'
  {
    if n < 10 then [DigitChar(n)] else DecimalString(n / 10) + [DigitChar(n % 10)]
  }

  /** Reads back a string of decimal digits. */
  function ParseDecimal(s: string): nat
    requires forall k :: 0 <= k < |s| ==> '0' <= s[k] <= '9'
  {
    if s == [] then 0 else 10 * ParseDecimal(s[..|s| - 1]) + DigitValue(s[|s| - 1])
  }

  /** The number an id renders: its decimal value when it is all digits, otherwise 0. */
  function IdNumber(s: string): nat
  {
    if forall k :: 0 <= k < |s| ==> '0' <= s[k] <= '9' then ParseDecimal(s) else 0
  }

  /** Parsing the rendered id gives back the number. */
  lemma {:induction false} DecimalRoundTrip(n: nat)
    ensures ParseDecimal(DecimalString(n)) == n
  {
    var s := DecimalString(n);
    if n >= 10 {
      DecimalRoundTrip(n / 10);
      assert s[..|s| - 1] == DecimalString(n / 10);
      assert DigitValue(s[|s| - 1]) == n % 10;
    }
  }

  /** A rendered id is all digits, so its id number is the number it renders. */
  lemma IdNumberOfDecimal(n: nat)
    ensures IdNumber(DecimalString(n)) == n
  {
    DecimalRoundTrip(n);
  }

  /** Distinct numbers render to distinct ids. */
  lemma DecimalInjective(m: nat, n: nat)
    ensures DecimalString(m) == DecimalString(n) <==> m == n
  {
    if DecimalString(m) == DecimalString(n) {
      DecimalRoundTrip(m);
      DecimalRoundTrip(n);
    }
  }
}
