/**
  The few pieces of Python's `str` and `int` that the offset loader relies on:
  negative-index slicing, `str.endswith`, `str.replace(':', '')` and `int(s)`
  in base 10.
 */
module PyText {
  import opened Wrappers

  /** Why a library call raised ValueError. All three are ValueError in Python. */
  datatype ValueError =
    | InvalidLiteral  // int(): the text is not a base-10 integer literal
    | NoMatch         // strptime: the text does not match the format, or data remains after it
    | OutOfRange      // datetime(): a field outside the calendar (year 0, 30 February, second 60)

  function Min(a: int, b: int): int { if a <= b then a else b }

  function Abs(n: int): (r: nat)
    ensures r == n || r == -n
  { if n < 0 then -n else n }

  predicate IsDigit(c: char) { '0' <= c <= '9' }

  function DigitValue(c: char): (n: nat)
    requires IsDigit(c)
    ensures n < 10
  { c as int - '0' as int }

  function DigitChar(n: nat): (c: char)
    requires n < 10
    ensures IsDigit(c) && DigitValue(c) == n
  { ('0' as int + n) as char }

  /**
    The whitespace int() skips around the literal in a text of ASCII
    characters: space, tab, newline, vertical tab, form feed and carriage
    return. (str.isspace also counts 28 to 31, but int() does not skip them.)
   */
  predicate IsSpace(c: char) { c == ' ' || 9 <= c as int <= 13 }

  predicate IsSign(c: char) { c == '+' || c == '-' }

  /** n with the sign that a leading '+' or '-' gives an integer literal. */
  function Signed(c: char, n: int): int { if c == '-' then -n else n }

  /** The only characters that may occur anywhere in a text int() accepts. */
  predicate IsIntChar(c: char) { IsDigit(c) || IsSpace(c) || IsSign(c) || c == '_' }

  // ---------------------------------------------------------------------
  // Slicing with Python's clamping rules

  /** s[:n] */
  function TakeFirst(s: string, n: nat): (r: string)
    ensures |r| == Min(n, |s|) && r == s[..|r|]
  { if |s| <= n then s else s[..n] }

  /** s[n:] */
  function DropFirst(s: string, n: nat): (r: string)
    ensures TakeFirst(s, n) + r == s
  { if |s| <= n then [] else s[n..] }

  /** s[-n:], for n > 0 (s[-0:] would be all of s) */
  function TakeLast(s: string, n: nat): (r: string)
    requires n > 0
    ensures |r| == Min(n, |s|) && r == s[|s| - |r|..]
  { if |s| <= n then s else s[|s| - n..] }

  /** s[:-n], for n > 0 (s[:-0] would be empty) */
  function DropLast(s: string, n: nat): (r: string)
    requires n > 0
    ensures r + TakeLast(s, n) == s
  { if |s| <= n then [] else s[..|s| - n] }

  /** s.endswith(suffix) */
  predicate EndsWith(s: string, suffix: string) {
    |suffix| <= |s| && s[|s| - |suffix|..] == suffix
  }

  // ---------------------------------------------------------------------
  // str.replace(':', '')

  /** s.replace(':', ''): s without any colon, the other characters in order. */
  function RemoveColons(s: string): (r: string)
    ensures ':' !in r
    ensures |r| <= |s|
    ensures r == s <==> ':' !in s
  {
    if s == [] then []
    else if s[0] == ':' then RemoveColons(s[1..])
    else [s[0]] + RemoveColons(s[1..])
  }

  lemma {:induction false} RemoveColonsAppend(a: string, b: string)
    ensures RemoveColons(a + b) == RemoveColons(a) + RemoveColons(b)
  {
    if a == [] {
      assert a + b == b;
    } else {
      assert (a + b)[0] == a[0];
      assert (a + b)[1..] == a[1..] + b;
      RemoveColonsAppend(a[1..], b);
    }
  }

  // ---------------------------------------------------------------------
  // int(s)

  /** The index of the first character at or after i that is not whitespace. */
  function SkipSpaces(s: string, i: nat): (j: nat)
    requires i <= |s|
    ensures i <= j <= |s| && (j < |s| ==> !IsSpace(s[j]))
    decreases |s| - i
  {
    if i < |s| && IsSpace(s[i]) then SkipSpaces(s, i + 1) else i
  }

  /** The index just past the last character before j, and at or after lo, that is not whitespace. */
  function SkipSpacesBack(s: string, lo: nat, j: nat): (k: nat)
    requires lo <= j <= |s|
    ensures lo <= k <= j && (k > lo ==> !IsSpace(s[k - 1]))
    decreases j
  {
    if j > lo && IsSpace(s[j - 1]) then SkipSpacesBack(s, lo, j - 1) else j
  }

  /** s without the whitespace int() skips at either end. */
  function Strip(s: string): (r: string)
    ensures r != [] ==> !IsSpace(r[0]) && !IsSpace(r[|r| - 1])
  {
    var a := SkipSpaces(s, 0);
    s[a..SkipSpacesBack(s, a, |s|)]
  }

  lemma {:induction false} SkipSpacesSkipsSpaces(s: string, i: nat)
    requires i <= |s|
    ensures forall k :: i <= k < SkipSpaces(s, i) ==> IsSpace(s[k])
    decreases |s| - i
  {
    if i < |s| && IsSpace(s[i]) {
      SkipSpacesSkipsSpaces(s, i + 1);
    }
  }

  lemma {:induction false} SkipSpacesBackSkipsSpaces(s: string, lo: nat, j: nat)
    requires lo <= j <= |s|
    ensures forall k :: SkipSpacesBack(s, lo, j) <= k < j ==> IsSpace(s[k])
    decreases j
  {
    if j > lo && IsSpace(s[j - 1]) {
      SkipSpacesBackSkipsSpaces(s, lo, j - 1);
    }
  }

  /** Strip removes only whitespace: every other character is still there. */
  lemma StripRemovesOnlySpaces(s: string)
    ensures forall i :: 0 <= i < |s| ==> IsSpace(s[i]) || s[i] in Strip(s)
  {
    var a := SkipSpaces(s, 0);
    var b := SkipSpacesBack(s, a, |s|);
    SkipSpacesSkipsSpaces(s, 0);
    SkipSpacesBackSkipsSpaces(s, a, |s|);
    assert forall i :: a <= i < b ==> s[i] == s[a..b][i - a];
  }

  /**
    Decimal digits in which single underscores may separate two digits:
    the digit part of an integer literal that int() accepts.
   */
  predicate IsDigitGroups(t: string) {
    t != [] && IsDigit(t[0]) && IsDigit(t[|t| - 1])
    && (forall i :: 0 <= i < |t| ==> IsDigit(t[i]) || t[i] == '_')
    && (forall i :: 0 <= i < |t| - 1 ==> !DoubleUnderscoreAt(t, i))
  }

  predicate DoubleUnderscoreAt(t: string, i: int)
    requires 0 <= i < |t| - 1
  {
    t[i] == '_' && t[i + 1] == '_'
  }

  /** The number the digits of t spell, any other character skipped. */
  function DecimalValue(t: string): nat
  {
    ValueOfFirst(t, |t|)
  }

  /** The number the digits among t's first n characters spell. */
  function ValueOfFirst(t: string, n: nat): nat
    requires n <= |t|
  {
    if n == 0 then 0
    else if IsDigit(t[n - 1]) then 10 * ValueOfFirst(t, n - 1) + DigitValue(t[n - 1])
    else ValueOfFirst(t, n - 1)
  }

  lemma {:induction false} ValueOfFirstPrefix(t: string, u: string, n: nat)
    requires n <= |t| && n <= |u| && t[..n] == u[..n]
    ensures ValueOfFirst(t, n) == ValueOfFirst(u, n)
  {
    if n > 0 {
      assert t[n - 1] == t[..n][n - 1] == u[..n][n - 1] == u[n - 1];
      assert t[..n - 1] == t[..n][..n - 1] == u[..n][..n - 1] == u[..n - 1];
      ValueOfFirstPrefix(t, u, n - 1);
    }
  }

  lemma DecimalValueSnoc(t: string, c: char)
    requires IsDigit(c)
    ensures DecimalValue(t + [c]) == 10 * DecimalValue(t) + DigitValue(c)
  {
    assert (t + [c])[..|t|] == t[..|t|];
    ValueOfFirstPrefix(t + [c], t, |t|);
  }

  lemma DecimalValueOfTwo(t: string)
    requires |t| == 2 && IsDigit(t[0]) && IsDigit(t[1])
    ensures DecimalValue(t) == 10 * DigitValue(t[0]) + DigitValue(t[1])
  {
    assert t == [t[0]] + [t[1]];
    DecimalValueSnoc([t[0]], t[1]);
    DecimalValueSnoc([], t[0]);
    assert [] + [t[0]] == [t[0]];
  }

  /**
    int(s) on a str: surrounding whitespace is ignored, then an optional sign,
    then digits (single underscores allowed between them). Anything else raises
    ValueError, modelled as None.
   */
  function ParseInt(s: string): (r: Option<int>)
    ensures r.Some? ==> s != []
  {
    var t := Strip(s);
    if t != [] && IsSign(t[0]) then
      if IsDigitGroups(t[1..]) then Some(Signed(t[0], DecimalValue(t[1..]))) else None
    else if IsDigitGroups(t) then Some(DecimalValue(t))
    else None
  }

  /** int() accepts no text holding a character other than a digit, a sign, whitespace or '_'. */
  lemma ParseIntOnlyIntChars(s: string)
    requires ParseInt(s).Some?
    ensures forall i :: 0 <= i < |s| ==> IsIntChar(s[i])
  {
    StripRemovesOnlySpaces(s);
    var t := Strip(s);
    assert forall j :: 0 <= j < |t| ==> IsIntChar(t[j]) by {
      if IsSign(t[0]) {
        assert forall j :: 1 <= j < |t| ==> t[j] == t[1..][j - 1];
      }
    }
  }

  /** A sign followed by plain digits reads as that signed number. */
  lemma ParseSignedDigits(s: string)
    requires |s| >= 2 && IsSign(s[0])
    requires forall i :: 1 <= i < |s| ==> IsDigit(s[i])
    ensures ParseInt(s) == Some(Signed(s[0], DecimalValue(s[1..])))
  {
    assert SkipSpaces(s, 0) == 0;
    assert SkipSpacesBack(s, 0, |s|) == |s|;
    assert Strip(s) == s;
    var ds := s[1..];
    assert forall i :: 0 <= i < |ds| ==> ds[i] == s[i + 1];
    assert IsDigitGroups(ds);
  }

  /** A sign followed by anything but a digit is refused. */
  lemma ParseSignThenNonDigit(s: string)
    requires |s| >= 2 && IsSign(s[0]) && !IsDigit(s[1])
    ensures ParseInt(s) == None
  {
    assert SkipSpaces(s, 0) == 0;
    var t := Strip(s);
    if t != [] && IsSign(t[0]) && |t| >= 2 {
      assert t[1..][0] == s[1];
    }
  }

  /**
    A sign and two more characters: int() accepts them exactly when the first
    is a digit and the second a digit or whitespace, and reads the digits.
   */
  lemma ParseSignedPair(t: string)
    requires |t| == 3 && IsSign(t[0])
    ensures ParseInt(t).Some? <==> IsDigit(t[1]) && (IsDigit(t[2]) || IsSpace(t[2]))
    ensures ParseInt(t).Some? ==>
      ParseInt(t).value == Signed(t[0], if IsDigit(t[2]) then 10 * DigitValue(t[1]) + DigitValue(t[2]) else DigitValue(t[1]))
  {
    assert SkipSpaces(t, 0) == 0;
    if !IsSpace(t[2]) {
      assert SkipSpacesBack(t, 0, 3) == 3;
      assert Strip(t) == t;
      var ds := t[1..];
      assert ds == [t[1], t[2]];
      if IsDigit(t[1]) && IsDigit(t[2]) {
        assert IsDigitGroups(ds);
        DecimalValueOfTwo(ds);
      }
    } else if !IsSpace(t[1]) {
      assert SkipSpacesBack(t, 0, 3) == 2;
      var ds := Strip(t)[1..];
      assert ds == [t[1]];
      if IsDigit(t[1]) {
        assert IsDigitGroups(ds);
        DecimalValueSnoc([], t[1]);
        assert [] + [t[1]] == ds;
      }
    } else {
      assert SkipSpacesBack(t, 0, 3) == 1;
      assert Strip(t)[1..] == [];
    }
  }

  // ---------------------------------------------------------------------
  // Zero-padded rendering, the inverse of DecimalValue on fixed widths

  /** n as two zero-padded digits (%02d). */
  function Pad2(n: nat): (r: string)
    requires n < 100
    ensures |r| == 2 && IsDigit(r[0]) && IsDigit(r[1]) && DecimalValue(r) == n
    ensures 10 * DigitValue(r[0]) + DigitValue(r[1]) == n
  {
    var r := [DigitChar(n / 10)] + [DigitChar(n % 10)];
    DecimalValueSnoc([], DigitChar(n / 10));
    assert [] + [DigitChar(n / 10)] == [DigitChar(n / 10)];
    DecimalValueSnoc([DigitChar(n / 10)], DigitChar(n % 10));
    r
  }

  /** n as four zero-padded digits (%04d). */
  function Pad4(n: nat): (r: string)
    requires n < 10000
    ensures |r| == 4 && (forall i :: 0 <= i < 4 ==> IsDigit(r[i])) && DecimalValue(r) == n
  {
    var hi := Pad2(n / 100);
    var a := hi + [DigitChar(n % 100 / 10)];
    DecimalValueSnoc(hi, DigitChar(n % 100 / 10));
    DecimalValueSnoc(a, DigitChar(n % 10));
    a + [DigitChar(n % 10)]
  }
}
