/**
 * Decimal text for integers: Python's `str(n)` (and the f-string `{n}`) and
 * Python's `int(text)` for base-10 text.
 */
module Numerals {
  import opened Wrappers
  import opened Text

  predicate IsDigit(c: char) {
    '0' <= c <= '9'
  }

  function DigitChar(d: nat): (c: char)
    requires d < 10
    ensures IsDigit(c)
  {
    (48 + d) as char
  }

  function DigitValue(c: char): nat
    requires IsDigit(c)
  {
    c as int - 48
  }

  /** Python's `str(n)` for a natural number: digits only, no leading zero. */
  function ShowNat(n: nat): (s: string)
    ensures s != []
    ensures forall i :: 0 <= i < |s| ==> IsDigit(s[i])
    ensures s[0] == '0' <==> n == 0
    ensures |s| == 1 || s[0] != '0'
  {
    if n < 10 then [DigitChar(n)] else ShowNat(n / 10) + [DigitChar(n % 10)]
  }

  /** Python's `str(i)`: a minus sign before the digits of a negative number. */
  function ShowInt(i: int): (s: string)
    ensures s != [] && (s[0] == '-' <==> i < 0)
    ensures forall k :: 0 <= k < |s| ==> IsDigit(s[k]) || (k == 0 && s[k] == '-')
    ensures |s| == 1 || s[0] != '0'
    ensures i < 0 ==> |s| >= 2 && s[1] != '0'
  {
    if i < 0 then "-" + ShowNat(-i) else ShowNat(i)
  }

  /**
   * The digit part Python's `int()` accepts: digits, with single underscores
   * allowed between two digits.
   */
  predicate DigitGroups(s: string) {
    && s != [] && IsDigit(s[0]) && IsDigit(Last(s))
    && (forall i :: 0 <= i < |s| ==> IsDigit(s[i]) || s[i] == '_')
    && !Contains(s, "__")
  }

  /** The value of the digits of `s`, underscores skipped. */
  function GroupsValue(s: string): nat
    requires forall i :: 0 <= i < |s| ==> IsDigit(s[i]) || s[i] == '_'
  {
    if s == [] then 0
    else if Last(s) == '_' then GroupsValue(s[..|s| - 1])
    else 10 * GroupsValue(s[..|s| - 1]) + DigitValue(Last(s))
  }

  /**
   * The whitespace `int()` skips around a number.  CPython turns every
   * non-ASCII character for which `str.isspace` holds into a space, then
   * skips the C-locale whitespace: tab to carriage return, and space.  So
   * unlike `str.isspace` it leaves out the separators U+001C to U+001F.
   */
  predicate IntSpace(c: char) {
    ('\t' <= c <= '\r') || c == ' ' || ('\U{85}' <= c && c in WideWhitespace)
  }

  /** `int()`'s whitespace is `str.isspace` less the four separators U+001C to U+001F. */
  lemma IntSpaceIsSpace(c: char)
    ensures IntSpace(c) <==> IsSpace(c) && !('\U{1C}' <= c <= '\U{1F}')
  {
  }

  /** The text without the leading characters `int()` skips. */
  function IntStripLeft(s: string): (r: string)
    ensures r == [] || !IntSpace(r[0])
    ensures |r| <= |s| && r == s[|s| - |r|..]
    ensures forall i :: 0 <= i < |s| - |r| ==> IntSpace(s[i])
  {
    if s != [] && IntSpace(s[0]) then IntStripLeft(s[1..]) else s
  }

  /** The text without the trailing characters `int()` skips. */
  function IntStripRight(s: string): (r: string)
    ensures r == [] || !IntSpace(Last(r))
    ensures |r| <= |s| && r == s[..|r|]
    ensures forall i :: |r| <= i < |s| ==> IntSpace(s[i])
  {
    if s != [] && IntSpace(Last(s)) then IntStripRight(s[..|s| - 1]) else s
  }

  /** The part of the text `int()` reads: the middle between its whitespace. */
  function IntStrip(s: string): (r: string)
    ensures r == [] || (!IntSpace(r[0]) && !IntSpace(Last(r)))
  {
    IntStripRight(IntStripLeft(s))
  }

  /**
   * Python's `int(text)` in base 10: surrounding whitespace (`IntSpace`), an
   * optional sign, then digit groups; `None` stands for the ValueError raised
   * on anything else.
   */
  function ParseInt(text: string): (r: Option<int>)
    ensures r.Some? ==> IntStrip(text) != [] && IsDigit(Last(IntStrip(text)))
    ensures r.Some? && r.value < 0 ==> IntStrip(text)[0] == '-'
  {
    var t := IntStrip(text);
    var negative := t != [] && t[0] == '-';
    var body := if t != [] && (t[0] == '-' || t[0] == '+') then t[1..] else t;
    if DigitGroups(body) then
      var v: int := GroupsValue(body);
      Some(if negative then -v else v)
    else None
  }

  lemma {:induction false} ShowNatValue(n: nat)
    ensures DigitGroups(ShowNat(n)) && GroupsValue(ShowNat(n)) == n
  {
    var s := ShowNat(n);
    MissingFirstChar(s, "__");
    if n >= 10 {
      ShowNatValue(n / 10);
      assert s[..|s| - 1] == ShowNat(n / 10);
    }
  }

  /** A digit string that does not start with a redundant zero has a positive value. */
  lemma {:induction false} LeadingDigitPositive(s: string)
    requires s != [] && (forall i :: 0 <= i < |s| ==> IsDigit(s[i])) && s[0] != '0'
    ensures GroupsValue(s) >= 1
  {
    if |s| > 1 {
      var p := s[..|s| - 1];
      assert p[0] == s[0];
      LeadingDigitPositive(p);
    }
  }

  /**
   * `str(n)` is the only digit text for `n` without a leading zero: any such
   * text is the `ShowNat` of its value.
   */
  lemma {:induction false} ShowNatUnique(s: string)
    requires s != [] && forall i :: 0 <= i < |s| ==> IsDigit(s[i])
    requires |s| == 1 || s[0] != '0'
    ensures ShowNat(GroupsValue(s)) == s
  {
    var p := s[..|s| - 1];
    var d := DigitValue(Last(s));
    if |s| == 1 {
      assert p == [];
      assert DigitChar(d) == s[0];
    } else {
      assert p[0] == s[0];
      LeadingDigitPositive(p);
      ShowNatUnique(p);
      var n := GroupsValue(s);
      assert n == 10 * GroupsValue(p) + d;
      assert n / 10 == GroupsValue(p) && n % 10 == d;
      assert DigitChar(d) == Last(s);
      assert s == p + [Last(s)];
    }
  }

  lemma DigitIsNotSpace(c: char)
    requires IsDigit(c)
    ensures !IsSpace(c) && !IntSpace(c)
  {
  }

  /** Text with none of `int()`'s whitespace at either end is read whole. */
  lemma IntStripFixed(s: string)
    requires s == [] || (!IntSpace(s[0]) && !IntSpace(Last(s)))
    ensures IntStrip(s) == s
  {
  }

  /**
   * `str.strip` removes U+001C, `int()` does not: `int('\x1c5')` raises
   * ValueError although the stripped text is "5".
   */
  lemma SeparatorBeforeNumber()
    ensures Strip("\U{1C}5") == "5"
    ensures ParseInt("\U{1C}5") == None
  {
    var s := "\U{1C}5";
    assert IsSpace(s[0]) && !IntSpace(s[0]);
    assert StripLeft(s) == StripLeft(s[1..]);
    assert s[1..] == "5";
    assert IntStrip(s) == s;
  }

  lemma ParseUnsigned(d: string)
    requires DigitGroups(d)
    ensures ParseInt(d) == Some(GroupsValue(d))
  {
    DigitIsNotSpace(d[0]);
    DigitIsNotSpace(Last(d));
    IntStripFixed(d);
  }

  lemma ParseNegative(d: string)
    requires DigitGroups(d)
    ensures ParseInt("-" + d) == Some(-(GroupsValue(d) as int))
  {
    var s := "-" + d;
    DigitIsNotSpace(Last(d));
    assert Last(s) == Last(d);
    assert !IntSpace('-');
    IntStripFixed(s);
    assert s[1..] == d;
  }

  /** Reading back the decimal text of an integer gives the integer. */
  lemma ParseShowInt(i: int)
    ensures ParseInt(ShowInt(i)) == Some(i)
  {
    if i < 0 {
      var n: nat := -i;
      ParseShowNegative(n);
      assert ShowInt(i) == "-" + ShowNat(n);
    } else {
      ParseShowNat(i);
      assert ShowInt(i) == ShowNat(i);
    }
  }

  lemma ParseShowNat(n: nat)
    ensures ParseInt(ShowNat(n)) == Some(n)
  {
    ShowNatValue(n);
    ParseUnsigned(ShowNat(n));
  }

  lemma ParseShowNegative(n: nat)
    ensures ParseInt("-" + ShowNat(n)) == Some(-(n as int))
  {
    var d := ShowNat(n);
    ShowNatValue(n);
    assert GroupsValue(d) == n;
    ParseNegative(d);
  }
}
