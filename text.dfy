/**
 * The string operations the scripts rely on, with Python's meaning:
 * `str.isspace`, `str.strip`, `str.split(sep)` for a one-character separator,
 * `sep.join(parts)` and the substring test `sub in s`.
 * JavaScript's `String.prototype.split` with a one-character string separator
 * gives the same pieces as Python's, so run.js uses `Split` too.
 */
module Text {

  /** The characters from U+0085 up for which Python's `str.isspace` holds. */
  const WideWhitespace: set<char> :=
    {'\U{85}', '\U{A0}', '\U{1680}', '\U{2000}', '\U{2001}', '\U{2002}', '\U{2003}',
     '\U{2004}', '\U{2005}', '\U{2006}', '\U{2007}', '\U{2008}', '\U{2009}', '\U{200A}',
     '\U{2028}', '\U{2029}', '\U{202F}', '\U{205F}', '\U{3000}'}

  /** Python's `c.isspace()`: tab to carriage return, the four separators U+001C to U+001F, space, and the wide ones. */
  predicate IsSpace(c: char) {
    ('\t' <= c <= '\r') || ('\U{1C}' <= c <= ' ') || ('\U{85}' <= c && c in WideWhitespace)
  }

  /** Every character of `s` is whitespace. */
  predicate AllSpace(s: string) {
    forall i :: 0 <= i < |s| ==> IsSpace(s[i])
  }

  function Last<T>(s: seq<T>): T
    requires |s| > 0
  {
    s[|s| - 1]
  }

  /** Python's `s.startswith(prefix)`, JavaScript's `s.startsWith(prefix)`. */
  predicate StartsWith(s: string, prefix: string) {
    prefix <= s
  }

  /** Python's `sub in s`. */
  predicate Contains(s: string, sub: string) {
    sub <= s || (s != [] && Contains(s[1..], sub))
  }

  /** Leading whitespace removed: what is dropped is all whitespace, what is kept does not start with it. */
  function StripLeft(s: string): (r: string)
    ensures |r| <= |s|
    ensures r == [] || !IsSpace(r[0])
  {
    if s != [] && IsSpace(s[0]) then StripLeft(s[1..]) else s
  }

  /** Trailing whitespace removed: what is dropped is all whitespace, what is kept does not end with it. */
  function StripRight(s: string): (r: string)
    ensures |r| <= |s|
    ensures r == [] || !IsSpace(Last(r))
  {
    if s != [] && IsSpace(Last(s)) then StripRight(s[..|s| - 1]) else s
  }

  /** What StripLeft keeps is a suffix of the text. */
  lemma {:induction false} StripLeftSuffix(s: string)
    ensures StripLeft(s) == s[|s| - |StripLeft(s)|..]
  {
    if s != [] && IsSpace(s[0]) {
      StripLeftSuffix(s[1..]);
    }
  }

  /** What StripRight keeps is a prefix of the text. */
  lemma {:induction false} StripRightPrefix(s: string)
    ensures StripRight(s) <= s
  {
    if s != [] && IsSpace(Last(s)) {
      StripRightPrefix(s[..|s| - 1]);
    }
  }

  lemma {:induction false} StripLeftDropsSpace(s: string)
    ensures AllSpace(s[..|s| - |StripLeft(s)|])
  {
    if s != [] && IsSpace(s[0]) {
      StripLeftDropsSpace(s[1..]);
      var n := |s| - |StripLeft(s)|;
      forall i | 0 <= i < n ensures IsSpace(s[i]) {
        if i > 0 { assert s[i] == s[1..][..n - 1][i - 1]; }
      }
    }
  }

  lemma {:induction false} StripRightDropsSpace(s: string)
    ensures AllSpace(s[|StripRight(s)|..])
  {
    if s != [] && IsSpace(Last(s)) {
      var init := s[..|s| - 1];
      StripRightDropsSpace(init);
      var n := |StripRight(s)|;
      forall i | n <= i < |s| ensures IsSpace(s[i]) {
        if i < |s| - 1 { assert s[i] == init[n..][i - n]; }
      }
    }
  }

  /** Python's `s.strip()`: the text between the leading and the trailing whitespace. */
  function Strip(s: string): (r: string)
    ensures r == [] || (!IsSpace(r[0]) && !IsSpace(Last(r)))
  {
    var l := StripLeft(s);
    StripRightPrefix(l);
    StripRight(l)
  }

  /** What strip keeps is a slice of the text, and all it drops on either side is whitespace. */
  lemma StripKeepsMiddle(s: string)
    ensures exists k :: 0 <= k && k + |Strip(s)| <= |s| && Strip(s) == s[k..k + |Strip(s)|]
                        && AllSpace(s[..k]) && AllSpace(s[k + |Strip(s)|..])
  {
    var l := StripLeft(s);
    var r := StripRight(l);
    var k := |s| - |l|;
    StripLeftSuffix(s);
    StripRightPrefix(l);
    StripLeftDropsSpace(s);
    StripRightDropsSpace(l);
    assert r == s[k..k + |r|];
    assert s[k + |r|..] == l[|r|..];
  }

  /** Number of occurrences of `c` in `s`, Python's `s.count(c)`. */
  function Count(s: string, c: char): nat {
    if s == [] then 0 else (if s[0] == c then 1 else 0) + Count(s[1..], c)
  }

  /**
   * Python's `s.split(sep)`: the pieces between the separators, empty ones
   * included; there is always one more piece than there are separators.
   */
  function Split(s: string, sep: char): (pieces: seq<string>)
    ensures |pieces| == Count(s, sep) + 1
    ensures forall i :: 0 <= i < |pieces| ==> sep !in pieces[i]
  {
    if s == [] then [""]
    else
      var rest := Split(s[1..], sep);
      if s[0] == sep then [""] + rest
      else [[s[0]] + rest[0]] + rest[1..]
  }

  /** A character absent from the text is absent from every piece of its split. */
  lemma {:induction false} SplitPiecesWithin(s: string, sep: char, c: char)
    requires c !in s
    ensures forall i :: 0 <= i < |Split(s, sep)| ==> c !in Split(s, sep)[i]
  {
    if s != [] {
      SplitPiecesWithin(s[1..], sep, c);
    }
  }

  /** Python's `sep.join(pieces)`. */
  function Join(pieces: seq<string>, sep: string): string {
    if pieces == [] then ""
    else if |pieces| == 1 then pieces[0]
    else pieces[0] + sep + Join(pieces[1..], sep)
  }

  /** A join ends where its last piece ends. */
  lemma {:induction false} JoinEnd(pieces: seq<string>, sep: string)
    requires pieces != [] && Last(pieces) != []
    ensures Join(pieces, sep) != [] && Last(Join(pieces, sep)) == Last(Last(pieces))
  {
    if |pieces| > 1 {
      JoinEnd(pieces[1..], sep);
    }
  }

  /** Joining the pieces of a split with the separator gives back the text. */
  lemma {:induction false} JoinSplit(s: string, sep: char)
    ensures Join(Split(s, sep), [sep]) == s
  {
    if s != [] {
      var rest := Split(s[1..], sep);
      JoinSplit(s[1..], sep);
      if s[0] == sep {
        assert ([""] + rest)[1..] == rest;
      } else if |rest| > 1 {
        assert ([[s[0]] + rest[0]] + rest[1..])[1..] == rest[1..];
        assert Join(rest, [sep]) == rest[0] + [sep] + Join(rest[1..], [sep]);
      }
    }
  }

  /** A text without the separator is one piece. */
  lemma SplitWithoutSeparator(s: string, sep: char)
    requires sep !in s
    ensures Split(s, sep) == [s]
  {
    CountAbsent(s, sep);
    JoinSplit(s, sep);
  }

  lemma {:induction false} CountAbsent(s: string, c: char)
    requires c !in s
    ensures Count(s, c) == 0
  {
    if s != [] {
      assert c !in s[1..];
      CountAbsent(s[1..], c);
    }
  }

  /** Splitting a text that starts with `c`: one step of `Split`. */
  lemma SplitCons(c: char, t: string, sep: char)
    ensures Split([c] + t, sep)
         == if c == sep then [""] + Split(t, sep) else [[c] + Split(t, sep)[0]] + Split(t, sep)[1..]
  {
    assert ([c] + t)[1..] == t;
  }

  /** A separator in front of the left side: one more empty piece in front of both. */
  lemma SplitConcatSep(p: string, q: string, sep: char)
    requires Split(p + [sep] + q, sep) == Split(p, sep) + Split(q, sep)
    ensures Split([sep] + p + [sep] + q, sep) == Split([sep] + p, sep) + Split(q, sep)
  {
    var t := p + [sep] + q;
    assert [sep] + p + [sep] + q == [sep] + t;
    SplitCons(sep, t, sep);
    SplitCons(sep, p, sep);
    Assoc([""], Split(p, sep), Split(q, sep));
  }

  /** Another character in front of the left side joins the first piece on both sides. */
  lemma SplitConcatChar(c: char, p: string, q: string, sep: char)
    requires c != sep
    requires Split(p + [sep] + q, sep) == Split(p, sep) + Split(q, sep)
    ensures Split([c] + p + [sep] + q, sep) == Split([c] + p, sep) + Split(q, sep)
  {
    var t := p + [sep] + q;
    Assoc([c], p, [sep]);
    Assoc([c], p + [sep], q);
    SplitCons(c, t, sep);
    SplitCons(c, p, sep);
    var left, right := Split(p, sep), Split(q, sep);
    HeadTailOfConcat(left, right);
    Assoc([[c] + left[0]], left[1..], right);
  }

  /** The head and the tail of a concatenation whose left part is not empty. */
  lemma HeadTailOfConcat<T>(a: seq<T>, b: seq<T>)
    requires a != []
    ensures (a + b)[0] == a[0] && (a + b)[1..] == a[1..] + b
  {
  }

  /** Splitting at one separator splits each side on its own. */
  lemma {:induction false} SplitConcat(p: string, q: string, sep: char)
    ensures Split(p + [sep] + q, sep) == Split(p, sep) + Split(q, sep)
  {
    if p == [] {
      assert p + [sep] + q == [sep] + q;
      SplitCons(sep, q, sep);
    } else {
      SplitConcat(p[1..], q, sep);
      if p[0] == sep {
        SplitConcatSep(p[1..], q, sep);
      } else {
        SplitConcatChar(p[0], p[1..], q, sep);
      }
      assert p == [p[0]] + p[1..];
    }
  }

  /** The last piece is the text after the last separator. */
  lemma LastPiece(p: string, d: string, sep: char)
    requires sep !in d
    ensures Last(Split(p + [sep] + d, sep)) == d
  {
    SplitConcat(p, d, sep);
    SplitWithoutSeparator(d, sep);
  }

  /** Splitting a joined list of separator-free pieces gives back the pieces. */
  lemma {:induction false} SplitJoin(pieces: seq<string>, sep: char)
    requires |pieces| >= 1
    requires forall i :: 0 <= i < |pieces| ==> sep !in pieces[i]
    ensures Split(Join(pieces, [sep]), sep) == pieces
  {
    if |pieces| == 1 {
      SplitWithoutSeparator(pieces[0], sep);
    } else {
      SplitJoin(pieces[1..], sep);
      SplitConcat(pieces[0], Join(pieces[1..], [sep]), sep);
      SplitWithoutSeparator(pieces[0], sep);
      assert pieces == [pieces[0]] + pieces[1..];
    }
  }

  lemma AllSpaceTail(a: string)
    requires a != [] && IsSpace(a[0])
    ensures AllSpace(a) <==> AllSpace(a[1..])
  {
    assert a == [a[0]] + a[1..];
  }

  lemma {:induction false} StripLeftAppend(a: string, b: string)
    ensures StripLeft(a + b) == if AllSpace(a) then StripLeft(b) else StripLeft(a) + b
  {
    if a == [] {
      assert a + b == b;
    } else {
      var s := a + b;
      assert s[0] == a[0];
      if IsSpace(a[0]) {
        assert s[1..] == a[1..] + b;
        assert StripLeft(s) == StripLeft(a[1..] + b);
        StripLeftAppend(a[1..], b);
        AllSpaceTail(a);
        assert StripLeft(a) == StripLeft(a[1..]);
      } else {
        assert StripLeft(s) == s;
        assert !AllSpace(a);
        assert StripLeft(a) == a;
      }
    }
  }

  lemma {:induction false} StripRightAppend(a: string, b: string)
    ensures StripRight(a + b) == if AllSpace(b) then StripRight(a) else a + StripRight(b)
  {
    if b != [] {
      assert (a + b)[..|a + b| - 1] == a + b[..|b| - 1];
      if IsSpace(Last(b)) {
        StripRightAppend(a, b[..|b| - 1]);
        assert AllSpace(b) <==> AllSpace(b[..|b| - 1]) by {
          assert forall i :: 0 <= i < |b| - 1 ==> b[i] == b[..|b| - 1][i];
        }
      }
    } else {
      assert a + b == a;
    }
  }

  lemma AllSpaceAppendSpace(s: string)
    ensures AllSpace(s + " ") <==> AllSpace(s)
  {
    if !AllSpace(s) {
      var i :| 0 <= i < |s| && !IsSpace(s[i]);
      assert (s + " ")[i] == s[i];
    }
  }

  /** Text strips to nothing exactly when it is all whitespace. */
  lemma {:induction false} StripLeftAllSpace(s: string)
    ensures StripLeft(s) == [] <==> AllSpace(s)
  {
    if s != [] && IsSpace(s[0]) {
      AllSpaceTail(s);
      StripLeftAllSpace(s[1..]);
    }
  }

  /** Trailing whitespace after a text that does not end in whitespace is all that strip drops on the right. */
  lemma StripRightTrail(x: string, trail: string)
    requires x != [] && !IsSpace(Last(x))
    requires AllSpace(trail)
    ensures StripRight(x + trail) == x
  {
    StripRightAppend(x, trail);
  }

  lemma StripLeftSpace()
    ensures StripLeft(" ") == ""
  {
    assert IsSpace(' ');
  }

  lemma StripLeftAppendSpace(line: string)
    requires !AllSpace(line)
    ensures StripLeft(line + " ") == StripLeft(line) + " "
  {
    StripLeftAppend(line, " ");
    StripLeftSpace();
  }

  /** Leading whitespace removed from text that has a field, then whitespace, at its end. */
  lemma StripLeftBeforeField(line: string, field: string, trail: string)
    requires field != [] && !IsSpace(field[0])
    ensures StripLeft(line + " " + field + trail)
         == if AllSpace(line) then field + trail else StripLeft(line) + " " + field + trail
  {
    Assoc(line + " ", field, trail);
    StripLeftAppend(line + " ", field + trail);
    AllSpaceAppendSpace(line);
    if AllSpace(line) {
      assert (field + trail)[0] == field[0];
    } else {
      StripLeftAppendSpace(line);
      Assoc(StripLeft(line) + " ", field, trail);
    }
  }

  /** Stripping text that ends in a field without edge whitespace, then whitespace. */
  lemma StripBeforeField(line: string, field: string, trail: string)
    requires field != [] && !IsSpace(field[0]) && !IsSpace(Last(field))
    requires AllSpace(trail)
    ensures Strip(line + " " + field + trail)
         == if AllSpace(line) then field else StripLeft(line) + " " + field
  {
    StripLeftBeforeField(line, field, trail);
    var x := if AllSpace(line) then field else StripLeft(line) + " " + field;
    assert StripLeft(line + " " + field + trail) == x + trail;
    StripRightTrail(x, trail);
  }

  /**
   * The last space-separated field of a line that ends in a field without
   * whitespace at its ends, followed by nothing but whitespace.
   */
  lemma LastFieldOfStripped(line: string, field: string, trail: string)
    requires field != [] && ' ' !in field
    requires !IsSpace(field[0]) && !IsSpace(Last(field))
    requires AllSpace(trail)
    ensures Last(Split(Strip(line + " " + field + trail), ' ')) == field
  {
    StripBeforeField(line, field, trail);
    if AllSpace(line) {
      SplitWithoutSeparator(field, ' ');
    } else {
      LastPiece(StripLeft(line), field, ' ');
    }
  }

  /** Text with no whitespace at either end is its own strip. */
  lemma StripFixed(s: string)
    requires s == [] || (!IsSpace(s[0]) && !IsSpace(Last(s)))
    ensures Strip(s) == s
  {
  }

  /** A text that lacks the first character of `sub` does not contain `sub`. */
  lemma {:induction false} MissingFirstChar(s: string, sub: string)
    requires sub != [] && sub[0] !in s
    ensures !Contains(s, sub)
  {
    if s != [] {
      assert sub[0] !in s[1..];
      MissingFirstChar(s[1..], sub);
    }
  }

  lemma {:induction false} CountPresent(s: string, c: char)
    requires c in s
    ensures Count(s, c) >= 1
  {
    if s[0] != c {
      CountPresent(s[1..], c);
    }
  }

  /** What a text contains, a longer text that starts with it contains too. */
  lemma {:induction false} ContainsExtend(a: string, b: string, sub: string)
    requires Contains(a, sub)
    ensures Contains(a + b, sub)
  {
    if !(sub <= a) {
      assert (a + b)[1..] == a[1..] + b;
      ContainsExtend(a[1..], b, sub);
    }
  }

  /** Text that is not all whitespace keeps that property when extended. */
  lemma NotAllSpaceExtend(a: string, b: string)
    requires !AllSpace(a)
    ensures !AllSpace(a + b)
  {
    var i :| 0 <= i < |a| && !IsSpace(a[i]);
    assert (a + b)[i] == a[i];
  }

  lemma Assoc<T>(a: seq<T>, b: seq<T>, c: seq<T>)
    ensures a + b + c == a + (b + c)
  {
  }

  /** Two separator-free parts around one separator split into exactly those parts. */
  lemma SplitPair(p: string, q: string, sep: char)
    requires sep !in p && sep !in q
    ensures Split(p + [sep] + q, sep) == [p, q]
  {
    SplitConcat(p, q, sep);
    SplitWithoutSeparator(p, sep);
    SplitWithoutSeparator(q, sep);
  }
}
