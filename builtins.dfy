/** The pieces of Python's built-in text handling that the host-range
    parser in notify.py relies on: `str.isspace` (which is also what the
    regex class `\s` accepts), the narrower whitespace `int()` strips,
    `str.split(sep)` with a one-character separator, `int(s)` in base 10,
    and `str(n)` for an integer (what `"%s" % n` prints). */
module PyBuiltins {

  datatype Option<+T> = None | Some(value: T)

  /** The characters for which `str.isspace()` holds. */
  predicate IsSpace(c: char) {
    || ('\t' <= c <= '\r')
    || ('\U{1C}' <= c <= ' ')
    || c == '\U{85}' || c == '\U{A0}' || c == '\U{1680}'
    || ('\U{2000}' <= c <= '\U{200A}')
    || c == '\U{2028}' || c == '\U{2029}' || c == '\U{202F}' || c == '\U{205F}' || c == '\U{3000}'
  }

  /** Text made of `str.isspace` whitespace only, as `\s*` matches it. */
  predicate AllSpaces(w: string) {
    forall k :: 0 <= k < |w| ==> IsSpace(w[k])
  }

  /** The characters `int()` strips around its argument. `int()` first
      maps each non-ASCII whitespace character to a space and leaves every
      ASCII character as it is, then skips only the C whitespace `\t`,
      `\n`, `\v`, `\f`, `\r` and space. The ASCII separators U+001C to
      U+001F are `str.isspace` whitespace but are not stripped. */
  predicate IsIntSpace(c: char) {
    || ('\t' <= c <= '\r')
    || c == ' '
    || (c >= '\U{80}' && IsSpace(c))
  }

  predicate IsDigit(c: char) {
    '0' <= c <= '9'
  }

  function DigitValue(c: char): (d: nat)
    requires IsDigit(c)
    ensures d < 10
  {
    (c as int) - ('0' as int)
  }

  function DigitChar(d: nat): (c: char)
    requires d < 10
    ensures IsDigit(c) && DigitValue(c) == d
  {
    (('0' as int) + d) as char
  }

  // ---------------------------------------------------------------------
  // str.split(sep)

  /** `s.split(sep)`: the text between consecutive separators, empty
      fields included, so the result is never empty. */
  function Split(s: string, sep: char): (fields: seq<string>)
    ensures |fields| >= 1
    ensures forall k :: 0 <= k < |fields| ==> sep !in fields[k]
    ensures |fields| == 1 <==> sep !in s
  {
    if s == [] then [""]
    else
      var rest := Split(s[1..], sep);
      if s[0] == sep then [""] + rest
      else [[s[0]] + rest[0]] + rest[1..]
  }

  /** `sep.join(fields)`, the inverse of Split. */
  function Join(fields: seq<string>, sep: char): string
    requires |fields| >= 1
  {
    if |fields| == 1 then fields[0] else fields[0] + [sep] + Join(fields[1..], sep)
  }

  /** Splitting then joining with the same separator gives the text back. */
  lemma {:induction false} JoinSplit(s: string, sep: char)
    ensures Join(Split(s, sep), sep) == s
  {
    if s != [] {
      var rest := Split(s[1..], sep);
      JoinSplit(s[1..], sep);
      if s[0] != sep {
        assert rest == [rest[0]] + rest[1..];
        JoinCons(s[0], rest[0], rest[1..], sep);
      }
    }
  }

  /** Putting a character in front of the first field puts it in front of
      the joined text. */
  lemma JoinCons(c: char, first: string, more: seq<string>, sep: char)
    ensures Join([[c] + first] + more, sep) == [c] + Join([first] + more, sep)
  {
    if more != [] {
      assert ([[c] + first] + more)[1..] == more;
      assert ([first] + more)[1..] == more;
    }
  }

  /** The first two fields of `head + [sep] + second + tail` are `head` and
      `second` when neither holds the separator and `tail` is empty or
      starts with another separator. */
  lemma {:induction false} SplitFirstTwo(head: string, second: string, tail: string, sep: char)
    requires sep !in head && sep !in second
    requires tail == [] || tail[0] == sep
    ensures var fields := Split(head + [sep] + second + tail, sep);
      |fields| >= 2 && fields[0] == head && fields[1] == second
  {
    if head == [] {
      var s := head + [sep] + second + tail;
      assert s[0] == sep && s[1..] == second + tail;
      SplitLeading(second, tail, sep);
    } else {
      var s := head + [sep] + second + tail;
      assert s[1..] == head[1..] + [sep] + second + tail;
      SplitFirstTwo(head[1..], second, tail, sep);
    }
  }

  /** The first field of `head + tail` is `head` when `head` holds no
      separator and `tail` is empty or starts with one. */
  lemma {:induction false} SplitLeading(head: string, tail: string, sep: char)
    requires sep !in head
    requires tail == [] || tail[0] == sep
    ensures Split(head + tail, sep)[0] == head
  {
    if head == [] {
      assert head + tail == tail;
    } else {
      assert (head + tail)[1..] == head[1..] + tail;
      SplitLeading(head[1..], tail, sep);
    }
  }

  // ---------------------------------------------------------------------
  // The whitespace stripping int() applies to its argument

  function IntStripLeading(s: string): string {
    if s != [] && IsIntSpace(s[0]) then IntStripLeading(s[1..]) else s
  }

  function IntStripTrailing(s: string): string {
    if s != [] && IsIntSpace(s[|s| - 1]) then IntStripTrailing(s[..|s| - 1]) else s
  }

  /** Text made of the whitespace `int()` strips only. */
  predicate AllIntSpaces(w: string) {
    forall k :: 0 <= k < |w| ==> IsIntSpace(w[k])
  }

  /** Text with no `int()` whitespace at either end, as stripping leaves it. */
  predicate Trimmed(x: string) {
    x == [] || (!IsIntSpace(x[0]) && !IsIntSpace(x[|x| - 1]))
  }

  /** Stripping the front drops a run of whitespace and keeps the rest,
      which does not start with whitespace. */
  lemma {:induction false} StripLeadingParts(s: string)
    ensures var l := IntStripLeading(s);
      && |l| <= |s|
      && s == s[..|s| - |l|] + l
      && AllIntSpaces(s[..|s| - |l|])
      && (l == [] || !IsIntSpace(l[0]))
  {
    if s != [] && IsIntSpace(s[0]) {
      var rest := s[1..];
      StripLeadingParts(rest);
      var l := IntStripLeading(rest);
      assert IntStripLeading(s) == l;
      var skipped := rest[..|rest| - |l|];
      var dropped := [s[0]] + skipped;
      assert s[..|s| - |l|] == dropped;
      assert s == [s[0]] + rest;
      AllIntSpacesCons(s[0], skipped);
    }
  }

  lemma AllIntSpacesCons(c: char, w: string)
    requires IsIntSpace(c) && AllIntSpaces(w)
    ensures AllIntSpaces([c] + w)
  {
    forall k | 0 <= k < |[c] + w| ensures IsIntSpace(([c] + w)[k]) {
      if k > 0 {
        assert ([c] + w)[k] == w[k - 1];
      }
    }
  }

  /** Stripping the back keeps a prefix that does not end with
      whitespace, and drops the run of whitespace after it. */
  lemma {:induction false} StripTrailingParts(s: string)
    ensures var t := IntStripTrailing(s);
      && |t| <= |s|
      && s == t + s[|t|..]
      && AllIntSpaces(s[|t|..])
      && (t == [] || !IsIntSpace(t[|t| - 1]))
  {
    if s != [] && IsIntSpace(s[|s| - 1]) {
      var front := s[..|s| - 1];
      StripTrailingParts(front);
      var t := IntStripTrailing(front);
      assert IntStripTrailing(s) == t;
      var dropped := front[|t|..] + [s[|s| - 1]];
      assert s[|t|..] == dropped;
      assert s == front + [s[|s| - 1]];
      forall k | 0 <= k < |dropped| ensures IsIntSpace(dropped[k]) {
        if k < |dropped| - 1 {
          assert dropped[k] == front[|t|..][k];
        }
      }
    }
  }

  lemma {:induction false} StripLeadingSpaces(w: string, x: string)
    requires AllIntSpaces(w)
    ensures IntStripLeading(w + x) == IntStripLeading(x)
  {
    if w != [] {
      assert (w + x)[0] == w[0];
      assert (w + x)[1..] == w[1..] + x;
      var rest := w[1..];
      assert AllIntSpaces(rest) by {
        forall k | 0 <= k < |rest| ensures IsIntSpace(rest[k]) {
          assert rest[k] == w[k + 1];
        }
      }
      StripLeadingSpaces(rest, x);
    } else {
      assert w + x == x;
    }
  }

  lemma {:induction false} StripTrailingSpaces(x: string, w: string)
    requires AllIntSpaces(w)
    ensures IntStripTrailing(x + w) == IntStripTrailing(x)
  {
    if w != [] {
      assert (x + w)[|x + w| - 1] == w[|w| - 1];
      assert (x + w)[..|x + w| - 1] == x + w[..|w| - 1];
      var front := w[..|w| - 1];
      assert AllIntSpaces(front) by {
        forall k | 0 <= k < |front| ensures IsIntSpace(front[k]) {
          assert front[k] == w[k];
        }
      }
      StripTrailingSpaces(x, front);
    } else {
      assert x + w == x;
    }
  }

  /** Stripping removes exactly the whitespace around trimmed text. */
  lemma StripAround(w1: string, x: string, w2: string)
    requires AllIntSpaces(w1) && AllIntSpaces(w2) && Trimmed(x)
    ensures IntStrip(w1 + x + w2) == x
  {
    assert w1 + x + w2 == w1 + (x + w2);
    StripLeadingSpaces(w1, x + w2);
    if x == [] {
      assert x + w2 == w2 + [];
      StripLeadingSpaces(w2, []);
    } else {
      assert (x + w2)[0] == x[0];
      StripTrailingSpaces(x, w2);
    }
  }

  /** Stripping leaves trimmed text between two runs of whitespace. */
  lemma StripParts(s: string)
    ensures exists a, b :: AllIntSpaces(a) && AllIntSpaces(b) && s == a + IntStrip(s) + b
    ensures Trimmed(IntStrip(s))
  {
    var l := IntStripLeading(s);
    StripLeadingParts(s);
    StripTrailingParts(l);
    var c := IntStrip(s);
    var a, b := s[..|s| - |l|], l[|c|..];
    assert s == a + c + b;
    if c != [] {
      assert c[0] == l[0];
    }
  }

  function IntStrip(s: string): string {
    IntStripTrailing(IntStripLeading(s))
  }

  // ---------------------------------------------------------------------
  // int(s), base 10

  /** A run of ASCII digits in which single underscores may stand between
      two digits, as `int()` accepts since Python 3.6. */
  predicate WellFormedDigits(s: string) {
    && |s| > 0
    && IsDigit(s[0])
    && (|s| == 1 || if s[1] == '_' then WellFormedDigits(s[2..]) else WellFormedDigits(s[1..]))
  }

  function WithoutUnderscores(s: string): (t: string)
    ensures '_' !in s ==> t == s
  {
    if s == [] then [] else (if s[0] == '_' then [] else [s[0]]) + WithoutUnderscores(s[1..])
  }

  /** The value of a string of digits, most significant first. */
  function DigitsValue(s: string): nat
    requires forall k :: 0 <= k < |s| ==> IsDigit(s[k])
  {
    if s == [] then 0 else 10 * DigitsValue(s[..|s| - 1]) + DigitValue(s[|s| - 1])
  }

  lemma {:induction false} WithoutUnderscoresDigits(s: string)
    requires forall k :: 0 <= k < |s| ==> IsDigit(s[k]) || s[k] == '_'
    ensures forall k :: 0 <= k < |WithoutUnderscores(s)| ==> IsDigit(WithoutUnderscores(s)[k])
  {
    if s != [] {
      WithoutUnderscoresDigits(s[1..]);
    }
  }

  lemma {:induction false} WellFormedDigitsChars(s: string)
    requires WellFormedDigits(s)
    ensures forall k :: 0 <= k < |s| ==> IsDigit(s[k]) || s[k] == '_'
  {
    if |s| > 1 {
      if s[1] == '_' {
        WellFormedDigitsChars(s[2..]);
        assert forall k :: 2 <= k < |s| ==> s[k] == s[2..][k - 2];
      } else {
        WellFormedDigitsChars(s[1..]);
        assert forall k :: 1 <= k < |s| ==> s[k] == s[1..][k - 1];
      }
    }
  }

  function ParseDigits(s: string): (r: Option<nat>)
    ensures r.Some? <==> WellFormedDigits(s)
  {
    if WellFormedDigits(s) then
      WellFormedDigitsChars(s);
      WithoutUnderscoresDigits(s);
      Some(DigitsValue(WithoutUnderscores(s)))
    else None
  }

  /** `int(s)`: the whitespace of `IsIntSpace` around the text is ignored,
      then an optional sign, then digits; anything else raises ValueError,
      here None. */
  function ParseInt(s: string): (r: Option<int>)
    ensures (forall k :: 0 <= k < |s| ==> !IsDigit(s[k])) ==> r.None?
    ensures r.Some? && r.value < 0 ==> '-' in s
  {
    StripChars(s);
    ParseSigned(IntStrip(s))
  }

  /** `int()` accepts exactly the text that is a signed numeral once
      the whitespace `int()` skips around it is removed. */
  lemma ParseIntAccepts(s: string)
    ensures ParseInt(s).Some? <==> SignedNumeral(IntStrip(s))
  {
  }

  /** Every character the stripping keeps comes from the text. */
  lemma StripChars(s: string)
    ensures forall k :: 0 <= k < |IntStrip(s)| ==> IntStrip(s)[k] in s
  {
    var l := IntStripLeading(s);
    StripLeadingParts(s);
    StripTrailingParts(l);
    forall k | 0 <= k < |IntStrip(s)|
      ensures IntStrip(s)[k] in s
    {
      assert IntStrip(s)[k] == l[k] == s[|s| - |l| + k];
    }
  }

  /** An optional sign, then well-formed digits. */
  predicate SignedNumeral(t: string) {
    || WellFormedDigits(t)
    || (|t| >= 1 && (t[0] == '+' || t[0] == '-') && WellFormedDigits(t[1..]))
  }

  /** `int()` on stripped text: it accepts exactly the signed numerals. */
  function ParseSigned(t: string): (r: Option<int>)
    ensures r.Some? <==> SignedNumeral(t)
    ensures r.Some? ==> |t| >= 1 && (IsDigit(t[0]) || ((t[0] == '+' || t[0] == '-') && |t| >= 2 && IsDigit(t[1])))
    ensures r.Some? && r.value < 0 ==> t[0] == '-'
  {
    var negative := t != [] && t[0] == '-';
    var digits := if t != [] && (t[0] == '+' || t[0] == '-') then t[1..] else t;
    match ParseDigits(digits)
    case None => None
    case Some(n) => Some(if negative then 0 - n else n)
  }

  // ---------------------------------------------------------------------
  // str(n)

  /** Decimal text of a natural number, with no leading zero. */
  function NatToString(n: nat): (s: string)
    ensures |s| >= 1
    ensures forall k :: 0 <= k < |s| ==> IsDigit(s[k])
    ensures s[0] == '0' ==> n == 0 && s == "0"
  {
    if n < 10 then [DigitChar(n)] else NatToString(n / 10) + [DigitChar(n % 10)]
  }

  /** `str(i)` for an integer: a minus sign for negatives, then the digits. */
  function IntToString(i: int): (s: string)
    ensures |s| >= 1
    ensures s[0] == '-' <==> i < 0
    ensures i >= 0 ==> IsDigit(s[0])
    ensures forall k :: 1 <= k < |s| ==> IsDigit(s[k])
  {
    if i < 0 then "-" + NatToString(-i) else NatToString(i)
  }

  lemma {:induction false} DigitsValueOfNatToString(n: nat)
    ensures DigitsValue(NatToString(n)) == n
  {
    var s := NatToString(n);
    if n >= 10 {
      assert s[..|s| - 1] == NatToString(n / 10);
      DigitsValueOfNatToString(n / 10);
    }
  }

  lemma StripDigits(s: string)
    requires |s| >= 1 && forall k :: 0 <= k < |s| ==> IsDigit(s[k])
    ensures IntStrip(s) == s
  {
    assert !IsIntSpace(s[0]) && !IsIntSpace(s[|s| - 1]);
  }

  lemma {:induction false} AllDigitsWellFormed(s: string)
    requires |s| >= 1 && forall k :: 0 <= k < |s| ==> IsDigit(s[k])
    ensures WellFormedDigits(s)
  {
    if |s| > 1 {
      AllDigitsWellFormed(s[1..]);
    }
  }

  lemma ParseDigitsOfDigits(s: string)
    requires |s| >= 1 && forall k :: 0 <= k < |s| ==> IsDigit(s[k])
    ensures ParseDigits(s) == Some(DigitsValue(s))
  {
    AllDigitsWellFormed(s);
    assert '_' !in s by {
      forall k | 0 <= k < |s| ensures s[k] != '_' {
        assert IsDigit(s[k]);
      }
    }
  }

  lemma ParseIntOfDigits(digits: string)
    requires |digits| >= 1 && forall k :: 0 <= k < |digits| ==> IsDigit(digits[k])
    ensures ParseInt(digits) == Some(DigitsValue(digits))
  {
    StripDigits(digits);
    ParseSignedUnsigned(digits);
    ParseDigitsOfDigits(digits);
  }

  lemma ParseSignedUnsigned(t: string)
    requires t != [] && IsDigit(t[0])
    ensures ParseSigned(t) == ParseDigits(t)
  {
  }

  lemma ParseSignedNegative(t: string)
    requires |t| >= 2 && t[0] == '-' && forall k :: 1 <= k < |t| ==> IsDigit(t[k])
    ensures ParseSigned(t) == Some(0 - DigitsValue(t[1..]))
  {
    var d := t[1..];
    assert forall k :: 0 <= k < |d| ==> IsDigit(d[k]);
    ParseDigitsOfDigits(d);
  }

  /** `int(str(n)) == n`: printing then parsing an integer gives it back. */
  lemma ParseIntOfIntToString(i: int)
    ensures ParseInt(IntToString(i)) == Some(i)
  {
    if i < 0 {
      ParseIntOfNegative(i);
    } else {
      DigitsValueOfNatToString(i);
      ParseIntOfDigits(NatToString(i));
    }
  }

  lemma ParseIntOfNegative(i: int)
    requires i < 0
    ensures ParseInt(IntToString(i)) == Some(i)
  {
    var t := IntToString(i);
    var d := NatToString(-i);
    assert t[1..] == d;
    DigitsValueOfNatToString(-i);
    assert DigitsValue(t[1..]) == -i;
    ParseIntMinus(t);
  }

  /** A minus sign followed by digits parses to the negated value. */
  lemma ParseIntMinus(t: string)
    requires |t| >= 2 && t[0] == '-' && forall k :: 1 <= k < |t| ==> IsDigit(t[k])
    ensures ParseInt(t) == Some(0 - DigitsValue(t[1..]))
  {
    StripMinus(t);
    ParseIntTrimmed(t);
    ParseSignedNegative(t);
  }

  lemma StripMinus(t: string)
    requires |t| >= 2 && t[0] == '-' && IsDigit(t[|t| - 1])
    ensures IntStrip(t) == t
  {
    StripAround([], t, []);
    assert [] + t + [] == t;
  }




  /** On text the stripping leaves unchanged, `int()` is the signed parse. */
  lemma ParseIntTrimmed(t: string)
    requires IntStrip(t) == t
    ensures ParseInt(t) == ParseSigned(t)
  {
  }

  // ---------------------------------------------------------------------
  // str(int(s)) == s on the text str() prints

  /** Digits as `str()` prints a natural number: no leading zero unless
      the number is 0. */
  predicate CanonicalDigits(d: string) {
    && |d| >= 1
    && (forall k :: 0 <= k < |d| ==> IsDigit(d[k]))
    && (d[0] == '0' ==> |d| == 1)
  }

  /** Text as `str()` prints an integer: an optional minus sign before
      canonical digits, and never `-0`. */
  predicate CanonicalInt(s: string) {
    if s != [] && s[0] == '-' then CanonicalDigits(s[1..]) && s[1..] != "0"
    else CanonicalDigits(s)
  }

  lemma {:induction false} DigitsValuePositive(d: string)
    requires |d| >= 1 && (forall k :: 0 <= k < |d| ==> IsDigit(d[k])) && d[0] != '0'
    ensures DigitsValue(d) >= 1
  {
    if |d| > 1 {
      DigitsValuePositive(d[..|d| - 1]);
    }
  }

  /** `str(int(d)) == d` for canonical digits. */
  lemma {:induction false} NatToStringOfDigits(d: string)
    requires CanonicalDigits(d)
    ensures NatToString(DigitsValue(d)) == d
  {
    var c := DigitValue(d[|d| - 1]);
    if |d| == 1 {
      assert DigitChar(c) == d[0];
    } else {
      var front := d[..|d| - 1];
      NatToStringOfDigits(front);
      DigitsValuePositive(front);
      var n := DigitsValue(d);
      assert n / 10 == DigitsValue(front) && n % 10 == c;
      assert DigitChar(c) == d[|d| - 1];
      assert d == front + [d[|d| - 1]];
    }
  }

  /** `str(int(s)) == s`: text in the form `str()` prints an integer
      parses, and prints back the same. With ParseIntOfIntToString this
      makes `int` and `str` inverse bijections between the integers and
      that text. */
  lemma IntToStringOfParseInt(s: string)
    requires CanonicalInt(s)
    ensures ParseInt(s).Some? && IntToString(ParseInt(s).value) == s
  {
    if s[0] == '-' {
      var d := s[1..];
      assert d[0] != '0';
      DigitsValuePositive(d);
      ParseIntMinus(s);
      NatToStringOfDigits(d);
      assert s == "-" + d;
    } else {
      ParseIntOfDigits(s);
      NatToStringOfDigits(s);
    }
  }

  /** What `str()` prints is canonical. */
  lemma CanonicalIntToString(i: int)
    ensures CanonicalInt(IntToString(i))
  {
    if i < 0 {
      assert IntToString(i)[1..] == NatToString(-i);
    }
  }
  // ---------------------------------------------------------------------
  // The values int() gives for whitespace, a plus sign and underscores

  /** `int()` ignores whitespace around its argument. */
  lemma ParseIntStrip(w1: string, s: string, w2: string)
    requires AllIntSpaces(w1) && AllIntSpaces(w2)
    ensures ParseInt(w1 + s + w2) == ParseInt(s)
  {
    StripSpaces(w1, s, w2);
  }

  /** `int()` skips a tab, a newline and a no-break space around its
      argument, but not the information separator U+001C, although
      `str.isspace` holds for it: `int("\x1c1")` raises ValueError where
      `int("\t1\n")` is 1. */
  lemma ParseIntSeparators(d: string)
    requires WellFormedDigits(d)
    ensures ParseInt(['\t'] + d + ['\n']) == ParseInt(d)
    ensures ParseInt(['\U{A0}'] + d) == ParseInt(d)
    ensures IsSpace('\U{1C}') && ParseInt(['\U{1C}'] + d) == None
  {
    ParseIntStrip(['\t'], d, ['\n']);
    ParseIntStrip(['\U{A0}'], d, []);
    assert ['\U{A0}'] + d + [] == ['\U{A0}'] + d;
    ParseIntLeadingJunk('\U{1C}', d);
  }

  /** Text that starts with a character other than `int()` whitespace, a
      sign or a digit is rejected. */
  lemma ParseIntLeadingJunk(c: char, d: string)
    requires !IsIntSpace(c) && !IsDigit(c) && c != '+' && c != '-'
    ensures ParseInt([c] + d) == None
  {
    StripTrailingCons(c, d);
    assert IntStripLeading([c] + d) == [c] + d;
  }

  /** Stripping ignores whitespace added around the text. */
  lemma StripSpaces(w1: string, s: string, w2: string)
    requires AllIntSpaces(w1) && AllIntSpaces(w2)
    ensures IntStrip(w1 + s + w2) == IntStrip(s)
  {
    var l := IntStripLeading(s);
    var c := IntStrip(s);
    StripLeadingParts(s);
    StripTrailingParts(l);
    StripTrimmed(s);
    var a, b := s[..|s| - |l|], l[|c|..];
    assert s == a + c + b;
    AllIntSpacesConcat(w1, a);
    AllIntSpacesConcat(b, w2);
    Regroup(w1, a, c, b, w2);
    StripAround(w1 + a, c, b + w2);
  }

  lemma Regroup(w1: string, a: string, c: string, b: string, w2: string)
    ensures w1 + (a + c + b) + w2 == (w1 + a) + c + (b + w2)
  {
  }

  lemma AllIntSpacesConcat(a: string, b: string)
    requires AllIntSpaces(a) && AllIntSpaces(b)
    ensures AllIntSpaces(a + b)
  {
    forall k | 0 <= k < |a + b|
      ensures IsIntSpace((a + b)[k])
    {
      if k >= |a| {
        assert (a + b)[k] == b[k - |a|];
      }
    }
  }

  /** What stripping leaves neither starts nor ends with whitespace. */
  lemma StripTrimmed(s: string)
    ensures Trimmed(IntStrip(s))
  {
    var l := IntStripLeading(s);
    StripLeadingParts(s);
    StripTrailingParts(l);
    if IntStrip(s) != [] {
      assert IntStrip(s)[0] == l[0];
    }
  }

  lemma {:induction false} StripTrailingCons(c: char, d: string)
    requires !IsIntSpace(c)
    ensures IntStripTrailing([c] + d) == [c] + IntStripTrailing(d)
  {
    if d != [] && IsIntSpace(d[|d| - 1]) {
      assert ([c] + d)[..|d|] == [c] + d[..|d| - 1];
      StripTrailingCons(c, d[..|d| - 1]);
    }
  }

  /** A `+` sign changes nothing: `int("+" + d) == int(d)` whenever `d`
      does not itself start with whitespace or a sign. */
  lemma ParseIntPlus(d: string)
    requires d == [] || (!IsIntSpace(d[0]) && d[0] != '+' && d[0] != '-')
    ensures ParseInt("+" + d) == ParseInt(d)
  {
    if d != [] {
      var u := IntStripTrailing(d);
      StripTrailingCons('+', d);
      StripTrailingParts(d);
      assert u != [] && u[0] == d[0];
      assert IntStrip("+" + d) == "+" + u;
      assert ("+" + u)[1..] == u;
    }
  }

  lemma {:induction false} WellFormedDigitsLast(s: string)
    requires WellFormedDigits(s)
    ensures IsDigit(s[|s| - 1])
  {
    if |s| > 1 {
      if s[1] == '_' {
        WellFormedDigitsLast(s[2..]);
      } else {
        WellFormedDigitsLast(s[1..]);
      }
    }
  }

  /** Underscores between digits change nothing: `int("1_0") == 10`. */
  lemma ParseIntUnderscores(d: string)
    requires WellFormedDigits(d)
    ensures ParseInt(d) == ParseInt(WithoutUnderscores(d))
  {
    WellFormedDigitsLast(d);
    StripAround([], d, []);
    assert [] + d + [] == d;
    ParseSignedUnsigned(d);
    var u := WithoutUnderscores(d);
    WellFormedDigitsChars(d);
    WithoutUnderscoresDigits(d);
    assert u == [d[0]] + WithoutUnderscores(d[1..]);
    ParseIntOfDigits(u);
  }
}
