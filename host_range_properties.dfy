/** What `parse_nodes` and `parse_dash` promise, proved about the model in
    HostRange: when text is split at commas, how a list expands, how a
    bracket group expands, what a range yields, and examples in the
    style of the docstring of `parse_nodes`. */
module HostRangeProperties {
  import opened PyBuiltins
  import opened HostRange

  predicate NoBracket(s: string) {
    '[' !in s && ']' !in s
  }

  // ---------------------------------------------------------------------
  // Helpers about the lookahead and the separator's whitespace

  lemma {:induction false} ClosesFirstConcat(u: string, v: string)
    ensures ClosesFirst(u + v) <==> ClosesFirst(u) || (NoBracket(u) && ClosesFirst(v))
  {
    if u != [] {
      assert (u + v)[1..] == u[1..] + v;
      ClosesFirstConcat(u[1..], v);
    } else {
      assert u + v == v;
    }
  }

  lemma {:induction false} SpacesSkipped(ws: string, b: string)
    requires AllSpaces(ws)
    requires b == [] || !IsSpace(b[0])
    ensures ClosesFirst(ws + b) == ClosesFirst(b)
    ensures DropSpaces(ws + b) == b
  {
    if ws == [] {
      assert ws + b == b;
    } else {
      assert (ws + b)[1..] == ws[1..] + b;
      assert ws[0] != '[' && ws[0] != ']' by { assert IsSpace(ws[0]); }
      SpacesSkipped(ws[1..], b);
    }
  }

  lemma {:induction false} DropSpacesConcat(u: string, v: string)
    requires v != [] && !IsSpace(v[0])
    ensures DropSpaces(u + v) == DropSpaces(u) + v
  {
    if u == [] {
      assert u + v == v;
    } else {
      assert (u + v)[1..] == u[1..] + v;
      DropSpacesConcat(u[1..], v);
    }
  }

  // ---------------------------------------------------------------------
  // Splitting at top-level commas

  /** The text is left whole exactly when none of its commas is outside a
      bracket pair. */
  lemma {:induction false} SplitTopSingle(x: string)
    ensures |SplitTop(x)| == 1 <==> NoTopLevelComma(x)
    decreases |x|
  {
    if x == [] {
    } else if x[0] == ',' && !ClosesFirst(x[1..]) {
      assert x[0 + 1..] == x[1..];
    } else {
      SplitTopSingle(x[1..]);
      NoTopLevelCommaTail(x);
    }
  }

  /** A first character that is not a splitting comma leaves the question
      to the rest of the text. */
  lemma NoTopLevelCommaTail(x: string)
    requires x != [] && !(x[0] == ',' && !ClosesFirst(x[1..]))
    ensures NoTopLevelComma(x) <==> NoTopLevelComma(x[1..])
  {
    var y := x[1..];
    forall p | 1 <= p < |x|
      ensures x[p] == y[p - 1] && x[p + 1..] == y[p - 1 + 1..]
    {
    }
    if NoTopLevelComma(y) {
      forall p | 0 <= p < |x| && x[p] == ',' ensures ClosesFirst(x[p + 1..]) {
        if p > 0 {
          assert y[p - 1] == ',';
        }
      }
    }
    if NoTopLevelComma(x) {
      forall q | 0 <= q < |y| && y[q] == ',' ensures ClosesFirst(y[q + 1..]) {
        assert x[q + 1] == ',';
      }
    }
  }

  /** The first piece of a text whose first bracket closes also has a
      closing first bracket: the comma ending that piece cannot come
      before the bracket. */
  lemma {:induction false} FirstPieceCloses(y: string)
    requires ClosesFirst(y)
    ensures ClosesFirst(SplitTop(y)[0])
    decreases |y|
  {
    var rest := SplitTop(y[1..]);
    assert SplitTop(y)[0] == [y[0]] + rest[0];
    if y[0] != ']' {
      FirstPieceCloses(y[1..]);
      assert ([y[0]] + rest[0])[1..] == rest[0];
    }
  }

  /** Commas inside a bracket pair never split: every comma left in a
      piece has its bracket pair closing after it within the piece. And
      the whitespace after a splitting comma is dropped: no piece after
      the first starts with whitespace. */
  lemma {:induction false} SplitTopPieces(x: string)
    ensures forall k :: 0 <= k < |SplitTop(x)| ==> NoTopLevelComma(SplitTop(x)[k])
    ensures forall k :: 1 <= k < |SplitTop(x)| ==>
              SplitTop(x)[k] == [] || !IsSpace(SplitTop(x)[k][0])
    decreases |x|
  {
    if x == [] {
    } else if x[0] == ',' && !ClosesFirst(x[1..]) {
      var d := DropSpaces(x[1..]);
      SplitTopPieces(d);
      var rest := SplitTop(d);
      assert SplitTop(x) == [""] + rest;
      assert rest[0] == [] || rest[0][0] == d[0];
    } else {
      var rest := SplitTop(x[1..]);
      SplitTopPieces(x[1..]);
      var first := [x[0]] + rest[0];
      assert SplitTop(x) == [first] + rest[1..];
      forall p | 0 <= p < |first| && first[p] == ',' ensures ClosesFirst(first[p + 1..]) {
        if p == 0 {
          FirstPieceCloses(x[1..]);
          assert first[1..] == rest[0];
        } else {
          assert rest[0][p - 1] == first[p];
          assert first[p + 1..] == rest[0][p - 1 + 1..];
        }
      }
    }
  }

  /** Splitting `a, b` splits `a` and `b` apart when the comma between
      them is outside any bracket pair (the next bracket in `b` does not
      close) and the whitespace after it is all dropped. */
  lemma SplitTopConcat(a: string, ws: string, b: string)
    requires AllSpaces(ws)
    requires b == [] || !IsSpace(b[0])
    requires !ClosesFirst(b)
    ensures SplitTop(a + "," + ws + b) == SplitTop(a) + SplitTop(b)
  {
    var tail := "," + ws + b;
    assert a + "," + ws + b == a + tail;
    SpacesSkipped(ws, b);
    assert tail[1..] == ws + b;
    SplitTopAtComma(a, tail);
  }

  /** The general form of SplitTopConcat: `tail` starts with a comma that
      splits. */
  lemma {:induction false} SplitTopAtComma(a: string, tail: string)
    requires tail != [] && tail[0] == ',' && !ClosesFirst(tail[1..])
    ensures SplitTop(a + tail) == SplitTop(a) + SplitTop(DropSpaces(tail[1..]))
    decreases |a|
  {
    var x := a + tail;
    var rb := SplitTop(DropSpaces(tail[1..]));
    if a == [] {
      assert x == tail;
    } else {
      assert x[0] == a[0] && x[1..] == a[1..] + tail;
      assert !ClosesFirst(tail);
      if a[0] == ',' && !ClosesFirst(a[1..]) {
        var d := DropSpaces(a[1..]);
        assert SplitTop(x) == [""] + SplitTop(d + tail) by {
          ClosesFirstConcat(a[1..], tail);
          DropSpacesConcat(a[1..], tail);
        }
        SplitTopAtComma(d, tail);
      } else {
        assert !(x[0] == ',' && !ClosesFirst(x[1..])) by {
          ClosesFirstConcat(a[1..], tail);
        }
        SplitTopAtComma(a[1..], tail);
        SplitTopKeep(a);
        SplitTopKeep(x);
        ConsAppend([a[0]], SplitTop(a[1..]), rb);
      }
    }
  }

  /** One step of SplitTop on a character that does not split. */
  lemma SplitTopKeep(x: string)
    requires x != [] && !(x[0] == ',' && !ClosesFirst(x[1..]))
    ensures SplitTop(x) == [[x[0]] + SplitTop(x[1..])[0]] + SplitTop(x[1..])[1..]
  {
  }

  lemma ConsAppend<T>(f: seq<T>, ra: seq<seq<T>>, rb: seq<seq<T>>)
    requires |ra| >= 1
    ensures [f + (ra + rb)[0]] + (ra + rb)[1..] == ([f + ra[0]] + ra[1..]) + rb
  {
    assert (ra + rb)[1..] == ra[1..] + rb;
  }

  // ---------------------------------------------------------------------
  // Lists: the union law

  lemma {:induction false} ExpandAllAppend(p1: seq<string>, p2: seq<string>)
    ensures ExpandAll(p1 + p2) == Union(ExpandAll(p1), ExpandAll(p2))
  {
    if p1 == [] {
      assert p1 + p2 == p2;
      if ExpandAll(p2).Ok? {
        assert {} + ExpandAll(p2).value == ExpandAll(p2).value;
      }
    } else {
      assert (p1 + p2)[0] == p1[0];
      assert (p1 + p2)[1..] == p1[1..] + p2;
      ExpandAllAppend(p1[1..], p2);
      var e, a, b := Expand(p1[0]), ExpandAll(p1[1..]), ExpandAll(p2);
      if e.Ok? && a.Ok? && b.Ok? {
        assert e.value + (a.value + b.value) == (e.value + a.value) + b.value;
      }
    }
  }

  /** Expanding text is expanding each of its pieces and joining. */
  lemma ExpandPieces(x: string)
    ensures Expand(x) == ExpandAll(SplitTop(x))
  {
    var pieces := SplitTop(x);
    if |pieces| == 1 {
      assert pieces == [x];
      assert pieces[1..] == [];
      if Expand(x).Ok? {
        assert Expand(x).value + {} == Expand(x).value;
      }
    }
  }

  /** A list with a top-level comma expands to the union of the
      expansions on either side of the comma, the whitespace after the
      comma being dropped; it fails when either side fails. */
  lemma ExpandComma(a: string, ws: string, b: string)
    requires AllSpaces(ws)
    requires b == [] || !IsSpace(b[0])
    requires !ClosesFirst(b)
    ensures Expand(a + "," + ws + b) == Union(Expand(a), Expand(b))
  {
    SplitTopConcat(a, ws, b);
    ExpandPieces(a + "," + ws + b);
    ExpandAllAppend(SplitTop(a), SplitTop(b));
    ExpandPieces(a);
    ExpandPieces(b);
  }

  // ---------------------------------------------------------------------
  // The bracket group

  lemma LineGroupNone(line: string)
    ensures LineGroup(line).None? <==> NoPair(line)
  {
    var i := IndexOf(line, '[');
    assert forall m :: 0 <= m < i ==> line[m] != '[' by {
      forall m | 0 <= m < i ensures line[m] != '[' {
        assert line[m] == line[..i][m];
      }
    }
    if i < |line| {
      var tail := line[i + 1..];
      var j := i + 1 + IndexOf(tail, ']');
      assert forall m :: i < m < j ==> line[m] != ']' by {
        forall m | i < m < j ensures line[m] != ']' {
          assert line[m] == tail[..j - i - 1][m - i - 1];
        }
      }
      if j < |line| {
        assert line[j] == tail[j - i - 1];
      }
    }
  }

  /** No `]` comes after a `[` in `line`. */
  predicate NoPair(line: string) {
    forall i, j :: 0 <= i < j < |line| && line[i] == '[' ==> line[j] != ']'
  }

  /** Text holding a newline has no group exactly when the part before the
      newline has no pair and the part after it has no group. */
  lemma NoGroupAtNewline(x: string, k: nat)
    requires k < |x| && x[k] == '\n'
    requires forall m :: 0 <= m < k ==> x[m] != '\n'
    ensures NoGroup(x) <==> NoPair(x[..k]) && NoGroup(x[k + 1..])
  {
    var line, rest := x[..k], x[k + 1..];
    if NoPair(line) && NoGroup(rest) {
      forall i, j | 0 <= i < j < |x| && x[i] == '[' && x[j] == ']'
        ensures '\n' in x[i + 1..j]
      {
        if j < k {
        } else if i < k {
          assert x[i + 1..j][k - i - 1] == x[k];
        } else {
          assert rest[i - k - 1] == '[' && rest[j - k - 1] == ']';
          assert x[i + 1..j] == rest[i - k - 1 + 1..j - k - 1];
        }
      }
    }
    if NoGroup(x) {
      forall i, j | 0 <= i < j < |rest| && rest[i] == '[' && rest[j] == ']'
        ensures '\n' in rest[i + 1..j]
      {
        assert x[k + 1 + i] == '[' && x[k + 1 + j] == ']';
        assert x[k + 1 + i + 1..k + 1 + j] == rest[i + 1..j];
      }
      forall i, j | 0 <= i < j < |line| && line[i] == '[' ensures line[j] != ']' {
        var between := x[i + 1..j];
        forall d | 0 <= d < |between| ensures between[d] != '\n' {
          assert between[d] == x[i + 1 + d];
        }
        assert '\n' !in between;
        assert x[i] == line[i] && x[j] == line[j];
      }
    }
  }

  /** Newline-free text has a group exactly when it has a pair. */
  lemma NoGroupOneLine(x: string)
    requires '\n' !in x
    ensures NoGroup(x) <==> NoPair(x)
  {
    if !NoPair(x) {
      var i, j :| 0 <= i < j < |x| && x[i] == '[' && x[j] == ']';
      assert '\n' !in x[i + 1..j] by {
        forall c | c in x[i + 1..j] ensures c in x {}
      }
    }
  }

  /** The search finds nothing exactly when no `]` follows a `[` on the
      same line, so an unclosed bracket is a literal. */
  lemma {:induction false} SearchGroupNone(x: string)
    ensures SearchGroup(x).None? <==> NoGroup(x)
    decreases |x|
  {
    var k := IndexOf(x, '\n');
    var line := x[..k];
    LineGroupNone(line);
    if k == |x| {
      assert line == x;
      NoGroupOneLine(x);
    } else {
      assert forall m :: 0 <= m < k ==> x[m] != '\n' by {
        forall m | 0 <= m < k ensures x[m] != '\n' {
          assert x[m] == line[m];
        }
      }
      NoGroupAtNewline(x, k);
      SearchGroupNone(x[k + 1..]);
    }
  }

  lemma IndexOfFirst(s: string, c: char, i: nat)
    requires i <= |s|
    requires i < |s| ==> s[i] == c
    requires c !in s[..i]
    ensures IndexOf(s, c) == i
  {
  }

  /** Text without a newline is one line. */
  lemma SearchGroupOneLine(x: string)
    requires '\n' !in x
    ensures SearchGroup(x) == LineGroup(x)
  {
    IndexOfFirst(x, '\n', |x|);
    assert x[..|x|] == x;
  }

  /** The line match given the positions of its first `[` and of the
      first `]` after it. */
  lemma LineGroupAt(line: string, i: nat, j: nat)
    requires i < j < |line| && line[i] == '[' && line[j] == ']'
    requires '[' !in line[..i] && ']' !in line[i + 1..j]
    ensures LineGroup(line) == Some(Group(line[..i], line[i + 1..j], line[j + 1..]))
  {
    IndexOfFirst(line, '[', i);
    var tail := line[i + 1..];
    assert tail[..j - i - 1] == line[i + 1..j];
    IndexOfFirst(tail, ']', j - i - 1);
  }

  /** On one line, the search takes the prefix up to the first `[`, the
      inner text up to the first `]` after it, and everything after that
      `]`, later brackets included, as the suffix. */
  lemma SearchGroupExact(prefix: string, inner: string, suffix: string)
    requires '[' !in prefix && ']' !in inner
    requires '\n' !in prefix && '\n' !in inner && '\n' !in suffix
    ensures SearchGroup(prefix + "[" + inner + "]" + suffix) == Some(Group(prefix, inner, suffix))
  {
    var x := prefix + "[" + inner + "]" + suffix;
    var i, j := |prefix|, |prefix| + 1 + |inner|;
    assert x[..i] == prefix && x[i] == '[';
    assert x[i + 1..j] == inner && x[j] == ']';
    assert x[j + 1..] == suffix;
    assert '\n' !in x by {
      forall k | 0 <= k < |x| ensures x[k] != '\n' {
        if k < i {
          assert x[k] == prefix[k];
        } else if i < k < j {
          assert x[k] == inner[k - i - 1];
        } else if j < k {
          assert x[k] == suffix[k - j - 1];
        }
      }
    }
    SearchGroupOneLine(x);
    LineGroupAt(x, i, j);
  }

  /** A literal: text with no comma outside a bracket pair and no `]`
      after a `[` on the same line expands to itself alone. Dashes outside
      brackets are therefore never read as ranges. */
  lemma ExpandLiteral(x: string)
    requires NoTopLevelComma(x)
    requires NoGroup(x)
    ensures Expand(x) == Ok({x})
  {
    SplitTopSingle(x);
    SearchGroupNone(x);
  }

  /** `prefix[inner]suffix`: each piece of the inner text goes through
      ParseDash and every value lands between the prefix and the suffix,
      which is kept verbatim, later bracket groups included. The whole
      expansion fails when a piece of the inner text does. */
  lemma ExpandGroup(prefix: string, inner: string, suffix: string)
    requires '[' !in prefix && ',' !in prefix && NoBracket(inner)
    requires '\n' !in prefix && '\n' !in inner && '\n' !in suffix
    requires NoTopLevelComma(suffix)
    ensures Expand(prefix + "[" + inner + "]" + suffix) == PlaceResult(prefix, Expand(inner), suffix)
  {
    var x := prefix + "[" + inner + "]" + suffix;
    GroupNoTopLevelComma(prefix, inner, suffix);
    SplitTopSingle(x);
    SearchGroupExact(prefix, inner, suffix);
  }

  /** A single group whose prefix has no comma and whose suffix has none
      outside a bracket pair is not split at commas. */
  lemma GroupNoTopLevelComma(prefix: string, inner: string, suffix: string)
    requires ',' !in prefix && NoBracket(inner)
    requires NoTopLevelComma(suffix)
    ensures NoTopLevelComma(prefix + "[" + inner + "]" + suffix)
  {
    var x := prefix + "[" + inner + "]" + suffix;
    var close := |prefix| + 1 + |inner|;
    assert x[..|prefix|] == prefix && x[|prefix|] == '[';
    assert x[|prefix| + 1..close] == inner && x[close] == ']';
    assert x[close + 1..] == suffix;
    assert forall p :: 0 <= p < |prefix| ==> x[p] != ',' by {
      forall p | 0 <= p < |prefix| ensures x[p] != ',' {
        assert x[p] == prefix[p];
      }
    }
    forall p | |prefix| <= p < |x| && x[p] == ',' ensures ClosesFirst(x[p + 1..]) {
      if p < close {
        var q := p - |prefix| - 1;
        assert x[p + 1..] == inner[q + 1..] + ("]" + suffix);
        InnerCommaCloses(inner, q, suffix);
      } else {
        var q := p - close - 1;
        assert suffix[q] == ',';
        assert x[p + 1..] == suffix[q + 1..];
      }
    }
  }

  /** From a comma inside a bracket-free group, the group's `]` comes
      before any `[`. */
  lemma InnerCommaCloses(inner: string, q: int, suffix: string)
    requires NoBracket(inner) && 0 <= q < |inner|
    ensures ClosesFirst(inner[q + 1..] + ("]" + suffix))
  {
    assert NoBracket(inner[q + 1..]) by {
      forall c | c in inner[q + 1..] ensures c in inner {}
    }
    ClosesFirstConcat(inner[q + 1..], "]" + suffix);
  }

  /** A group holding one plain value (no comma, no dash) puts it between
      the prefix and the suffix as it is, leading zeros included. */
  lemma ExpandGroupPlain(prefix: string, piece: string, suffix: string)
    requires '[' !in prefix && ',' !in prefix && NoBracket(piece)
    requires ',' !in piece && '-' !in piece
    requires '\n' !in prefix && '\n' !in piece && '\n' !in suffix
    requires NoTopLevelComma(suffix)
    ensures Expand(prefix + "[" + piece + "]" + suffix) == Ok({prefix + piece + suffix})
  {
    ExpandGroup(prefix, piece, suffix);
    ExpandLiteral(piece);
    PlacePlain(prefix, piece, suffix);
  }

  lemma PlacePlain(prefix: string, piece: string, suffix: string)
    requires '-' !in piece
    ensures Place(prefix, {piece}, suffix) == Ok({prefix + piece + suffix})
  {
    var r := Place(prefix, {piece}, suffix);
    assert ParseDash(piece).value == [Text(piece)];
    assert forall p :: p in {piece} ==> ParseDash(p).Ok?;
    var w := prefix + piece + suffix;
    assert piece in {piece} && Text(piece) in ParseDash(piece).value && w == prefix + Format(Text(piece)) + suffix;
    assert r.value == {w};
  }

  /** A group holding one range `lo-hi` puts every integer from `lo` to
      `hi`, printed without leading zeros, between the prefix and the
      suffix; it fails when a bound is not a number. */
  lemma ExpandGroupRange(prefix: string, lo: string, hi: string, suffix: string)
    requires '[' !in prefix && ',' !in prefix && '\n' !in prefix
    requires NoPlainBreak(lo) && NoPlainBreak(hi)
    requires '\n' !in suffix && NoTopLevelComma(suffix)
    ensures var r := Expand(prefix + "[" + lo + "-" + hi + "]" + suffix);
      && (r.Ok? <==> ParseInt(lo).Some? && ParseInt(hi).Some?)
      && (r.Ok? ==> r.value == set n | ParseInt(lo).value <= n <= ParseInt(hi).value :: prefix + IntToString(n) + suffix)
  {
    var inner := lo + "-" + hi + "";
    assert prefix + "[" + lo + "-" + hi + "]" + suffix == prefix + "[" + inner + "]" + suffix;
    assert forall c :: c in inner ==> c in lo || c == '-' || c in hi;
    ExpandGroup(prefix, inner, suffix);
    ExpandLiteral(inner);
    PlaceDash(prefix, lo, hi, suffix);
  }

  /** Text that holds no bracket, comma, dash or newline. */
  predicate NoPlainBreak(s: string) {
    NoBracket(s) && ',' !in s && '-' !in s && '\n' !in s
  }

  /** Placing the one piece `lo-hi`. */
  lemma PlaceDash(prefix: string, lo: string, hi: string, suffix: string)
    requires '-' !in lo && '-' !in hi
    ensures var r := Place(prefix, {lo + "-" + hi + ""}, suffix);
      && (r.Ok? <==> ParseInt(lo).Some? && ParseInt(hi).Some?)
      && (r.Ok? ==> r.value == set n | ParseInt(lo).value <= n <= ParseInt(hi).value :: prefix + IntToString(n) + suffix)
  {
    var inner := lo + "-" + hi + "";
    DashRange(lo, hi, "");
    if ParseDash(inner).Ok? {
      PlaceRange(prefix, inner, suffix, ParseInt(lo).value, ParseInt(hi).value);
    } else {
      PlaceFails(prefix, inner, suffix);
    }
  }

  /** Placing a piece whose values are the numbers `l` to `h`. */
  lemma PlaceRange(prefix: string, piece: string, suffix: string, l: int, h: int)
    requires ParseDash(piece).Ok?
    requires var values := ParseDash(piece).value;
      && |values| == (if l <= h then h - l + 1 else 0)
      && forall k :: 0 <= k < |values| ==> values[k] == Num(l + k)
    ensures Place(prefix, {piece}, suffix) == Ok(set n | l <= n <= h :: prefix + IntToString(n) + suffix)
  {
    var values := ParseDash(piece).value;
    PlaceValues(prefix, piece, suffix, values);
    RangeNames(prefix, suffix, values, l, h);
  }

  /** One piece ParseDash rejects fails the placing. */
  lemma PlaceFails(prefix: string, piece: string, suffix: string)
    requires ParseDash(piece).ValueError?
    ensures Place(prefix, {piece}, suffix) == ValueError
  {
    assert piece in {piece};
  }

  /** One piece ParseDash accepts places each of its values. */
  lemma PlaceValues(prefix: string, piece: string, suffix: string, values: seq<Value>)
    requires ParseDash(piece) == Ok(values)
    ensures Place(prefix, {piece}, suffix) == Ok(set v | v in values :: prefix + Format(v) + suffix)
  {
    assert forall p :: p in {piece} ==> ParseDash(p).Ok?;
    var placed := Place(prefix, {piece}, suffix).value;
    var named := set v | v in values :: prefix + Format(v) + suffix;
    forall w | w in named ensures w in placed {
      var v :| v in values && w == prefix + Format(v) + suffix;
      assert piece in {piece} && v in ParseDash(piece).value;
    }
    forall w | w in placed ensures w in named {
      var p, v :| p in {piece} && v in ParseDash(p).value && w == prefix + Format(v) + suffix;
      assert p == piece && v in values;
    }
    assert placed == named;
  }

  /** The names of the numbers `l` to `h`, as a range's values give them. */
  lemma RangeNames(prefix: string, suffix: string, values: seq<Value>, l: int, h: int)
    requires |values| == (if l <= h then h - l + 1 else 0)
    requires forall k :: 0 <= k < |values| ==> values[k] == Num(l + k)
    ensures (set v | v in values :: prefix + Format(v) + suffix) == set n | l <= n <= h :: prefix + IntToString(n) + suffix
  {
    RangeNamesCovered(prefix, suffix, values, l, h);
    RangeNamesWithin(prefix, suffix, values, l, h);
  }

  lemma RangeNamesCovered(prefix: string, suffix: string, values: seq<Value>, l: int, h: int)
    requires |values| == (if l <= h then h - l + 1 else 0)
    requires forall k :: 0 <= k < |values| ==> values[k] == Num(l + k)
    ensures (set n | l <= n <= h :: prefix + IntToString(n) + suffix) <= (set v | v in values :: prefix + Format(v) + suffix)
  {
    var lhs := set v | v in values :: prefix + Format(v) + suffix;
    var rhs := set n | l <= n <= h :: prefix + IntToString(n) + suffix;
    forall w | w in rhs ensures w in lhs {
      var n :| l <= n <= h && w == prefix + IntToString(n) + suffix;
      var v := values[n - l];
      assert v == Num(n) && v in values;
    }
  }

  lemma RangeNamesWithin(prefix: string, suffix: string, values: seq<Value>, l: int, h: int)
    requires |values| == (if l <= h then h - l + 1 else 0)
    requires forall k :: 0 <= k < |values| ==> values[k] == Num(l + k)
    ensures (set v | v in values :: prefix + Format(v) + suffix) <= (set n | l <= n <= h :: prefix + IntToString(n) + suffix)
  {
    var lhs := set v | v in values :: prefix + Format(v) + suffix;
    var rhs := set n | l <= n <= h :: prefix + IntToString(n) + suffix;
    forall w | w in lhs ensures w in rhs {
      var v :| v in values && w == prefix + Format(v) + suffix;
      var n := RangeValue(values, l, h, v);
      assert w == prefix + IntToString(n) + suffix;
    }
  }

  /** Each value of a range is one of its numbers. */
  lemma RangeValue(values: seq<Value>, l: int, h: int, v: Value) returns (n: int)
    requires |values| == (if l <= h then h - l + 1 else 0)
    requires forall k :: 0 <= k < |values| ==> values[k] == Num(l + k)
    requires v in values
    ensures l <= n <= h && v == Num(n)
  {
    var k :| 0 <= k < |values| && values[k] == v;
    n := l + k;
  }

  /** Placing the values of two sets of pieces is placing each's. */
  lemma PlaceUnion(prefix: string, a: set<string>, b: set<string>, suffix: string)
    ensures Place(prefix, a + b, suffix) == Union(Place(prefix, a, suffix), Place(prefix, b, suffix))
  {
    var r, ra, rb := Place(prefix, a + b, suffix), Place(prefix, a, suffix), Place(prefix, b, suffix);
    if ra.Ok? && rb.Ok? {
      assert forall p :: p in a + b ==> ParseDash(p).Ok?;
      forall w | w in r.value ensures w in ra.value + rb.value {
        var p, v :| p in a + b && v in ParseDash(p).value && w == prefix + Format(v) + suffix;
      }
      assert r.value == ra.value + rb.value;
    }
  }

  lemma {:induction false} NoBracketOpen(s: string)
    requires NoBracket(s)
    ensures !ClosesFirst(s)
  {
    if s != [] {
      assert s[0] in s;
      assert NoBracket(s[1..]) by {
        forall c | c in s[1..] ensures c in s {}
      }
      NoBracketOpen(s[1..]);
    }
  }

  /** The values of an expansion placed between a prefix and a suffix; a
      failed expansion stays failed. */
  function PlaceResult(prefix: string, r: Result<set<string>>, suffix: string): Result<set<string>> {
    if r.Ok? then Place(prefix, r.value, suffix) else ValueError
  }

  /** Placing the union of two expansions is the union of placing each. */
  lemma PlaceResultUnion(prefix: string, ra: Result<set<string>>, rb: Result<set<string>>, suffix: string)
    ensures PlaceResult(prefix, Union(ra, rb), suffix)
            == Union(PlaceResult(prefix, ra, suffix), PlaceResult(prefix, rb, suffix))
  {
    if ra.Ok? && rb.Ok? {
      PlaceUnion(prefix, ra.value, rb.value, suffix);
    }
  }

  /** The inner text `a,` + `ws` + `b` of a group. */
  lemma CommaInner(a: string, ws: string, b: string)
    requires NoBracket(a) && NoBracket(b) && '\n' !in a && '\n' !in b
    requires AllSpaces(ws) && '\n' !in ws
    ensures NoBracket(a + "," + ws + b) && '\n' !in a + "," + ws + b
  {
    var inner := a + "," + ws + b;
    assert forall c :: c in inner ==> c in a || c == ',' || c in ws || c in b;
    assert forall k :: 0 <= k < |ws| ==> IsSpace(ws[k]);
  }

  /** A comma inside the group distributes over it: `p[a, b]s` expands
      as `p[a]s` and `p[b]s` together. */
  lemma ExpandGroupComma(prefix: string, a: string, ws: string, b: string, suffix: string)
    requires '[' !in prefix && ',' !in prefix && '\n' !in prefix
    requires NoBracket(a) && NoBracket(b) && '\n' !in a && '\n' !in b
    requires AllSpaces(ws) && '\n' !in ws
    requires b == [] || !IsSpace(b[0])
    requires '\n' !in suffix && NoTopLevelComma(suffix)
    ensures Expand(prefix + "[" + a + "," + ws + b + "]" + suffix)
            == Union(Expand(prefix + "[" + a + "]" + suffix), Expand(prefix + "[" + b + "]" + suffix))
  {
    var inner := a + "," + ws + b;
    assert prefix + "[" + a + "," + ws + b + "]" + suffix == prefix + "[" + inner + "]" + suffix;
    CommaInner(a, ws, b);
    ExpandGroup(prefix, inner, suffix);
    ExpandGroup(prefix, a, suffix);
    ExpandGroup(prefix, b, suffix);
    NoBracketOpen(b);
    ExpandComma(a, ws, b);
    PlaceResultUnion(prefix, Expand(a), Expand(b), suffix);
  }

  // ---------------------------------------------------------------------
  // parse_dash

  lemma {:induction false} StripLeadingChars(s: string)
    ensures forall c :: c in IntStripLeading(s) ==> c in s
  {
    if s != [] && IsIntSpace(s[0]) {
      StripLeadingChars(s[1..]);
    }
  }

  lemma {:induction false} StripTrailingChars(s: string)
    ensures forall c :: c in IntStripTrailing(s) ==> c in s
  {
    if s != [] && IsIntSpace(s[|s| - 1]) {
      StripTrailingChars(s[..|s| - 1]);
    }
  }

  /** `int()` of text without a minus sign is never negative. */
  lemma ParseIntNonNegative(s: string)
    requires '-' !in s
    ensures ParseInt(s).Some? ==> ParseInt(s).value >= 0
  {
    StripLeadingChars(s);
    StripTrailingChars(IntStripLeading(s));
    var t := IntStrip(s);
    assert t != [] ==> t[0] in t;
  }

  /** A range `lo-hi` (anything after a second dash being ignored) yields
      the integers from `lo` to `hi` inclusive, none when `lo > hi`, and
      fails when either bound is not a number `int()` accepts. */
  lemma DashRange(lo: string, hi: string, rest: string)
    requires '-' !in lo && '-' !in hi
    requires rest == [] || rest[0] == '-'
    ensures var r := ParseDash(lo + "-" + hi + rest);
      && (r.Ok? <==> ParseInt(lo).Some? && ParseInt(hi).Some?)
      && (r.Ok? ==>
            var l, h := ParseInt(lo).value, ParseInt(hi).value;
            && |r.value| == (if l <= h then h - l + 1 else 0)
            && forall k :: 0 <= k < |r.value| ==> r.value[k] == Num(l + k))
  {
    SplitFirstTwo(lo, hi, rest, '-');
    assert lo + "-" + hi + rest == lo + ['-'] + hi + rest;
    ParseDashFields(lo + "-" + hi + rest, lo, hi);
  }

  /** ParseDash on a piece whose first two dash-separated fields are `lo`
      and `hi`. */
  lemma ParseDashFields(p: string, lo: string, hi: string)
    requires var fields := Split(p, '-'); |fields| > 1 && fields[0] == lo && fields[1] == hi
    ensures var r := ParseDash(p);
      && (r.Ok? <==> ParseInt(lo).Some? && ParseInt(hi).Some?)
      && (r.Ok? ==>
            var l, h := ParseInt(lo).value, ParseInt(hi).value;
            && |r.value| == (if l <= h then h - l + 1 else 0)
            && forall k :: 0 <= k < |r.value| ==> r.value[k] == Num(l + k))
  {
  }

  /** Every number ParseDash yields is non-negative and prints with no
      leading zero, so `[01-03]` gives `1`, `2`, `3`; text it passes
      through unchanged is the whole piece. */
  lemma ParseDashValues(p: string)
    ensures var r := ParseDash(p);
      r.Ok? ==> forall k :: 0 <= k < |r.value| ==>
        match r.value[k]
        case Num(n) => n >= 0 && |Format(r.value[k])| >= 1 &&
                       (Format(r.value[k])[0] == '0' ==> Format(r.value[k]) == "0")
        case Text(s) => s == p && '-' !in p
  {
    var fields := Split(p, '-');
    if |fields| > 1 {
      ParseIntNonNegative(fields[0]);
    }
  }

  // ---------------------------------------------------------------------
  // Worked examples

  /** Text with no comma and no closing bracket is a single literal name,
      an unclosed `[` included. */
  lemma ExpandName(x: string)
    requires ',' !in x && ']' !in x
    ensures Expand(x) == Ok({x})
  {
    ExpandLiteral(x);
  }

  /** A host name prefix as the examples use it: it opens no bracket and
      holds no comma and no newline. */
  predicate HostPrefix(prefix: string) {
    '[' !in prefix && ',' !in prefix && '\n' !in prefix
  }

  /** `qh2-rcc5,qh2-rcc6` or `qh2-rcc5, qh2-rcc6`: a list of two names. */
  lemma ExampleList(a: string, ws: string, b: string)
    requires ',' !in a && ']' !in a && ',' !in b && NoBracket(b)
    requires AllSpaces(ws) && (b == [] || !IsSpace(b[0]))
    ensures Expand(a + "," + ws + b) == Ok({a, b})
  {
    NoBracketOpen(b);
    ExpandComma(a, ws, b);
    ExpandName(a);
    ExpandName(b);
    assert {a} + {b} == {a, b};
  }

  /** `qh2-rcc[10-12]`: a range inside brackets. */
  lemma ExampleRange(prefix: string)
    requires HostPrefix(prefix)
    ensures Expand(prefix + "[10-12]") == Ok({prefix + "10", prefix + "11", prefix + "12"})
  {
    assert prefix + "[10-12]" == prefix + "[" + "10" + "-" + "12" + "]" + "";
    assert NoPlainBreak("10") && NoPlainBreak("12");
    ExpandGroupRange(prefix, "10", "12", "");
    SmallDecimals();
    ParseIntOfIntToString(10);
    ParseIntOfIntToString(12);
    NumberedNames(prefix, 10, 12);
  }

  /** `qh2-rcc[01-03,07]`: the range loses its leading zeros, the single
      value keeps its own. */
  lemma ExampleRangeAndSingle(prefix: string)
    requires HostPrefix(prefix)
    ensures Expand(prefix + "[01-03,07]") == Ok({prefix + "1", prefix + "2", prefix + "3", prefix + "07"})
  {
    assert prefix + "[01-03,07]" == prefix + "[" + "01-03" + "," + "" + "07" + "]" + "";
    assert prefix + "[01-03]" == prefix + "[" + "01-03" + "]" + "";
    assert prefix + "[07]" == prefix + "[" + "07" + "]" + "";
    assert NoBracket("01-03") && NoBracket("07") && !IsSpace('0');
    ExpandGroupComma(prefix, "01-03", "", "07", "");
    ExampleLeadingZeros(prefix);
    ExampleSingle(prefix);
    FourNames(prefix + "1", prefix + "2", prefix + "3", prefix + "07");
  }

  /** `qh2-rcc[01-03]`: a range prints its numbers without leading zeros. */
  lemma ExampleLeadingZeros(prefix: string)
    requires HostPrefix(prefix)
    ensures Expand(prefix + "[01-03]") == Ok({prefix + "1", prefix + "2", prefix + "3"})
  {
    assert prefix + "[01-03]" == prefix + "[" + "01" + "-" + "03" + "]" + "";
    assert NoPlainBreak("01") && NoPlainBreak("03");
    ExpandGroupRange(prefix, "01", "03", "");
    LeadingZero();
    SmallDecimals();
    NumberedNames(prefix, 1, 3);
  }

  /** `qh2-rcc[07]`: a single value is kept as written. */
  lemma ExampleSingle(prefix: string)
    requires HostPrefix(prefix)
    ensures Expand(prefix + "[07]") == Ok({prefix + "07"})
  {
    assert prefix + "[07]" == prefix + "[" + "07" + "]" + "";
    assert NoBracket("07") && ',' !in "07" && '-' !in "07" && '\n' !in "07";
    ExpandGroupPlain(prefix, "07", "");
    assert prefix + "07" + "" == prefix + "07";
  }

  lemma SmallDecimals()
    ensures IntToString(1) == "1" && IntToString(2) == "2" && IntToString(3) == "3"
    ensures IntToString(10) == "10" && IntToString(11) == "11" && IntToString(12) == "12"
  {
    assert NatToString(10) == NatToString(1) + [DigitChar(0)];
    assert NatToString(11) == NatToString(1) + [DigitChar(1)];
    assert NatToString(12) == NatToString(1) + [DigitChar(2)];
  }

  /** The names of a three-number range. */
  lemma NumberedNames(prefix: string, lo: int, hi: int)
    requires hi == lo + 2
    ensures (set n | lo <= n <= hi :: prefix + IntToString(n) + "")
            == {prefix + IntToString(lo), prefix + IntToString(lo + 1), prefix + IntToString(hi)}
  {
    NumberedNamesWithin(prefix, lo, hi);
    NumberedNamesCovered(prefix, lo, hi);
  }

  lemma NumberedNamesWithin(prefix: string, lo: int, hi: int)
    requires hi == lo + 2
    ensures (set n | lo <= n <= hi :: prefix + IntToString(n) + "")
            <= {prefix + IntToString(lo), prefix + IntToString(lo + 1), prefix + IntToString(hi)}
  {
    var names := {prefix + IntToString(lo), prefix + IntToString(lo + 1), prefix + IntToString(hi)};
    var s := set n | lo <= n <= hi :: prefix + IntToString(n) + "";
    forall w | w in s ensures w in names {
      var n :| lo <= n <= hi && w == prefix + IntToString(n) + "";
      assert w == prefix + IntToString(n);
      assert n == lo || n == lo + 1 || n == hi;
    }
  }

  lemma NumberedNamesCovered(prefix: string, lo: int, hi: int)
    requires hi == lo + 2
    ensures {prefix + IntToString(lo), prefix + IntToString(lo + 1), prefix + IntToString(hi)}
            <= (set n | lo <= n <= hi :: prefix + IntToString(n) + "")
  {
    var s := set n | lo <= n <= hi :: prefix + IntToString(n) + "";
    forall n | lo <= n <= hi ensures prefix + IntToString(n) in s {
      assert prefix + IntToString(n) + "" == prefix + IntToString(n);
    }
  }

  /** `int("01") == 1` and `int("03") == 3`. */
  lemma LeadingZero()
    ensures ParseInt("01") == Some(1) && ParseInt("03") == Some(3)
  {
    ParseIntOfDigits("01");
    ParseIntOfDigits("03");
    DigitsValueLeadingZero('1');
    DigitsValueLeadingZero('3');
  }

  lemma DigitsValueLeadingZero(c: char)
    requires IsDigit(c)
    ensures DigitsValue(['0', c]) == DigitValue(c)
  {
    assert ['0', c][..1] == ['0'];
    assert ['0'][..0] == [];
  }

  lemma FourNames(a: string, b: string, c: string, d: string)
    ensures {a, b, c} + {d} == {a, b, c, d}
  {
  }

  /** `qh2-rcc[10-`: an unclosed bracket is no error; the text comes back
      as it is. */
  lemma ExampleUnclosed(prefix: string)
    requires ',' !in prefix && ']' !in prefix
    ensures Expand(prefix + "[10-") == Ok({prefix + "[10-"})
  {
    var x := prefix + "[10-";
    assert forall c :: c in x ==> c in prefix || c in "[10-";
    ExpandName(x);
  }

  /** `qh2-rcc[1]b[2]`: only the first group is expanded. */
  lemma ExampleSecondGroupKept(prefix: string)
    requires HostPrefix(prefix)
    ensures Expand(prefix + "[1]b[2]") == Ok({prefix + "1b[2]"})
  {
    assert prefix + "[1]b[2]" == prefix + "[" + "1" + "]" + "b[2]";
    assert NoTopLevelComma("b[2]") by {
      assert ',' !in "b[2]";
    }
    assert NoBracket("1") && ',' !in "1" && '-' !in "1" && '\n' !in "1" && '\n' !in "b[2]";
    ExpandGroupPlain(prefix, "1", "b[2]");
    assert prefix + "1" + "b[2]" == prefix + "1b[2]";
  }

  /** `qh2-rcc[x-y]`: `int("x")` raises, so the whole expansion fails. */
  lemma ExampleNotANumber(prefix: string)
    requires HostPrefix(prefix)
    ensures Expand(prefix + "[x-y]") == ValueError
  {
    assert ParseInt("x") == None by {
      assert IntStrip("x") == "x";
      assert !WellFormedDigits("x");
    }
    assert prefix + "[x-y]" == prefix + "[" + "x" + "-" + "y" + "]" + "";
    assert NoPlainBreak("x") && NoPlainBreak("y");
    ExpandGroupRange(prefix, "x", "y", "");
  }

  /** `qh2-rcc[\x1c1-3]`: `int("\x1c1")` raises, because `int()` does not
      skip the separator U+001C, so the whole expansion fails. */
  lemma ExampleSeparator(prefix: string)
    requires HostPrefix(prefix)
    ensures Expand(prefix + "[\U{1C}1-3]") == ValueError
  {
    assert ParseInt("\U{1C}1") == None by {
      ParseIntSeparators("1");
      assert ['\U{1C}'] + "1" == "\U{1C}1";
    }
    assert prefix + "[\U{1C}1-3]" == prefix + "[" + "\U{1C}1" + "-" + "3" + "]" + "";
    assert NoPlainBreak("\U{1C}1") && NoPlainBreak("3");
    ExpandGroupRange(prefix, "\U{1C}1", "3", "");
  }
}
