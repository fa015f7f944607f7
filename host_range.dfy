/** Host-range expansion, as `parse_dash` and `parse_nodes` in notify.py
    perform it: `qh2-rcc[01-10,13]` or `a5, a6` become a set of host
    names. The model follows the code, including its quirks: only the
    first bracket group is expanded, an unclosed bracket is a literal,
    and a single value inside brackets keeps its leading zeros while a
    range prints its numbers without them. */
module HostRange {
  import opened PyBuiltins

  /** The outcome of an expansion: the host names, or the ValueError that
      `int()` raises on a range bound that is not a number. The exception
      ends the whole expansion, so there is no partial result. */
  datatype Result<+T> = Ok(value: T) | ValueError

  /** Both expansions, joined; an error in either is an error. */
  function Union(r1: Result<set<string>>, r2: Result<set<string>>): (r: Result<set<string>>)
    ensures r.Ok? <==> r1.Ok? && r2.Ok?
    ensures r.Ok? ==> forall h :: h in r.value <==> h in r1.value || h in r2.value
  {
    if r1.Ok? && r2.Ok? then Ok(r1.value + r2.value) else ValueError
  }

  // ---------------------------------------------------------------------
  // Top-level commas: re.split(r",\s*(?![^\[\]]*\])", x)

  /** The lookahead `[^\[\]]*\]` matches at the start of `s`: the first
      bracket character of `s` is a closing one. */
  predicate ClosesFirst(s: string) {
    s != [] && (s[0] == ']' || (s[0] != '[' && ClosesFirst(s[1..])))
  }

  /** Every comma of `x` sits inside a bracket pair: the next bracket after
      it closes. Such an `x` is not split. */
  predicate NoTopLevelComma(x: string) {
    forall p :: 0 <= p < |x| && x[p] == ',' ==> ClosesFirst(x[p + 1..])
  }

  /** The `\s*` of the separator, which is greedy. */
  function DropSpaces(s: string): (t: string)
    ensures |t| <= |s|
    ensures t == [] || !IsSpace(t[0])
  {
    if s != [] && IsSpace(s[0]) then DropSpaces(s[1..]) else s
  }

  function TotalLength(pieces: seq<string>): nat {
    if pieces == [] then 0 else |pieces[0]| + TotalLength(pieces[1..])
  }

  /** The pieces `re.split` returns. A comma splits when the next bracket
      after it is not `]`; the comma and the whitespace after it are
      dropped. (The regex tests the lookahead after the whitespace, which
      is the same test: whitespace holds no bracket.) Splitting at least
      once drops at least one comma, so the pieces are shorter in all. */
  function SplitTop(x: string): (pieces: seq<string>)
    ensures |pieces| >= 1
    ensures pieces[0] <= x
    ensures |pieces| == 1 ==> pieces[0] == x
    ensures TotalLength(pieces) <= |x|
    ensures |pieces| > 1 ==> TotalLength(pieces) < |x|
    decreases |x|
  {
    if x == [] then [""]
    else if x[0] == ',' && !ClosesFirst(x[1..]) then [""] + SplitTop(DropSpaces(x[1..]))
    else
      var rest := SplitTop(x[1..]);
      var pieces := [[x[0]] + rest[0]] + rest[1..];
      assert pieces[1..] == rest[1..];
      pieces
  }

  // ---------------------------------------------------------------------
  // The first bracket group: re.search(r"(.*?)\[(.*?)\](.*)", x)

  datatype Group = Group(prefix: string, inner: string, suffix: string)

  /** The index of the first `c` in `s`, or `|s|` when there is none. */
  function IndexOf(s: string, c: char): (i: nat)
    ensures i <= |s|
    ensures i < |s| ==> s[i] == c
    ensures c !in s[..i]
  {
    if s == [] || s[0] == c then 0
    else
      var j := IndexOf(s[1..], c);
      assert s[..1 + j] == [s[0]] + s[1..][..j];
      1 + j
  }

  /** The match within one line: the prefix runs to the first `[`, the
      inner text to the first `]` after it, the suffix to the line's end. */
  function LineGroup(line: string): (g: Option<Group>)
    ensures g.Some? ==> line == g.value.prefix + "[" + g.value.inner + "]" + g.value.suffix
    ensures g.Some? ==> '[' !in g.value.prefix && ']' !in g.value.inner
  {
    var i := IndexOf(line, '[');
    if i == |line| then None
    else
      var j := i + 1 + IndexOf(line[i + 1..], ']');
      if j == |line| then None
      else
        assert line[i + 1..j] == line[i + 1..][..j - i - 1];
        assert line == line[..i] + "[" + line[i + 1..j] + "]" + line[j + 1..];
        Some(Group(line[..i], line[i + 1..j], line[j + 1..]))
  }

  /** No `]` follows a `[` on the same line. */
  predicate NoGroup(x: string) {
    forall i, j :: 0 <= i < j < |x| && x[i] == '[' && x[j] == ']' ==> '\n' in x[i + 1..j]
  }

  /** `re.search` without DOTALL: `.` does not match a newline, so the
      match lies within the first line that holds a `[` with a `]` after
      it, and the suffix stops at that line's end. */
  function SearchGroup(x: string): (g: Option<Group>)
    ensures g.Some? ==> '[' !in g.value.prefix && ']' !in g.value.inner
    ensures g.Some? ==> '\n' !in g.value.prefix && '\n' !in g.value.inner && '\n' !in g.value.suffix
    ensures g.Some? ==> |g.value.inner| < |x|
    decreases |x|
  {
    var k := IndexOf(x, '\n');
    match LineGroup(x[..k])
    case Some(g) =>
      assert x[..k] == g.prefix + "[" + g.inner + "]" + g.suffix;
      assert forall c :: c in g.prefix || c in g.inner || c in g.suffix ==> c in x[..k];
      Some(g)
    case None => if k == |x| then None else SearchGroup(x[k + 1..])
  }

  // ---------------------------------------------------------------------
  // parse_dash

  /** What `parse_dash` yields: numbers from a range, or the piece itself. */
  datatype Value = Num(n: int) | Text(s: string)

  /** `"%s" % value`: a number prints as the one canonical text that
      `int()` reads back as that number; a piece of text prints as
      itself. */
  function Format(v: Value): (s: string)
    ensures v.Num? ==> ParseInt(s) == Some(v.n) && CanonicalInt(s)
    ensures v.Text? ==> s == v.s
  {
    match v
    case Num(n) => ParseIntOfIntToString(n); CanonicalIntToString(n); IntToString(n)
    case Text(s) => s
  }

  /** Python's `range(lo, hi)`. */
  function Range(lo: int, hi: int): (r: seq<int>)
    ensures |r| == if lo <= hi then hi - lo else 0
    ensures forall k :: 0 <= k < |r| ==> r[k] == lo + k
    decreases hi - lo
  {
    if lo >= hi then [] else [lo] + Range(lo + 1, hi)
  }

  /** `parse_dash`: a piece with a dash is the inclusive range between its
      first two dash-separated fields, which `int()` must accept; a piece
      without one is returned as it is. */
  function ParseDash(p: string): (r: Result<seq<Value>>)
    ensures '-' !in p ==> r == Ok([Text(p)])
  {
    var fields := Split(p, '-');
    if |fields| > 1 then
      match (ParseInt(fields[0]), ParseInt(fields[1]))
      case (Some(lo), Some(hi)) =>
        var numbers := Range(lo, hi + 1);
        Ok(seq(|numbers|, k requires 0 <= k < |numbers| => Num(numbers[k])))
      case _ => ValueError
    else Ok([Text(p)])
  }

  // ---------------------------------------------------------------------
  // parse_nodes

  /** `parse_nodes`: several top-level pieces expand to the union of their
      expansions; a single piece with a bracket group expands the group's
      inner text, passes each of its pieces through ParseDash and puts
      every value between the prefix and the suffix; anything else is the
      one-element result holding the text itself. */
  function Expand(x: string): Result<set<string>>
    decreases |x|, 1, 0
  {
    var pieces := SplitTop(x);
    if |pieces| > 1 then ExpandAll(pieces)
    else
      match SearchGroup(x)
      case None => Ok({x})
      case Some(g) =>
        match Expand(g.inner)
        case ValueError => ValueError
        case Ok(inner) => Place(g.prefix, inner, g.suffix)
  }

  /** Every value ParseDash yields for every piece, put between the
      prefix and the suffix; a piece ParseDash rejects fails the whole. */
  function Place(prefix: string, pieces: set<string>, suffix: string): (r: Result<set<string>>)
    ensures r.Ok? ==> forall h :: h in r.value ==>
      |prefix| + |suffix| <= |h| && h[..|prefix|] == prefix && h[|h| - |suffix|..] == suffix
  {
    if forall p :: p in pieces ==> ParseDash(p).Ok? then
      Ok(set p, v | p in pieces && v in ParseDash(p).value :: prefix + Format(v) + suffix)
    else ValueError
  }

  /** The union of the expansions of `pieces`, in order; the first error
      ends it. */
  function ExpandAll(pieces: seq<string>): Result<set<string>>
    decreases TotalLength(pieces), 2, |pieces|
  {
    if pieces == [] then Ok({}) else Union(Expand(pieces[0]), ExpandAll(pieces[1..]))
  }
}
