/**
 * The JavaScript string built-ins that the collector's parsers are made of:
 * `trim`, `split('\n')`, `split(/\s+/)`, `includes`, `startsWith`,
 * `replace` with a string pattern, `toLowerCase` as used by the `/i` flag,
 * `parseInt(_, 10)` and the `x || 0` idiom.  Strings are sequences of
 * characters; UTF-16 code units are not modelled.
 */
module JsText {
  import opened Wrappers

  /** WhiteSpace or LineTerminator of ECMAScript: the set that `trim`, the
      regular-expression class `\s` and `parseInt`'s leading skip all use. */
  predicate IsJsSpace(c: char) {
    var n := c as int;
    n == 0x09 || n == 0x0A || n == 0x0B || n == 0x0C || n == 0x0D || n == 0x20 ||
    n == 0xA0 || n == 0x1680 || (0x2000 <= n <= 0x200A) || n == 0x2028 ||
    n == 0x2029 || n == 0x202F || n == 0x205F || n == 0x3000 || n == 0xFEFF
  }

  /** The characters that the regular-expression `.` does not match. */
  predicate IsLineTerminator(c: char) {
    c == '\n' || c == '\r' || c as int == 0x2028 || c as int == 0x2029
  }

  /** The class `\d`: ASCII digits only. */
  predicate IsDigit(c: char) {
    '0' <= c <= '9'
  }

  predicate NotSpace(c: char) {
    !IsJsSpace(c)
  }

  /** No character of `s` is white space. */
  predicate NoSpace(s: string) {
    forall k :: 0 <= k < |s| ==> !IsJsSpace(s[k])
  }

  predicate AllDigits(s: string) {
    forall k :: 0 <= k < |s| ==> IsDigit(s[k])
  }

  /** The index just past the longest run of characters satisfying `p` that starts at `i`. */
  function SpanEnd(s: string, i: nat, p: char -> bool): (e: nat)
    requires i <= |s|
    ensures i <= e <= |s|
    ensures forall k :: i <= k < e ==> p(s[k])
    ensures e < |s| ==> !p(s[e])
    decreases |s| - i
  {
    if i < |s| && p(s[i]) then SpanEnd(s, i + 1, p) else i
  }

  /** A run of `p` characters from `i` to `j` that ends where `p` stops holding is the span. */
  lemma {:induction false} SpanEndIs(s: string, i: nat, j: nat, p: char -> bool)
    requires i <= j <= |s|
    requires forall k :: i <= k < j ==> p(s[k])
    requires j == |s| || !p(s[j])
    ensures SpanEnd(s, i, p) == j
    decreases j - i
  {
    if i < j {
      SpanEndIs(s, i + 1, j, p);
    }
  }

  /** Every run of `p` characters starting at `i` lies inside the span. */
  lemma {:induction false} SpanEndCovers(s: string, i: nat, j: nat, p: char -> bool)
    requires i <= j <= |s|
    requires forall k :: i <= k < j ==> p(s[k])
    ensures j <= SpanEnd(s, i, p)
    decreases j - i
  {
    if i < j {
      SpanEndCovers(s, i + 1, j, p);
    }
  }

  // ---------------------------------------------------------------- case folding

  function LowerChar(c: char): char {
    if 'A' <= c <= 'Z' then (c as int + 32) as char else c
  }

  /** The folding under which a pattern of ASCII characters with the `/i` flag
      matches: JavaScript's non-Unicode canonicalisation never maps a non-ASCII
      character to an ASCII one, so folding A-Z is exact for such patterns. */
  function Lower(s: string): (r: string)
    ensures |r| == |s|
    ensures forall k :: 0 <= k < |s| ==> r[k] == LowerChar(s[k])
  {
    seq(|s|, k requires 0 <= k < |s| => LowerChar(s[k]))
  }

  // ---------------------------------------------------------------- substrings

  /** `w` occurs in `s` at index `i`. */
  predicate ContainsAt(s: string, i: int, w: string) {
    0 <= i && i + |w| <= |s| && s[i..i + |w|] == w
  }

  /** `s.includes(w)`. */
  predicate Contains(s: string, w: string) {
    exists i | 0 <= i <= |s| - |w| :: ContainsAt(s, i, w)
  }

  /** `s.startsWith(w)`. */
  predicate StartsWith(s: string, w: string) {
    |w| <= |s| && s[..|w|] == w
  }

  function FirstOccurrenceFrom(s: string, w: string, k: nat): (r: Option<nat>)
    ensures r.Some? ==> k <= r.value && ContainsAt(s, r.value, w)
    ensures r.Some? ==> forall j :: k <= j < r.value ==> !ContainsAt(s, j, w)
    ensures r.None? ==> forall j :: k <= j ==> !ContainsAt(s, j, w)
    decreases |s| - k
  {
    if k + |w| > |s| then None
    else if s[k..k + |w|] == w then Some(k)
    else FirstOccurrenceFrom(s, w, k + 1)
  }

  /** `s.indexOf(w)`, with `None` for -1: the least index where `w` occurs. */
  function FirstOccurrence(s: string, w: string): (r: Option<nat>)
    ensures r.Some? ==> ContainsAt(s, r.value, w) && forall j :: 0 <= j < r.value ==> !ContainsAt(s, j, w)
    ensures r.None? ==> !Contains(s, w)
  {
    FirstOccurrenceFrom(s, w, 0)
  }

  // ---------------------------------------------------------------- trim

  /** Leading white space removed. */
  function TrimStart(s: string): (r: string)
    ensures |r| <= |s| && r == s[|s| - |r|..]
    ensures forall k :: 0 <= k < |s| - |r| ==> IsJsSpace(s[k])
    ensures r == [] || !IsJsSpace(r[0])
  {
    var n := SpanEnd(s, 0, IsJsSpace);
    if n == 0 then s else s[n..]
  }

  /** Trailing white space removed. */
  function TrimEnd(s: string): (r: string)
    ensures |r| <= |s| && r == s[..|r|]
    ensures forall k :: |r| <= k < |s| ==> IsJsSpace(s[k])
    ensures r == [] || !IsJsSpace(r[|r| - 1])
    decreases |s|
  {
    if |s| > 0 && IsJsSpace(s[|s| - 1]) then TrimEnd(s[..|s| - 1]) else s
  }

  /** The number of white-space characters that `trim` drops at the front. */
  function LeadingSpace(s: string): nat
  {
    SpanEnd(s, 0, IsJsSpace)
  }

  /** Neither starts nor ends with white space. */
  predicate IsTrimmed(s: string) {
    s == [] || (!IsJsSpace(s[0]) && !IsJsSpace(s[|s| - 1]))
  }

  /** `s.trim()`: the slice of `s` that is left once the white space at both ends
      is removed; what was removed is white space and what is left is trimmed. */
  function Trim(s: string): (r: string)
    ensures IsTrimmed(r)
    ensures var i := LeadingSpace(s); i + |r| <= |s| && r == s[i..i + |r|]
    ensures var i := LeadingSpace(s);
      (forall k :: 0 <= k < i ==> IsJsSpace(s[k])) && (forall k :: i + |r| <= k < |s| ==> IsJsSpace(s[k]))
  {
    TrimParts(s);
    TrimEnd(TrimStart(s))
  }

  /** What `trimStart` drops is the leading white space. */
  lemma TrimStartDrops(s: string)
    ensures TrimStart(s) == s[LeadingSpace(s)..]
  {
  }

  lemma TrimParts(s: string)
    ensures var r := TrimEnd(TrimStart(s)); var i := LeadingSpace(s);
      IsTrimmed(r) && i + |r| <= |s| && r == s[i..i + |r|] &&
      (forall k :: 0 <= k < i ==> IsJsSpace(s[k])) && (forall k :: i + |r| <= k < |s| ==> IsJsSpace(s[k]))
  {
    var t := TrimStart(s);
    var r := TrimEnd(t);
    var i := LeadingSpace(s);
    TrimStartDrops(s);
    assert s[i..i + |r|] == r;
    assert forall k :: i + |r| <= k < |s| ==> s[k] == t[k - i];
    assert r != [] ==> r[0] == t[0];
  }

  lemma TrimOfTrimmed(s: string)
    requires IsTrimmed(s)
    ensures Trim(s) == s
  {
  }

  lemma {:induction false} TrimEndAppend(s: string, w: string)
    requires forall k :: 0 <= k < |w| ==> IsJsSpace(w[k])
    requires s == [] || !IsJsSpace(s[|s| - 1])
    ensures TrimEnd(s + w) == s
    decreases |w|
  {
    if w == [] {
      assert s + w == s;
    } else {
      TrimEndAppend(s, w[..|w| - 1]);
      assert (s + w)[..|s + w| - 1] == s + w[..|w| - 1];
    }
  }

  /** Trailing white space never survives `trim`. */
  lemma TrimDropsTrailing(s: string, w: string)
    requires forall k :: 0 <= k < |w| ==> IsJsSpace(w[k])
    requires IsTrimmed(s)
    ensures Trim(s + w) == s
  {
    if s == [] {
      SpanEndIs(s + w, 0, |w|, IsJsSpace);
      assert TrimStart(s + w) == [];
    } else {
      SpanEndIs(s + w, 0, 0, IsJsSpace);
      assert TrimStart(s + w) == s + w;
      TrimEndAppend(s, w);
    }
  }

  // ---------------------------------------------------------------- split

  /** `s.split('\n')`: the pieces between line feeds, kept even when empty. */
  function SplitLines(s: string): (r: seq<string>)
    ensures |r| >= 1
    ensures forall k :: 0 <= k < |r| ==> '\n' !in r[k]
    decreases |s|
  {
    match FirstOccurrence(s, "\n")
    case None =>
      assert forall k :: 0 <= k < |s| ==> s[k] != '\n' by {
        forall k | 0 <= k < |s| ensures s[k] != '\n' {
          assert !ContainsAt(s, k, "\n");
          assert s[k..k + 1] == [s[k]];
        }
      }
      [s]
    case Some(i) =>
      assert forall k :: 0 <= k < i ==> s[k] != '\n' by {
        forall k | 0 <= k < i ensures s[k] != '\n' {
          assert !ContainsAt(s, k, "\n");
          assert s[k..k + 1] == [s[k]];
        }
      }
      [s[..i]] + SplitLines(s[i + 1..])
  }

  /** `lines.join('\n')`. */
  function JoinLines(lines: seq<string>): string
  {
    if |lines| == 0 then "" else if |lines| == 1 then lines[0] else lines[0] + "\n" + JoinLines(lines[1..])
  }

  /** Splitting on line feeds loses nothing: joining the pieces gives the text back. */
  lemma {:induction false} SplitLinesJoin(s: string)
    ensures JoinLines(SplitLines(s)) == s
    decreases |s|
  {
    match FirstOccurrence(s, "\n")
    case None =>
    case Some(i) =>
      SplitLinesJoin(s[i + 1..]);
      assert s[i..i + 1] == "\n";
      assert s == s[..i] + "\n" + s[i + 1..];
  }

  /** Text without a line feed is a single line. */
  lemma SplitLinesSingle(s: string)
    requires '\n' !in s
    ensures SplitLines(s) == [s]
  {
    forall j | 0 <= j && j + 1 <= |s| ensures !ContainsAt(s, j, "\n") {
      assert s[j..j + 1] == [s[j]];
    }
  }

  /** A first line without a line feed is split off the rest. */
  lemma SplitLinesCons(a: string, b: string)
    requires '\n' !in a
    ensures SplitLines(a + "\n" + b) == [a] + SplitLines(b)
  {
    var s := a + "\n" + b;
    assert ContainsAt(s, |a|, "\n") by { assert s[|a|..|a| + 1] == "\n"; }
    forall j | 0 <= j < |a| ensures !ContainsAt(s, j, "\n") {
      assert s[j..j + 1] == [a[j]];
    }
    assert FirstOccurrence(s, "\n") == Some(|a|);
    assert s[..|a|] == a;
    assert s[|a| + 1..] == b;
  }

  /** `s.split(/\s+/)`: the fields between maximal runs of white space; a leading
      or trailing run gives an empty first or last field. */
  function SplitWs(s: string): (r: seq<string>)
    ensures |r| >= 1
    ensures forall k :: 0 <= k < |r| ==> NoSpace(r[k])
    decreases |s|
  {
    var i := SpanEnd(s, 0, NotSpace);
    if i == |s| then [s]
    else [s[..i]] + SplitWs(s[SpanEnd(s, i, IsJsSpace)..])
  }

  /** A text without white space is one field. */
  lemma SplitWsSingle(a: string)
    requires NoSpace(a)
    ensures SplitWs(a) == [a]
  {
    SpanEndIs(a, 0, |a|, NotSpace);
  }

  /** A field, a run of white space and a text that does not start with white space:
      the field comes first and the rest is split on its own. */
  lemma SplitWsCons(a: string, w: string, b: string)
    requires NoSpace(a)
    requires |w| > 0 && forall k :: 0 <= k < |w| ==> IsJsSpace(w[k])
    requires b == [] || !IsJsSpace(b[0])
    ensures SplitWs(a + w + b) == [a] + SplitWs(b)
  {
    var s := a + w + b;
    SpanEndIs(s, 0, |a|, NotSpace);
    SpanEndIs(s, |a|, |a| + |w|, IsJsSpace);
    assert s[..|a|] == a;
    assert s[|a| + |w|..] == b;
  }

  /** The first field of a text is what precedes its first white space. */
  lemma SplitWsHead(a: string, b: string)
    requires NoSpace(a)
    requires b == [] || IsJsSpace(b[0])
    ensures SplitWs(a + b)[0] == a
  {
    var s := a + b;
    SpanEndIs(s, 0, |a|, NotSpace);
    assert s[..|a|] == a;
  }

  /** Splitting the empty text gives one empty field, as `''.split(/\s+/)` does. */
  lemma SplitWsEmpty()
    ensures SplitWs("") == [""]
  {
  }

  // ---------------------------------------------------------------- replace

  /** The replacement text of `String.prototype.replace` for a string pattern
      (GetSubstitution with no captures): `$$`, `$&`, `` $` `` and `$'` are special,
      every other `$` is literal. */
  function Substitution(rep: string, matched: string, before: string, after: string): string
    decreases |rep|
  {
    if |rep| == 0 then ""
    else if rep[0] == '$' && |rep| >= 2 && rep[1] == '$' then "$" + Substitution(rep[2..], matched, before, after)
    else if rep[0] == '$' && |rep| >= 2 && rep[1] == '&' then matched + Substitution(rep[2..], matched, before, after)
    else if rep[0] == '$' && |rep| >= 2 && rep[1] == '`' then before + Substitution(rep[2..], matched, before, after)
    else if rep[0] == '$' && |rep| >= 2 && rep[1] == '\'' then after + Substitution(rep[2..], matched, before, after)
    else [rep[0]] + Substitution(rep[1..], matched, before, after)
  }

  /** A replacement without `$` is inserted verbatim. */
  lemma {:induction false} SubstitutionPlain(rep: string, matched: string, before: string, after: string)
    requires '$' !in rep
    ensures Substitution(rep, matched, before, after) == rep
    decreases |rep|
  {
    if |rep| > 0 {
      assert rep[0] != '$';
      assert '$' !in rep[1..] by {
        forall k | 0 <= k < |rep| - 1 ensures rep[1..][k] != '$' {
          assert rep[1..][k] == rep[k + 1];
        }
      }
      SubstitutionPlain(rep[1..], matched, before, after);
      assert rep == [rep[0]] + rep[1..];
    }
  }

  /** `s.replace(pat, rep)` with a string `pat`: only the first occurrence is replaced. */
  function ReplaceFirst(s: string, pat: string, rep: string): string
  {
    match FirstOccurrence(s, pat)
    case None => s
    case Some(i) => s[..i] + Substitution(rep, pat, s[..i], s[i + |pat|..]) + s[i + |pat|..]
  }

  /** When the first occurrence of the pattern ends just after `a` (no earlier
      one fits in `a` and the pattern's first characters), the text around it
      is kept and the occurrence becomes the substitution of `rep`. */
  lemma ReplaceFirstAt(s: string, pat: string, rep: string, a: string, b: string)
    requires |pat| > 0 && s == a + pat + b
    requires !Contains(a + pat[..|pat| - 1], pat)
    ensures ReplaceFirst(s, pat, rep) == a + Substitution(rep, pat, a, b) + b
  {
    assert s[|a|..|a| + |pat|] == pat;
    assert ContainsAt(s, |a|, pat);
    forall j | 0 <= j < |a| ensures !ContainsAt(s, j, pat) {
      var p := a + pat[..|pat| - 1];
      if ContainsAt(s, j, pat) {
        assert |p| == |a| + |pat| - 1;
        assert j + |pat| <= |p|;
        assert p[j..j + |pat|] == s[j..j + |pat|];
        assert ContainsAt(p, j, pat);
      }
    }
    var i := FirstOccurrence(s, pat).value;
    assert i == |a|;
    assert s[..i] == a;
    assert s[i + |pat|..] == b;
  }

  /** Replacing with a `$`-free text puts it in place of the first occurrence and
      keeps everything before and after it, later occurrences included. */
  lemma ReplaceFirstPlain(s: string, pat: string, rep: string, a: string, b: string)
    requires '$' !in rep
    requires |pat| > 0 && s == a + pat + b
    requires !Contains(a + pat[..|pat| - 1], pat)
    ensures ReplaceFirst(s, pat, rep) == a + rep + b
  {
    ReplaceFirstAt(s, pat, rep, a, b);
    SubstitutionPlain(rep, pat, a, b);
  }

  /** A text without the pattern is left unchanged. */
  lemma ReplaceFirstAbsent(s: string, pat: string, rep: string)
    requires !Contains(s, pat)
    ensures ReplaceFirst(s, pat, rep) == s
  {
  }

  // ---------------------------------------------------------------- numbers

  function DigitValue(c: char): nat
    requires IsDigit(c)
  {
    c as int - '0' as int
  }

  function DigitChar(d: nat): (c: char)
    requires d < 10
    ensures IsDigit(c) && DigitValue(c) == d
  {
    ('0' as int + d) as char
  }

  /** The natural number a string of decimal digits denotes. */
  function DigitsValue(ds: string): nat
    requires AllDigits(ds)
    decreases |ds|
  {
    if |ds| == 0 then 0 else DigitsValue(ds[..|ds| - 1]) * 10 + DigitValue(ds[|ds| - 1])
  }

  /** The decimal text of a natural number, without leading zeros. */
  function NatToString(n: nat): (s: string)
    ensures |s| >= 1 && AllDigits(s)
    decreases n
  {
    if n < 10 then [DigitChar(n)] else NatToString(n / 10) + [DigitChar(n % 10)]
  }

  /** The decimal text JavaScript gives an integer (`String(n)`). */
  function IntToString(n: int): (s: string)
  {
    if n < 0 then "-" + NatToString(-n) else NatToString(n)
  }

  lemma {:induction false} DigitsOfNat(n: nat)
    ensures DigitsValue(NatToString(n)) == n
    decreases n
  {
    if n >= 10 {
      DigitsOfNat(n / 10);
      var s := NatToString(n);
      assert s[..|s| - 1] == NatToString(n / 10);
    }
  }

  /** `parseInt(s, 10)`, with `None` for NaN: leading white space is skipped, an
      optional sign is read, then the longest run of decimal digits; no digit at
      all gives NaN. */
  function ParseInt(s: string): Option<int>
  {
    var t := TrimStart(s);
    var signed := |t| > 0 && (t[0] == '-' || t[0] == '+');
    var u := if signed then t[1..] else t;
    var n := SpanEnd(u, 0, IsDigit);
    if n == 0 then None
    else
      var v: int := DigitsValue(u[..n]);
      Some(if signed && t[0] == '-' then -v else v)
  }

  /** Reading back the decimal text of an integer, followed by anything that is
      not a digit, gives the integer. */
  lemma ParseIntOfString(n: int, rest: string)
    requires rest == [] || !IsDigit(rest[0])
    ensures ParseInt(IntToString(n) + rest) == Some(n)
  {
    if n < 0 {
      NegativeText(n, rest);
      ParseIntNegative(n, rest);
    } else {
      ParseIntNonNegative(n, rest);
    }
  }

  lemma ParseIntNonNegative(n: int, rest: string)
    requires n >= 0 && (rest == [] || !IsDigit(rest[0]))
    ensures ParseInt(IntToString(n) + rest) == Some(n)
  {
    var ds := NatToString(n);
    DigitsThen(ds, rest);
    DigitsOfNat(n);
    assert (ds + rest)[0] == ds[0];
    SpanEndIs(ds + rest, 0, 0, IsJsSpace);
  }

  lemma ParseIntNegative(n: int, rest: string)
    requires n < 0 && (rest == [] || !IsDigit(rest[0]))
    ensures ParseInt("-" + (NatToString(-n) + rest)) == Some(n)
  {
    var ds := NatToString(-n);
    DigitsThen(ds, rest);
    DigitsOfNat(-n);
    ParseIntMinus(ds + rest, n);
  }

  /** A minus sign followed by the digits of `-n` reads as `n`. */
  lemma ParseIntMinus(u: string, n: int)
    requires SpanEnd(u, 0, IsDigit) > 0 && DigitsValue(u[..SpanEnd(u, 0, IsDigit)]) == -n
    ensures ParseInt("-" + u) == Some(n)
  {
    var s := "-" + u;
    SpanEndIs(s, 0, 0, IsJsSpace);
    assert s[1..] == u;
  }

  lemma NegativeText(n: int, rest: string)
    requires n < 0
    ensures IntToString(n) + rest == "-" + (NatToString(-n) + rest)
  {
  }

  /** The digit run of a numeral followed by a non-digit is the numeral. */
  lemma DigitsThen(ds: string, rest: string)
    requires |ds| > 0 && AllDigits(ds)
    requires rest == [] || !IsDigit(rest[0])
    ensures SpanEnd(ds + rest, 0, IsDigit) == |ds| && (ds + rest)[..|ds|] == ds
  {
    SpanEndIs(ds + rest, 0, |ds|, IsDigit);
    assert (ds + rest)[..|ds|] == ds;
  }

  /** A run of decimal digits reads back as the number it denotes. */
  lemma ParseIntOfDigits(ds: string)
    requires |ds| > 0 && AllDigits(ds)
    ensures ParseInt(ds) == Some(DigitsValue(ds) as int)
  {
    SpanEndIs(ds, 0, 0, IsJsSpace);
    SpanEndIs(ds, 0, |ds|, IsDigit);
    assert ds[..|ds|] == ds;
  }

  /** `parseInt` does not look past white space it has skipped. */
  lemma ParseIntSkipsSpace(w: string, s: string)
    requires forall k :: 0 <= k < |w| ==> IsJsSpace(w[k])
    requires s == [] || !IsJsSpace(s[0])
    ensures ParseInt(w + s) == ParseInt(s)
  {
    SpanEndIs(w + s, 0, |w|, IsJsSpace);
    assert (w + s)[|w|..] == s;
    SpanEndIs(s, 0, 0, IsJsSpace);
    assert TrimStart(w + s) == s;
    assert TrimStart(s) == s;
  }

  /** A text whose first non-blank character is neither a sign nor a digit is NaN. */
  lemma ParseIntNaN(s: string)
    requires var t := TrimStart(s); t == [] || (t[0] != '-' && t[0] != '+' && !IsDigit(t[0]))
    ensures ParseInt(s) == None
  {
  }

  /** `x || 0` for a number that may be NaN: NaN and 0 both become 0. */
  function OrZero(p: Option<int>): int
  {
    if p.Some? then p.value else 0
  }

  /** `Math.round(blocks * 1024 / 2^30)`: 1024-byte blocks to whole gigabytes,
      halves rounded up. */
  function RoundGB(blocks: int): (gb: int)
    ensures 2 * 1048576 * gb - 1048576 <= 2 * blocks < 2 * 1048576 * gb + 1048576
  {
    (blocks + 524288) / 1048576
  }

  /** `Math.round(a / b)` computed exactly: the integer nearest to a/b, halves up. */
  function RoundQuotient(a: int, b: int): (r: int)
    requires b != 0
    ensures b > 0 ==> 2 * b * r - b <= 2 * a < 2 * b * r + b
    ensures b < 0 ==> 2 * b * r - b >= 2 * a > 2 * b * r + b
  {
    if b > 0 then (2 * a + b) / (2 * b) else (-2 * a - b) / (-2 * b)
  }

  /** `Math.round(x)` on an exact real: the nearest integer, halves up. */
  function RoundReal(x: real): int
  {
    (x + 0.5).Floor
  }

  /** `Math.round` gives the nearest integer, the upper one at a half. */
  lemma RoundRealNearest(x: real)
    ensures RoundReal(x) as real - 0.5 <= x < RoundReal(x) as real + 0.5
  {
  }

  // ---------------------------------------------------------------- parseFloat

  /** A number as `parseFloat` can produce it: NaN, a finite value (the exact
      value of the decimal text read), or an infinity. */
  datatype JsNumber = NaN | Finite(value: real) | Infinite(negative: bool)

  function Pow10(n: nat): (p: nat)
    ensures p >= 1
  {
    if n == 0 then 1 else 10 * Pow10(n - 1)
  }

  /** `v` times ten to the power `e`. */
  function Scale(v: real, e: int): real
  {
    if e >= 0 then v * Pow10(e) as real else v / Pow10(-e) as real
  }

  /** The value of an exponent part (`e` or `E`, an optional sign, at least one
      digit) that starts at `j`; 0 when there is none there. */
  function ExponentAt(u: string, j: nat): int
    requires j <= |u|
  {
    if j < |u| && (u[j] == 'e' || u[j] == 'E') then
      var signed := j + 1 < |u| && (u[j + 1] == '-' || u[j + 1] == '+');
      var ds := if signed then j + 2 else j + 1;
      var m := SpanEnd(u, ds, IsDigit);
      if m == ds then 0
      else
        var v: int := DigitsValue(u[ds..m]);
        if signed && u[j + 1] == '-' then -v else v
    else 0
  }

  /** `parseFloat(s)`: leading white space is skipped, an optional sign read,
      then the longest prefix that is `Infinity` or a decimal literal; no such
      prefix gives NaN. */
  function ParseFloat(s: string): JsNumber
  {
    var t := TrimStart(s);
    var signed := |t| > 0 && (t[0] == '-' || t[0] == '+');
    var negative := signed && t[0] == '-';
    var u := if signed then t[1..] else t;
    if StartsWith(u, "Infinity") then Infinite(negative)
    else
      match UnsignedDecimal(u)
      case None => NaN
      case Some(v) => Finite(if negative then -v else v)
  }

  /** The value of the longest decimal literal at the start of `u` (digits, an
      optional point with more digits, at least one digit in all, an optional
      exponent), or `None` when there is none. */
  function UnsignedDecimal(u: string): Option<real>
  {
    var i := SpanEnd(u, 0, IsDigit);
    var dot := i < |u| && u[i] == '.';
    var j := if dot then SpanEnd(u, i + 1, IsDigit) else i;
    var frac := if dot then u[i + 1..j] else "";
    if i == 0 && |frac| == 0 then None
    else
      var mantissa := DigitsValue(u[..i] + frac) as real;
      Some(Scale(mantissa, ExponentAt(u, j) - |frac|))
  }

  /** The value of the decimal text `ip.fp`: all its digits read as one
      number, scaled down by one power of ten per fraction digit. */
  function DecimalValue(ip: string, fp: string): real
    requires AllDigits(ip) && AllDigits(fp)
  {
    DigitsValue(ip + fp) as real / Pow10(|fp|) as real
  }

  /** A character that ends a decimal literal without an exponent. */
  predicate EndsLiteral(rest: string) {
    rest == [] || (!IsDigit(rest[0]) && rest[0] != 'e' && rest[0] != 'E')
  }

  /** Digits, a point and digits, followed by anything that cannot continue the
      literal, read back as their exact decimal value. */
  lemma ParseFloatDecimal(ip: string, fp: string, rest: string)
    requires |ip| > 0 && AllDigits(ip) && AllDigits(fp)
    requires EndsLiteral(rest)
    ensures ParseFloat(ip + "." + fp + rest) == Finite(DecimalValue(ip, fp))
  {
    var u := ip + "." + fp + rest;
    DecimalLiteralStart(ip, fp, rest);
    DecimalLiteralSpans(ip, fp, rest);
    assert u[..|ip|] + u[|ip| + 1..|ip| + 1 + |fp|] == ip + fp;
    DigitsAppend(ip, fp);
    UnsignedPointed(u, |ip|, |ip| + 1 + |fp|);
    ScaleDown(DigitsValue(ip + fp) as real, |fp|);
    ParseFloatUnsigned(u);
  }

  /** A text that starts with a digit is read as its unsigned literal. */
  lemma ParseFloatUnsigned(u: string)
    requires TrimStart(u) == u && |u| > 0 && IsDigit(u[0]) && !StartsWith(u, "Infinity")
    ensures UnsignedDecimal(u).Some? && ParseFloat(u) == Finite(UnsignedDecimal(u).value)
  {
  }

  /** An unsigned literal with a point and no exponent. */
  lemma UnsignedPointed(u: string, i: nat, j: nat)
    requires 0 < i < j <= |u| && u[i] == '.'
    requires SpanEnd(u, 0, IsDigit) == i && SpanEnd(u, i + 1, IsDigit) == j && ExponentAt(u, j) == 0
    requires AllDigits(u[..i] + u[i + 1..j])
    ensures var frac := u[i + 1..j];
      UnsignedDecimal(u) == Some(Scale(DigitsValue(u[..i] + frac) as real, 0 - |frac|))
  {
  }

  /** Two runs of digits make one. */
  lemma DigitsAppend(a: string, b: string)
    requires AllDigits(a) && AllDigits(b)
    ensures AllDigits(a + b)
  {
    forall k | 0 <= k < |a + b| ensures IsDigit((a + b)[k]) {
      if k >= |a| {
        assert (a + b)[k] == b[k - |a|];
      }
    }
  }

  /** A negative power of ten divides. */
  lemma ScaleDown(v: real, n: nat)
    ensures Scale(v, 0 - n) == v / Pow10(n) as real
  {
    if n == 0 {
      assert Pow10(0) == 1;
    }
  }

  /** A decimal literal starts with a digit: nothing to skip, no sign, not `Infinity`. */
  lemma DecimalLiteralStart(ip: string, fp: string, rest: string)
    requires |ip| > 0 && AllDigits(ip)
    ensures var u := ip + "." + fp + rest;
      TrimStart(u) == u && u[0] == ip[0] && IsDigit(u[0]) && !StartsWith(u, "Infinity")
  {
    var u := ip + "." + fp + rest;
    assert u[0] == ip[0];
    SpanEndIs(u, 0, 0, IsJsSpace);
  }

  /** The integer digits of a decimal literal end at its point, the fraction
      digits at the end of the literal, and no exponent follows. */
  lemma DecimalLiteralSpans(ip: string, fp: string, rest: string)
    requires AllDigits(ip) && AllDigits(fp)
    requires EndsLiteral(rest)
    ensures var u := ip + "." + fp + rest; var j := |ip| + 1 + |fp|;
      j <= |u| && u[|ip|] == '.' && SpanEnd(u, 0, IsDigit) == |ip| && SpanEnd(u, |ip| + 1, IsDigit) == j &&
      u[..|ip|] == ip && u[|ip| + 1..j] == fp && ExponentAt(u, j) == 0
  {
    var u := ip + "." + fp + rest;
    SpanEndIs(u, 0, |ip|, IsDigit);
    SpanEndIs(u, |ip| + 1, |ip| + 1 + |fp|, IsDigit);
    assert u[..|ip|] == ip;
    assert u[|ip| + 1..|ip| + 1 + |fp|] == fp;
    var j := |ip| + 1 + |fp|;
    if j < |u| {
      assert u[j] == rest[0];
    }
  }

  /** The decimal text of a natural number, followed by anything that cannot
      continue the literal, reads back as that number. */
  lemma ParseFloatOfNat(n: nat, rest: string)
    requires EndsLiteral(rest) && (rest == [] || rest[0] != '.')
    ensures ParseFloat(NatToString(n) + rest) == Finite(n as real)
  {
    var ip := NatToString(n);
    var u := ip + rest;
    IntegerLiteralStart(ip, rest);
    IntegerLiteralSpans(ip, rest);
    DigitsOfNat(n);
    UnsignedInteger(u, |ip|, n);
    ParseFloatUnsigned(u);
  }

  /** A numeral starts with a digit: nothing to skip, no sign, not `Infinity`. */
  lemma IntegerLiteralStart(ip: string, rest: string)
    requires |ip| > 0 && AllDigits(ip)
    ensures var u := ip + rest;
      TrimStart(u) == u && |u| > 0 && IsDigit(u[0]) && !StartsWith(u, "Infinity")
  {
    var u := ip + rest;
    assert u[0] == ip[0];
    SpanEndIs(u, 0, 0, IsJsSpace);
  }

  /** The digits of a numeral followed by neither a point nor an exponent end
      where the numeral ends. */
  lemma IntegerLiteralSpans(ip: string, rest: string)
    requires |ip| > 0 && AllDigits(ip)
    requires EndsLiteral(rest) && (rest == [] || rest[0] != '.')
    ensures var u := ip + rest; var i := |ip|;
      i <= |u| && SpanEnd(u, 0, IsDigit) == i && !(i < |u| && u[i] == '.') &&
      ExponentAt(u, i) == 0 && u[..i] == ip
  {
    var u := ip + rest;
    SpanEndIs(u, 0, |ip|, IsDigit);
    assert u[..|ip|] == ip;
    if |ip| < |u| {
      assert u[|ip|] == rest[0];
    }
  }

  /** An unsigned literal without a point or an exponent is its digits' value. */
  lemma UnsignedInteger(u: string, i: nat, n: nat)
    requires 0 < i <= |u| && SpanEnd(u, 0, IsDigit) == i && !(i < |u| && u[i] == '.')
    requires ExponentAt(u, i) == 0 && AllDigits(u[..i]) && DigitsValue(u[..i]) == n
    ensures UnsignedDecimal(u) == Some(n as real)
  {
    assert u[..i] + "" == u[..i];
    assert Scale(n as real, 0) == n as real;
  }

  /** Text that starts with neither a sign, a digit, a point nor `Infinity` is NaN. */
  lemma ParseFloatNaN(s: string)
    requires var t := TrimStart(s); t == [] || (t[0] != '-' && t[0] != '+' && t[0] != '.' && t[0] != 'I' && !IsDigit(t[0]))
    ensures ParseFloat(s) == NaN
  {
    var t := TrimStart(s);
    if |t| > 0 {
      assert !StartsWith(t, "Infinity") by { assert t[0] != 'I'; }
    }
  }

  // ---------------------------------------------------------------- fields and lines

  /** A run of padding between two columns of a report: white space, at least one
      character, but no line feed. */
  predicate IsGap(g: string) {
    |g| > 0 && forall k :: 0 <= k < |g| ==> IsJsSpace(g[k]) && g[k] != '\n'
  }

  /** A line laid out in columns: `fields[0] + gaps[0] + fields[1] + ... + fields[n]`,
      the way `df` and `free` pad their output. */
  function JoinAligned(fields: seq<string>, gaps: seq<string>): string
    requires |fields| >= 1 && |gaps| == |fields| - 1
    decreases |fields|
  {
    if |fields| == 1 then fields[0] else fields[0] + gaps[0] + JoinAligned(fields[1..], gaps[1..])
  }

  /** Fields without white space, all but the first non-empty, laid out with any
      padding, split back into the same fields. */
  lemma {:induction false} SplitWsJoin(fields: seq<string>, gaps: seq<string>)
    requires |fields| >= 1 && |gaps| == |fields| - 1
    requires forall k :: 0 <= k < |fields| ==> NoSpace(fields[k])
    requires forall k :: 1 <= k < |fields| ==> fields[k] != ""
    requires forall k :: 0 <= k < |gaps| ==> IsGap(gaps[k])
    ensures SplitWs(JoinAligned(fields, gaps)) == fields
    decreases |fields|
  {
    if |fields| == 1 {
      SplitWsSingle(fields[0]);
    } else {
      var tail := fields[1..];
      var gs := gaps[1..];
      assert tail[0] == fields[1];
      assert forall k :: 0 <= k < |gs| ==> gs[k] == gaps[k + 1];
      SplitWsJoin(tail, gs);
      var rest := JoinAligned(tail, gs);
      JoinAlignedHead(tail, gs);
      assert rest[0] == fields[1][0];
      assert IsGap(gaps[0]);
      SplitWsCons(fields[0], gaps[0], rest);
      assert fields == [fields[0]] + tail;
    }
  }

  /** The laid-out line starts with the first field. */
  lemma {:induction false} JoinAlignedHead(fields: seq<string>, gaps: seq<string>)
    requires |fields| >= 1 && |gaps| == |fields| - 1
    ensures var j := JoinAligned(fields, gaps); |fields[0]| <= |j| && j[..|fields[0]|] == fields[0]
  {
    if |fields| > 1 {
      var j := JoinAligned(fields, gaps);
      assert j == fields[0] + (gaps[0] + JoinAligned(fields[1..], gaps[1..]));
    }
  }

  /** The laid-out line ends with the last field. */
  lemma {:induction false} JoinAlignedLast(fields: seq<string>, gaps: seq<string>)
    requires |fields| >= 1 && |gaps| == |fields| - 1 && fields[|fields| - 1] != ""
    ensures var j := JoinAligned(fields, gaps); var l := fields[|fields| - 1]; |j| > 0 && j[|j| - 1] == l[|l| - 1]
    decreases |fields|
  {
    if |fields| > 1 {
      var tail := fields[1..];
      assert tail[|tail| - 1] == fields[|fields| - 1];
      JoinAlignedLast(tail, gaps[1..]);
    }
  }

  /** Fields without white space, laid out with padding, hold no line feed. */
  lemma {:induction false} JoinAlignedNoLineFeed(fields: seq<string>, gaps: seq<string>)
    requires |fields| >= 1 && |gaps| == |fields| - 1
    requires forall k :: 0 <= k < |fields| ==> NoSpace(fields[k])
    requires forall k :: 0 <= k < |gaps| ==> IsGap(gaps[k])
    ensures '\n' !in JoinAligned(fields, gaps)
    decreases |fields|
  {
    if |fields| > 1 {
      var tail := fields[1..];
      var gs := gaps[1..];
      assert forall k :: 0 <= k < |tail| ==> tail[k] == fields[k + 1];
      assert forall k :: 0 <= k < |gs| ==> gs[k] == gaps[k + 1];
      JoinAlignedNoLineFeed(tail, gs);
      var h := fields[0];
      var g := gaps[0];
      var r := JoinAligned(tail, gs);
      var j := JoinAligned(fields, gaps);
      assert j == h + g + r;
      assert IsGap(g);
      forall k | 0 <= k < |j| ensures j[k] != '\n' {
        if k < |h| {
          assert j[k] == h[k];
        } else if k < |h| + |g| {
          assert j[k] == g[k - |h|];
        } else {
          assert j[k] == r[k - |h| - |g|];
        }
      }
    } else {
      assert forall k :: 0 <= k < |fields[0]| ==> fields[0][k] != '\n';
    }
  }

  /** Decimal digits are not white space. */
  lemma DigitsNoSpace(s: string)
    requires AllDigits(s)
    ensures NoSpace(s)
  {
  }

  /** Digits never contain a text that starts with a non-digit. */
  lemma DigitsExclude(s: string, w: string)
    requires AllDigits(s) && |w| > 0 && !IsDigit(w[0])
    ensures !Contains(s, w)
  {
    forall i | 0 <= i <= |s| - |w| ensures !ContainsAt(s, i, w) {
      assert s[i..i + |w|][0] == s[i];
    }
  }

  /** What occurs in a slice occurs in the whole text. */
  lemma ContainsInside(s: string, i: nat, j: nat, w: string)
    requires i <= j <= |s|
    requires Contains(s[i..j], w)
    ensures Contains(s, w)
  {
    var t := s[i..j];
    var k :| 0 <= k <= |t| - |w| && ContainsAt(t, k, w);
    var a := s[i + k..i + k + |w|];
    var b := t[k..k + |w|];
    forall m | 0 <= m < |w| ensures a[m] == b[m] {
      assert t[k + m] == s[i + k + m];
    }
    assert a == b;
    assert ContainsAt(s, i + k, w);
  }

  /** What occurs in one of the lines occurs in the text. */
  lemma {:induction false} ContainsInLines(s: string, k: nat, w: string)
    requires k < |SplitLines(s)| && Contains(SplitLines(s)[k], w)
    ensures Contains(s, w)
    decreases |s|
  {
    match FirstOccurrence(s, "\n")
    case None =>
      assert s[0..|s|] == s;
      ContainsInside(s, 0, |s|, w);
    case Some(i) =>
      if k == 0 {
        ContainsInside(s, 0, i, w);
      } else {
        ContainsInLines(s[i + 1..], k - 1, w);
        assert s[i + 1..][0..|s| - i - 1] == s[i + 1..];
        assert s[i + 1..|s|] == s[i + 1..];
        ContainsInside(s, i + 1, |s|, w);
      }
  }

  /** What occurs in the trimmed text occurs in the text. */
  lemma ContainsInTrim(s: string, w: string)
    requires Contains(Trim(s), w)
    ensures Contains(s, w)
  {
    var i := LeadingSpace(s);
    ContainsInside(s, i, i + |Trim(s)|, w);
  }

  /** A line that starts with `w` contains it. */
  lemma StartsWithContains(s: string, w: string)
    requires StartsWith(s, w)
    ensures Contains(s, w)
  {
    assert ContainsAt(s, 0, w);
  }

  /** `lines.findIndex(p)`, `None` for -1: the first line satisfying `p`. */
  function FindIndex(lines: seq<string>, p: string -> bool): (r: Option<nat>)
    ensures r.Some? ==> r.value < |lines| && p(lines[r.value]) && forall j :: 0 <= j < r.value ==> !p(lines[j])
    ensures r.None? ==> forall j :: 0 <= j < |lines| ==> !p(lines[j])
  {
    FindIndexFrom(lines, p, 0)
  }

  function FindIndexFrom(lines: seq<string>, p: string -> bool, k: nat): (r: Option<nat>)
    requires k <= |lines|
    ensures r.Some? ==> k <= r.value < |lines| && p(lines[r.value]) && forall j :: k <= j < r.value ==> !p(lines[j])
    ensures r.None? ==> forall j :: k <= j < |lines| ==> !p(lines[j])
    decreases |lines| - k
  {
    if k == |lines| then None else if p(lines[k]) then Some(k) else FindIndexFrom(lines, p, k + 1)
  }
}
