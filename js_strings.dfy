/**
 * The ECMAScript String built-ins that the client code relies on, stated over Dafny
 * strings (sequences of Unicode scalar values).  Searching, `replace` with a string
 * pattern (including the `$` patterns of its replacement string), `trim`, ASCII case
 * mapping, `slice`, `padStart` and the decimal form of integers.
 */
module JsStrings {
  import opened Wrappers

  /** A JavaScript value that is a string or null, read as a condition. */
  predicate Truthy(s: Option<string>) {
    s.Some? && s.value != ""
  }

  // ------------------------------------------------------------------
  // Searching: indexOf, includes, startsWith
  // ------------------------------------------------------------------

  /** `p` occurs in `s` starting at position `i`. */
  predicate OccursAt(s: string, p: string, i: int) {
    0 <= i && i + |p| <= |s| && s[i..i + |p|] == p
  }

  /** String.prototype.startsWith. */
  predicate StartsWith(s: string, p: string) {
    OccursAt(s, p, 0)
  }

  lemma StartsWithConcat(a: string, b: string)
    ensures StartsWith(a + b, a)
  {
    assert (a + b)[..|a|] == a;
  }

  lemma StartsWithPrefix(s: string, a: string, b: string)
    requires StartsWith(s, a + b)
    ensures StartsWith(s, a)
  {
    assert s[..|a|] == (a + b)[..|a|];
  }

  lemma StartsWithExtend(s: string, t: string, p: string)
    requires StartsWith(s, p)
    ensures StartsWith(s + t, p)
  {
    assert (s + t)[..|p|] == s[..|p|];
  }

  /** A mismatch at position `k` rules a prefix out. */
  lemma NotStartsWith(s: string, p: string, k: nat)
    requires k < |p| && k < |s| && s[k] != p[k]
    ensures !StartsWith(s, p)
  {
    if |p| <= |s| {
      assert s[..|p|][k] == s[k];
    }
  }

  /** String.prototype.indexOf(p, from): the first position at or after `from` where `p` occurs. */
  function IndexOf(s: string, p: string, from: nat): (r: Option<nat>)
    ensures r.Some? ==> from <= r.value && OccursAt(s, p, r.value)
    ensures r.Some? ==> forall j :: from <= j < r.value ==> !OccursAt(s, p, j)
    ensures r.None? ==> forall j :: from <= j ==> !OccursAt(s, p, j)
    decreases |s| - from
  {
    if from + |p| > |s| then None
    else if s[from..from + |p|] == p then Some(from)
    else IndexOf(s, p, from + 1)
  }

  /** String.prototype.includes. */
  function Includes(s: string, p: string): (b: bool)
    ensures b <==> exists i :: OccursAt(s, p, i)
  {
    IndexOf(s, p, 0).Some?
  }

  /** An occurrence inside a piece is an occurrence inside any string containing that piece. */
  lemma OccursInConcat(a: string, b: string, c: string, p: string, i: int)
    requires OccursAt(b, p, i)
    ensures OccursAt(a + b + c, p, |a| + i)
  {
    assert (a + b + c)[|a| + i..|a| + i + |p|] == b[i..i + |p|];
  }

  // ------------------------------------------------------------------
  // String.prototype.replace with a string pattern (first occurrence only)
  // ------------------------------------------------------------------

  /**
   * GetSubstitution for a string pattern, which has no capture groups:
   * "$$" gives "$", "$&" the matched text, "$`" the text before the match,
   * "$'" the text after it; every other "$" is kept literally.
   */
  function Substitute(template: string, matched: string, before: string, after: string): string
    decreases |template|
  {
    if |template| == 0 then ""
    else if template[0] == '$' && |template| >= 2 then
      if template[1] == '$' then "$" + Substitute(template[2..], matched, before, after)
      else if template[1] == '&' then matched + Substitute(template[2..], matched, before, after)
      else if template[1] == '`' then before + Substitute(template[2..], matched, before, after)
      else if template[1] == '\'' then after + Substitute(template[2..], matched, before, after)
      else "$" + Substitute(template[1..], matched, before, after)
    else [template[0]] + Substitute(template[1..], matched, before, after)
  }

  /** A replacement string without "$" is inserted literally. */
  lemma {:induction false} SubstituteLiteral(template: string, matched: string, before: string, after: string)
    requires forall i :: 0 <= i < |template| ==> template[i] != '$'
    ensures Substitute(template, matched, before, after) == template
  {
    if |template| > 0 {
      SubstituteLiteral(template[1..], matched, before, after);
    }
  }

  /**
   * No "$$", "$&", "$`" or "$'" in `t`: the only patterns `replace` expands when the
   * pattern is a string.  A "$" before any other character is copied as it stands.
   */
  predicate NoDollarPattern(t: string) {
    forall i :: 0 <= i < |t| - 1 && t[i] == '$' ==>
      t[i + 1] != '$' && t[i + 1] != '&' && t[i + 1] != '`' && t[i + 1] != '\''
  }

  /** A replacement string without a "$" pattern is inserted literally. */
  lemma {:induction false} SubstituteQuiet(template: string, matched: string, before: string, after: string)
    requires NoDollarPattern(template)
    ensures Substitute(template, matched, before, after) == template
  {
    if |template| > 0 {
      var tail := template[1..];
      assert forall i :: 0 <= i < |tail| ==> tail[i] == template[i + 1];
      SubstituteQuiet(tail, matched, before, after);
    }
  }

  /** `s.replace(p, rep)` for a string `p`: only the first occurrence is replaced. */
  function ReplaceFirst(s: string, p: string, rep: string): string {
    match IndexOf(s, p, 0)
    case None => s
    case Some(i) => s[..i] + Substitute(rep, p, s[..i], s[i + |p|..]) + s[i + |p|..]
  }

  /** When `p` first occurs at `i` and `rep` has no "$", replace splices `rep` in at `i`. */
  lemma ReplaceFirstAt(s: string, p: string, rep: string, i: nat)
    requires OccursAt(s, p, i)
    requires forall j :: 0 <= j < i ==> !OccursAt(s, p, j)
    requires forall j :: 0 <= j < |rep| ==> rep[j] != '$'
    ensures ReplaceFirst(s, p, rep) == s[..i] + rep + s[i + |p|..]
  {
    assert IndexOf(s, p, 0) == Some(i);
    SubstituteLiteral(rep, p, s[..i], s[i + |p|..]);
  }

  // ------------------------------------------------------------------
  // Whitespace and String.prototype.trim
  // ------------------------------------------------------------------

  /** ECMAScript LineTerminator. */
  predicate IsLineTerminator(c: char) {
    c == '\n' || c == '\r' || c == '\U{2028}' || c == '\U{2029}'
  }

  /** ECMAScript WhiteSpace or LineTerminator: what `\s` matches and `trim` removes. */
  predicate IsJsSpace(c: char) {
    || IsLineTerminator(c)
    || c == '\t' || c == '\U{000B}' || c == '\U{000C}' || c == ' ' || c == '\U{00A0}'
    || c == '\U{1680}' || ('\U{2000}' <= c <= '\U{200A}') || c == '\U{202F}' || c == '\U{205F}'
    || c == '\U{3000}' || c == '\U{FEFF}'
  }

  predicate AllSpace(s: string) {
    forall i :: 0 <= i < |s| ==> IsJsSpace(s[i])
  }

  /** The number of whitespace characters at the front of `s`. */
  function LeadingSpace(s: string): (n: nat)
    ensures n <= |s| && AllSpace(s[..n])
    ensures n < |s| ==> !IsJsSpace(s[n])
  {
    if s != [] && IsJsSpace(s[0]) then 1 + LeadingSpace(s[1..]) else 0
  }

  /** The number of whitespace characters at the end of `s`. */
  function TrailingSpace(s: string): (n: nat)
    ensures n <= |s| && AllSpace(s[|s| - n..])
    ensures n < |s| ==> !IsJsSpace(s[|s| - n - 1])
  {
    if s != [] && IsJsSpace(s[|s| - 1]) then 1 + TrailingSpace(s[..|s| - 1]) else 0
  }

  function TrimStart(s: string): string {
    s[LeadingSpace(s)..]
  }

  function TrimEnd(s: string): string {
    s[..|s| - TrailingSpace(s)]
  }

  /** String.prototype.trim. */
  function Trim(s: string): string {
    TrimStart(TrimEnd(s))
  }

  /** `trim` strips exactly the leading and trailing whitespace: s == lead + Trim(s) + trail. */
  lemma TrimShape(s: string) returns (lead: string, trail: string)
    ensures s == lead + Trim(s) + trail && AllSpace(lead) && AllSpace(trail)
    ensures Trim(s) != [] ==> !IsJsSpace(Trim(s)[0]) && !IsJsSpace(Trim(s)[|Trim(s)| - 1])
  {
    var e := TrimEnd(s);
    var t := TrimStart(e);
    assert Trim(s) == t;
    lead, trail := e[..|e| - |t|], s[|e|..];
    calc {
      s;
      s[..|e|] + s[|e|..];
      e + trail;
      e[..|e| - |t|] + e[|e| - |t|..] + trail;
      lead + t + trail;
    }
    if t != [] {
      assert t[|t| - 1] == e[|e| - 1];
    }
  }

  /** A string trims to "" exactly when it is all whitespace. */
  lemma TrimEmptyIff(s: string)
    ensures Trim(s) == [] <==> AllSpace(s)
  {
    var lead, trail := TrimShape(s);
    if Trim(s) == [] {
      assert s == lead + trail;
      forall i | 0 <= i < |s| ensures IsJsSpace(s[i]) {
        if i < |lead| { assert s[i] == lead[i]; } else { assert s[i] == trail[i - |lead|]; }
      }
    } else {
      var t := Trim(s);
      assert s[|lead|] == t[0];
    }
  }

  /** Appending text never makes a non-blank string blank. */
  lemma TrimNonEmptyExtends(s: string, t: string)
    requires Trim(s) != []
    ensures Trim(s + t) != []
  {
    TrimEmptyIff(s);
    TrimEmptyIff(s + t);
    var i :| 0 <= i < |s| && !IsJsSpace(s[i]);
    assert (s + t)[i] == s[i];
  }

  // ------------------------------------------------------------------
  // split
  // ------------------------------------------------------------------

  /** The number of occurrences of the character `c` in `s`. */
  function CountChar(s: string, c: char): (n: nat)
    ensures n <= |s|
    ensures n == 0 <==> forall i :: 0 <= i < |s| ==> s[i] != c
  {
    if s == [] then 0 else (if s[0] == c then 1 else 0) + CountChar(s[1..], c)
  }

  lemma {:induction false} CountCharAppend(a: string, b: string, c: char)
    ensures CountChar(a + b, c) == CountChar(a, c) + CountChar(b, c)
  {
    if a != [] {
      CountCharAppend(a[1..], b, c);
      calc {
        CountChar(a + b, c);
        (if a[0] == c then 1 else 0) + CountChar((a + b)[1..], c);
        { assert (a + b)[1..] == a[1..] + b; }
        (if a[0] == c then 1 else 0) + CountChar(a[1..] + b, c);
      }
    } else {
      assert a + b == b;
    }
  }

  /** `s.split(sep).length` for a one-character separator: one piece more than separators. */
  function SplitLength(s: string, sep: char): (n: nat)
    ensures n >= 1
  {
    CountChar(s, sep) + 1
  }

  /** Joining two texts with the separator adds their piece counts. */
  lemma SplitLengthJoin(a: string, b: string, sep: char)
    ensures SplitLength(a + [sep] + b, sep) == SplitLength(a, sep) + SplitLength(b, sep)
  {
    CountCharAppend(a, [sep], sep);
    CountCharAppend(a + [sep], b, sep);
  }

  // ------------------------------------------------------------------
  // Case mapping (ASCII letters) and word characters
  // ------------------------------------------------------------------

  function LowerChar(c: char): char {
    if 'A' <= c <= 'Z' then (c as int + 32) as char else c
  }

  /** String.prototype.toLowerCase, restricted to the ASCII letters. */
  function ToLower(s: string): (r: string)
    ensures |r| == |s| && forall i :: 0 <= i < |s| ==> r[i] == LowerChar(s[i])
  {
    seq(|s|, i requires 0 <= i < |s| => LowerChar(s[i]))
  }

  function UpperChar(c: char): char {
    if 'a' <= c <= 'z' then (c as int - 32) as char else c
  }

  /** The regular-expression class `\w` (without the `u` flag): [A-Za-z0-9_]. */
  predicate IsWordChar(c: char) {
    ('a' <= c <= 'z') || ('A' <= c <= 'Z') || ('0' <= c <= '9') || c == '_'
  }

  // ------------------------------------------------------------------
  // slice and padStart
  // ------------------------------------------------------------------

  /** A relative index of `slice`: negative counts from the end; clamped to [0, len]. */
  function ClampIndex(k: int, len: nat): (r: nat)
    ensures r <= len
  {
    if k < 0 then (if len + k < 0 then 0 else len + k) else if k > len then len else k
  }

  /** String.prototype.slice(start, end). */
  function Slice(s: string, start: int, end: int): string {
    var from, to := ClampIndex(start, |s|), ClampIndex(end, |s|);
    if from >= to then "" else s[from..to]
  }

  /** String.prototype.padStart(n, fill) with a one-character filler. */
  function PadStart(s: string, n: nat, fill: char): (r: string)
    ensures |r| == if |s| >= n then |s| else n
  {
    if |s| >= n then s else seq(n - |s|, _ => fill) + s
  }

  // ------------------------------------------------------------------
  // Decimal form of integers (Number.prototype.toString for integral values)
  // ------------------------------------------------------------------

  predicate IsDigit(c: char) {
    '0' <= c <= '9'
  }

  predicate AllDigits(s: string) {
    forall i :: 0 <= i < |s| ==> IsDigit(s[i])
  }

  function DigitChar(d: nat): (c: char)
    requires d < 10
    ensures IsDigit(c) && c as int - '0' as int == d
  {
    ('0' as int + d) as char
  }

  /** The decimal digits of a natural number, without leading zeros. */
  function NatToString(n: nat): (r: string)
    ensures |r| >= 1 && AllDigits(r)
    ensures |r| > 1 ==> r[0] != '0'
    decreases n
  {
    if n < 10 then [DigitChar(n)] else NatToString(n / 10) + [DigitChar(n % 10)]
  }

  /** The value of a string of decimal digits. */
  function DecimalValue(s: string): nat
    requires AllDigits(s)
    decreases |s|
  {
    if s == [] then 0 else 10 * DecimalValue(s[..|s| - 1]) + (s[|s| - 1] as int - '0' as int)
  }

  /** Reading the decimal form back gives the number. */
  lemma {:induction false} DecimalRoundTrip(n: nat)
    ensures DecimalValue(NatToString(n)) == n
    decreases n
  {
    if n >= 10 {
      DecimalRoundTrip(n / 10);
      var s := NatToString(n);
      assert s[..|s| - 1] == NatToString(n / 10);
    }
  }

  /** Distinct numbers have distinct decimal forms. */
  lemma NatToStringInjective(m: nat, n: nat)
    requires NatToString(m) == NatToString(n)
    ensures m == n
  {
    DecimalRoundTrip(m);
    DecimalRoundTrip(n);
  }

  /** Number.prototype.toString for an integral value. */
  function IntToString(i: int): string {
    if i < 0 then "-" + NatToString(-i) else NatToString(i)
  }
}
