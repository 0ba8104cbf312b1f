/**
 * The URL pass over text whose links have been swapped for placeholders, with the
 * placeholders fenced by '<' and '>' as the corrected design writes them.  A URL run stops
 * at the '<' of a placeholder, and no match starts inside one, so the pass converts each
 * gap between placeholders on its own and leaves the placeholders in place.  Restoring
 * then puts every protected link back next to the converted URLs.
 */
module ProtectedUrls {
  import opened Wrappers
  import opened JsStrings
  import opened Occurrences
  import opened MarkdownPreprocess
  import opened PreprocessProperties
  import opened UrlConversion
  import PreprocessFindings

  // ------------------------------------------------------------------
  // Moving the pass along a text
  // ------------------------------------------------------------------

  /** A match found in `s[d..]` seen from inside `s`. */
  function ShiftMatch(r: Option<UrlMatch>, d: nat): Option<UrlMatch> {
    match r
    case None => None
    case Some(m) => Some(m.(end := d + m.end))
  }

  // Each lemma below takes a position `i` in `s` next to the position `j` in `s[d..]` that
  // it stands for, so that its terms are the very ones the definitions unfold to.

  lemma SchemeDrop(s: string, d: nat, j: nat, i: nat)
    requires d <= |s| && i == d + j
    ensures HttpsAt(s, i) <==> HttpsAt(s[d..], j)
    ensures HttpAt(s, i) <==> HttpAt(s[d..], j)
  {
  }

  lemma RunDrop(s: string, d: nat, j: nat, i: nat)
    requires i <= |s| && i == d + j
    ensures RunEnd(s, i) == d + RunEnd(s[d..], j)
  {
    var e := RunEnd(s[d..], j);
    RunEndSpec(s[d..], j);
    RunEndSpec(s, i);
    forall k | i <= k < d + e ensures IsUrlChar(s[k]) {
      assert s[k] == s[d..][k - d];
    }
    RunUnique(s, i, d + e, RunEnd(s, i));
  }

  lemma UrlEndDrop(s: string, d: nat, j: nat, i: nat)
    requires d <= |s| && i == d + j
    ensures UrlEnd(s, i) == if UrlEnd(s[d..], j).Some? then Some(d + UrlEnd(s[d..], j).value) else None
  {
    SchemeDrop(s, d, j, i);
    if HttpsAt(s[d..], j) {
      RunDrop(s, d, j + 8, i + 8);
    } else if HttpAt(s[d..], j) {
      RunDrop(s, d, j + 7, i + 7);
    }
  }

  lemma UrlEndDropSome(s: string, d: nat, j: nat, i: nat)
    requires d <= |s| && i == d + j && UrlEnd(s[d..], j).Some?
    ensures UrlEnd(s, i) == Some(d + UrlEnd(s[d..], j).value)
  {
    UrlEndDrop(s, d, j, i);
  }

  lemma UrlEndDropNone(s: string, d: nat, j: nat, i: nat)
    requires d <= |s| && i == d + j && UrlEnd(s[d..], j).None?
    ensures UrlEnd(s, i).None?
  {
    UrlEndDrop(s, d, j, i);
  }

  lemma SliceDrop(s: string, d: nat, x: nat, y: nat, i: nat)
    requires d <= |s| && x <= y <= |s| - d && i == d + x
    ensures s[i..d + y] == s[d..][x..y]
  {
  }

  lemma UrlEndDropNext(s: string, d: nat, j: nat, i: nat)
    requires d <= |s| && i == d + j && UrlEnd(s[d..], j + 1).Some?
    ensures UrlEnd(s, i + 1) == Some(d + UrlEnd(s[d..], j + 1).value)
  {
    UrlEndDrop(s, d, j + 1, i + 1);
  }

  lemma SliceDropNext(s: string, d: nat, j: nat, y: nat, i: nat)
    requires d <= |s| && j < y <= |s| - d && i == d + j
    ensures s[i + 1..d + y] == s[d..][j + 1..y]
  {
  }

  lemma LineStartDrop(s: string, d: nat, j: nat, i: nat, lineStart: bool)
    requires i <= |s| && i == d + j
    ensures AtLineStart(s, i, lineStart) == AtLineStart(s[d..], j, AtLineStart(s, d, lineStart))
  {
  }

  /** No line-start match in `s[d..]` is none in `s`. */
  lemma NoLineMatchDrop(s: string, d: nat, j: nat, i: nat, lineStart: bool)
    requires i < |s| && i == d + j
    requires !(AtLineStart(s[d..], j, AtLineStart(s, d, lineStart)) && UrlEnd(s[d..], j).Some?)
    ensures !(AtLineStart(s, i, lineStart) && UrlEnd(s, i).Some?)
  {
    LineStartDrop(s, d, j, i, lineStart);
    if AtLineStart(s[d..], j, AtLineStart(s, d, lineStart)) {
      UrlEndDropNone(s, d, j, i);
    }
  }

  /** A match at a line start in `s[d..]` is one in `s`. */
  lemma DropLineStart(s: string, d: nat, j: nat, i: nat, lineStart: bool)
    requires i < |s| && i == d + j
    requires AtLineStart(s[d..], j, AtLineStart(s, d, lineStart)) && UrlEnd(s[d..], j).Some?
    ensures var e := UrlEnd(s[d..], j).value;
      UrlMatchAt(s, i, lineStart) == Some(UrlMatch("", s[d..][j..e], d + e))
  {
    var e := UrlEnd(s[d..], j).value;
    UrlEndDropSome(s, d, j, i);
    LineStartDrop(s, d, j, i, lineStart);
    SliceDrop(s, d, j, e, i);
    MatchAtLineStart(s, i, UrlEnd(s, i).value, lineStart);
  }

  /** A match after white space in `s[d..]` is one in `s`. */
  lemma DropAfterSpace(s: string, d: nat, j: nat, i: nat, lineStart: bool)
    requires i < |s| && i == d + j
    requires !(AtLineStart(s[d..], j, AtLineStart(s, d, lineStart)) && UrlEnd(s[d..], j).Some?)
    requires IsJsSpace(s[i]) && UrlEnd(s[d..], j + 1).Some?
    ensures var e := UrlEnd(s[d..], j + 1).value;
      UrlMatchAt(s, i, lineStart) == Some(UrlMatch([s[i]], s[d..][j + 1..e], d + e))
  {
    var e := UrlEnd(s[d..], j + 1).value;
    NoLineMatchDrop(s, d, j, i, lineStart);
    UrlEndDropNext(s, d, j, i);
    SliceDropNext(s, d, j, e, i);
    MatchAfterSpace(s, i, UrlEnd(s, i + 1).value, lineStart);
  }

  /** No match in `s[d..]` is no match in `s`. */
  lemma DropNoMatch(s: string, d: nat, j: nat, i: nat, lineStart: bool)
    requires i < |s| && i == d + j
    requires !(AtLineStart(s[d..], j, AtLineStart(s, d, lineStart)) && UrlEnd(s[d..], j).Some?)
    requires !(IsJsSpace(s[i]) && UrlEnd(s[d..], j + 1).Some?)
    ensures UrlMatchAt(s, i, lineStart).None?
  {
    NoLineMatchDrop(s, d, j, i, lineStart);
    if IsJsSpace(s[i]) {
      UrlEndDropNone(s, d, j + 1, i + 1);
    }
    NoMatchHere(s, i, lineStart);
  }

  lemma StepLine(s: string, d: nat, j: nat, i: nat, lineStart: bool)
    requires i < |s| && i == d + j
    requires AtLineStart(s[d..], j, AtLineStart(s, d, lineStart)) && UrlEnd(s[d..], j).Some?
    ensures UrlMatchAt(s, i, lineStart) == ShiftMatch(UrlMatchAt(s[d..], j, AtLineStart(s, d, lineStart)), d)
  {
    DropLineStart(s, d, j, i, lineStart);
    MatchAtLineStart(s[d..], j, UrlEnd(s[d..], j).value, AtLineStart(s, d, lineStart));
  }

  lemma StepSpace(s: string, d: nat, j: nat, i: nat, lineStart: bool)
    requires i < |s| && i == d + j
    requires !(AtLineStart(s[d..], j, AtLineStart(s, d, lineStart)) && UrlEnd(s[d..], j).Some?)
    requires IsJsSpace(s[d..][j]) && UrlEnd(s[d..], j + 1).Some?
    ensures UrlMatchAt(s, i, lineStart) == ShiftMatch(UrlMatchAt(s[d..], j, AtLineStart(s, d, lineStart)), d)
  {
    assert s[d..][j] == s[i];
    DropAfterSpace(s, d, j, i, lineStart);
    MatchAfterSpace(s[d..], j, UrlEnd(s[d..], j + 1).value, AtLineStart(s, d, lineStart));
  }

  lemma StepNone(s: string, d: nat, j: nat, i: nat, lineStart: bool)
    requires i < |s| && i == d + j
    requires !(AtLineStart(s[d..], j, AtLineStart(s, d, lineStart)) && UrlEnd(s[d..], j).Some?)
    requires !(IsJsSpace(s[d..][j]) && UrlEnd(s[d..], j + 1).Some?)
    ensures UrlMatchAt(s, i, lineStart) == ShiftMatch(UrlMatchAt(s[d..], j, AtLineStart(s, d, lineStart)), d)
  {
    assert s[d..][j] == s[i];
    DropNoMatch(s, d, j, i, lineStart);
    NoMatchHere(s[d..], j, AtLineStart(s, d, lineStart));
  }

  /** Matches in `s[d..]` are the matches of `s` after `d`, with the line start seen at `d`. */
  lemma UrlMatchDrop(s: string, d: nat, j: nat, i: nat, lineStart: bool)
    requires i < |s| && i == d + j
    ensures UrlMatchAt(s, i, lineStart) == ShiftMatch(UrlMatchAt(s[d..], j, AtLineStart(s, d, lineStart)), d)
  {
    var b := s[d..];
    var ls := AtLineStart(s, d, lineStart);
    if AtLineStart(b, j, ls) && UrlEnd(b, j).Some? {
      StepLine(s, d, j, i, lineStart);
    } else if IsJsSpace(b[j]) && UrlEnd(b, j + 1).Some? {
      StepSpace(s, d, j, i, lineStart);
    } else {
      StepNone(s, d, j, i, lineStart);
    }
  }

  /** What one step of the pass over `s` from `i` writes. */
  function StepText(s: string, i: nat, lineStart: bool): string
    requires i < |s|
  {
    match UrlMatchAt(s, i, lineStart)
    case Some(m) => UrlLink(m)
    case None => [s[i]]
  }

  /** Where the pass over `s` goes on after the step at `i`. */
  function StepEnd(s: string, i: nat, lineStart: bool): (e: nat)
    requires i < |s|
    ensures i < e <= |s|
  {
    match UrlMatchAt(s, i, lineStart)
    case Some(m) => m.end
    case None => i + 1
  }

  /** The pass is one step followed by the pass from where that step ends. */
  lemma ConvertStep(s: string, i: nat, lineStart: bool)
    requires i < |s|
    ensures ConvertFrom(s, i, lineStart) == StepText(s, i, lineStart) + ConvertFrom(s, StepEnd(s, i, lineStart), lineStart)
  {
  }

  /** A step at `d + j` in `s` writes what the step at `j` in `s[d..]` writes, and ends `d` further on. */
  lemma StepDrop(s: string, d: nat, j: nat, i: nat, lineStart: bool)
    requires i < |s| && i == d + j
    ensures StepText(s, i, lineStart) == StepText(s[d..], j, AtLineStart(s, d, lineStart))
    ensures StepEnd(s, i, lineStart) == d + StepEnd(s[d..], j, AtLineStart(s, d, lineStart))
  {
    UrlMatchDrop(s, d, j, i, lineStart);
    match UrlMatchAt(s[d..], j, AtLineStart(s, d, lineStart))
    case Some(m) =>
      assert UrlLink(m.(end := d + m.end)) == UrlLink(m);
    case None =>
      assert s[d..][j] == s[i];
  }

  /** The pass over `s` from `i = d + j` is the pass over `s[d..]` from `j`. */
  lemma {:induction false} ConvertDrop(s: string, d: nat, j: nat, i: nat, lineStart: bool)
    requires i <= |s| && i == d + j
    ensures ConvertFrom(s, i, lineStart) == ConvertFrom(s[d..], j, AtLineStart(s, d, lineStart))
    decreases |s| - i
  {
    if i < |s| {
      var b, ls := s[d..], AtLineStart(s, d, lineStart);
      ConvertStep(s, i, lineStart);
      ConvertStep(b, j, ls);
      StepDrop(s, d, j, i, lineStart);
      ConvertDrop(s, d, StepEnd(b, j, ls), StepEnd(s, i, lineStart), lineStart);
    }
  }

  // ------------------------------------------------------------------
  // Cutting the pass where a URL cannot continue
  // ------------------------------------------------------------------

  /** Text that no URL run can enter: empty, or opening with a character outside the URL class. */
  predicate Stops(r: string) {
    r == [] || !IsUrlChar(r[0])
  }

  lemma RunPrefix(g: string, r: string, q: nat)
    requires q <= |g| && Stops(r)
    ensures RunEnd(g + r, q) == RunEnd(g, q)
  {
    var s := g + r;
    var e := RunEnd(g, q);
    RunEndSpec(g, q);
    RunEndSpec(s, q);
    forall k | q <= k < e ensures IsUrlChar(s[k]) {
      assert s[k] == g[k];
    }
    if e < |g| {
      assert s[e] == g[e];
    } else if r != [] {
      assert s[e] == r[0];
    }
    RunUnique(s, q, e, RunEnd(s, q));
  }

  lemma SchemePrefix(g: string, r: string, p: nat)
    requires p <= |g| && Stops(r)
    ensures HttpsAt(g + r, p) <==> HttpsAt(g, p)
    ensures HttpAt(g + r, p) <==> HttpAt(g, p)
  {
  }

  lemma UrlEndPrefix(g: string, r: string, p: nat)
    requires p <= |g| && Stops(r)
    ensures UrlEnd(g + r, p) == UrlEnd(g, p)
  {
    SchemePrefix(g, r, p);
    if HttpsAt(g, p) {
      RunPrefix(g, r, p + 8);
    } else if HttpAt(g, p) {
      RunPrefix(g, r, p + 7);
    }
  }

  lemma SlicePrefix(g: string, r: string, x: nat, y: nat)
    requires x <= y <= |g|
    ensures (g + r)[x..y] == g[x..y]
  {
  }

  lemma UrlMatchPrefix(g: string, r: string, i: nat, lineStart: bool)
    requires i < |g| && Stops(r)
    ensures UrlMatchAt(g + r, i, lineStart) == UrlMatchAt(g, i, lineStart)
  {
    var s := g + r;
    UrlEndPrefix(g, r, i);
    UrlEndPrefix(g, r, i + 1);
    assert s[i] == g[i];
    assert AtLineStart(s, i, lineStart) == AtLineStart(g, i, lineStart) by {
      if i > 0 {
        assert s[i - 1] == g[i - 1];
      }
    }
    if AtLineStart(g, i, lineStart) && UrlEnd(g, i).Some? {
      SlicePrefix(g, r, i, UrlEnd(g, i).value);
    } else if IsJsSpace(g[i]) && UrlEnd(g, i + 1).Some? {
      SlicePrefix(g, r, i + 1, UrlEnd(g, i + 1).value);
    }
  }

  /** A step inside `g` is the same step inside `g + r`. */
  lemma StepPrefix(g: string, r: string, i: nat, lineStart: bool)
    requires i < |g| && Stops(r)
    ensures StepText(g + r, i, lineStart) == StepText(g, i, lineStart)
    ensures StepEnd(g + r, i, lineStart) == StepEnd(g, i, lineStart)
  {
    UrlMatchPrefix(g, r, i, lineStart);
    assert (g + r)[i] == g[i];
  }

  /** The pass over `g + r` is the pass over `g` followed by the pass over what comes after it. */
  lemma {:induction false} ConvertPrefix(g: string, r: string, i: nat, lineStart: bool)
    requires i <= |g| && Stops(r)
    ensures ConvertFrom(g + r, i, lineStart) == ConvertFrom(g, i, lineStart) + ConvertFrom(g + r, |g|, lineStart)
    decreases |g| - i
  {
    var rest := ConvertFrom(g + r, |g|, lineStart);
    if i == |g| {
      assert ConvertFrom(g, i, lineStart) + rest == rest;
    } else {
      var e := StepEnd(g, i, lineStart);
      StepPrefix(g, r, i, lineStart);
      ConvertStep(g + r, i, lineStart);
      ConvertStep(g, i, lineStart);
      ConvertPrefix(g, r, e, lineStart);
      JoinFront(StepText(g, i, lineStart), ConvertFrom(g, e, lineStart), rest);
    }
  }

  // ------------------------------------------------------------------
  // Passing over a placeholder
  // ------------------------------------------------------------------

  /** No match starts in this text: it has no 'h' to open a scheme and no white space. */
  predicate Quiet(n: string) {
    forall k :: 0 <= k < |n| ==> n[k] != 'h' && !IsJsSpace(n[k])
  }

  lemma NoMatchAt(s: string, j: nat, lineStart: bool)
    requires j < |s| && s[j] != 'h' && !IsJsSpace(s[j])
    ensures UrlMatchAt(s, j, lineStart).None?
  {
  }

  lemma SuffixCons(s: string, i: nat)
    requires i < |s|
    ensures s[i..] == [s[i]] + s[i + 1..]
  {
  }

  /** The pass copies a quiet text unchanged. */
  lemma {:induction false} ConvertQuiet(n: string, t: string, j: nat, lineStart: bool)
    requires j <= |n| && Quiet(n)
    ensures ConvertFrom(n + t, j, lineStart) == n[j..] + ConvertFrom(n + t, |n|, lineStart)
    decreases |n| - j
  {
    var rest := ConvertFrom(n + t, |n|, lineStart);
    if j == |n| {
      assert n[j..] + rest == rest;
    } else {
      var s := n + t;
      assert s[j] == n[j];
      NoMatchAt(s, j, lineStart);
      assert ConvertFrom(s, j, lineStart) == [n[j]] + ConvertFrom(s, j + 1, lineStart);
      ConvertQuiet(n, t, j + 1, lineStart);
      SuffixCons(n, j);
      JoinFront([n[j]], n[j + 1..], rest);
    }
  }

  /** Placeholders fenced by '<' and '>', in which no match can start. */
  predicate Placeholders(names: seq<string>) {
    forall k :: 0 <= k < |names| ==> FencedBy(names[k], '<', '>') && Quiet(names[k])
  }

  /** The gaps as the pass writes them: the first at the start of the text, the rest after a '>'. */
  function ConvertGaps(gaps: seq<string>, lineStart: bool): (r: seq<string>)
    ensures |r| == |gaps|
    ensures forall k :: 0 <= k < |gaps| ==> Rewrite(gaps[k], 0, UrlStarts(gaps[k], 0, lineStart && k == 0), lineStart && k == 0, false) == gaps[k]
    decreases |gaps|
  {
    if gaps == [] then []
    else
      var rest := ConvertGaps(gaps[1..], false);
      EraseLinks(gaps[0], 0, UrlStarts(gaps[0], 0, lineStart), lineStart);
      [ConvertFrom(gaps[0], 0, lineStart)] + rest
  }

  lemma InterleaveFront(g: string, n: string, gaps: seq<string>, names: seq<string>)
    requires |gaps| == |names| + 1
    ensures Interleave([g] + gaps, [n] + names) == g + (n + Interleave(gaps, names))
  {
    ConsTail(g, gaps);
    ConsTail(n, names);
  }

  /** The pass over `a + b` from where `b` starts is the pass over `b` alone. */
  lemma ConvertAfter(a: string, b: string, lineStart: bool)
    ensures ConvertFrom(a + b, |a|, lineStart) == ConvertFrom(b, 0, AtLineStart(a + b, |a|, lineStart))
  {
    assert (a + b)[|a|..] == b;
    ConvertDrop(a + b, |a|, 0, |a|, lineStart);
  }

  /** The pass over a gap, a placeholder and the text after it. */
  lemma ConvertAcross(g: string, n: string, rest: string, lineStart: bool)
    requires FencedBy(n, '<', '>') && Quiet(n)
    ensures ConvertFrom(g + (n + rest), 0, lineStart) == ConvertFrom(g, 0, lineStart) + (n + ConvertFrom(rest, 0, false))
  {
    var ls := AtLineStart(g + (n + rest), |g|, lineStart);
    assert (n + rest)[0] == n[0];
    ConvertPrefix(g, n + rest, 0, lineStart);
    ConvertAfter(g, n + rest, lineStart);
    ConvertQuiet(n, rest, 0, ls);
    assert n[0..] == n;
    assert (n + rest)[|n| - 1] == n[|n| - 1];
    ConvertAfter(n, rest, ls);
  }

  /**
   * The URL pass over gaps and placeholders converts each gap on its own and keeps every
   * placeholder: the first gap at the text's start, every later one after a '>'.
   */
  lemma {:induction false} ConvertAroundPlaceholders(gaps: seq<string>, names: seq<string>, lineStart: bool)
    requires |gaps| == |names| + 1 && Placeholders(names)
    ensures ConvertFrom(Interleave(gaps, names), 0, lineStart) == Interleave(ConvertGaps(gaps, lineStart), names)
    decreases |names|
  {
    var cg := ConvertGaps(gaps, lineStart);
    if names == [] {
      assert ConvertFrom(gaps[0], 0, lineStart) == cg[0];
    } else {
      var g, n := gaps[0], names[0];
      var tail := ConvertGaps(gaps[1..], false);
      assert gaps == [g] + gaps[1..] && names == [n] + names[1..];
      InterleaveFront(g, n, gaps[1..], names[1..]);
      ConvertAcross(g, n, Interleave(gaps[1..], names[1..]), lineStart);
      ConvertAroundPlaceholders(gaps[1..], names[1..], false);
      assert cg == [cg[0]] + tail;
      InterleaveFront(cg[0], n, tail, names[1..]);
    }
  }
}
