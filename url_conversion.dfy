/**
 * The URL pass of preprocessMarkdown, `replace(/(^|\s)((?:https?:\/\/)[^\s<>[\]]+)(?!\)|\w)/gm, ...)`,
 * described for every input.  A match is a bare http or https URL standing at a line
 * start or after one white-space character.  The global replace finds its matches from
 * left to right, never passing over a position where one could start, and the output is
 * the input with each match's URL written as the link "[url](url)".  Putting each URL back
 * in place of its link gives the input again.
 */
module UrlConversion {
  import opened Wrappers
  import opened JsStrings
  import opened Occurrences
  import opened MarkdownPreprocess

  // ------------------------------------------------------------------
  // One match
  // ------------------------------------------------------------------

  /**
   * A bare URL from `p` to `e`: the scheme "https://" or "http://", at least one more
   * URL character, and then as many URL characters as there are.
   */
  predicate BareUrl(s: string, p: nat, e: nat) {
    && e <= |s|
    && ((OccursAt(s, "https://", p) && p + 8 < e) || (OccursAt(s, "http://", p) && p + 7 < e))
    && (forall k :: p <= k < e ==> IsUrlChar(s[k]))
    && (e == |s| || !IsUrlChar(s[e]))
  }

  /** The characters of a scheme are URL characters. */
  lemma SchemeChars(s: string, p: nat, scheme: string)
    requires OccursAt(s, scheme, p) && (scheme == "https://" || scheme == "http://")
    ensures forall k :: p <= k < p + |scheme| ==> IsUrlChar(s[k])
  {
    forall k | p <= k < p + |scheme| ensures IsUrlChar(s[k]) {
      CharAt(s, scheme, p, k - p);
    }
  }

  /** "https://" and "http://" never start at the same place. */
  lemma SchemesExclusive(s: string, p: nat)
    requires OccursAt(s, "https://", p)
    ensures !OccursAt(s, "http://", p)
  {
    CharAt(s, "https://", p, 4);
    if OccursAt(s, "http://", p) {
      CharAt(s, "http://", p, 4);
    }
  }

  /** Two maximal runs of URL characters over the same start end at the same place. */
  lemma RunUnique(s: string, q: nat, e: nat, e': nat)
    requires q <= e <= |s| && q <= e' <= |s|
    requires forall k :: q <= k < e ==> IsUrlChar(s[k])
    requires forall k :: q <= k < e' ==> IsUrlChar(s[k])
    requires e == |s| || !IsUrlChar(s[e])
    requires e' == |s| || !IsUrlChar(s[e'])
    ensures e == e'
  {
  }

  /** The program's URL end is the end of the bare URL there, and there is one exactly when it finds one. */
  lemma UrlEndIff(s: string, p: nat)
    ensures UrlEnd(s, p).Some? ==> BareUrl(s, p, UrlEnd(s, p).value)
    ensures forall e: nat :: BareUrl(s, p, e) ==> UrlEnd(s, p) == Some(e)
  {
    SchemeOccurs(s, p);
    if OccursAt(s, "https://", p) {
      SchemesExclusive(s, p);
      SchemeChars(s, p, "https://");
      var e := RunEnd(s, p + 8);
      RunEndSpec(s, p + 8);
      forall e': nat | BareUrl(s, p, e') ensures UrlEnd(s, p) == Some(e') {
        RunUnique(s, p + 8, e, e');
      }
    } else if OccursAt(s, "http://", p) {
      SchemeChars(s, p, "http://");
      var e := RunEnd(s, p + 7);
      RunEndSpec(s, p + 7);
      forall e': nat | BareUrl(s, p, e') ensures UrlEnd(s, p) == Some(e') {
        RunUnique(s, p + 7, e, e');
      }
    }
  }

  /** Where the program finds a URL end, a bare URL with its scheme ends there, and the lookahead holds. */
  lemma UrlEndSound(s: string, p: nat)
    requires UrlEnd(s, p).Some?
    ensures var e := UrlEnd(s, p).value;
      && p <= e && BareUrl(s, p, e)
      && (StartsWith(s[p..e], "https://") || StartsWith(s[p..e], "http://"))
      && (e == |s| || (s[e] != ')' && !IsWordChar(s[e])))
  {
    var e := UrlEnd(s, p).value;
    UrlEndIff(s, p);
    if OccursAt(s, "https://", p) {
      SliceStart(s, p, e, "https://");
    } else {
      SliceStart(s, p, e, "http://");
    }
  }

  /** What a found match is: a line start or one white-space character, then a bare URL. */
  lemma UrlMatchSound(s: string, i: nat, lineStart: bool)
    requires i < |s| && UrlMatchAt(s, i, lineStart).Some?
    ensures var m := UrlMatchAt(s, i, lineStart).value; var p := i + |m.prefix|;
      && ((m.prefix == "" && AtLineStart(s, i, lineStart)) || (m.prefix == [s[i]] && IsJsSpace(s[i])))
      && p <= m.end && BareUrl(s, p, m.end) && m.url == s[p..m.end]
      && (StartsWith(m.url, "https://") || StartsWith(m.url, "http://"))
      && (m.end == |s| || (s[m.end] != ')' && !IsWordChar(s[m.end])))
  {
    if AtLineStart(s, i, lineStart) && UrlEnd(s, i).Some? {
      UrlEndSound(s, i);
    } else {
      UrlEndSoundNext(s, i);
    }
  }

  /** UrlEndSound one place further on, written with the terms a match after white space uses. */
  lemma UrlEndSoundNext(s: string, i: nat)
    requires UrlEnd(s, i + 1).Some?
    ensures var e := UrlEnd(s, i + 1).value;
      && i + 1 <= e && BareUrl(s, i + 1, e)
      && (StartsWith(s[i + 1..e], "https://") || StartsWith(s[i + 1..e], "http://"))
      && (e == |s| || (s[e] != ')' && !IsWordChar(s[e])))
  {
    UrlEndSound(s, i + 1);
  }

  lemma SliceStart(s: string, p: nat, e: nat, scheme: string)
    requires p + |scheme| <= e <= |s| && OccursAt(s, scheme, p)
    ensures StartsWith(s[p..e], scheme)
  {
    assert s[p..e][0..|scheme|] == s[p..p + |scheme|];
  }

  /** Wherever a bare URL stands at a line start or after white space, the match is found there. */
  lemma UrlMatchComplete(s: string, i: nat, lineStart: bool, e: nat)
    requires i < |s|
    requires (AtLineStart(s, i, lineStart) && BareUrl(s, i, e)) || (IsJsSpace(s[i]) && BareUrl(s, i + 1, e))
    ensures UrlMatchAt(s, i, lineStart)
         == Some(if IsJsSpace(s[i]) then UrlMatch([s[i]], s[i + 1..e], e) else UrlMatch("", s[i..e], e))
  {
    UrlEndIff(s, i);
    UrlEndIff(s, i + 1);
    if IsJsSpace(s[i]) && BareUrl(s, i, e) {
      assert false;
    }
  }

  /** The three outcomes of the match at `i`, one lemma each. */
  lemma MatchAtLineStart(s: string, i: nat, e: nat, lineStart: bool)
    requires i < |s| && AtLineStart(s, i, lineStart) && UrlEnd(s, i) == Some(e)
    ensures UrlMatchAt(s, i, lineStart) == Some(UrlMatch("", s[i..e], e))
  {
  }

  lemma MatchAfterSpace(s: string, i: nat, e: nat, lineStart: bool)
    requires i < |s| && !(AtLineStart(s, i, lineStart) && UrlEnd(s, i).Some?)
    requires IsJsSpace(s[i]) && UrlEnd(s, i + 1) == Some(e)
    ensures UrlMatchAt(s, i, lineStart) == Some(UrlMatch([s[i]], s[i + 1..e], e))
  {
  }

  lemma NoMatchHere(s: string, i: nat, lineStart: bool)
    requires i < |s| && !(AtLineStart(s, i, lineStart) && UrlEnd(s, i).Some?)
    requires !(IsJsSpace(s[i]) && UrlEnd(s, i + 1).Some?)
    ensures UrlMatchAt(s, i, lineStart).None?
  {
  }

  // ------------------------------------------------------------------
  // The global replace
  // ------------------------------------------------------------------

  /** Match starts from `i` on, each at or after the end of the match before it. */
  predicate ValidStarts(s: string, i: nat, ps: seq<nat>, lineStart: bool)
    decreases |ps|
  {
    ps == [] ||
    (&& i <= ps[0] < |s| && UrlMatchAt(s, ps[0], lineStart).Some?
     && ValidStarts(s, UrlMatchAt(s, ps[0], lineStart).value.end, ps[1..], lineStart))
  }

  /** Where the global replace finds its matches, scanning from `i`. */
  function UrlStarts(s: string, i: nat, lineStart: bool): (ps: seq<nat>)
    requires i <= |s|
    ensures ValidStarts(s, i, ps, lineStart)
    decreases |s| - i
  {
    if i == |s| then []
    else match UrlMatchAt(s, i, lineStart)
      case Some(m) =>
        var rest := UrlStarts(s, m.end, lineStart);
        ConsTail(i, rest);
        [i] + rest
      case None => UrlStarts(s, i + 1, lineStart)
  }

  /**
   * The text from `i` with the match at each of `ps` written as its link, when `linked`,
   * or as the text it matched, when not.
   */
  function Rewrite(s: string, i: nat, ps: seq<nat>, lineStart: bool, linked: bool): string
    requires i <= |s| && ValidStarts(s, i, ps, lineStart)
    decreases |ps|, 1
  {
    if ps == [] then s[i..] else s[i..ps[0]] + Replaced(s, ps, lineStart, linked)
  }

  /** The first match of `ps` written out, followed by the rewrite of the text after it. */
  function Replaced(s: string, ps: seq<nat>, lineStart: bool, linked: bool): string
    requires ps != [] && ValidStarts(s, ps[0], ps, lineStart)
    decreases |ps|, 0
  {
    var m := UrlMatchAt(s, ps[0], lineStart).value;
    (if linked then UrlLink(m) else m.prefix + m.url) + Rewrite(s, m.end, ps[1..], lineStart, linked)
  }

  /** Position `q` lies inside one of the matches at `ps`. */
  predicate Covered(s: string, i: nat, ps: seq<nat>, lineStart: bool, q: nat)
    requires ValidStarts(s, i, ps, lineStart)
    decreases |ps|
  {
    && ps != []
    && var e := UrlMatchAt(s, ps[0], lineStart).value.end;
       (ps[0] <= q < e || Covered(s, e, ps[1..], lineStart, q))
  }

  /** A character copied in front of the matches. */
  lemma RewriteCons(s: string, i: nat, ps: seq<nat>, lineStart: bool, linked: bool)
    requires i < |s| && ValidStarts(s, i + 1, ps, lineStart)
    ensures ValidStarts(s, i, ps, lineStart)
    ensures Rewrite(s, i, ps, lineStart, linked) == [s[i]] + Rewrite(s, i + 1, ps, lineStart, linked)
  {
    if ps == [] {
      SliceCons(s, i, |s|);
    } else {
      RewriteFront(s, i, ps, lineStart, linked);
    }
  }

  lemma RewriteFront(s: string, i: nat, ps: seq<nat>, lineStart: bool, linked: bool)
    requires i < |s| && ps != [] && ValidStarts(s, i + 1, ps, lineStart)
    ensures ValidStarts(s, i, ps, lineStart)
    ensures Rewrite(s, i, ps, lineStart, linked) == [s[i]] + Rewrite(s, i + 1, ps, lineStart, linked)
  {
    StartsFrom(s, i, i + 1, ps, lineStart);
    ConsFront(s, i, ps[0], Replaced(s, ps, lineStart, linked));
  }

  /** Valid starts from `j` are valid from any earlier position. */
  lemma StartsFrom(s: string, i: nat, j: nat, ps: seq<nat>, lineStart: bool)
    requires i <= j && ValidStarts(s, j, ps, lineStart)
    ensures ValidStarts(s, i, ps, lineStart)
  {
  }

  lemma ConsFront(s: string, i: nat, j: nat, tail: string)
    requires i < j <= |s|
    ensures s[i..j] + tail == [s[i]] + (s[i + 1..j] + tail)
  {
    SliceCons(s, i, j);
    JoinFront([s[i]], s[i + 1..j], tail);
  }

  lemma SliceCons(s: string, i: nat, j: nat)
    requires i < j <= |s|
    ensures s[i..j] == [s[i]] + s[i + 1..j]
  {
  }

  lemma JoinFront(a: string, b: string, c: string)
    ensures a + b + c == a + (b + c)
  {
  }

  /** The replace scans from `i`: its output is the rewrite of the matches it finds. */
  lemma {:induction false} ConvertFromScan(s: string, i: nat, lineStart: bool)
    requires i <= |s|
    ensures ConvertFrom(s, i, lineStart) == Rewrite(s, i, UrlStarts(s, i, lineStart), lineStart, true)
    decreases |s| - i
  {
    if i < |s| {
      match UrlMatchAt(s, i, lineStart)
      case Some(m) =>
        var rest := UrlStarts(s, m.end, lineStart);
        ConvertFromScan(s, m.end, lineStart);
        ConsTail(i, rest);
        LinkFirst(s, i, UrlLink(m), Rewrite(s, m.end, rest, lineStart, true));
      case None =>
        ConvertFromScan(s, i + 1, lineStart);
        RewriteCons(s, i, UrlStarts(s, i + 1, lineStart), lineStart, true);
    }
  }

  lemma LinkFirst(s: string, i: nat, link: string, rest: string)
    requires i <= |s|
    ensures s[i..i] + (link + rest) == link + rest
  {
  }

  /** What a match covers is its prefix and its URL. */
  lemma MatchText(s: string, p: nat, lineStart: bool)
    requires p < |s| && UrlMatchAt(s, p, lineStart).Some?
    ensures var m := UrlMatchAt(s, p, lineStart).value; s[p..m.end] == m.prefix + m.url
  {
    var m := UrlMatchAt(s, p, lineStart).value;
    if m.prefix != "" {
      SliceCons(s, p, m.end);
    }
  }

  /** Putting back what each match covered gives the text again, for any valid matches. */
  lemma {:induction false} EraseLinks(s: string, i: nat, ps: seq<nat>, lineStart: bool)
    requires i <= |s| && ValidStarts(s, i, ps, lineStart)
    ensures Rewrite(s, i, ps, lineStart, false) == s[i..]
    decreases |ps|
  {
    if ps != [] {
      var m := UrlMatchAt(s, ps[0], lineStart).value;
      EraseLinks(s, m.end, ps[1..], lineStart);
      MatchText(s, ps[0], lineStart);
      Slices(s, i, ps[0], m.end);
    }
  }

  lemma Slices(s: string, i: nat, j: nat, k: nat)
    requires i <= j <= k <= |s|
    ensures s[i..j] + (s[j..k] + s[k..]) == s[i..]
  {
  }

  /** No position where a match could start is passed over: each lies inside a found match. */
  lemma {:induction false} UrlStartsLeftmost(s: string, i: nat, lineStart: bool)
    requires i <= |s|
    ensures forall q :: i <= q < |s| && UrlMatchAt(s, q, lineStart).Some? ==> Covered(s, i, UrlStarts(s, i, lineStart), lineStart, q)
    decreases |s| - i
  {
    if i < |s| {
      var ps := UrlStarts(s, i, lineStart);
      match UrlMatchAt(s, i, lineStart)
      case Some(m) =>
        var rest := UrlStarts(s, m.end, lineStart);
        UrlStartsLeftmost(s, m.end, lineStart);
        ConsTail(i, rest);
        forall q | i <= q < |s| && UrlMatchAt(s, q, lineStart).Some? ensures Covered(s, i, ps, lineStart, q) {
          if m.end <= q {
            assert Covered(s, m.end, rest, lineStart, q);
          }
        }
      case None =>
        UrlStartsLeftmost(s, i + 1, lineStart);
    }
  }

  /**
   * The URL pass for every input: the matches it finds are valid and leave no possible
   * match start behind; its output is the text with each match written as a link; and
   * writing each link back as the text it matched gives the input.
   */
  lemma ConvertUrlsSpec(s: string)
    ensures var ps := UrlStarts(s, 0, true);
      && ConvertUrls(s) == Rewrite(s, 0, ps, true, true)
      && Rewrite(s, 0, ps, true, false) == s
      && forall q :: 0 <= q < |s| && UrlMatchAt(s, q, true).Some? ==> Covered(s, 0, ps, true, q)
  {
    ConvertFromScan(s, 0, true);
    EraseLinks(s, 0, UrlStarts(s, 0, true), true);
    UrlStartsLeftmost(s, 0, true);
  }
}
