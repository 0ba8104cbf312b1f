/**
 * Where a pattern can occur in text assembled from pieces and placeholder names.
 * A name here is a word fenced by two equal characters on each side ("__w__"); these
 * lemmas say when a pattern cannot straddle a fence and where a name first occurs.
 */
module Occurrences {
  import opened Wrappers
  import opened JsStrings

  /** `s` never has the character `c` twice in a row. */
  predicate NoPair(s: string, c: char) {
    forall i :: 0 <= i < |s| - 1 ==> !(s[i] == c && s[i + 1] == c)
  }

  predicate Lacks(s: string, c: char) {
    forall i :: 0 <= i < |s| ==> s[i] != c
  }

  /** The name `o o w c c`. */
  function Fence(o: char, w: string, c: char): string {
    [o, o] + w + [c, c]
  }

  /** A word that can sit between the fences without creating a second fence. */
  predicate FenceableWord(o: char, w: string, c: char) {
    |w| > 0 && w[0] != o && NoPair(w, o) && !(w[|w| - 1] == o && c == o)
  }

  /** A pattern that cannot run across either fence of a name. */
  predicate CannotStraddle(p: string, o: char, c: char) {
    |p| > 0 && NoPair(p, o) && NoPair(p, c) && p[|p| - 1] != o && p[0] != c
  }

  lemma CharAt(s: string, p: string, j: nat, t: nat)
    requires OccursAt(s, p, j) && t < |p|
    ensures s[j + t] == p[t]
  {
    assert s[j..j + |p|][t] == s[j + t];
  }

  lemma SliceOfSlice(s: string, lo: nat, hi: nat, x: nat, y: nat)
    requires lo <= hi <= |s| && x <= y <= hi - lo
    ensures s[lo..hi][x..y] == s[lo + x..lo + y]
  {
    assert forall k :: 0 <= k < y - x ==> s[lo..hi][x..y][k] == s[lo + x + k];
  }

  /** An occurrence inside a slice. */
  lemma OccursInSlice(s: string, p: string, j: nat, lo: nat, hi: nat)
    requires OccursAt(s, p, j) && lo <= j && j + |p| <= hi <= |s|
    ensures OccursAt(s[lo..hi], p, j - lo)
  {
    SliceOfSlice(s, lo, hi, j - lo, j - lo + |p|);
  }

  /** An occurrence that ends before the join lies in the left part. */
  lemma OccursLeft(a: string, m: string, p: string, j: nat)
    requires OccursAt(a + m, p, j) && j + |p| <= |a|
    ensures OccursAt(a, p, j)
  {
    assert (a + m)[j..j + |p|] == a[j..j + |p|];
  }

  /** An occurrence that starts after the join lies in the right part. */
  lemma OccursRight(a: string, m: string, p: string, j: nat)
    requires OccursAt(a + m, p, j) && j >= |a|
    ensures OccursAt(m, p, j - |a|)
  {
    assert (a + m)[j..j + |p|] == m[j - |a|..j - |a| + |p|];
  }

  /** An occurrence running into a name from the left holds the name's opening pair. */
  lemma CrossesOpening(a: string, n: string, b: string, p: string, j: nat, o: char)
    requires |n| >= 2 && n[0] == o && n[1] == o
    requires OccursAt(a + n + b, p, j) && j < |a| < j + |p|
    ensures !NoPair(p, o) || p[|p| - 1] == o
  {
    var s := a + n + b;
    var t := |a| - j;
    CharAt(s, p, j, t);
    if t + 1 < |p| {
      CharAt(s, p, j, t + 1);
      assert s[|a| + 1] == n[1];
    }
  }

  /** An occurrence running out of a name to the right holds the name's closing pair. */
  lemma CrossesClosing(a: string, n: string, b: string, p: string, j: nat, c: char)
    requires |n| >= 2 && n[|n| - 2] == c && n[|n| - 1] == c
    requires OccursAt(a + n + b, p, j) && |a| <= j < |a| + |n| < j + |p|
    ensures !NoPair(p, c) || p[0] == c
  {
    var s := a + n + b;
    var e := |a| + |n|;
    var t := e - 1 - j;
    CharAt(s, p, j, t);
    assert s[e - 1] == n[|n| - 1];
    if t >= 1 {
      CharAt(s, p, j, t - 1);
      assert s[e - 2] == n[|n| - 2];
    }
  }

  /**
   * A pattern that occurs in neither the name nor the text around it, and cannot run
   * across a fence, does not occur in the whole.
   */
  lemma Straddle(a: string, n: string, b: string, p: string, o: char, c: char)
    requires |n| >= 4 && n[0] == o && n[1] == o && n[|n| - 2] == c && n[|n| - 1] == c
    requires CannotStraddle(p, o, c)
    requires !Includes(a, p) && !Includes(n, p) && !Includes(b, p)
    ensures !Includes(a + n + b, p)
  {
    var s := a + n + b;
    forall j: nat | OccursAt(s, p, j) ensures false {
      var e := |a| + |n|;
      if j + |p| <= |a| {
        OccursLeft(a, n + b, p, j);
      } else if j >= e {
        OccursRight(a + n, b, p, j);
      } else if |a| <= j && j + |p| <= e {
        OccursLeft(a + n, b, p, j);
        OccursRight(a, n, p, j);
      } else if j < |a| {
        CrossesOpening(a, n, b, p, j, o);
      } else {
        CrossesClosing(a, n, b, p, j, c);
      }
    }
  }

  /** A pattern holding a character the text lacks does not occur in it. */
  lemma MissingChar(s: string, p: string, k: nat)
    requires k < |p| && Lacks(s, p[k])
    ensures !Includes(s, p)
  {
    forall j | OccursAt(s, p, j) ensures false {
      CharAt(s, p, j, k);
    }
  }

  /** A pattern occurring in a slice occurs in the whole. */
  lemma IncludesOfSlice(s: string, p: string, lo: nat, hi: nat)
    requires lo <= hi <= |s| && Includes(s[lo..hi], p)
    ensures Includes(s, p)
  {
    var j :| OccursAt(s[lo..hi], p, j);
    SliceOfSlice(s, lo, hi, j, j + |p|);
    assert OccursAt(s, p, lo + j);
  }

  /** A pattern occurring in a piece of a concatenation occurs in the whole. */
  lemma IncludesOfPiece(a: string, b: string, c: string, p: string)
    requires Includes(b, p)
    ensures Includes(a + b + c, p)
  {
    var j :| OccursAt(b, p, j);
    OccursInConcat(a, b, c, p, j);
  }

  /** If `p` occurs at `j`, every piece of `p` occurs inside it. */
  lemma IncludesPart(s: string, p: string, q: string, j: nat, k: nat)
    requires OccursAt(s, p, j) && OccursAt(p, q, k)
    ensures OccursAt(s, q, j + k)
  {
    SliceOfSlice(s, j, j + |p|, k, k + |q|);
  }

  /** Shifted by 1 to |w| + 1 places, a fenced name never shows its opening pair. */
  lemma FenceShift(o: char, w: string, c: char, t: nat)
    requires FenceableWord(o, w, c) && 1 <= t <= |w| + 1
    ensures !(Fence(o, w, c)[t] == o && Fence(o, w, c)[t + 1] == o)
  {
    var n := Fence(o, w, c);
    if t >= 2 && t - 1 < |w| {
      assert n[t] == w[t - 2] && n[t + 1] == w[t - 1];
    }
  }

  /**
   * The name `o o w c c` first occurs at the end of `l` in `l + name + r`, provided `l`
   * does not hold the name's opening `o o w` itself.
   */
  lemma FirstOccurrence(l: string, r: string, o: char, w: string, c: char)
    requires FenceableWord(o, w, c)
    requires !Includes(l, [o, o] + w)
    ensures IndexOf(l + Fence(o, w, c) + r, Fence(o, w, c), 0) == Some(|l|)
  {
    var n := Fence(o, w, c);
    var s := l + n + r;
    var head := [o, o] + w;
    assert OccursAt(s, n, |l|) by {
      assert s[|l|..|l| + |n|] == n;
    }
    assert OccursAt(n, head, 0) by { assert n[..|head|] == head; }
    forall j: nat | j < |l| && OccursAt(s, n, j) ensures false {
      IncludesPart(s, n, head, j, 0);
      if j + |head| <= |l| {
        OccursLeft(l, n + r, head, j);
      } else {
        var t := |l| - j;
        CharAt(s, n, j, t);
        CharAt(s, n, j, t + 1);
        FenceShift(o, w, c, t);
      }
    }
    match IndexOf(s, n, 0)
    case None =>
    case Some(i) =>
  }

  // ------------------------------------------------------------------
  // Text interleaved with names
  // ------------------------------------------------------------------

  /** gaps[0] + items[0] + gaps[1] + ... + items[k-1] + gaps[k]. */
  function Interleave(gaps: seq<string>, items: seq<string>): string
    requires |gaps| == |items| + 1
    decreases |items|
  {
    if items == [] then gaps[0] else gaps[0] + items[0] + Interleave(gaps[1..], items[1..])
  }

  /** Putting a character in front of the first gap puts it in front of the whole. */
  lemma InterleaveCons(ch: char, gaps: seq<string>, items: seq<string>)
    requires |gaps| == |items| + 1
    ensures Interleave([[ch] + gaps[0]] + gaps[1..], items) == [ch] + Interleave(gaps, items)
  {
    var g := [[ch] + gaps[0]] + gaps[1..];
    assert g[1..] == gaps[1..];
  }

  /** An interleaving with items, cut as its first gap, its first item and the rest. */
  lemma InterleaveHead(gaps: seq<string>, items: seq<string>)
    requires |gaps| == |items| + 1 && items != []
    ensures var rest := Interleave(gaps[1..], items[1..]);
      && Interleave(gaps, items) == "" + gaps[0] + (items[0] + rest)
      && Interleave(gaps, items) == gaps[0] + items[0] + rest + ""
  {
    var rest := Interleave(gaps[1..], items[1..]);
    assert gaps[0] + items[0] + rest == "" + gaps[0] + (items[0] + rest);
  }

  /** The pieces of an interleaving lie inside it. */
  lemma {:induction false} InterleavePieces(gaps: seq<string>, items: seq<string>, p: string)
    requires |gaps| == |items| + 1
    requires (exists k :: 0 <= k < |gaps| && Includes(gaps[k], p)) || (exists k :: 0 <= k < |items| && Includes(items[k], p))
    ensures Includes(Interleave(gaps, items), p)
    decreases |items|
  {
    if items == [] {
    } else {
      var rest := Interleave(gaps[1..], items[1..]);
      InterleaveHead(gaps, items);
      if Includes(gaps[0], p) {
        IncludesOfPiece("", gaps[0], items[0] + rest, p);
      } else if Includes(items[0], p) {
        IncludesOfPiece(gaps[0], items[0], rest, p);
      } else {
        if exists k :: 0 <= k < |gaps| && Includes(gaps[k], p) {
          var k :| 0 <= k < |gaps| && Includes(gaps[k], p);
          assert k > 0 && gaps[1..][k - 1] == gaps[k];
        } else {
          var k :| 0 <= k < |items| && Includes(items[k], p);
          assert k > 0 && items[1..][k - 1] == items[k];
        }
        InterleavePieces(gaps[1..], items[1..], p);
        IncludesOfPiece(gaps[0] + items[0], rest, "", p);
      }
    }
  }

  /** A pattern absent from every gap and every fenced name, and unable to straddle a fence, is absent. */
  lemma {:induction false} InterleaveAvoids(gaps: seq<string>, names: seq<string>, p: string, o: char, c: char)
    requires |gaps| == |names| + 1
    requires CannotStraddle(p, o, c)
    requires forall k :: 0 <= k < |gaps| ==> !Includes(gaps[k], p)
    requires forall k :: 0 <= k < |names| ==> !Includes(names[k], p)
    requires forall k :: 0 <= k < |names| ==>
      |names[k]| >= 4 && names[k][0] == o && names[k][1] == o
      && names[k][|names[k]| - 2] == c && names[k][|names[k]| - 1] == c
    ensures !Includes(Interleave(gaps, names), p)
    decreases |names|
  {
    if names != [] {
      InterleaveAvoids(gaps[1..], names[1..], p, o, c);
      Straddle(gaps[0], names[0], Interleave(gaps[1..], names[1..]), p, o, c);
    }
  }

  /** A character absent from both parts is absent from their concatenation. */
  lemma LacksJoin(a: string, b: string, ch: char)
    requires Lacks(a, ch) && Lacks(b, ch)
    ensures Lacks(a + b, ch)
  {
    forall i | 0 <= i < |a + b| ensures (a + b)[i] != ch {
      if i >= |a| { assert (a + b)[i] == b[i - |a|]; }
    }
  }

  /** The first `k` items with the gaps around them. */
  lemma InterleavePrefix(gaps: seq<string>, items: seq<string>, k: nat)
    requires |gaps| == |items| + 1 && k < |gaps|
    ensures Interleave(gaps, items)
         == Interleave(gaps[..k + 1], items[..k]) + Interleave([""] + gaps[k + 1..], items[k..])
    decreases k
  {
    if k > 0 {
      InterleavePrefix(gaps[1..], items[1..], k - 1);
      assert gaps[1..][..k] == gaps[1..k + 1] && gaps[..k + 1][1..] == gaps[1..k + 1];
      assert items[1..][..k - 1] == items[1..k] && items[..k][1..] == items[1..k];
      assert gaps[1..][k..] == gaps[k + 1..] && items[1..][k - 1..] == items[k..];
    } else {
      assert gaps[..1] == [gaps[0]] && items[..0] == [];
      if items != [] {
        assert ([""] + gaps[1..])[1..] == gaps[1..];
      }
    }
  }
}
