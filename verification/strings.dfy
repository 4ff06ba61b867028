/**
 * Generic string operations shared by the caption and file-name code:
 * deleting characters of a class, trimming a class at either end, substring
 * search, joining, and replacing each maximal run of a class by one character.
 */
module Strings {

  /** The characters of `s` that satisfy `keep`, in their original order. */
  function Filter(s: string, keep: char -> bool): (r: string)
    ensures |r| <= |s|
    ensures forall i :: 0 <= i < |r| ==> keep(r[i])
  {
    if |s| == 0 then [] else (if keep(s[0]) then [s[0]] else []) + Filter(s[1..], keep)
  }

  /** A character is in the filtered string exactly when it is in `s` and kept. */
  lemma {:induction false} FilterMembership(s: string, keep: char -> bool)
    ensures forall c :: c in Filter(s, keep) <==> c in s && keep(c)
  {
    if |s| > 0 {
      FilterMembership(s[1..], keep);
      assert s == [s[0]] + s[1..];
    }
  }

  lemma {:induction false} FilterAppend(a: string, b: string, keep: char -> bool)
    ensures Filter(a + b, keep) == Filter(a, keep) + Filter(b, keep)
  {
    if |a| == 0 {
      assert a + b == b;
    } else {
      assert (a + b)[1..] == a[1..] + b;
      FilterAppend(a[1..], b, keep);
    }
  }

  /** Deleting nothing: a string whose every character is kept is returned unchanged. */
  lemma {:induction false} FilterKeepsAll(s: string, keep: char -> bool)
    requires forall i :: 0 <= i < |s| ==> keep(s[i])
    ensures Filter(s, keep) == s
  {
    if |s| > 0 {
      FilterKeepsAll(s[1..], keep);
    }
  }

  /** Deleting everything: a string none of whose characters is kept filters to "". */
  lemma {:induction false} FilterKeepsNone(s: string, keep: char -> bool)
    requires forall i :: 0 <= i < |s| ==> !keep(s[i])
    ensures Filter(s, keep) == []
  {
    if |s| > 0 {
      FilterKeepsNone(s[1..], keep);
    }
  }

  /** Filtering by a weaker class first and a stronger one second is filtering by the stronger one. */
  lemma {:induction false} FilterOfFilter(s: string, outer: char -> bool, inner: char -> bool)
    requires forall c :: inner(c) ==> outer(c)
    ensures Filter(Filter(s, outer), inner) == Filter(s, inner)
  {
    if |s| > 0 {
      var head := if outer(s[0]) then [s[0]] else [];
      FilterAppend(head, Filter(s[1..], outer), inner);
      FilterOfFilter(s[1..], outer, inner);
    }
  }

  /** Two classes that agree on every character of `s` filter it alike. */
  lemma {:induction false} FilterAgree(s: string, p: char -> bool, q: char -> bool)
    requires forall i :: 0 <= i < |s| ==> (p(s[i]) <==> q(s[i]))
    ensures Filter(s, p) == Filter(s, q)
  {
    if |s| > 0 {
      FilterAgree(s[1..], p, q);
    }
  }

  /** Filtering a prefix gives a prefix of the filtered whole. */
  lemma FilterOfPrefix(s: string, n: nat, keep: char -> bool)
    requires n <= |s|
    ensures Filter(s[..n], keep) <= Filter(s, keep)
  {
    var a, b := s[..n], s[n..];
    assert s == a + b;
    FilterAppend(a, b, keep);
    PrefixOfConcat(Filter(a, keep), Filter(b, keep));
  }

  lemma PrefixOfConcat(a: string, b: string)
    ensures a <= a + b
  {
  }

  /** `str.lstrip(chars)`: drops the longest prefix of class `p`. */
  function TrimStart(s: string, p: char -> bool): (r: string)
    ensures |r| <= |s| && r == s[|s| - |r|..]
    ensures forall i :: 0 <= i < |s| - |r| ==> p(s[i])
    ensures |r| > 0 ==> !p(r[0])
  {
    if |s| > 0 && p(s[0]) then
      var r := TrimStart(s[1..], p);
      assert s[1..][|s| - 1 - |r|..] == s[|s| - |r|..];
      assert forall i :: 0 < i < |s| - |r| ==> s[i] == s[1..][i - 1];
      r
    else s
  }

  /** `str.rstrip(chars)`: drops the longest suffix of class `p`. */
  function TrimEnd(s: string, p: char -> bool): (r: string)
    ensures |r| <= |s| && r == s[..|r|]
    ensures forall i :: |r| <= i < |s| ==> p(s[i])
    ensures |r| > 0 ==> !p(r[|r| - 1])
  {
    if |s| > 0 && p(s[|s| - 1]) then
      var r := TrimEnd(s[..|s| - 1], p);
      assert s[..|s| - 1][..|r|] == s[..|r|];
      assert forall i :: |r| <= i < |s| - 1 ==> s[i] == s[..|s| - 1][i];
      r
    else s
  }

  /** `str.strip(chars)`: a contiguous piece of `s` that neither starts nor ends in class `p`. */
  function Strip(s: string, p: char -> bool): (r: string)
    ensures |r| > 0 ==> !p(r[0]) && !p(r[|r| - 1])
    ensures r == [] <==> forall i :: 0 <= i < |s| ==> p(s[i])
  {
    TrimBothEmpty(s, p);
    TrimEnd(TrimStart(s, p), p)
  }

  /** What `strip` returns is a contiguous piece of its argument. */
  lemma StripIsSlice(s: string, p: char -> bool)
    ensures exists i :: OccursAt(s, Strip(s, p), i)
  {
    TrimBothOccurs(s, p);
    assert OccursAt(s, Strip(s, p), |s| - |TrimStart(s, p)|);
  }

  lemma TrimBothOccurs(s: string, p: char -> bool)
    ensures OccursAt(s, TrimEnd(TrimStart(s, p), p), |s| - |TrimStart(s, p)|)
  {
    var t := TrimStart(s, p);
    var r := TrimEnd(t, p);
    assert |t| <= |s| && t == s[|s| - |t|..];
    assert |r| <= |t| && r == t[..|r|];
    PrefixOfSuffixOccurs(s, t, r, |s| - |t|);
  }

  /** A prefix of the suffix of `s` from `k` occurs in `s` at `k`. */
  lemma PrefixOfSuffixOccurs(s: string, t: string, r: string, k: nat)
    requires k <= |s| && t == s[k..]
    requires |r| <= |t| && r == t[..|r|]
    ensures OccursAt(s, r, k)
  {
    assert s[k..k + |r|] == t[..|r|];
  }

  lemma TrimBothEmpty(s: string, p: char -> bool)
    ensures TrimEnd(TrimStart(s, p), p) == [] <==> forall i :: 0 <= i < |s| ==> p(s[i])
  {
    var t := TrimStart(s, p);
    if |t| > 0 {
      TrimEndKeepsHead(t, p);
      assert t[0] == s[|s| - |t|];
    }
  }

  /** Trimming the end of a string whose first character is outside `p` leaves that character. */
  lemma TrimEndKeepsHead(t: string, p: char -> bool)
    requires |t| > 0 && !p(t[0])
    ensures |TrimEnd(t, p)| > 0
  {
  }

  /** Stripping a class that `keep` rejects deletes nothing `keep` would keep. */
  lemma StripKeepsFiltered(s: string, p: char -> bool, keep: char -> bool)
    requires forall c :: p(c) ==> !keep(c)
    ensures Filter(Strip(s, p), keep) == Filter(s, keep)
  {
    TrimStartKeepsFiltered(s, p, keep);
    TrimEndKeepsFiltered(TrimStart(s, p), p, keep);
  }

  lemma TrimStartKeepsFiltered(s: string, p: char -> bool, keep: char -> bool)
    requires forall c :: p(c) ==> !keep(c)
    ensures Filter(TrimStart(s, p), keep) == Filter(s, keep)
  {
    var t := TrimStart(s, p);
    var k := |s| - |t|;
    var dropped := s[..k];
    assert s == dropped + t;
    forall i | 0 <= i < |dropped| ensures !keep(dropped[i]) {
      assert p(s[i]);
    }
    FilterAppend(dropped, t, keep);
    FilterKeepsNone(dropped, keep);
  }

  lemma TrimEndKeepsFiltered(s: string, p: char -> bool, keep: char -> bool)
    requires forall c :: p(c) ==> !keep(c)
    ensures Filter(TrimEnd(s, p), keep) == Filter(s, keep)
  {
    var r := TrimEnd(s, p);
    assert s == r + s[|r|..];
    FilterAppend(r, s[|r|..], keep);
    FilterKeepsNone(s[|r|..], keep);
  }

  /** A string none of whose ends is in class `p` strips to itself. */
  lemma StripUnchanged(s: string, p: char -> bool)
    requires |s| > 0 ==> !p(s[0]) && !p(s[|s| - 1])
    ensures Strip(s, p) == s
  {
  }

  /** `sub` occurs in `s` starting at position `i`. */
  predicate OccursAt(s: string, sub: string, i: int) {
    0 <= i <= |s| - |sub| && s[i..i + |sub|] == sub
  }

  /** Python's `sub in s`, searching from the left. */
  function Contains(s: string, sub: string): (b: bool)
    ensures b <==> exists i :: OccursAt(s, sub, i)
  {
    if sub <= s then
      assert OccursAt(s, sub, 0);
      true
    else if |s| == 0 then
      false
    else
      ContainsStep(s, sub);
      Contains(s[1..], sub)
  }

  /** An occurrence in `s` past position 0 is an occurrence in `s[1..]`, and back. */
  lemma ContainsStep(s: string, sub: string)
    requires |s| > 0 && !(sub <= s)
    ensures (exists i :: OccursAt(s, sub, i)) <==> (exists i :: OccursAt(s[1..], sub, i))
  {
    if exists i :: OccursAt(s, sub, i) {
      var i :| OccursAt(s, sub, i);
      assert s[1..][i - 1..i - 1 + |sub|] == s[i..i + |sub|];
      assert OccursAt(s[1..], sub, i - 1);
    }
    if exists i :: OccursAt(s[1..], sub, i) {
      var i :| OccursAt(s[1..], sub, i);
      assert s[1..][i..i + |sub|] == s[i + 1..i + 1 + |sub|];
      assert OccursAt(s, sub, i + 1);
    }
  }

  /** A string lacking one of the characters of `sub` does not contain `sub`. */
  lemma MissingCharNotContained(s: string, sub: string, c: char)
    requires c in sub && c !in s
    ensures !Contains(s, sub)
  {
    var j :| 0 <= j < |sub| && sub[j] == c;
    forall i ensures !OccursAt(s, sub, i) {
      if 0 <= i <= |s| - |sub| {
        assert s[i..i + |sub|][j] == s[i + j] != c;
      }
    }
  }

  /** Concatenation is associative; stated once so that proofs about long sequences can cite it. */
  lemma ConcatAssoc<T>(a: seq<T>, b: seq<T>, c: seq<T>)
    ensures a + (b + c) == (a + b) + c
  {
  }

  /** `sep.join(parts)`. */
  function Join(parts: seq<string>, sep: string): (r: string)
    ensures |parts| == 1 ==> r == parts[0]
    ensures |parts| == 0 ==> r == []
  {
    if |parts| == 0 then []
    else if |parts| == 1 then parts[0]
    else parts[0] + sep + Join(parts[1..], sep)
  }

  /** `"".join(parts)`. */
  function Concat(parts: seq<string>): (r: string)
  {
    if |parts| == 0 then [] else parts[0] + Concat(parts[1..])
  }

  /** No two neighbouring characters are both in class `p`. */
  predicate NoAdjacent(s: string, p: char -> bool) {
    forall i :: 0 <= i < |s| - 1 ==> !(p(s[i]) && p(s[i + 1]))
  }

  /**
   * `re.sub(P + "+", rep, s)` for a one-character class P: every maximal run of
   * characters in class `p` becomes the single character `rep`. `inRun` says
   * that the character before `s` already belonged to a replaced run.
   */
  function ReplaceRuns(s: string, p: char -> bool, rep: char, inRun: bool): (r: string)
    ensures forall c :: c in r ==> c == rep || (c in s && !p(c))
    ensures p(rep) ==> NoAdjacent(r, p)
    ensures p(rep) && inRun && |r| > 0 ==> !p(r[0])
  {
    if |s| == 0 then []
    else if p(s[0]) then
      (if inRun then [] else [rep]) + ReplaceRuns(s[1..], p, rep, true)
    else
      [s[0]] + ReplaceRuns(s[1..], p, rep, false)
  }

  /** Runs are replaced by a character `keep` rejects, so the kept characters are untouched. */
  lemma {:induction false} ReplaceRunsKeepsFiltered(s: string, p: char -> bool, rep: char, inRun: bool,
                                                    keep: char -> bool)
    requires !keep(rep)
    requires forall c :: p(c) ==> !keep(c)
    ensures Filter(ReplaceRuns(s, p, rep, inRun), keep) == Filter(s, keep)
  {
    if |s| > 0 {
      var head := if p(s[0]) then (if inRun then [] else [rep]) else [s[0]];
      FilterAppend(head, ReplaceRuns(s[1..], p, rep, p(s[0])), keep);
      ReplaceRunsKeepsFiltered(s[1..], p, rep, p(s[0]), keep);
    }
  }

  /** A string with no character of class `p` has no run to replace. */
  lemma {:induction false} ReplaceRunsNoMatch(s: string, p: char -> bool, rep: char, inRun: bool)
    requires forall i :: 0 <= i < |s| ==> !p(s[i])
    ensures ReplaceRuns(s, p, rep, inRun) == s
  {
    if |s| > 0 {
      ReplaceRunsNoMatch(s[1..], p, rep, false);
    }
  }

  /**
   * When `rep` is the only member of its class, a string whose runs all have
   * length one (and that does not continue a run) is returned unchanged.
   */
  lemma {:induction false} ReplaceRunsSingletons(s: string, p: char -> bool, rep: char, inRun: bool)
    requires forall c :: p(c) <==> c == rep
    requires NoAdjacent(s, p)
    requires inRun ==> |s| == 0 || !p(s[0])
    ensures ReplaceRuns(s, p, rep, inRun) == s
  {
    if |s| > 0 {
      ReplaceRunsSingletons(s[1..], p, rep, p(s[0]));
    }
  }

  /** Characters outside class `p` at the front pass through, and the run state is reset after them. */
  lemma {:induction false} ReplaceRunsPassThrough(a: string, b: string, p: char -> bool, rep: char, inRun: bool)
    requires |a| > 0
    requires forall i :: 0 <= i < |a| ==> !p(a[i])
    ensures ReplaceRuns(a + b, p, rep, inRun) == a + ReplaceRuns(b, p, rep, false)
  {
    assert (a + b)[0] == a[0] && (a + b)[1..] == a[1..] + b;
    if |a| == 1 {
      assert a[1..] + b == b;
    } else {
      ReplaceRunsPassThrough(a[1..], b, p, rep, false);
      ConcatAssoc([a[0]], a[1..], ReplaceRuns(b, p, rep, false));
      assert [a[0]] + a[1..] == a;
    }
  }

  /** A whole run of class `p` at the front yields one `rep` (none if it continues a run). */
  lemma {:induction false} ReplaceRunsAbsorbsRun(w: string, b: string, p: char -> bool, rep: char, inRun: bool)
    requires |w| > 0
    requires forall i :: 0 <= i < |w| ==> p(w[i])
    ensures ReplaceRuns(w + b, p, rep, inRun) == (if inRun then [] else [rep]) + ReplaceRuns(b, p, rep, true)
  {
    assert (w + b)[0] == w[0] && (w + b)[1..] == w[1..] + b;
    if |w| == 1 {
      assert w[1..] + b == b;
    } else {
      ReplaceRunsAbsorbsRun(w[1..], b, p, rep, true);
    }
  }

  /**
   * One maximal run: characters outside `p` before it are kept as they are,
   * the whole run becomes exactly one `rep`, and what follows continues after a run.
   */
  lemma ReplaceRunsOneRun(a: string, w: string, b: string, p: char -> bool, rep: char)
    requires forall i :: 0 <= i < |a| ==> !p(a[i])
    requires |w| > 0
    requires forall i :: 0 <= i < |w| ==> p(w[i])
    ensures ReplaceRuns(a + w + b, p, rep, false) == a + [rep] + ReplaceRuns(b, p, rep, true)
  {
    var wb, tail := w + b, ReplaceRuns(b, p, rep, true);
    if |a| == 0 {
      calc {
        ReplaceRuns(a + w + b, p, rep, false);
        == { assert a + w + b == wb; }
        ReplaceRuns(wb, p, rep, false);
        == { ReplaceRunsAbsorbsRun(w, b, p, rep, false); }
        [rep] + tail;
        == { assert a + [rep] == [rep]; }
        a + [rep] + tail;
      }
    } else {
      calc {
        ReplaceRuns(a + w + b, p, rep, false);
        == { ConcatAssoc(a, w, b); }
        ReplaceRuns(a + wb, p, rep, false);
        == { ReplaceRunsPassThrough(a, wb, p, rep, false); }
        a + ReplaceRuns(wb, p, rep, false);
        == { ReplaceRunsAbsorbsRun(w, b, p, rep, false); }
        a + ([rep] + tail);
        == { ConcatAssoc(a, [rep], tail); }
        a + [rep] + tail;
      }
    }
  }

  /** Trimming the end of `x + y` when something of `y` survives trims only `y`. */
  lemma {:induction false} TrimEndAppendKept(x: string, y: string, p: char -> bool)
    requires |TrimEnd(y, p)| > 0
    ensures TrimEnd(x + y, p) == x + TrimEnd(y, p)
  {
    var xy := x + y;
    if p(y[|y| - 1]) {
      assert xy[..|xy| - 1] == x + y[..|y| - 1];
      TrimEndAppendKept(x, y[..|y| - 1], p);
    }
  }

  /** Trimming the end of `x + y` when all of `y` is trimmed away trims into `x`. */
  lemma {:induction false} TrimEndAppendDropped(x: string, y: string, p: char -> bool)
    requires TrimEnd(y, p) == []
    ensures TrimEnd(x + y, p) == TrimEnd(x, p)
  {
    var xy := x + y;
    if |y| == 0 {
      assert xy == x;
    } else {
      assert p(y[|y| - 1]);
      assert xy[..|xy| - 1] == x + y[..|y| - 1];
      TrimEndAppendDropped(x, y[..|y| - 1], p);
    }
  }

  /** The length of the longest prefix of `s` with no character of class `sep`. */
  function LeadLen(s: string, sep: char -> bool): (n: nat)
    ensures n <= |s|
    ensures forall i :: 0 <= i < n ==> !sep(s[i])
    ensures n < |s| ==> sep(s[n])
  {
    if |s| == 0 || sep(s[0]) then 0 else 1 + LeadLen(s[1..], sep)
  }

  /**
   * The maximal non-empty runs of characters outside class `sep`, in order
   * (like Python's argument-less `str.split()`, with `sep` as the separator class).
   */
  function Fields(s: string, sep: char -> bool): (r: seq<string>)
    ensures forall k :: 0 <= k < |r| ==> |r[k]| > 0
    ensures forall k, i :: 0 <= k < |r| && 0 <= i < |r[k]| ==> !sep(r[k][i]) && r[k][i] in s
    decreases |s|
  {
    if |s| == 0 then []
    else
      var n := LeadLen(s, sep);
      if n == 0 then Fields(s[1..], sep)
      else
        var rest := Fields(s[n..], sep);
        assert forall c :: c in s[n..] ==> c in s;
        assert forall i :: 0 <= i < n ==> s[..n][i] in s;
        [s[..n]] + rest
  }
}
