/**
 * The file-name cleaner nested in `download_tiktok_video_local` (test.py):
 * delete characters outside `[\w\s-]`, turn each whitespace run into `_`,
 * collapse `_` runs, strip `_` from both ends, keep the first 100 characters.
 */
module Sanitize {
  import opened Chars
  import opened Strings

  /** The length cut applied last. */
  const MAX_LENGTH: nat := 100

  /** The class `[\w\s-]` the first substitution keeps. */
  predicate IsAllowedChar(c: char) {
    IsWordChar(c) || IsWhitespace(c) || c == '-'
  }

  /** The characters that no step deletes or invents: letters, digits and `-`. */
  predicate IsKernelChar(c: char) {
    (IsWordChar(c) && c != '_') || c == '-'
  }

  predicate NotUnderscore(c: char) {
    c != '_'
  }

  /** The string never contains `__`. */
  predicate NoDoubleUnderscore(s: string) {
    NoAdjacent(s, IsUnderscore)
  }

  /** A name the cleaner has nothing to do to. */
  predicate IsCleanName(s: string) {
    && |s| <= MAX_LENGTH
    && (forall i :: 0 <= i < |s| ==> IsWordChar(s[i]) || s[i] == '-')
    && NoDoubleUnderscore(s)
    && (|s| > 0 ==> s[0] != '_' && s[|s| - 1] != '_')
  }

  /** The four substitutions before the length cut (source lines 17-20). */
  function Stripped(title: string): (r: string)
    ensures forall i :: 0 <= i < |r| ==> IsWordChar(r[i]) || r[i] == '-'
    ensures NoDoubleUnderscore(r)
    ensures |r| > 0 ==> r[0] != '_' && r[|r| - 1] != '_'
  {
    var allowed := Filter(title, IsAllowedChar);
    var spaced := ReplaceRuns(allowed, IsWhitespace, '_', false);
    var collapsed := ReplaceRuns(spaced, IsUnderscore, '_', false);
    var r := Strip(collapsed, IsUnderscore);
    StripIsSlice(collapsed, IsUnderscore);
    StrippedShape(allowed, spaced, collapsed, r);
    r
  }

  lemma StrippedShape(allowed: string, spaced: string, collapsed: string, r: string)
    requires forall c :: c in allowed ==> IsAllowedChar(c)
    requires forall c :: c in spaced ==> c == '_' || (c in allowed && !IsWhitespace(c))
    requires forall c :: c in collapsed ==> c == '_' || (c in spaced && c != '_')
    requires NoAdjacent(collapsed, IsUnderscore)
    requires exists i :: OccursAt(collapsed, r, i)
    ensures forall i :: 0 <= i < |r| ==> IsWordChar(r[i]) || r[i] == '-'
    ensures NoDoubleUnderscore(r)
  {
    var k :| OccursAt(collapsed, r, k);
    forall i | 0 <= i < |r| ensures IsWordChar(r[i]) || r[i] == '-' {
      assert r[i] == collapsed[k + i];
      assert r[i] in collapsed;
    }
    forall i | 0 <= i < |r| - 1 ensures !(IsUnderscore(r[i]) && IsUnderscore(r[i + 1])) {
      assert r[i] == collapsed[k + i] && r[i + 1] == collapsed[k + i + 1];
      assert !(IsUnderscore(collapsed[k + i]) && IsUnderscore(collapsed[k + i + 1]));
    }
  }

  /** `sanitize_filename(title)`. */
  function SanitizeFilename(title: string): (r: string)
    ensures |r| <= MAX_LENGTH
    ensures forall i :: 0 <= i < |r| ==> IsWordChar(r[i]) || r[i] == '-'
    ensures NoDoubleUnderscore(r)
    ensures |r| > 0 ==> r[0] != '_'
  {
    var s := Stripped(title);
    if |s| <= MAX_LENGTH then s
    else
      PrefixKeepsShape(s, MAX_LENGTH);
      s[..MAX_LENGTH]
  }

  /** Cutting a name keeps its characters and its lack of `__`. */
  lemma PrefixKeepsShape(s: string, n: nat)
    requires n <= |s|
    requires forall i :: 0 <= i < |s| ==> IsWordChar(s[i]) || s[i] == '-'
    requires NoDoubleUnderscore(s)
    ensures forall i :: 0 <= i < n ==> IsWordChar(s[..n][i]) || s[..n][i] == '-'
    ensures NoDoubleUnderscore(s[..n])
  {
    forall i | 0 <= i < n - 1 ensures !(IsUnderscore(s[..n][i]) && IsUnderscore(s[..n][i + 1])) {
      assert s[..n][i] == s[i] && s[..n][i + 1] == s[i + 1];
    }
  }

  /** No step deletes, reorders or invents a letter, digit or hyphen before the cut. */
  lemma KernelSurvivesStripping(title: string)
    ensures Filter(Stripped(title), IsKernelChar) == Filter(title, IsKernelChar)
  {
    var allowed := Filter(title, IsAllowedChar);
    var spaced := ReplaceRuns(allowed, IsWhitespace, '_', false);
    var collapsed := ReplaceRuns(spaced, IsUnderscore, '_', false);
    assert forall c :: IsKernelChar(c) ==> IsAllowedChar(c);
    FilterOfFilter(title, IsAllowedChar, IsKernelChar);
    assert forall c :: IsWhitespace(c) ==> !IsKernelChar(c);
    ReplaceRunsKeepsFiltered(allowed, IsWhitespace, '_', false, IsKernelChar);
    assert forall c :: IsUnderscore(c) ==> !IsKernelChar(c);
    ReplaceRunsKeepsFiltered(spaced, IsUnderscore, '_', false, IsKernelChar);
    StripKeepsFiltered(collapsed, IsUnderscore, IsKernelChar);
  }

  /** Whitespace and `_`: the characters that end a run of the name's kernel. */
  predicate IsSeparator(c: char) {
    IsWhitespace(c) || c == '_'
  }

  /**
   * Reference reading of the cleaner: the maximal runs of letters, digits and
   * hyphens left after deleting the characters outside `[\w\s-]`, where any
   * mix of whitespace and `_` separates two runs.
   */
  function KernelRuns(title: string): (r: seq<string>)
    ensures forall k :: 0 <= k < |r| ==> |r[k]| > 0
    ensures forall k, i :: 0 <= k < |r| && 0 <= i < |r[k]| ==> IsKernelChar(r[k][i])
  {
    var allowed := Filter(title, IsAllowedChar);
    FilterMembership(title, IsAllowedChar);
    Fields(allowed, IsSeparator)
  }

  /**
   * The four substitutions join the kernel runs with single `_`s: every run of
   * whitespace and `_` between two runs becomes exactly one `_`, and such runs
   * at either end vanish.
   */
  lemma StrippedIsJoinedRuns(title: string)
    ensures Stripped(title) == Join(KernelRuns(title), "_")
  {
    var allowed := Filter(title, IsAllowedChar);
    var spaced := ReplaceRuns(allowed, IsWhitespace, '_', false);
    var collapsed := ReplaceRuns(spaced, IsUnderscore, '_', false);
    TwoPassesAreOne(allowed, false, false);
    LeadingSeparatorsDropped(allowed);
    TrailingSeparatorsDropped(allowed);
    assert Stripped(title) == TrimEnd(TrimStart(collapsed, IsUnderscore), IsUnderscore);
  }

  /**
   * Replacing whitespace runs and then `_` runs is one replacement of the runs
   * of both together. `inSpace` (the last character was whitespace) implies
   * `inSep` (the last character was whitespace or `_`).
   */
  lemma {:induction false} TwoPassesAreOne(s: string, inSpace: bool, inSep: bool)
    requires inSpace ==> inSep
    ensures ReplaceRuns(ReplaceRuns(s, IsWhitespace, '_', inSpace), IsUnderscore, '_', inSep)
         == ReplaceRuns(s, IsSeparator, '_', inSep)
  {
    if |s| > 0 {
      var c := s[0];
      var rest := ReplaceRuns(s[1..], IsWhitespace, '_', IsWhitespace(c));
      TwoPassesAreOne(s[1..], IsWhitespace(c), IsSeparator(c));
      if IsWhitespace(c) && inSpace {
        assert ReplaceRuns(s, IsWhitespace, '_', inSpace) == rest;
      } else {
        var x := if IsWhitespace(c) then '_' else c;
        assert ReplaceRuns(s, IsWhitespace, '_', inSpace) == [x] + rest;
        assert ([x] + rest)[0] == x && ([x] + rest)[1..] == rest;
      }
    }
  }

  /** Stripping `_` at the front removes exactly a leading separator run's `_`. */
  lemma LeadingSeparatorsDropped(s: string)
    ensures TrimStart(ReplaceRuns(s, IsSeparator, '_', false), IsUnderscore)
         == ReplaceRuns(s, IsSeparator, '_', true)
  {
    if |s| > 0 {
      var rest := ReplaceRuns(s[1..], IsSeparator, '_', IsSeparator(s[0]));
      if IsSeparator(s[0]) {
        var r := ['_'] + rest;
        assert ReplaceRuns(s, IsSeparator, '_', false) == r;
        assert r[0] == '_' && r[1..] == rest;
        assert |rest| > 0 ==> !IsUnderscore(rest[0]);
      }
    }
  }

  /** Stripping `_` at the back of the collapsed name leaves the runs joined by `_`. */
  lemma {:induction false} TrailingSeparatorsDropped(s: string)
    ensures TrimEnd(ReplaceRuns(s, IsSeparator, '_', true), IsUnderscore) == Join(Fields(s, IsSeparator), "_")
    decreases |s|
  {
    if |s| > 0 {
      if IsSeparator(s[0]) {
        SeparatorContinuesRun(s);
        TrailingSeparatorsDropped(s[1..]);
      } else {
        var n := LeadLen(s, IsSeparator);
        var word, tail := s[..n], s[n..];
        assert s == word + tail;
        assert Fields(s, IsSeparator) == [word] + Fields(tail, IsSeparator);
        ReplaceRunsPassThrough(word, tail, IsSeparator, '_', true);
        if |tail| > 0 {
          TrailingSeparatorsDropped(tail[1..]);
        }
        WordThenSeparators(word, tail);
      }
    }
  }

  /** A separator that continues a run adds nothing, and starts no field. */
  lemma SeparatorContinuesRun(s: string)
    requires |s| > 0 && IsSeparator(s[0])
    ensures ReplaceRuns(s, IsSeparator, '_', true) == ReplaceRuns(s[1..], IsSeparator, '_', true)
    ensures ReplaceRuns(s, IsSeparator, '_', false) == ['_'] + ReplaceRuns(s[1..], IsSeparator, '_', true)
    ensures Fields(s, IsSeparator) == Fields(s[1..], IsSeparator)
  {
  }

  /**
   * One run of kernel characters followed by nothing, or by a separator run and
   * whatever comes after it (about which the induction hypothesis is given).
   */
  lemma WordThenSeparators(word: string, tail: string)
    requires |word| > 0 && forall i :: 0 <= i < |word| ==> !IsSeparator(word[i])
    requires |tail| > 0 ==> IsSeparator(tail[0])
    requires |tail| > 0 ==> TrimEnd(ReplaceRuns(tail[1..], IsSeparator, '_', true), IsUnderscore)
                              == Join(Fields(tail[1..], IsSeparator), "_")
    ensures TrimEnd(word + ReplaceRuns(tail, IsSeparator, '_', false), IsUnderscore)
         == Join([word] + Fields(tail, IsSeparator), "_")
  {
    if |tail| == 0 {
      assert word + [] == word;
    } else {
      var rest := tail[1..];
      var collapsedRest := ReplaceRuns(rest, IsSeparator, '_', true);
      var runs := Fields(rest, IsSeparator);
      calc {
        TrimEnd(word + ReplaceRuns(tail, IsSeparator, '_', false), IsUnderscore);
        == { SeparatorContinuesRun(tail); ConcatAssoc(word, ['_'], collapsedRest); }
        TrimEnd(word + ['_'] + collapsedRest, IsUnderscore);
        == { WordSeparatorThenRest(word, collapsedRest, runs); }
        Join([word] + runs, "_");
        == { SeparatorContinuesRun(tail); }
        Join([word] + Fields(tail, IsSeparator), "_");
      }
    }
  }

  /** A kernel run, one `_`, then a collapsed rest whose end-trimmed form is the rest's runs joined. */
  lemma WordSeparatorThenRest(word: string, collapsedRest: string, runs: seq<string>)
    requires |word| > 0 && !IsUnderscore(word[|word| - 1])
    requires TrimEnd(collapsedRest, IsUnderscore) == Join(runs, "_")
    requires forall k :: 0 <= k < |runs| ==> |runs[k]| > 0
    ensures TrimEnd(word + ['_'] + collapsedRest, IsUnderscore) == Join([word] + runs, "_")
  {
    var ends := word + ['_'];
    if |runs| == 0 {
      calc {
        TrimEnd(ends + collapsedRest, IsUnderscore);
        == { TrimEndAppendDropped(ends, collapsedRest, IsUnderscore); }
        TrimEnd(ends, IsUnderscore);
        == { assert ends[..|ends| - 1] == word; }
        TrimEnd(word, IsUnderscore);
        ==
        word;
      }
    } else {
      assert |Join(runs, "_")| >= |runs[0]| > 0;
      calc {
        TrimEnd(ends + collapsedRest, IsUnderscore);
        == { TrimEndAppendKept(ends, collapsedRest, IsUnderscore); }
        ends + Join(runs, "_");
        == { assert ([word] + runs)[1..] == runs; }
        Join([word] + runs, "_");
      }
    }
  }

  /**
   * The cut is the only way the result can end in `_`: it does exactly when the
   * stripped name is longer than 100 characters and its 100th character is `_`.
   */
  lemma TrailingUnderscoreOnlyFromCut(title: string)
    ensures var r := SanitizeFilename(title);
            var s := Stripped(title);
            (|r| > 0 && r[|r| - 1] == '_') <==> (|s| > MAX_LENGTH && s[MAX_LENGTH - 1] == '_')
  {
    var s := Stripped(title);
    var r := SanitizeFilename(title);
    if |s| > MAX_LENGTH {
      assert r == s[..MAX_LENGTH] && r[MAX_LENGTH - 1] == s[MAX_LENGTH - 1];
    } else {
      assert r == s;
    }
  }

  /**
   * Deleting every `_` from the result gives a prefix of the title's letters,
   * digits and hyphens, in their original order: nothing else survives and
   * nothing is reordered or invented.
   */
  lemma KeepsKernelInOrder(title: string)
    ensures Filter(SanitizeFilename(title), NotUnderscore) <= Filter(title, IsKernelChar)
  {
    var s := Stripped(title);
    var r := SanitizeFilename(title);
    KernelSurvivesStripping(title);
    assert r == s[..|r|];
    FilterOfPrefix(s, |r|, IsKernelChar);
    FilterAgree(r, NotUnderscore, IsKernelChar);
  }

  /** A name that is already clean comes back unchanged. */
  lemma CleanNameUnchanged(name: string)
    requires IsCleanName(name)
    ensures SanitizeFilename(name) == name
  {
    forall i | 0 <= i < |name| ensures IsAllowedChar(name[i]) && !IsWhitespace(name[i]) {
    }
    var allowed := Filter(name, IsAllowedChar);
    FilterKeepsAll(name, IsAllowedChar);
    assert allowed == name;
    var spaced := ReplaceRuns(allowed, IsWhitespace, '_', false);
    ReplaceRunsNoMatch(name, IsWhitespace, '_', false);
    assert spaced == name;
    var collapsed := ReplaceRuns(spaced, IsUnderscore, '_', false);
    ReplaceRunsSingletons(name, IsUnderscore, '_', false);
    assert collapsed == name;
    StripUnchanged(name, IsUnderscore);
    assert Stripped(name) == Strip(collapsed, IsUnderscore) == name;
  }

  /**
   * Cleaning a cleaned name changes nothing, unless the cut left a trailing
   * `_`, which a second pass would strip.
   */
  lemma SanitizeIdempotentUnlessCutAtUnderscore(title: string)
    requires var s := Stripped(title); !(|s| > MAX_LENGTH && s[MAX_LENGTH - 1] == '_')
    ensures SanitizeFilename(SanitizeFilename(title)) == SanitizeFilename(title)
  {
    var r := SanitizeFilename(title);
    TrailingUnderscoreOnlyFromCut(title);
    assert IsCleanName(r);
    CleanNameUnchanged(r);
  }

  /** A title with no letter, digit or hyphen cleans to the empty name. */
  lemma NoKernelGivesEmpty(title: string)
    requires Filter(title, IsKernelChar) == []
    ensures SanitizeFilename(title) == []
  {
    KernelSurvivesStripping(title);
  }
}
