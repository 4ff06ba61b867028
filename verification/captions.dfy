/**
 * Reduction of one frame's text-recognition result to a caption string
 * (app/main.py, `is_unwanted` and `clean_text`): the region filter on word
 * positions, line building per paragraph, the blocklist and username test,
 * and the first-occurrence de-duplication of lines.
 */
module Captions {
  import opened Wrappers
  import opened Chars
  import opened Strings

  // ---------------------------------------------------------------------------
  // Normalised form and the unwanted-line test
  // ---------------------------------------------------------------------------

  /** `s.lower()`. */
  function LowerStr(s: string): string {
    seq(|s|, i requires 0 <= i < |s| => Lower(s[i]))
  }

  /** `s.lower().replace(" ", "")`: the form lines are compared in. */
  function Norm(s: string): (r: string)
    ensures |r| <= |s|
    ensures forall i :: 0 <= i < |r| ==> r[i] != ' ' && !('A' <= r[i] <= 'Z')
  {
    var lower := LowerStr(s);
    FilterMembership(lower, NotSpaceChar);
    assert forall c :: c in lower ==> !('A' <= c <= 'Z');
    Filter(lower, NotSpaceChar)
  }

  /** The blocklist of the source, before its entries lose their spaces. */
  const UNWANTED: seq<string> := ["tiktok", "tik tok"]

  /** `re.match(r"@[\w\d_]+", s)`: an `@` at position 0 followed by at least one word character. */
  predicate MatchesUsername(s: string) {
    |s| >= 2 && s[0] == '@' && IsWordChar(s[1])
  }

  /**
   * `is_unwanted(text)`: the normalised text contains a blocklisted word (with
   * its spaces removed) or starts like a username.
   */
  function IsUnwanted(text: string): (b: bool)
    ensures b <==> Contains(Norm(text), "tiktok") || MatchesUsername(Norm(text))
  {
    var norm := Norm(text);
    BlocklistHit(norm);
    (exists i :: 0 <= i < |UNWANTED| && Contains(norm, Filter(UNWANTED[i], NotSpaceChar)))
    || MatchesUsername(norm)
  }

  /** Both blocklist entries lose their spaces to the same word, so a hit on either is a hit on it. */
  lemma BlocklistHit(norm: string)
    ensures (exists i :: 0 <= i < |UNWANTED| && Contains(norm, Filter(UNWANTED[i], NotSpaceChar)))
            <==> Contains(norm, "tiktok")
  {
    BlocklistNormalForm();
    assert Contains(norm, "tiktok") ==> Contains(norm, Filter(UNWANTED[0], NotSpaceChar));
  }

  lemma BlocklistNormalForm()
    ensures Filter(UNWANTED[0], NotSpaceChar) == "tiktok"
    ensures Filter(UNWANTED[1], NotSpaceChar) == "tiktok"
  {
    var tik, space, tok := "tik", " ", "tok";
    FilterKeepsAll(tik, NotSpaceChar);
    FilterKeepsAll(tok, NotSpaceChar);
    FilterKeepsNone(space, NotSpaceChar);
    FilterAppend(tik, space, NotSpaceChar);
    FilterAppend(tik + space, tok, NotSpaceChar);
    FilterAppend(tik, tok, NotSpaceChar);
    assert UNWANTED[1] == tik + space + tok;
    assert UNWANTED[0] == tik + tok;
  }

  /** The normalised form has no spaces and no upper-case letters, so normalising twice changes nothing. */
  lemma NormIdempotent(s: string)
    ensures Norm(Norm(s)) == Norm(s)
  {
    var n := Norm(s);
    FilterMembership(LowerStr(s), NotSpaceChar);
    forall i | 0 <= i < |n| ensures Lower(n[i]) == n[i] {
      assert n[i] in LowerStr(s);
    }
    assert LowerStr(n) == n;
    FilterKeepsAll(n, NotSpaceChar);
  }

  /** Inserting a space anywhere does not change the normalised form. */
  lemma NormIgnoresSpace(a: string, b: string)
    ensures Norm(a + " " + b) == Norm(a + b)
  {
    assert LowerStr(a + " " + b) == LowerStr(a) + " " + LowerStr(b);
    assert LowerStr(a + b) == LowerStr(a) + LowerStr(b);
    FilterAppend(LowerStr(a) + " ", LowerStr(b), NotSpaceChar);
    FilterAppend(LowerStr(a), " ", NotSpaceChar);
    FilterAppend(LowerStr(a), LowerStr(b), NotSpaceChar);
  }

  /** Changing the case of any letters does not change the normalised form. */
  lemma NormIgnoresCase(a: string, b: string)
    requires |a| == |b|
    requires forall i :: 0 <= i < |a| ==> Lower(a[i]) == Lower(b[i])
    ensures Norm(a) == Norm(b)
  {
    assert LowerStr(a) == LowerStr(b);
  }

  /** The verdict depends only on the normalised form: spaces and case never change it. */
  lemma UnwantedIgnoresSpaceAndCase(a: string, b: string, c: string)
    requires |a| == |c|
    requires forall i :: 0 <= i < |a| ==> Lower(a[i]) == Lower(c[i])
    ensures IsUnwanted(a + " " + b) == IsUnwanted(a + b)
    ensures IsUnwanted(a) == IsUnwanted(c)
  {
    NormIgnoresSpace(a, b);
    NormIgnoresCase(a, c);
  }

  /** A lone `@` is not a username, and neither is an `@` after the first normalised character. */
  lemma UsernameNeedsLeadingAtAndWordChar(text: string)
    ensures Norm(text) == "@" ==> !MatchesUsername(Norm(text))
    ensures |Norm(text)| > 0 && Norm(text)[0] != '@' ==> !MatchesUsername(Norm(text))
    ensures MatchesUsername(Norm(text)) ==> IsUnwanted(text)
  {
  }

  // ---------------------------------------------------------------------------
  // The recognition result (pages, blocks, paragraphs, words)
  // ---------------------------------------------------------------------------

  /** The y coordinates of a word's bounding polygon; a polygon always has a vertex. */
  type VertexYs = ys: seq<int> | |ys| > 0 witness [0]

  /** A recognised word: the texts of its symbols and its vertices' y coordinates. */
  datatype Word = Word(symbols: seq<string>, ys: VertexYs)

  datatype Paragraph = Paragraph(words: seq<Word>)

  datatype Block = Block(paragraphs: seq<Paragraph>)

  datatype Page = Page(blocks: seq<Block>)

  /** The full text annotation of one frame. */
  datatype Annotation = Annotation(pages: seq<Page>)

  /** `"".join(s.text for s in word.symbols)`. */
  function WordText(w: Word): string {
    Concat(w.symbols)
  }

  /** `min(v.y for v in vertices)`. */
  function MinY(ys: VertexYs): (m: int)
    ensures m in ys
    ensures forall i :: 0 <= i < |ys| ==> m <= ys[i]
  {
    if |ys| == 1 then ys[0]
    else
      var rest := MinY(ys[1..]);
      if ys[0] <= rest then ys[0] else rest
  }

  // ---------------------------------------------------------------------------
  // Region filter
  // ---------------------------------------------------------------------------

  /**
   * A word survives unless its topmost vertex lies strictly below 75% of the
   * frame height: `ymin > H * (1 - 0.25)` is `4 * ymin > 3 * H` exactly.
   */
  predicate KeepWord(w: Word, height: int) {
    !(4 * MinY(w.ys) > 3 * height)
  }

  /**
   * A word is kept exactly when some vertex lies at or above the 75% line; a
   * word whose topmost vertex is exactly on the line is kept, and there is no
   * band at the top of the frame.
   */
  lemma KeepWordIff(w: Word, height: int)
    ensures KeepWord(w, height) <==> exists i :: 0 <= i < |w.ys| && 4 * w.ys[i] <= 3 * height
    ensures 4 * MinY(w.ys) == 3 * height ==> KeepWord(w, height)
    ensures forall w': Word :: MinY(w'.ys) <= MinY(w.ys) && KeepWord(w, height) ==> KeepWord(w', height)
  {
  }

  /** The texts of the words of a paragraph that survive the region filter. */
  function KeptTexts(words: seq<Word>, height: int): (r: seq<string>)
    ensures |r| <= |words|
  {
    if |words| == 0 then []
    else (if KeepWord(words[0], height) then [WordText(words[0])] else [])
         + KeptTexts(words[1..], height)
  }

  /** No word text is kept exactly when every word lies in the bottom quarter. */
  lemma {:induction false} KeptTextsEmpty(words: seq<Word>, height: int)
    ensures KeptTexts(words, height) == [] <==> forall i :: 0 <= i < |words| ==> !KeepWord(words[i], height)
  {
    if |words| > 0 {
      KeptTextsEmpty(words[1..], height);
      assert forall i :: 0 < i < |words| ==> words[i] == words[1..][i - 1];
    }
  }

  lemma {:induction false} KeptTextsAppend(a: seq<Word>, b: seq<Word>, height: int)
    ensures KeptTexts(a + b, height) == KeptTexts(a, height) + KeptTexts(b, height)
  {
    if |a| == 0 {
      assert a + b == b;
    } else {
      var head := if KeepWord(a[0], height) then [WordText(a[0])] else [];
      assert (a + b)[0] == a[0] && (a + b)[1..] == a[1..] + b;
      assert KeptTexts(a + b, height) == head + KeptTexts(a[1..] + b, height);
      KeptTextsAppend(a[1..], b, height);
      assert KeptTexts(a, height) == head + KeptTexts(a[1..], height);
      ConcatAssoc(head, KeptTexts(a[1..], height), KeptTexts(b, height));
    }
  }

  /** A text is kept exactly when it is the text of some word that survives the region filter. */
  lemma {:induction false} KeptTextsMembership(words: seq<Word>, height: int)
    ensures forall t :: t in KeptTexts(words, height) <==>
              exists i :: 0 <= i < |words| && KeepWord(words[i], height) && WordText(words[i]) == t
  {
    if |words| > 0 {
      KeptTextsMembership(words[1..], height);
      assert forall i :: 0 < i < |words| ==> words[i] == words[1..][i - 1];
    }
  }

  /** The line of a paragraph: its surviving words joined by single spaces, if there are any. */
  function ParagraphLine(p: Paragraph, height: int): (r: Option<string>)
    ensures r.None? <==> forall i :: 0 <= i < |p.words| ==> !KeepWord(p.words[i], height)
    ensures r.Some? ==> r.value == Join(KeptTexts(p.words, height), " ")
  {
    var kept := KeptTexts(p.words, height);
    KeptTextsEmpty(p.words, height);
    if kept == [] then None else Some(Join(kept, " "))
  }

  /** The paragraphs of a block list, in reading order. */
  function BlockParagraphs(blocks: seq<Block>): seq<Paragraph> {
    if |blocks| == 0 then [] else blocks[0].paragraphs + BlockParagraphs(blocks[1..])
  }

  /** The paragraphs of an annotation, page by page and block by block. */
  function PageParagraphs(pages: seq<Page>): seq<Paragraph> {
    if |pages| == 0 then [] else BlockParagraphs(pages[0].blocks) + PageParagraphs(pages[1..])
  }

  /** Blocks are walked in order: the paragraphs of two block lists follow one another. */
  lemma {:induction false} BlockParagraphsAppend(a: seq<Block>, b: seq<Block>)
    ensures BlockParagraphs(a + b) == BlockParagraphs(a) + BlockParagraphs(b)
  {
    if |a| == 0 {
      assert a + b == b;
    } else {
      var head, rest := a[0].paragraphs, a[1..];
      calc {
        BlockParagraphs(a + b);
        == { assert (a + b)[0] == a[0] && (a + b)[1..] == rest + b; }
        head + BlockParagraphs(rest + b);
        == { BlockParagraphsAppend(rest, b); }
        head + (BlockParagraphs(rest) + BlockParagraphs(b));
        == { ConcatAssoc(head, BlockParagraphs(rest), BlockParagraphs(b)); }
        BlockParagraphs(a) + BlockParagraphs(b);
      }
    }
  }


  /** Pages are walked in order: the paragraphs of two page lists follow one another. */
  lemma {:induction false} PageParagraphsAppend(a: seq<Page>, b: seq<Page>)
    ensures PageParagraphs(a + b) == PageParagraphs(a) + PageParagraphs(b)
  {
    if |a| == 0 {
      assert a + b == b;
    } else {
      var head, rest := BlockParagraphs(a[0].blocks), a[1..];
      calc {
        PageParagraphs(a + b);
        == { assert (a + b)[0] == a[0] && (a + b)[1..] == rest + b; }
        head + PageParagraphs(rest + b);
        == { PageParagraphsAppend(rest, b); }
        head + (PageParagraphs(rest) + PageParagraphs(b));
        == { ConcatAssoc(head, PageParagraphs(rest), PageParagraphs(b)); }
        PageParagraphs(a) + PageParagraphs(b);
      }
    }
  }


  /**
   * The lines `clean_text` collects before de-duplication: the line of every
   * paragraph that has surviving words and is not unwanted, in paragraph order.
   */
  function Lines(ps: seq<Paragraph>, height: int): (r: seq<string>)
    ensures |r| <= |ps|
  {
    if |ps| == 0 then [] else Contribution(ps[0], height) + Lines(ps[1..], height)
  }

  /** What one paragraph adds to the lines: its line, if it has one and it is wanted. */
  function Contribution(p: Paragraph, height: int): seq<string> {
    var line := ParagraphLine(p, height);
    if line.Some? && !IsUnwanted(line.value) then [line.value] else []
  }

  /**
   * No collected line is unwanted, every collected line is the line of some
   * paragraph, and every wanted paragraph line is collected.
   */
  lemma {:induction false} LinesMembership(ps: seq<Paragraph>, height: int)
    ensures forall l :: l in Lines(ps, height) ==> !IsUnwanted(l)
    ensures forall l :: l in Lines(ps, height) ==> exists p :: p in ps && ParagraphLine(p, height) == Some(l)
    ensures forall p :: (p in ps && ParagraphLine(p, height).Some? && !IsUnwanted(ParagraphLine(p, height).value))
                          ==> ParagraphLine(p, height).value in Lines(ps, height)
  {
    if |ps| > 0 {
      LinesMembership(ps[1..], height);
      forall p | p in ps
        ensures p == ps[0] || p in ps[1..]
      {
        var i :| 0 <= i < |ps| && ps[i] == p;
        if i > 0 {
          assert ps[1..][i - 1] == p;
        }
      }
    }
  }

  /** The first paragraph contributes its line, if any and wanted, ahead of the rest. */
  lemma LinesCons(p: Paragraph, ps: seq<Paragraph>, height: int)
    ensures Lines([p] + ps, height) == Contribution(p, height) + Lines(ps, height)
  {
    assert ([p] + ps)[0] == p && ([p] + ps)[1..] == ps;
  }

  /** Lines are produced paragraph by paragraph, so the order of paragraphs is kept. */
  lemma {:induction false} LinesAppend(a: seq<Paragraph>, b: seq<Paragraph>, height: int)
    ensures Lines(a + b, height) == Lines(a, height) + Lines(b, height)
  {
    if |a| == 0 {
      assert a + b == b;
    } else {
      var head, rest := Contribution(a[0], height), a[1..];
      assert (a + b)[0] == a[0] && (a + b)[1..] == rest + b;
      assert Lines(a + b, height) == head + Lines(rest + b, height);
      assert Lines(a, height) == head + Lines(rest, height);
      LinesAppend(rest, b, height);
      ConcatAssoc(head, Lines(rest, height), Lines(b, height));
    }
  }

  // ---------------------------------------------------------------------------
  // First-occurrence de-duplication
  // ---------------------------------------------------------------------------

  /** No earlier line has the same normalised form as line `i`. */
  predicate IsFirst(lines: seq<string>, i: int)
    requires 0 <= i < |lines|
  {
    forall j :: 0 <= j < i ==> Norm(lines[j]) != Norm(lines[i])
  }

  /** The indices below `n` of first occurrences, in increasing order. */
  function FirstIndices(lines: seq<string>, n: nat): (r: seq<nat>)
    requires n <= |lines|
    ensures forall k :: 0 <= k < |r| ==> r[k] < n && IsFirst(lines, r[k])
    ensures forall k, k' :: 0 <= k < k' < |r| ==> r[k] < r[k']
    ensures forall i :: 0 <= i < n && IsFirst(lines, i) ==> i in r
    ensures |r| <= n
  {
    if n == 0 then []
    else FirstIndices(lines, n - 1) + (if IsFirst(lines, n - 1) then [n - 1] else [])
  }

  /** The lines among the first `n` whose normalised form has not appeared before. */
  function Dedup(lines: seq<string>, n: nat): (r: seq<string>)
    requires n <= |lines|
    ensures |r| <= n
    ensures forall k :: 0 <= k < |r| ==> exists i :: 0 <= i < n && IsFirst(lines, i) && r[k] == lines[i]
  {
    var idx := FirstIndices(lines, n);
    var r := seq(|idx|, k requires 0 <= k < |idx| => lines[idx[k]]);
    assert forall k :: 0 <= k < |r| ==> r[k] == lines[idx[k]] && idx[k] < n && IsFirst(lines, idx[k]);
    r
  }

  /** Kept lines have pairwise distinct normalised forms. */
  lemma DedupDistinct(lines: seq<string>)
    ensures var d := Dedup(lines, |lines|);
            forall k, k' :: 0 <= k < k' < |d| ==> Norm(d[k]) != Norm(d[k'])
  {
  }

  /** Some line of `d` has normalised form `x`. */
  predicate Represented(d: seq<string>, x: string) {
    exists k :: 0 <= k < |d| && Norm(d[k]) == x
  }

  /** Every line has a first occurrence of its normalised form at or before it. */
  lemma {:induction false} EarliestSameNorm(lines: seq<string>, i: nat) returns (j: nat)
    requires i < |lines|
    ensures j <= i && Norm(lines[j]) == Norm(lines[i]) && IsFirst(lines, j)
    decreases i
  {
    if IsFirst(lines, i) {
      j := i;
    } else {
      var j' :| 0 <= j' < i && Norm(lines[j']) == Norm(lines[i]);
      j := EarliestSameNorm(lines, j');
    }
  }

  /** Every line's normalised form is represented among the kept lines. */
  lemma DedupCovers(lines: seq<string>, n: nat)
    requires n <= |lines|
    ensures forall i :: 0 <= i < n ==> Represented(Dedup(lines, n), Norm(lines[i]))
  {
    var idx := FirstIndices(lines, n);
    var d := Dedup(lines, n);
    forall i | 0 <= i < n ensures Represented(d, Norm(lines[i])) {
      var j := EarliestSameNorm(lines, i);
      assert j in idx;
      var k :| 0 <= k < |idx| && idx[k] == j;
      assert d[k] == lines[j];
    }
  }

  /**
   * The loop of `clean_text` that keeps the first line of each normalised form,
   * with the `seen` set of normalised forms.
   */
  method DedupLines(lines: seq<string>) returns (deduped: seq<string>)
    ensures deduped == Dedup(lines, |lines|)
    ensures forall k, k' :: 0 <= k < k' < |deduped| ==> Norm(deduped[k]) != Norm(deduped[k'])
    ensures forall i :: 0 <= i < |lines| ==> Represented(deduped, Norm(lines[i]))
  {
    var seen: set<string> := {};
    deduped := [];
    var i := 0;
    while i < |lines|
      invariant 0 <= i <= |lines|
      invariant seen == set j | 0 <= j < i :: Norm(lines[j])
      invariant deduped == Dedup(lines, i)
    {
      var norm := Norm(lines[i]);
      assert norm !in seen <==> IsFirst(lines, i);
      if norm !in seen {
        seen := seen + {norm};
        deduped := deduped + [lines[i]];
      }
      i := i + 1;
    }
    DedupDistinct(lines);
    DedupCovers(lines, |lines|);
  }

  // ---------------------------------------------------------------------------
  // clean_text
  // ---------------------------------------------------------------------------

  /** `clean_text(response, frame_height)`. */
  function CleanText(annotation: Annotation, height: int): string {
    var lines := Lines(PageParagraphs(annotation.pages), height);
    Join(Dedup(lines, |lines|), " ")
  }

  /** A string with no upper-case letter and no space is its own normalised form. */
  lemma NormOfPlain(s: string)
    requires forall i :: 0 <= i < |s| ==> !('A' <= s[i] <= 'Z') && s[i] != ' '
    ensures Norm(s) == s
  {
    assert LowerStr(s) == s;
    FilterKeepsAll(s, NotSpaceChar);
  }

  /** Two words without capitals or spaces, separated by a space, normalise to their concatenation. */
  lemma NormOfPlainWords(a: string, b: string)
    requires forall i :: 0 <= i < |a| ==> !('A' <= a[i] <= 'Z') && a[i] != ' '
    requires forall i :: 0 <= i < |b| ==> !('A' <= b[i] <= 'Z') && b[i] != ' '
    ensures Norm(a + " " + b) == a + b
  {
    NormIgnoresSpace(a, b);
    NormOfPlain(a + b);
  }

  /** The first example line is a username. */
  lemma ExampleUsernameIsUnwanted()
    ensures IsUnwanted("@johndoe")
  {
    NormOfPlain("@johndoe");
  }

  /** The second example line is kept: it has no `k`, so it cannot contain `tiktok`. */
  lemma ExampleHelloIsWanted()
    ensures !IsUnwanted("hello there")
  {
    ExampleHelloNorm();
    var n := "hellothere";
    assert 'k' !in n && n[0] == 'h';
    WantedWithoutK("hello there");
  }

  /** A line whose normalised form has no `k` and does not start with `@` is wanted. */
  lemma WantedWithoutK(text: string)
    requires 'k' !in Norm(text)
    requires |Norm(text)| == 0 || Norm(text)[0] != '@'
    ensures !IsUnwanted(text)
  {
    assert "tiktok"[2] == 'k';
    MissingCharNotContained(Norm(text), "tiktok", 'k');
  }

  lemma ExampleHelloNorm()
    ensures Norm("hello there") == "hellothere"
  {
    var hello, there := "hello", "there";
    assert "hello there" == hello + " " + there;
    assert "hellothere" == hello + there;
    NormOfPlainWords(hello, there);
  }

  /** The example's words all lie in the upper three quarters of a 100-pixel frame. */
  lemma ExampleKeptTexts(w: Word, hello: Word, there: Word)
    requires w == Word(["@johndoe"], [10])
    requires hello == Word(["hello"], [10]) && there == Word(["there"], [10])
    ensures KeptTexts([w], 100) == ["@johndoe"]
    ensures KeptTexts([hello, there], 100) == ["hello", "there"]
  {
    assert MinY(w.ys) == 10 && MinY(hello.ys) == 10 && MinY(there.ys) == 10;
    assert WordText(w) == "@johndoe" && WordText(hello) == "hello" && WordText(there) == "there";
    assert KeptTexts([w], 100) == [WordText(w)] + KeptTexts([w][1..], 100);
    assert KeptTexts([there], 100) == [WordText(there)] + KeptTexts([there][1..], 100);
    assert KeptTexts([hello, there], 100) == [WordText(hello)] + KeptTexts([hello, there][1..], 100);
    assert [hello, there][1..] == [there];
  }

  /** The example's paragraphs read as `@johndoe` and `hello there`. */
  lemma ExampleParagraphLines(user: Paragraph, greeting: Paragraph)
    requires user == Paragraph([Word(["@johndoe"], [10])])
    requires greeting == Paragraph([Word(["hello"], [10]), Word(["there"], [10])])
    ensures ParagraphLine(user, 100) == Some("@johndoe")
    ensures ParagraphLine(greeting, 100) == Some("hello there")
  {
    ExampleKeptTexts(Word(["@johndoe"], [10]), Word(["hello"], [10]), Word(["there"], [10]));
    assert Join(["hello", "there"], " ") == "hello" + " " + Join(["there"], " ");
    assert "hello" + " " + "there" == "hello there";
  }

  /** An unwanted paragraph followed by a wanted one twice gives the wanted line twice. */
  lemma LinesSkipUnwanted(user: Paragraph, greeting: Paragraph, height: int)
    requires ParagraphLine(user, height).Some? && IsUnwanted(ParagraphLine(user, height).value)
    requires ParagraphLine(greeting, height).Some? && !IsUnwanted(ParagraphLine(greeting, height).value)
    ensures var g := ParagraphLine(greeting, height).value;
            Lines([user, greeting, greeting], height) == [g, g]
  {
    LinesCons(greeting, [], height);
    LinesCons(greeting, [greeting], height);
    LinesCons(user, [greeting, greeting], height);
    assert [greeting] + [] == [greeting];
    assert [greeting] + [greeting] == [greeting, greeting];
    assert [user] + [greeting, greeting] == [user, greeting, greeting];
  }

  /** The example's paragraphs give one username line and the same line twice. */
  lemma ExampleLines(user: Paragraph, greeting: Paragraph)
    requires user == Paragraph([Word(["@johndoe"], [10])])
    requires greeting == Paragraph([Word(["hello"], [10]), Word(["there"], [10])])
    ensures Lines([user, greeting, greeting], 100) == ["hello there", "hello there"]
  {
    ExampleParagraphLines(user, greeting);
    ExampleUsernameIsUnwanted();
    ExampleHelloIsWanted();
    LinesSkipUnwanted(user, greeting, 100);
  }

  /** A frame whose paragraphs read "@johndoe", "hello there" and "hello there". */
  function ExampleAnnotation(): Annotation {
    Annotation([Page([Block([Paragraph([Word(["@johndoe"], [10])]),
                             Paragraph([Word(["hello"], [10]), Word(["there"], [10])]),
                             Paragraph([Word(["hello"], [10]), Word(["there"], [10])])])])])
  }

  /**
   * In that frame of height 100 the username line is dropped and the
   * repeated line is kept once.
   */
  lemma UsernameAndRepeatExample()
    ensures CleanText(ExampleAnnotation(), 100) == "hello there"
  {
    var user := Paragraph([Word(["@johndoe"], [10])]);
    var greeting := Paragraph([Word(["hello"], [10]), Word(["there"], [10])]);
    SingleBlockParagraphs([user, greeting, greeting]);
    assert ExampleAnnotation().pages == [Page([Block([user, greeting, greeting])])];
    ExampleLines(user, greeting);
    ExampleDedup();
    assert Join(["hello there"], " ") == "hello there";
  }

  /** An annotation with one page holding one block reads that block's paragraphs. */
  lemma SingleBlockParagraphs(ps: seq<Paragraph>)
    ensures PageParagraphs([Page([Block(ps)])]) == ps
  {
    assert BlockParagraphs([Block(ps)]) == ps + [];
    assert PageParagraphs([Page([Block(ps)])]) == BlockParagraphs([Block(ps)]) + [];
  }

  /** The same line twice is kept once. */
  lemma ExampleDedup()
    ensures Dedup(["hello there", "hello there"], 2) == ["hello there"]
  {
    var lines := ["hello there", "hello there"];
    assert lines[0] == lines[1];
    assert IsFirst(lines, 0) && !IsFirst(lines, 1);
    assert FirstIndices(lines, 1) == [0];
    assert FirstIndices(lines, 2) == [0];
  }
}
