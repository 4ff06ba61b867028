# Caption reduction and file-name cleaning, modelled in Dafny

This project models the two pure-logic cores of a small video-caption
extractor written in Python.

1. **Caption reduction** (`app/main.py`). The extractor reads raw frames of a
   video stored at a `gs://bucket/object` reference. It sends every 30th frame
   to a text recogniser. Each recognition result is reduced to one caption
   string:
   - words whose topmost vertex lies in the bottom quarter of the frame are dropped;
   - the surviving words of each paragraph are joined into a line;
   - blocklisted and username-like lines are dropped;
   - repeated lines (same lower-cased, space-free form) are dropped;
   - the remaining lines are joined.

   A caption is recorded when it has visible text and differs exactly from
   the last recorded one.
2. **`sanitize_filename`** (`test.py`, nested in the downloader). It deletes
   characters outside `[\w\s-]`, turns whitespace runs into `_`, collapses `_`
   runs, strips `_` at both ends and cuts the result to 100 characters.

Modules:

- `Wrappers`: `Option` and `Result`.
- `Chars`: the ASCII character classes and `lower()`.
- `Strings`: generic filter, strip, substring search, join and run replacement.
- `Captions`: `is_unwanted` and `clean_text`.
- `GcsUri`: the `gs://` split.
- `FrameScan`: the frame loop of `process_video`, as a fold over per-frame outcomes.
- `Sanitize`: `sanitize_filename`.

The I/O is abstracted as follows:

- The decoder's frame stream becomes a sequence of outcomes, one per raw frame:
  `EncodeFail`, `NoAnnotation` or `Annotated(annotation)`.
- The recogniser's answer is an immutable tree: pages, blocks, paragraphs, words.
  Each word is a sequence of symbol texts plus a non-empty sequence of vertex y's.
- The frame height is a parameter.

Some behaviour of the code is worth stating plainly:

- Only the bottom quarter of the frame is excluded; nothing is excluded at the top.
- Frames are read until the decoder's stream ends, with no size cap, timeout or
  cancellation.
- The normalised form deletes only the plain space `" "`, not all whitespace.
- Cross-frame suppression compares the exact caption text, not its normalised
  form. `last_text` starts as `None`.

One quirk of the loop is modelled as written. When JPEG encoding of a sampled
frame fails, the `continue` skips `frame_num += 1`. The counter therefore does
not advance, and the next raw frame is read under the same (sampled) number.

## Model

| member | source | states |
|---|---|---|
| Chars.Lower | app/main.py:25 | an upper-case ASCII letter becomes its lower-case letter, every other character is unchanged, no result is upper-case, and word characters and whitespace stay in their class |
| Captions.Norm | app/main.py:25 | the normalised form is no longer than the line and holds no space and no upper-case letter |
| Captions.MatchesUsername | app/main.py:28 | no contract of its own: the pattern `@[\w\d_]+` anchored at the start is its definition (an `@` first, then a word character); UsernameNeedsLeadingAtAndWordChar states what follows from it |
| Captions.IsUnwanted | app/main.py:24-30 | a line is unwanted exactly when its lower-cased, space-free form contains `tiktok` or starts with `@` followed by a word character |
| Captions.BlocklistHit | app/main.py:15-27 | both blocklist entries, `tiktok` and `tik tok`, lose their spaces to the same word, so a hit on either entry is exactly an occurrence of `tiktok` |
| Captions.NormIdempotent | app/main.py:25 | normalising an already-normalised line changes nothing (it has no spaces and no upper-case letters left) |
| Captions.UnwantedIgnoresSpaceAndCase | app/main.py:24-28 | inserting a space anywhere, or changing the case of any letters, never changes the unwanted verdict |
| Captions.UsernameNeedsLeadingAtAndWordChar | app/main.py:28 | a lone `@` is not a username, an `@` that is not the first normalised character is not a username, and any username-shaped line is unwanted |
| Captions.WordText | app/main.py:40 | no contract of its own: a word's text is the concatenation of its symbols' texts, and KeptTextsMembership states that exactly these texts are kept |
| Captions.MinY | app/main.py:41 | the minimum vertex y is one of the vertices and is at most every vertex |
| Captions.KeepWord | app/main.py:40-42 | no contract of its own: the comparison `4*ymin > 3*H` is its definition; KeepWordIff states what it means in terms of the vertices |
| Captions.KeepWordIff | app/main.py:14-43 | a word is kept exactly when some vertex lies at or above three quarters of the height (`4*y <= 3*H`); a word exactly on the line is kept; moving a word up never drops it, so there is no top band |
| Captions.KeptTexts | app/main.py:39-44 | at most one text per word; which texts is stated by KeptTextsMembership and KeptTextsEmpty, and their order by KeptTextsAppend |
| Captions.KeptTextsMembership | app/main.py:39-44 | a text is kept exactly when it is the text of some word whose topmost vertex is not in the bottom quarter |
| Captions.KeptTextsEmpty | app/main.py:39-47 | no word text of a paragraph is kept exactly when every word lies in the bottom quarter, which is when the paragraph gives no line |
| Captions.KeptTextsAppend | app/main.py:39-44 | word texts are kept word by word, so their order is the order of the words |
| Captions.ParagraphLine | app/main.py:38-47 | a paragraph yields a line exactly when at least one of its words survives the region filter, and that line is the surviving word texts joined by single spaces |
| Captions.BlockParagraphs | app/main.py:36-37 | no contract of its own: the paragraphs of each block in turn; BlockParagraphsAppend states that the walk keeps block order |
| Captions.BlockParagraphsAppend | app/main.py:36-37 | the paragraphs of two consecutive block lists are the paragraphs of the first followed by those of the second |
| Captions.PageParagraphs | app/main.py:35-37 | no contract of its own: the paragraphs of each page's blocks in turn; PageParagraphsAppend states that the walk keeps page order |
| Captions.PageParagraphsAppend | app/main.py:35-37 | the paragraphs of two consecutive page lists are the paragraphs of the first followed by those of the second |
| Captions.Contribution | app/main.py:46-49 | no contract of its own: a paragraph adds its line when it has one and the line is wanted; LinesCons and LinesMembership state how this builds the collected lines |
| Captions.Lines | app/main.py:35-49 | at most one line per paragraph; which lines and in what order is stated by LinesMembership and LinesAppend |
| Captions.LinesMembership | app/main.py:35-49 | no collected line is unwanted; every collected line is the line of one of the paragraphs; every paragraph line that exists and is wanted is collected |
| Captions.LinesAppend | app/main.py:35-49 | lines are collected paragraph by paragraph, so they follow the paragraph order |
| Captions.FirstIndices | app/main.py:51-57 | the kept lines are exactly the first occurrences of their normalised forms, in increasing position order |
| Captions.Dedup | app/main.py:51-57 | keeps at most `n` lines, and each kept line is, among the first `n`, the first one with its normalised form |
| Captions.DedupDistinct | app/main.py:51-57 | the kept lines have pairwise distinct normalised forms |
| Captions.EarliestSameNorm | app/main.py:51-57 | every line has, at or before it, a line with the same normalised form that is the first of its form |
| Captions.DedupCovers | app/main.py:51-57 | every filtered line's normalised form is represented among the kept lines |
| Captions.DedupLines | app/main.py:51-57 | the loop with its `seen` set keeps exactly the first occurrence of each normalised form, in order; the result has distinct normalised forms and covers every line |
| Captions.CleanText | app/main.py:33-59 | no contract of its own: it joins with spaces the de-duplicated collected lines; LinesMembership, LinesAppend, FirstIndices, DedupDistinct and DedupCovers state what those lines are |
| Captions.UsernameAndRepeatExample | app/main.py:33-59 | for a frame reading `@johndoe`, `hello there`, `hello there`, the caption is exactly `hello there` |
| GcsUri.SplitBucketBlob | app/main.py:89 | after dropping five characters, splitting once at the first `/` succeeds exactly when a `/` is present; the bucket then has no `/`, and bucket, `/` and object name rebuild the suffix |
| GcsUri.ParseGcsUri | app/main.py:63-64 | a reference without the `gs://` prefix fails the assertion; one with it splits as above, and on success `gs://` + bucket + `/` + object equals the input |
| GcsUri.ParseRoundTrip | app/main.py:63-64 | any bucket without `/` and any object name, joined into a reference, parse back to themselves |
| Strings.Filter | test.py:17 | every character of the result is in the kept class, and the result is no longer than the input |
| Strings.FilterMembership | test.py:17 | a character occurs in the result exactly when it occurs in the input and is in the kept class |
| Strings.Join | app/main.py:47 | joining no parts gives the empty string and joining one part gives that part |
| Strings.Contains | app/main.py:26 | substring search holds exactly when the word occurs at some position |
| Strings.Strip | test.py:20 | stripping a class leaves a string that neither starts nor ends in it, and is empty exactly when every character was in the class |
| Strings.ReplaceRuns | test.py:18-19 | replacing each run of a class by one member of that class leaves no two neighbouring members, and invents no other character |
| Strings.ReplaceRunsOneRun | test.py:18-19 | characters outside the class before a run are kept as they are, the whole run, of any length, becomes exactly one replacement character, and the text after it is processed as following a run |
| FrameScan.VisibleIff | app/main.py:132 | `text.strip()` is non-empty exactly when the text has a non-whitespace character |
| FrameScan.Emit | app/main.py:132-136 | a caption is appended exactly when the text is visible and differs from the last text; it carries the current frame number, becomes the last text, and the counter advances |
| FrameScan.Step | app/main.py:123-136 | an encode failure on a sampled frame leaves the whole state unchanged; every other frame advances the counter by one; only sampled, annotated frames can add a result |
| FrameScan.Run | app/main.py:116-136 | the loop never removes or rewrites a recorded result, records at most one result per raw frame, and its counter never decreases and advances by at most one per raw frame |
| FrameScan.EmitKeepsValid | app/main.py:130-136 | appending at a sampled counter keeps every loop invariant: sampled frames below the counter, visible texts, increasing frames, differing neighbours, last text = last result |
| FrameScan.StepKeepsValid | app/main.py:116-136 | one loop iteration keeps the same invariants, including after an encode failure that does not advance the counter |
| FrameScan.RunKeepsValid | app/main.py:112-136 | the whole loop, from its initial state, keeps the invariants |
| FrameScan.EncodeFailuresStall | app/main.py:123-126 | a run of encode failures at a sampled counter leaves the state exactly as it was |
| FrameScan.RunSuppressesRepeat | app/main.py:132-134 | once a text was last recorded, frames that read as that same text record nothing |
| FrameScan.RunAttributesToFirst | app/main.py:130-134 | a run of frames showing one new visible text yields exactly one result, at the first frame of the run |
| FrameScan.ProcessVideo | app/main.py:97-139 | a malformed reference fails before any frame; otherwise results sit at multiples of 30 in strictly increasing order, each has a non-whitespace character, and no two neighbours have equal text |
| Sanitize.Stripped | test.py:17-20 | after the four substitutions, the name holds only word characters and `-`, has no `__`, and neither starts nor ends with `_` |
| Sanitize.KernelRuns | test.py:17-19 | every run is non-empty and made only of letters, digits and hyphens |
| Sanitize.TwoPassesAreOne | test.py:18-19 | turning whitespace runs into `_` and then collapsing `_` runs is the same as turning every run of mixed whitespace and `_` into one `_` |
| Sanitize.StrippedIsJoinedRuns | test.py:17-20 | the four substitutions give exactly the maximal runs of letters, digits and hyphens of the kept characters, joined by single `_`: any mix of whitespace and `_` between two runs becomes one `_`, and at either end it disappears |
| Sanitize.SanitizeFilename | test.py:14-21 | the result has at most 100 characters, only word characters and `-`, no `__`, and does not start with `_` |
| Sanitize.PrefixKeepsShape | test.py:21 | cutting a name keeps its character set and its lack of `__` |
| Sanitize.KernelSurvivesStripping | test.py:17-20 | the substitutions never delete, reorder or invent a letter, digit or hyphen |
| Sanitize.TrailingUnderscoreOnlyFromCut | test.py:20-21 | the result ends with `_` exactly when the stripped name is longer than 100 and its 100th character is `_` |
| Sanitize.KeepsKernelInOrder | test.py:17-21 | deleting every `_` from the result gives a prefix of the title's letters, digits and hyphens in their original order |
| Sanitize.CleanNameUnchanged | test.py:17-21 | a name with only word characters and `-`, no `__`, no `_` at either end and at most 100 characters comes back unchanged |
| Sanitize.SanitizeIdempotentUnlessCutAtUnderscore | test.py:14-21 | cleaning a cleaned name returns it unchanged whenever the cut did not leave a trailing `_` |
| Sanitize.NoKernelGivesEmpty | test.py:17-20 | a title with no letter, digit or hyphen cleans to the empty name |

## Left out

- The Flask route, JSON handling and HTTP status mapping (app/main.py:142-157). These are web plumbing.
- The Vision and Storage clients, signed-URL generation, the ffmpeg subprocess and `cv2` are foreign calls (app/main.py:66-86, 102-109, 124-128, 138). The model takes their outcomes as inputs: the per-frame outcome sequence and the frame height.
- Raw byte reads and the numpy reshape (app/main.py:117-121) are buffer I/O. A short final read, on which the reshape would raise, is not modelled: the outcome sequence simply ends.
- Exceptions raised by the recogniser or the storage client are not modelled. They would abort `process_video` as a whole.
- `download_gcs_to_tempfile` (app/main.py:88-95): only its bucket/object split (line 89) is modelled. The temporary file and the download are I/O.
- The downloader around `sanitize_filename` (test.py:23-75) is left out. It consists of yt-dlp, file-existence checks, rename and temp-directory cleanup.
- Character classes are ASCII only:
  - `\w` is `[A-Za-z0-9_]`;
  - `\s` and `strip()` use space, `\t` to `\r`, and `\x1c` to `\x1f`;
  - `lower()` maps only `A`-`Z`.

  Python's Unicode classes and case mapping are wider.
- Strings.Join: its contract states only the zero- and one-part cases. How the separator is placed between more parts is pinned down for the `_` join by Sanitize.StrippedIsJoinedRuns, and for the space joins only through the example UsernameAndRepeatExample.
- The region filter is stated as `4*ymin > 3*H`. This matches the floating-point test `ymin > H*0.75` exactly as long as `3*H` is exactly representable as a double (heights below 2^51), which covers every real frame.
- `if response.full_text_annotation` is folded into the outcome. An annotation with no pages yields the empty caption, which records nothing, just as `NoAnnotation` does.
