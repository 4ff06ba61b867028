/**
 * The sampling and cross-frame suppression loop of `process_video`
 * (app/main.py), as a fold over what happened to each raw frame read from
 * the decoder, with the state `(frame_num, last_text, results)`.
 */
module FrameScan {
  import opened Wrappers
  import opened Chars
  import opened Strings
  import opened Captions
  import opened GcsUri

  /** Only frames whose counter is a multiple of this are sent to recognition. */
  const FRAME_INTERVAL: nat := 30

  /**
   * What happened to one raw frame: the JPEG encoding failed, the recogniser
   * returned no text annotation, or it returned one. For frames that are not
   * sampled the outcome is never looked at.
   */
  datatype Frame = EncodeFail | NoAnnotation | Annotated(annotation: Annotation)

  /** One entry of `results`: `{"frame": frame_num, "text": text}`. */
  datatype Caption = Caption(frame: nat, text: string)

  /** The loop variables `frame_num`, `last_text` and `results`. */
  datatype ScanState = ScanState(frameNum: nat, lastText: Option<string>, results: seq<Caption>)

  /** `frame_num = 0`, `last_text = None`, `results = []`. */
  const Start: ScanState := ScanState(0, None, [])

  predicate IsSampled(frameNum: nat) {
    frameNum % FRAME_INTERVAL == 0
  }

  /** `text.strip()` is not empty. */
  predicate HasVisibleText(text: string) {
    Strip(text, IsWhitespace) != []
  }

  /** The text has a character that is not whitespace. */
  predicate NonBlank(text: string) {
    exists i :: 0 <= i < |text| && !IsWhitespace(text[i])
  }

  /** `text.strip()` is non-empty exactly when the text has a non-whitespace character. */
  lemma VisibleIff(text: string)
    ensures HasVisibleText(text) <==> NonBlank(text)
  {
  }

  /**
   * The tail of one sampled iteration whose frame was recognised as `text`
   * (lines 132-136): append a result when the text is visible and differs
   * exactly from `last_text`, then advance the counter.
   */
  function Emit(st: ScanState, text: string): (r: ScanState)
    ensures r.frameNum == st.frameNum + 1
    ensures st.results <= r.results
    ensures |r.results| == |st.results| + 1 <==> HasVisibleText(text) && st.lastText != Some(text)
    ensures |r.results| == |st.results| + 1 ==>
              r.results[|st.results|] == Caption(st.frameNum, text) && r.lastText == Some(text)
    ensures |r.results| != |st.results| + 1 ==> r.results == st.results && r.lastText == st.lastText
  {
    if HasVisibleText(text) && st.lastText != Some(text) then
      ScanState(st.frameNum + 1, Some(text), st.results + [Caption(st.frameNum, text)])
    else
      st.(frameNum := st.frameNum + 1)
  }

  /**
   * One iteration of the loop. On a sampled frame whose encoding fails, the
   * `continue` skips `frame_num += 1`, so the state does not change at all.
   */
  function Step(st: ScanState, f: Frame, height: int): (r: ScanState)
    ensures IsSampled(st.frameNum) && f.EncodeFail? ==> r == st
    ensures !(IsSampled(st.frameNum) && f.EncodeFail?) ==> r.frameNum == st.frameNum + 1
    ensures !(IsSampled(st.frameNum) && f.Annotated?) ==> r.results == st.results && r.lastText == st.lastText
  {
    if !IsSampled(st.frameNum) then
      st.(frameNum := st.frameNum + 1)
    else
      match f
      case EncodeFail => st
      case NoAnnotation => st.(frameNum := st.frameNum + 1)
      case Annotated(a) => Emit(st, CleanText(a, height))
  }

  /** The whole loop, from a given state, over the remaining raw frames. */
  function Run(st: ScanState, frames: seq<Frame>, height: int): (r: ScanState)
    ensures st.frameNum <= r.frameNum <= st.frameNum + |frames|
    ensures st.results <= r.results
    ensures |r.results| <= |st.results| + |frames|
    decreases |frames|
  {
    if |frames| == 0 then st else Run(Step(st, frames[0], height), frames[1..], height)
  }

  /**
   * What the loop keeps true: every result is at a sampled frame before the
   * current counter, has visible text, frames strictly increase, neighbours
   * differ in text, and `last_text` is the text of the last result.
   */
  ghost predicate Valid(st: ScanState) {
    && (forall k :: 0 <= k < |st.results| ==>
          IsSampled(st.results[k].frame) && st.results[k].frame < st.frameNum
          && NonBlank(st.results[k].text))
    && (forall k :: 0 < k < |st.results| ==>
          st.results[k - 1].frame < st.results[k].frame && st.results[k - 1].text != st.results[k].text)
    && st.lastText == (if |st.results| == 0 then None else Some(st.results[|st.results| - 1].text))
  }

  lemma EmitKeepsValid(st: ScanState, text: string)
    requires Valid(st) && IsSampled(st.frameNum)
    ensures Valid(Emit(st, text))
  {
    if HasVisibleText(text) && st.lastText != Some(text) {
      VisibleIff(text);
      AppendKeepsValid(st, text);
    }
  }

  /** Appending a visible text that differs from the last one, at a sampled counter, keeps the invariant. */
  lemma AppendKeepsValid(st: ScanState, text: string)
    requires Valid(st) && IsSampled(st.frameNum)
    requires NonBlank(text) && st.lastText != Some(text)
    ensures Valid(ScanState(st.frameNum + 1, Some(text), st.results + [Caption(st.frameNum, text)]))
  {
    var n := |st.results|;
    var rs := st.results + [Caption(st.frameNum, text)];
    forall k | 0 <= k < |rs|
      ensures IsSampled(rs[k].frame) && rs[k].frame < st.frameNum + 1 && NonBlank(rs[k].text)
    {
      if k < n {
        assert rs[k] == st.results[k];
      }
    }
    forall k | 0 < k < |rs|
      ensures rs[k - 1].frame < rs[k].frame && rs[k - 1].text != rs[k].text
    {
      if k < n {
        assert rs[k - 1] == st.results[k - 1] && rs[k] == st.results[k];
      } else {
        assert rs[k - 1] == st.results[n - 1];
      }
    }
  }

  lemma StepKeepsValid(st: ScanState, f: Frame, height: int)
    requires Valid(st)
    ensures Valid(Step(st, f, height))
  {
    if IsSampled(st.frameNum) && f.Annotated? {
      EmitKeepsValid(st, CleanText(f.annotation, height));
    }
  }

  lemma {:induction false} RunKeepsValid(st: ScanState, frames: seq<Frame>, height: int)
    requires Valid(st)
    ensures Valid(Run(st, frames, height))
    decreases |frames|
  {
    if |frames| > 0 {
      StepKeepsValid(st, frames[0], height);
      RunKeepsValid(Step(st, frames[0], height), frames[1..], height);
    }
  }

  /**
   * Encoding failures at a sampled counter leave the whole state unchanged, so
   * the next raw frame is read under the same counter and is sampled again.
   */
  lemma {:induction false} EncodeFailuresStall(st: ScanState, frames: seq<Frame>, height: int)
    requires IsSampled(st.frameNum)
    requires forall i :: 0 <= i < |frames| ==> frames[i] == EncodeFail
    ensures Run(st, frames, height) == st
    decreases |frames|
  {
    if |frames| > 0 {
      assert Step(st, frames[0], height) == st;
      EncodeFailuresStall(st, frames[1..], height);
    }
  }

  /**
   * Once a text was the last one emitted, further frames that all read as that
   * same text (or give no text at all) emit nothing.
   */
  lemma {:induction false} RunSuppressesRepeat(st: ScanState, frames: seq<Frame>, height: int, text: string)
    requires st.lastText == Some(text)
    requires forall i :: 0 <= i < |frames| && frames[i].Annotated? ==> CleanText(frames[i].annotation, height) == text
    ensures Run(st, frames, height).results == st.results
    ensures Run(st, frames, height).lastText == Some(text)
    decreases |frames|
  {
    if |frames| > 0 {
      var next := Step(st, frames[0], height);
      if IsSampled(st.frameNum) && frames[0].Annotated? {
        assert next == Emit(st, text);
      }
      RunSuppressesRepeat(next, frames[1..], height, text);
    }
  }

  /**
   * A run of frames showing the same new text yields exactly one result,
   * attributed to the first sampled frame of the run.
   */
  lemma RunAttributesToFirst(st: ScanState, a: Annotation, frames: seq<Frame>, height: int)
    requires IsSampled(st.frameNum)
    requires HasVisibleText(CleanText(a, height)) && st.lastText != Some(CleanText(a, height))
    requires forall i :: 0 <= i < |frames| && frames[i].Annotated? ==>
               CleanText(frames[i].annotation, height) == CleanText(a, height)
    ensures Run(st, [Annotated(a)] + frames, height).results
            == st.results + [Caption(st.frameNum, CleanText(a, height))]
  {
    var all := [Annotated(a)] + frames;
    assert all[0] == Annotated(a) && all[1..] == frames;
    var next := Step(st, Annotated(a), height);
    assert Run(st, all, height) == Run(next, frames, height);
    assert next == Emit(st, CleanText(a, height));
    assert next.results == st.results + [Caption(st.frameNum, CleanText(a, height))];
    RunSuppressesRepeat(next, frames, height, CleanText(a, height));
  }

  /**
   * `process_video(gcs_uri)` with the decoder's frames, the frame height and
   * the recogniser's answers given as inputs: a malformed reference fails
   * before any frame is read; otherwise the results are at multiples of 30,
   * in strictly increasing frame order, with visible text, and no two
   * neighbours carry the same text.
   */
  function ProcessVideo(uri: string, height: int, frames: seq<Frame>): (r: Result<seq<Caption>, UriError>)
    ensures r.Success? <==> ParseGcsUri(uri).Success?
    ensures r.Failure? ==> r.error == ParseGcsUri(uri).error
    ensures r.Success? ==> forall k :: 0 <= k < |r.value| ==>
              r.value[k].frame % FRAME_INTERVAL == 0 && NonBlank(r.value[k].text)
    ensures r.Success? ==> forall k :: 0 < k < |r.value| ==>
              r.value[k - 1].frame < r.value[k].frame && r.value[k - 1].text != r.value[k].text
  {
    match ParseGcsUri(uri)
    case Failure(e) => Failure(e)
    case Success(_) =>
      var st := Run(Start, frames, height);
      RunKeepsValid(Start, frames, height);
      Success(st.results)
  }
}
