/** `processImage` (scoolize/src/components/Student/ScoreOCR.tsx): the checks a selected
    file goes through before it is preprocessed, recognised and parsed, and what each
    outcome shows or hands on. The image itself and the recognition engine are not
    modelled: the text the engine returns, or its failure, is a parameter. */
module Upload {
  import opened Wrappers
  import opened ScoreParser

  /** What the browser reports about a selected file. */
  datatype SelectedFile = SelectedFile(mimeType: string, size: nat)

  /** The largest accepted file: 10 MiB. */
  const MaxUploadBytes: nat := 10 * 1024 * 1024

  /** The MIME type begins with `prefix`. */
  predicate StartsWith(s: string, prefix: string) {
    |prefix| <= |s| && s[..|prefix|] == prefix
  }

  predicate IsImageType(mimeType: string) {
    StartsWith(mimeType, "image/")
  }

  /** The outcome of the checks, in the order they are made. */
  datatype Verdict = NoFile | InvalidType | TooLarge | Accepted

  function Validate(file: Option<SelectedFile>): (v: Verdict)
    ensures v == NoFile <==> file.None?
    ensures v == InvalidType <==> file.Some? && !IsImageType(file.value.mimeType)
    ensures v == TooLarge <==> file.Some? && IsImageType(file.value.mimeType) && file.value.size > MaxUploadBytes
    ensures v == Accepted <==> file.Some? && IsImageType(file.value.mimeType) && file.value.size <= MaxUploadBytes
  {
    match file
    case None => NoFile
    case Some(f) =>
      if !IsImageType(f.mimeType) then InvalidType
      else if f.size > MaxUploadBytes then TooLarge
      else Accepted
  }

  /** The type is checked before the size: a file that is not an image is reported as
      such however large it is, and a large file is reported only when it is an image. */
  lemma TypeCheckedFirst(mimeType: string, size: nat)
    ensures !IsImageType(mimeType) ==> Validate(Some(SelectedFile(mimeType, size))) == InvalidType
    ensures Validate(Some(SelectedFile(mimeType, size))) == TooLarge ==> IsImageType(mimeType)
  {
  }

  /** The work done on an accepted file, in order. */
  datatype Stage = Preprocess | Recognize | Parse

  /** The notification shown at the end. */
  datatype Notice = InvalidFileNotice | TooLargeNotice | NoScoreNotice | ExtractedNotice(count: nat) | ErrorNotice

  /** One run of `processImage`: the stages it went through, the notification it showed
      (if any) and the scores handed to `onScoresExtracted` (if any). */
  datatype Run = Run(stages: seq<Stage>, notice: Option<Notice>, delivered: Option<seq<ExtractedScore>>)

  /** `recognized` is the text the recognition engine returns, or `None` when it throws. */
  function ProcessImage(file: Option<SelectedFile>, usePreprocessing: bool, recognized: Option<string>): (run: Run)
    ensures run.stages == [] <==> Validate(file) != Accepted
  {
    match Validate(file)
    case NoFile => Run([], None, None)
    case InvalidType => Run([], Some(InvalidFileNotice), None)
    case TooLarge => Run([], Some(TooLargeNotice), None)
    case Accepted =>
      var before := (if usePreprocessing then [Preprocess] else []) + [Recognize];
      match recognized
      case None => Run(before, Some(ErrorNotice), None)
      case Some(text) =>
        var scores := ParseScores(text);
        if |scores| == 0 then Run(before + [Parse], Some(NoScoreNotice), None)
        else Run(before + [Parse], Some(ExtractedNotice(|scores|)), Some(scores))
  }

  /** A file that fails a check reaches neither preprocessing, recognition nor parsing,
      hands nothing on, and is reported by the notice of the check it failed (a missing
      file silently). */
  lemma RejectedReachesNoStage(file: Option<SelectedFile>, usePreprocessing: bool, recognized: Option<string>)
    requires Validate(file) != Accepted
    ensures var run := ProcessImage(file, usePreprocessing, recognized);
            run.stages == [] && run.delivered.None?
            && (run.notice == Some(InvalidFileNotice) <==> Validate(file) == InvalidType)
            && (run.notice == Some(TooLargeNotice) <==> Validate(file) == TooLarge)
            && (run.notice.None? <==> file.None?)
  {
  }

  /** An accepted file is recognised, preprocessed first exactly when preprocessing is
      on, and parsed exactly when recognition succeeds. */
  lemma AcceptedStages(file: Option<SelectedFile>, usePreprocessing: bool, recognized: Option<string>)
    requires Validate(file) == Accepted
    ensures var run := ProcessImage(file, usePreprocessing, recognized);
            Recognize in run.stages
            && (Preprocess in run.stages <==> usePreprocessing)
            && (Parse in run.stages <==> recognized.Some?)
            && (recognized.None? ==> run.notice == Some(ErrorNotice) && run.delivered.None?)
  {
    var before := (if usePreprocessing then [Preprocess] else []) + [Recognize];
    assert Recognize in before && (Preprocess in before <==> usePreprocessing) && Parse !in before;
    if recognized.Some? {
      var after := before + [Parse];
      assert ProcessImage(file, usePreprocessing, recognized).stages == after;
      assert forall x :: x in after <==> x in before || x == Parse;
    }
  }

  /** What is handed to `onScoresExtracted` is the parse of the recognised text, never
      empty, announced with its size, and it satisfies every bound of the parser: at most
      four distinct subjects, scores in [0, 20], confidence 0.85. Nothing is handed on
      when the parse is empty. */
  lemma DeliveredScores(file: Option<SelectedFile>, usePreprocessing: bool, text: string)
    requires Validate(file) == Accepted
    ensures var run := ProcessImage(file, usePreprocessing, Some(text));
            (run.delivered.None? <==> ParseScores(text) == [])
            && (run.delivered.None? ==> run.notice == Some(NoScoreNotice))
            && (run.delivered.Some? ==>
                  var r := run.delivered.value;
                  r == ParseScores(text) && run.notice == Some(ExtractedNotice(|r|)) && 1 <= |r| <= 4
                  && (forall k :: 0 <= k < |r| ==> 0.0 <= r[k].score <= 20.0 && r[k].confidence == 0.85)
                  && (forall j, k :: 0 <= j < k < |r| ==> r[j].subject != r[k].subject))
  {
  }
}
