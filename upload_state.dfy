/**
  The upload page's state as a value, the effect of each event handler on
  it, and what holds of every sequence of events. The class in module
  UploadUi changes its fields as these functions say.
*/
module UploadState {
  import opened Wrappers
  import opened FileChecks

  /** Everything the handlers read or write. */
  datatype Page = Page(
    inputFiles: seq<File>,    // the files held by the upload input
    previewSrc: string,       // the preview image's source
    hasImage: bool,           // the upload card's `has-image` class
    loading: bool,            // the analyze button's `loading` class
    disabled: bool,           // the analyze button's `disabled` flag
    pendingReads: seq<File>,  // files whose read into a data URL has started and not completed
    buttonPresent: bool)      // whether the page has an analyze button

  /** The freshly loaded page. */
  function Initial(buttonPresent: bool): Page
  {
    Page([], "", false, false, false, [], buttonPresent)
  }

  /** The result of a file read started with `readAsDataURL` always has this form. */
  predicate IsDataUrl(s: string)
  {
    |s| >= 5 && s[..5] == "data:"
  }

  /** Every read in flight is of a file that passed the checks. */
  predicate PendingAccepted(p: Page)
  {
    forall j :: 0 <= j < |p.pendingReads| ==> CheckFile(p.pendingReads[j]) == None
  }

  /** What the handlers keep true: the card shows an image exactly when the
      preview has a source, the button is marked loading exactly when it
      is disabled, which only happens to a button that exists, and only
      accepted files are being read. */
  predicate Consistent(p: Page)
  {
    (p.hasImage <==> p.previewSrc != "") &&
    (p.loading <==> p.disabled) &&
    (p.loading ==> p.buttonPresent) &&
    PendingAccepted(p)
  }

  // ---------------------------------------------------------------------
  // One function per handler
  // ---------------------------------------------------------------------

  /** A handler's new page and the message it raised, if any. */
  datatype Step = Step(page: Page, alert: Option<Alert>)

  /** `handleFileSelect`: nothing happens without a file; a file that fails
      a check clears the input and raises the check's message; an accepted
      file only starts a read of it. */
  function SelectFile(p: Page): Step
  {
    if |p.inputFiles| == 0 then Step(p, None)
    else
      var file := p.inputFiles[0];
      match CheckFile(file)
      case Some(reason) => Step(p.(inputFiles := []), Some(RejectedFile(reason)))
      case None => Step(p.(pendingReads := p.pendingReads + [file]), None)
  }

  /** The completion of the `i`-th pending read with data URL `dataUrl`:
      the preview shows it and the card is marked as having an image. */
  function CompleteRead(p: Page, i: nat, dataUrl: string): Page
    requires i < |p.pendingReads|
  {
    p.(previewSrc := dataUrl, hasImage := true,
       pendingReads := p.pendingReads[..i] + p.pendingReads[i + 1..])
  }

  /** `removeImage`: the input, the preview and the card's mark are cleared. */
  function RemoveImage(p: Page): Page
  {
    p.(inputFiles := [], previewSrc := "", hasImage := false)
  }

  /** What the submit listener decides about the form's submission. */
  datatype Submission = Cancelled(alert: Alert) | Proceeds

  /** The submit listener: without a file the submission is cancelled with
      a message; with one it goes ahead and the button, if any, is marked
      loading and disabled. */
  function Submit(p: Page): (Page, Submission)
  {
    if |p.inputFiles| == 0 then (p, Cancelled(NoImageSelected))
    else if p.buttonPresent then (p.(loading := true, disabled := true), Proceeds)
    else (p, Proceeds)
  }

  /** `handleDrop`: a drop with files installs them in the input and runs
      the selection handler on it; an empty drop does nothing. */
  function Drop(p: Page, files: seq<File>): Step
  {
    if |files| > 0 then SelectFile(p.(inputFiles := files)) else Step(p, None)
  }

  /** A choice in the file picker: the browser installs the chosen files in
      the input and its change listener runs the selection handler. */
  function Pick(p: Page, files: seq<File>): Step
  {
    SelectFile(p.(inputFiles := files))
  }

  // ---------------------------------------------------------------------
  // Properties of single handlers
  // ---------------------------------------------------------------------

  /** With no file in the input, selection changes nothing and says nothing. */
  lemma SelectWithoutFileIsNoOp(p: Page)
    requires |p.inputFiles| == 0
    ensures SelectFile(p) == Step(p, None)
  {
  }

  /** A refused file raises the message of the first failed check and
      clears the input; nothing else changes, the preview included. */
  lemma SelectRefused(p: Page)
    requires |p.inputFiles| > 0 && CheckFile(p.inputFiles[0]).Some?
    ensures SelectFile(p).alert == Some(RejectedFile(CheckFile(p.inputFiles[0]).value))
    ensures SelectFile(p).page == p.(inputFiles := [])
  {
  }

  /** An accepted file raises nothing and only starts its read: the preview
      and the card's mark stay as they were until the read completes. */
  lemma SelectAccepted(p: Page)
    requires |p.inputFiles| > 0 && CheckFile(p.inputFiles[0]) == None
    ensures SelectFile(p).alert == None
    ensures SelectFile(p).page == p.(pendingReads := p.pendingReads + [p.inputFiles[0]])
  {
  }

  /** Only the first file of the input is looked at: inputs with the same
      first file give the same message and the same page apart from the input. */
  lemma SelectLooksAtFirstFileOnly(p: Page, files: seq<File>)
    requires |p.inputFiles| > 0 && |files| > 0 && files[0] == p.inputFiles[0]
    ensures Pick(p, files).alert == SelectFile(p).alert
    ensures Pick(p, files).page.(inputFiles := []) == SelectFile(p).page.(inputFiles := [])
  {
  }

  /** Selecting and then completing the read shows the read's result. */
  lemma AcceptThenReadShowsPreview(p: Page, dataUrl: string)
    requires |p.inputFiles| > 0 && CheckFile(p.inputFiles[0]) == None
    ensures var q := SelectFile(p).page;
      |q.pendingReads| > 0 &&
      q.pendingReads[|q.pendingReads| - 1] == p.inputFiles[0] &&
      CompleteRead(q, |q.pendingReads| - 1, dataUrl).previewSrc == dataUrl &&
      CompleteRead(q, |q.pendingReads| - 1, dataUrl).hasImage &&
      CompleteRead(q, |q.pendingReads| - 1, dataUrl).pendingReads == p.pendingReads
  {
    var q := SelectFile(p).page;
    assert q.pendingReads[..|q.pendingReads| - 1] == p.pendingReads;
  }

  /** Removal leaves the input and the preview empty and the card unmarked,
      whatever came before, and keeps the button's state. */
  lemma RemoveClears(p: Page)
    ensures RemoveImage(p).inputFiles == [] && RemoveImage(p).previewSrc == "" && !RemoveImage(p).hasImage
    ensures RemoveImage(p).loading == p.loading && RemoveImage(p).disabled == p.disabled
  {
  }

  /** Removing twice is removing once. */
  lemma RemoveIdempotent(p: Page)
    ensures RemoveImage(RemoveImage(p)) == RemoveImage(p)
  {
  }

  /** An empty submission is cancelled with its message and changes nothing. */
  lemma SubmitWithoutFile(p: Page)
    requires |p.inputFiles| == 0
    ensures Submit(p) == (p, Cancelled(NoImageSelected))
  {
  }

  /** A submission with a file on a page without an analyze button proceeds
      and changes nothing. */
  lemma SubmitWithFileNoButton(p: Page)
    requires |p.inputFiles| > 0 && !p.buttonPresent
    ensures Submit(p) == (p, Proceeds)
  {
  }

  /** A submission with a file proceeds and leaves an existing button loading and disabled. */
  lemma SubmitWithFile(p: Page)
    requires |p.inputFiles| > 0 && p.buttonPresent
    ensures Submit(p).1 == Proceeds
    ensures Submit(p).0 == p.(loading := true, disabled := true)
  {
  }

  /** An empty drop does nothing; a drop with files is the same as choosing
      those files in the picker. */
  lemma DropAsPick(p: Page, files: seq<File>)
    ensures |files| == 0 ==> Drop(p, files) == Step(p, None)
    ensures |files| > 0 ==> Drop(p, files) == Pick(p, files)
  {
  }

  /** Removal does not cancel a read in flight: a read that completes after
      the removal shows its result again. */
  lemma ReadAfterRemoveShowsPreview(p: Page, i: nat, dataUrl: string)
    requires i < |p.pendingReads|
    ensures RemoveImage(p).pendingReads == p.pendingReads
    ensures CompleteRead(RemoveImage(p), i, dataUrl).previewSrc == dataUrl
    ensures CompleteRead(RemoveImage(p), i, dataUrl).hasImage
  {
  }

  // ---------------------------------------------------------------------
  // Sequences of events
  // ---------------------------------------------------------------------

  /** The events the page reacts to. */
  datatype Event =
    | Picked(files: seq<File>)
    | Dropped(files: seq<File>)
    | RemoveClicked
    | SubmitClicked
    | ReadDone(index: nat, dataUrl: string)

  /** The page after one event. A read completion that cannot happen (no
      such pending read, or a result that is not a data URL) leaves the page
      as it is. */
  function Apply(p: Page, e: Event): Page
  {
    match e
    case Picked(files) => Pick(p, files).page
    case Dropped(files) => Drop(p, files).page
    case RemoveClicked => RemoveImage(p)
    case SubmitClicked => Submit(p).0
    case ReadDone(i, url) =>
      if i < |p.pendingReads| && IsDataUrl(url) then CompleteRead(p, i, url) else p
  }

  /** The page after a sequence of events, the last event applied last. */
  function Run(p: Page, events: seq<Event>): Page
    decreases |events|
  {
    if events == [] then p
    else Apply(Run(p, events[..|events| - 1]), events[|events| - 1])
  }

  /** Every handler keeps the page consistent. */
  lemma ApplyConsistent(p: Page, e: Event)
    requires Consistent(p)
    ensures Consistent(Apply(p, e))
  {
  }

  /** The page stays consistent through any sequence of events. */
  lemma {:induction false} RunConsistent(p: Page, events: seq<Event>)
    requires Consistent(p)
    ensures Consistent(Run(p, events))
    decreases |events|
  {
    if events != [] {
      RunConsistent(p, events[..|events| - 1]);
      ApplyConsistent(Run(p, events[..|events| - 1]), events[|events| - 1]);
    }
  }

  /** Nothing in the script clears the loading state once it is set. */
  lemma {:induction false} LoadingNeverCleared(p: Page, events: seq<Event>)
    requires p.loading && p.disabled
    ensures Run(p, events).loading && Run(p, events).disabled
    decreases |events|
  {
    if events != [] {
      LoadingNeverCleared(p, events[..|events| - 1]);
    }
  }

  /** The loading state is only ever set by a submission made while the
      input held a file. */
  lemma {:induction false} LoadingOnlyAfterSubmitWithFile(p: Page, events: seq<Event>)
    requires !p.loading && Run(p, events).loading
    ensures exists k ::
              0 <= k < |events| && events[k] == SubmitClicked && |Run(p, events[..k]).inputFiles| > 0
    decreases |events|
  {
    var n := |events| - 1;
    var before := events[..n];
    if Run(p, before).loading {
      LoadingOnlyAfterSubmitWithFile(p, before);
      var k :| 0 <= k < |before| && before[k] == SubmitClicked && |Run(p, before[..k]).inputFiles| > 0;
      assert before[..k] == events[..k];
    } else {
      assert events[n] == SubmitClicked;
      assert events[..n] == before;
    }
  }

  /** The preview only ever shows what it showed at the start, nothing, or
      the data URL of a read that completed: one that was pending when its
      completion event came. */
  lemma {:induction false} PreviewComesFromRead(p: Page, events: seq<Event>)
    ensures var src := Run(p, events).previewSrc;
      src == p.previewSrc || src == "" ||
      exists k :: CompletedReadAt(p, events, k, src)
    decreases |events|
  {
    if events != [] {
      var n := |events| - 1;
      var before := events[..n];
      PreviewComesFromRead(p, before);
      var src := Run(p, events).previewSrc;
      if src != Run(p, before).previewSrc {
        assert events[n].ReadDone? || events[n].RemoveClicked?;
        if src != "" {
          assert events[..n] == before;
          assert CompletedReadAt(p, events, n, src);
        }
      } else if src != p.previewSrc && src != "" {
        var k :| CompletedReadAt(p, before, k, src);
        assert events[k] == before[k];
        assert before[..k] == events[..k];
        assert CompletedReadAt(p, events, k, src);
      }
    }
  }

  /** The `k`-th event completes a pending read whose data URL is `src`. */
  predicate CompletedReadAt(p: Page, events: seq<Event>, k: int, src: string)
  {
    0 <= k < |events| && events[k].ReadDone? && events[k].dataUrl == src &&
    events[k].index < |Run(p, events[..k]).pendingReads| && IsDataUrl(src)
  }

  /** A preview that a completed read put there is of a file that passed
      the type and size checks: a refused file is never previewed. */
  lemma PreviewOnlyOfAcceptedFile(p: Page, events: seq<Event>, k: nat, src: string)
    requires Consistent(p)
    requires CompletedReadAt(p, events, k, src)
    ensures CheckFile(Run(p, events[..k]).pendingReads[events[k].index]) == None
  {
    RunConsistent(p, events[..k]);
  }
}
