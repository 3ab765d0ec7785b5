/**
  The upload page as an object whose fields the event handlers update in
  place, one method per handler. Each method's new state is the one the
  matching function of module UploadState gives, so the properties proved
  there hold of the object.
*/
module UploadUi {
  import opened Wrappers
  import opened FileChecks
  import opened UploadState

  class UploadPage {
    var inputFiles: seq<File>
    var previewSrc: string
    var hasImage: bool
    var loading: bool
    var disabled: bool
    var pendingReads: seq<File>
    const buttonPresent: bool

    /** The current state as a value. */
    function Snapshot(): Page
      reads this
    {
      Page(inputFiles, previewSrc, hasImage, loading, disabled, pendingReads, buttonPresent)
    }

    ghost predicate Valid()
      reads this
    {
      Consistent(Snapshot())
    }

    /** The page as loaded: no file, no preview, the button idle. */
    constructor (buttonPresent: bool)
      ensures Valid()
      ensures Snapshot() == Initial(buttonPresent)
    {
      inputFiles := [];
      previewSrc := "";
      hasImage := false;
      loading := false;
      disabled := false;
      pendingReads := [];
      this.buttonPresent := buttonPresent;
    }

    /** The change handler of the upload input. */
    method HandleFileSelect() returns (alert: Option<Alert>)
      requires Valid()
      modifies this
      ensures Valid()
      ensures Step(Snapshot(), alert) == SelectFile(old(Snapshot()))
    {
      if |inputFiles| == 0 {
        return None;
      }
      var file := inputFiles[0];
      if file.mimeType !in VALID_TYPES {
        inputFiles := [];
        return Some(RejectedFile(InvalidType));
      }
      if file.size > MAX_SIZE {
        inputFiles := [];
        return Some(RejectedFile(TooLarge));
      }
      pendingReads := pendingReads + [file];
      alert := None;
    }

    /** The load event of the `i`-th pending read, with its result. */
    method CompleteReadAt(i: nat, dataUrl: string)
      requires Valid()
      requires i < |pendingReads| && IsDataUrl(dataUrl)
      modifies this
      ensures Valid()
      ensures Snapshot() == CompleteRead(old(Snapshot()), i, dataUrl)
    {
      previewSrc := dataUrl;
      hasImage := true;
      pendingReads := pendingReads[..i] + pendingReads[i + 1..];
    }

    /** The remove button. */
    method RemoveImageClicked()
      requires Valid()
      modifies this
      ensures Valid()
      ensures Snapshot() == RemoveImage(old(Snapshot()))
    {
      inputFiles := [];
      hasImage := false;
      previewSrc := "";
    }

    /** The submit listener of the upload form. */
    method HandleSubmit() returns (outcome: Submission)
      requires Valid()
      modifies this
      ensures Valid()
      ensures (Snapshot(), outcome) == Submit(old(Snapshot()))
    {
      if |inputFiles| == 0 {
        return Cancelled(NoImageSelected);
      }
      if buttonPresent {
        loading := true;
        disabled := true;
      }
      outcome := Proceeds;
    }

    /** The drop listener of the upload area. */
    method HandleDrop(files: seq<File>) returns (alert: Option<Alert>)
      requires Valid()
      modifies this
      ensures Valid()
      ensures Step(Snapshot(), alert) == Drop(old(Snapshot()), files)
    {
      alert := None;
      if |files| > 0 {
        inputFiles := files;
        alert := HandleFileSelect();
      }
    }
  }

  /** What a caller can conclude from the handlers' contracts alone. */
  method Scenario(jpeg: File, png: File, url: string)
    requires jpeg.mimeType == "image/jpeg" && jpeg.size == 2 * 1024 * 1024
    requires png.mimeType == "image/png" && png.size == 12 * 1024 * 1024
    requires IsDataUrl(url)
  {
    var page := new UploadPage(true);
    var alert := page.HandleDrop([png]);
    assert alert == Some(RejectedFile(TooLarge)) && page.inputFiles == [] && !page.hasImage;
    var outcome := page.HandleSubmit();
    assert outcome == Cancelled(NoImageSelected) && !page.loading;
    alert := page.HandleDrop([jpeg]);
    assert alert == None && page.pendingReads == [jpeg] && !page.hasImage;
    page.CompleteReadAt(0, url);
    assert page.previewSrc == url && page.hasImage;
    outcome := page.HandleSubmit();
    assert outcome == Proceeds && page.loading && page.disabled;
    page.RemoveImageClicked();
    assert page.previewSrc == "" && !page.hasImage && page.loading;
  }
}
