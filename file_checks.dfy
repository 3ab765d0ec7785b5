/**
  The pure decisions inside the upload page's script: which selected files
  are accepted, the messages shown when one is not, and the keyboard
  shortcut that opens the file picker.
*/
module FileChecks {
  import opened Wrappers

  /** A file as the browser describes it: its name, its declared media
      type and its size in bytes. */
  datatype File = File(name: string, mimeType: string, size: nat)

  /** The media types the picker accepts, compared as exact strings. */
  const VALID_TYPES: seq<string> := ["image/jpeg", "image/jpg", "image/png", "image/webp"]

  /** The largest accepted size: 10 MiB. */
  const MAX_SIZE: nat := 10 * 1024 * 1024

  /** Why a selected file is refused. */
  datatype Rejection = InvalidType | TooLarge

  /** The blocking messages the page can raise. */
  datatype Alert = RejectedFile(reason: Rejection) | NoImageSelected

  function AlertText(a: Alert): string
  {
    match a
    case RejectedFile(InvalidType) => "Please upload a valid image file (JPG, PNG, or WEBP)"
    case RejectedFile(TooLarge) => "File size must be less than 10MB"
    case NoImageSelected => "Please select an image first"
  }

  /** The two checks of the selection handler, type first and size second:
      the reason for refusing `f`, or None when it is accepted. */
  function CheckFile(f: File): Option<Rejection>
  {
    if f.mimeType !in VALID_TYPES then Some(InvalidType)
    else if f.size > MAX_SIZE then Some(TooLarge)
    else None
  }

  /** Exactly the four listed media types, at up to 10485760 bytes, pass. */
  lemma AcceptedExactly(f: File)
    ensures CheckFile(f) == None <==>
      (f.mimeType == "image/jpeg" || f.mimeType == "image/jpg" ||
       f.mimeType == "image/png" || f.mimeType == "image/webp") &&
      f.size <= 10485760
  {
  }

  /** A file of another type is refused for its type, whatever its size:
      the type is checked before the size. */
  lemma TypeCheckedFirst(f: File)
    requires f.mimeType !in VALID_TYPES
    ensures CheckFile(f) == Some(InvalidType)
  {
  }

  /** A file of a valid type is refused for its size exactly when it is
      larger than 10 MiB; a file of exactly 10 MiB passes. */
  lemma SizeLimitInclusive(f: File)
    requires f.mimeType in VALID_TYPES
    ensures CheckFile(f) == Some(TooLarge) <==> f.size > 10485760
    ensures CheckFile(f) == None <==> f.size <= 10485760
  {
  }

  /** The type comparison is case-sensitive. */
  lemma TypeIsCaseSensitive(size: nat)
    ensures CheckFile(File("a.png", "image/PNG", size)) == Some(InvalidType)
    ensures CheckFile(File("a.jpg", "IMAGE/JPEG", size)) == Some(InvalidType)
  {
  }

  /** The `keydown` shortcut: the key `u` in either case opens the picker,
      unless the event comes from an INPUT or TEXTAREA element, and only when
      the upload input exists. */
  predicate OpensPicker(key: string, targetTag: string, inputPresent: bool)
  {
    (key == "u" || key == "U") &&
    targetTag != "INPUT" && targetTag != "TEXTAREA" &&
    inputPresent
  }

  /** Both cases of the letter work alike, and no other key opens the picker. */
  lemma ShortcutKeys(key: string, targetTag: string, inputPresent: bool)
    ensures OpensPicker("u", targetTag, inputPresent) == OpensPicker("U", targetTag, inputPresent)
    ensures key != "u" && key != "U" ==> !OpensPicker(key, targetTag, inputPresent)
  {
  }

  /** Typing in a text field never opens the picker. */
  lemma ShortcutIgnoredInTextFields(key: string, inputPresent: bool)
    ensures !OpensPicker(key, "INPUT", inputPresent)
    ensures !OpensPicker(key, "TEXTAREA", inputPresent)
  {
  }
}
