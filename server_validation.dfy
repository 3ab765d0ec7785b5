/**
  The server side of the upload: the extension test `allowed_file` and the
  chain of early returns at the top of the `home` route, which decides, from
  a few facts about a request, which error page to render or whether the
  uploaded file goes on to be saved and classified.
*/
module ServerValidation {
  import opened Wrappers

  /** The configured `ALLOWED_EXTENSIONS`. */
  const ALLOWED_EXTENSIONS: set<string> := {"png", "jpg", "jpeg", "webp"}

  // ---------------------------------------------------------------------
  // The string operations `allowed_file` uses
  // ---------------------------------------------------------------------

  /** Case folding of one character as `str.lower` does it on ASCII letters;
      every other character is left as it is. */
  function LowerChar(c: char): char
  {
    if 'A' <= c <= 'Z' then (c as int + 32) as char else c
  }

  /** `s.lower()`, character by character. */
  function Lower(s: string): string
  {
    seq(|s|, i requires 0 <= i < |s| => LowerChar(s[i]))
  }

  /** The index of the last '.' in `s`, if there is one. */
  function LastDot(s: string): (r: Option<nat>)
    ensures r.None? <==> '.' !in s
    ensures r.Some? ==> r.value < |s| && s[r.value] == '.' && '.' !in s[r.value + 1..]
  {
    if s == [] then None
    else if s[|s| - 1] == '.' then Some(|s| - 1)
    else
      var r := LastDot(s[..|s| - 1]);
      assert s == s[..|s| - 1] + [s[|s| - 1]];
      r
  }

  /** `s.rsplit('.', 1)`: the whole string when it has no dot, otherwise the
      text before and the text after its last dot. */
  function RSplitLastDot(s: string): (parts: seq<string>)
    ensures '.' !in s ==> parts == [s]
    ensures '.' in s ==> |parts| == 2 && s == parts[0] + "." + parts[1] && '.' !in parts[1]
  {
    match LastDot(s)
    case None => [s]
    case Some(i) =>
      assert s == s[..i] + "." + s[i + 1..];
      [s[..i], s[i + 1..]]
  }

  /** `allowed_file(filename)`: the name has a dot, and the text after its
      last dot, lower-cased, is one of the allowed extensions. */
  predicate AllowedFile(filename: string)
  {
    '.' in filename && Lower(RSplitLastDot(filename)[1]) in ALLOWED_EXTENSIONS
  }

  // ---------------------------------------------------------------------
  // What allowed_file means
  // ---------------------------------------------------------------------

  /** A name without a dot is never allowed. */
  lemma NoDotRejected(filename: string)
    requires '.' !in filename
    ensures !AllowedFile(filename)
  {
  }

  /** Splitting at a dot with no dot to its right is unique: two such
      splits of one string have the same right-hand part. */
  lemma LastDotSplitUnique(a: string, b: string, c: string, d: string)
    requires a + "." + b == c + "." + d
    requires '.' !in b && '.' !in d
    ensures b == d && a == c
  {
    var s := a + "." + b;
    assert s[|a|] == '.' && s[|c|] == '.';
    assert |a| == |c|;
    assert b == s[|a| + 1..] == d;
    assert a == s[..|a|] == c;
  }

  /** Only the text after the last dot decides: for any stem and any
      extension without a dot, the name is allowed exactly when the
      lower-cased extension is. */
  lemma ExtensionDecides(stem: string, ext: string)
    requires '.' !in ext
    ensures AllowedFile(stem + "." + ext) <==> Lower(ext) in ALLOWED_EXTENSIONS
  {
    var s := stem + "." + ext;
    assert s[|stem|] == '.';
    var parts := RSplitLastDot(s);
    LastDotSplitUnique(parts[0], parts[1], stem, ext);
  }

  /** Two strings with dots at the same places have the same last dot. */
  lemma {:induction false} SameDotsSameLastDot(s: string, t: string)
    requires |s| == |t|
    requires forall i :: 0 <= i < |s| ==> (s[i] == '.' <==> t[i] == '.')
    ensures LastDot(s) == LastDot(t)
  {
    if s != [] && s[|s| - 1] != '.' {
      SameDotsSameLastDot(s[..|s| - 1], t[..|t| - 1]);
    }
  }

  /** Names that lower-case alike have their dots at the same places. */
  lemma LowerSameDots(s: string, t: string)
    requires Lower(s) == Lower(t)
    ensures |s| == |t|
    ensures forall i :: 0 <= i < |s| ==> (s[i] == '.' <==> t[i] == '.')
  {
    forall i | 0 <= i < |s|
      ensures s[i] == '.' <==> t[i] == '.'
    {
      assert Lower(s)[i] == LowerChar(s[i]) && Lower(t)[i] == LowerChar(t[i]);
    }
  }

  /** Lower-casing a suffix gives the same suffix of the lower-cased name. */
  lemma LowerSuffix(s: string, k: nat)
    requires k <= |s|
    ensures Lower(s[k..]) == Lower(s)[k..]
  {
    assert forall i :: 0 <= i < |s| - k ==> Lower(s[k..])[i] == Lower(s)[k..][i];
  }

  /** The test is case-insensitive: two names that lower-case to the same
      text are both allowed or both refused. */
  lemma CaseInsensitive(s: string, t: string)
    requires Lower(s) == Lower(t)
    ensures AllowedFile(s) == AllowedFile(t)
  {
    LowerSameDots(s, t);
    SameDotsSameLastDot(s, t);
    match LastDot(s)
    case None =>
    case Some(k) =>
      LowerSuffix(s, k + 1);
      LowerSuffix(t, k + 1);
  }

  /** A name with no upper-case letter is its own lower-case form. */
  lemma LowerOfLowerCase(s: string)
    requires forall i :: 0 <= i < |s| ==> !('A' <= s[i] <= 'Z')
    ensures Lower(s) == s
  {
  }

  /** Only the last dot counts: a double extension ending in an allowed one passes. */
  lemma DoubleExtensionAllowed()
    ensures AllowedFile("a.tar.png")
  {
    assert "a.tar.png" == "a.tar" + "." + "png";
    ExtensionDecides("a.tar", "png");
    LowerOfLowerCase("png");
  }

  /** An allowed extension followed by another one does not help. */
  lemma HiddenExtensionRejected()
    ensures !AllowedFile("a.png.exe")
  {
    assert "a.png.exe" == "a.png" + "." + "exe";
    ExtensionDecides("a.png", "exe");
    LowerOfLowerCase("exe");
  }

  /** A name that is only an extension has that extension. */
  lemma BareExtensionAllowed()
    ensures AllowedFile(".png")
  {
    assert ".png" == "" + "." + "png";
    ExtensionDecides("", "png");
    LowerOfLowerCase("png");
  }

  /** Upper- and mixed-case extensions are allowed. */
  lemma UpperCaseAllowed()
    ensures AllowedFile("IMG.JPG")
    ensures AllowedFile("x.WebP")
  {
    assert "IMG.JPG" == "IMG" + "." + "JPG";
    ExtensionDecides("IMG", "JPG");
    assert Lower("JPG")[0] == 'j' && Lower("JPG")[1] == 'p' && Lower("JPG")[2] == 'g';
    assert Lower("JPG") == "jpg";
    assert "x.WebP" == "x" + "." + "WebP";
    ExtensionDecides("x", "WebP");
    assert Lower("WebP")[0] == 'w' && Lower("WebP")[1] == 'e' && Lower("WebP")[2] == 'b' && Lower("WebP")[3] == 'p';
    assert Lower("WebP") == "webp";
  }

  /** A trailing dot leaves an empty extension, which is refused. */
  lemma TrailingDotRejected()
    ensures !AllowedFile("photo.")
  {
    assert "photo." == "photo" + "." + "";
    ExtensionDecides("photo", "");
  }

  // ---------------------------------------------------------------------
  // The check chain of the home route
  // ---------------------------------------------------------------------

  /** One part of the multipart upload, as `request.files` holds it. */
  datatype FileField = FileField(filename: string)

  /** What the route looks at: the HTTP method and the uploaded parts by field name. */
  datatype Request = Request(isPost: bool, files: map<string, FileField>)

  /** The errors the chain can render, in the order it tests for them. */
  datatype RequestError = ModelNotLoaded | NoFileUploaded | NoFileSelected | InvalidFileType

  /** What the route goes on to do. */
  datatype Decision =
    | RenderForm                       // a GET: the empty page
    | Reject(error: RequestError)      // the page with an error message
    | SaveAndPredict(filename: string) // on to saving and classifying the file

  /** The form field the upload arrives in. */
  const IMAGE_FIELD: string := "image"

  /** The text each error is rendered with. */
  function ErrorMessage(e: RequestError): string
  {
    match e
    case ModelNotLoaded => "Model not loaded. Please contact administrator."
    case NoFileUploaded => "No file uploaded"
    case NoFileSelected => "No file selected"
    case InvalidFileType => "Invalid file type. Please upload PNG, JPG, JPEG, or WEBP"
  }

  /** The position of each test in the chain. */
  function CheckOrder(e: RequestError): nat
  {
    match e
    case ModelNotLoaded => 0
    case NoFileUploaded => 1
    case NoFileSelected => 2
    case InvalidFileType => 3
  }

  /** Whether the condition behind error `e` holds of the request, each
      test read on its own, without the earlier ones. */
  predicate Violates(modelLoaded: bool, req: Request, e: RequestError)
  {
    match e
    case ModelNotLoaded => !modelLoaded
    case NoFileUploaded => IMAGE_FIELD !in req.files
    case NoFileSelected => IMAGE_FIELD in req.files && req.files[IMAGE_FIELD].filename == ""
    case InvalidFileType => IMAGE_FIELD in req.files && !AllowedFile(req.files[IMAGE_FIELD].filename)
  }

  /** `e` is the first violated condition in the chain's order. */
  predicate FirstViolation(modelLoaded: bool, req: Request, e: RequestError)
  {
    Violates(modelLoaded, req, e) &&
    forall e' :: CheckOrder(e') < CheckOrder(e) ==> !Violates(modelLoaded, req, e')
  }

  /** The early returns of `home`: a GET renders the form; a POST is
      rejected with the first violated condition, and only a POST that
      violates none goes on, with the uploaded file's name. */
  function HomeDecision(modelLoaded: bool, req: Request): (d: Decision)
    ensures d.RenderForm? <==> !req.isPost
    ensures forall e :: d == Reject(e) <==> req.isPost && FirstViolation(modelLoaded, req, e)
    ensures d.SaveAndPredict? <==> req.isPost && forall e :: !Violates(modelLoaded, req, e)
    ensures d.SaveAndPredict? ==> IMAGE_FIELD in req.files && d.filename == req.files[IMAGE_FIELD].filename
  {
    if !req.isPost then RenderForm
    else if !modelLoaded then
      assert Violates(modelLoaded, req, ModelNotLoaded);
      Reject(ModelNotLoaded)
    else if IMAGE_FIELD !in req.files then
      assert Violates(modelLoaded, req, NoFileUploaded);
      Reject(NoFileUploaded)
    else if req.files[IMAGE_FIELD].filename == "" then
      assert Violates(modelLoaded, req, NoFileSelected);
      Reject(NoFileSelected)
    else if !AllowedFile(req.files[IMAGE_FIELD].filename) then
      assert Violates(modelLoaded, req, InvalidFileType);
      Reject(InvalidFileType)
    else SaveAndPredict(req.files[IMAGE_FIELD].filename)
  }

  /** Whatever reaches the save step has a non-empty name with an allowed extension. */
  lemma SaveOnlyValidated(modelLoaded: bool, req: Request)
    requires HomeDecision(modelLoaded, req).SaveAndPredict?
    ensures var name := HomeDecision(modelLoaded, req).filename;
      name != "" && AllowedFile(name) && '.' in name
  {
    assert !Violates(modelLoaded, req, NoFileSelected);
    assert !Violates(modelLoaded, req, InvalidFileType);
  }

  /** An empty file name is reported as not selected, not as a bad type,
      although it has no allowed extension either. */
  lemma EmptyNameBeforeType(req: Request)
    requires req.isPost && IMAGE_FIELD in req.files && req.files[IMAGE_FIELD].filename == ""
    ensures HomeDecision(true, req) == Reject(NoFileSelected)
    ensures Violates(true, req, InvalidFileType)
  {
  }

  /** A missing model is reported first, whatever else is wrong. */
  lemma ModelCheckedFirst(req: Request)
    requires req.isPost
    ensures HomeDecision(false, req) == Reject(ModelNotLoaded)
  {
  }
}
