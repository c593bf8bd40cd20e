/**
 * The two upload helpers the badge designer goes through:
 * `_ajax_wp_handle_upload`, which runs a file through a fixed sequence of
 * checks and moves it into the uploads directory, and
 * `_ajax_media_handle_upload`, which turns the moved file into an attachment
 * post. WordPress calls (filters, the file-type check, the uploads
 * directory, copying, image metadata, inserting the attachment) are the
 * fields of `UploadEnv`.
 */
module Upload {
  import opened Wrappers
  import opened Php

  // ---------------------------------------------------------------------------
  // data

  /** `$file['error']`: PHP's upload error code, or a message a prefilter put there. */
  datatype ErrorField = Code(code: int) | Message(text: string)

  /** An entry shaped like one of `$_FILES`. */
  datatype FileInfo = FileInfo(name: string, fileType: string, tmpName: string,
                               error: ErrorField, size: int)

  /** The `$overrides` the helpers read; a missing `mimes` is `None`. */
  datatype Overrides = Overrides(testForm: bool, testSize: bool, testType: bool,
                                 mimes: Option<map<string, string>>)

  /** What `wp_check_filetype_and_ext` returns; "" stands for `false`. */
  datatype Filetype = Filetype(ext: string, mimeType: string, properFilename: string)

  /** What `wp_upload_dir` returns; `error` is `None` for `false`. */
  datatype UploadDir = UploadDir(path: string, url: string, error: Option<string>)

  /** What `wp_read_image_metadata` returns when it finds metadata. */
  datatype ImageMeta = ImageMeta(title: string, caption: string)

  /** The WordPress state and functions the helpers call. */
  datatype UploadEnv = UploadEnv(
    prefilter: FileInfo -> FileInfo,                      // the 'wp_handle_upload_prefilter' filter
    postAction: Option<string>,                           // $_POST['action']
    checkFiletype: (string, string, Option<map<string, string>>) -> Filetype,
    canUnfilteredUpload: bool,                            // current_user_can('unfiltered_upload')
    multisite: bool,                                      // is_multisite()
    uploadDir: string -> UploadDir,                       // wp_upload_dir($time)
    uniqueFilename: (string, string) -> string,           // wp_unique_filename($dir, $name)
    copy: (string, string) -> bool,                       // copy($from, $to)
    now: string,                                          // current_time('mysql')
    postDate: string -> Option<string>,                   // the post_date of get_post($id), if any
    readImageMeta: string -> Option<ImageMeta>,           // wp_read_image_metadata($file)
    sanitizeTitle: string -> string,                      // sanitize_title
    insertAttachment: (map<string, string>, string, string) -> Result<int, string>)

  /** The checks of `_ajax_wp_handle_upload`, in the order it makes them. */
  datatype Check = Prefilter | Form | ErrorCode | Size | FileType | Directory | Move

  /** The outcome of `_ajax_wp_handle_upload`: the moved file, or the check that failed and its message. */
  datatype UploadResult =
    | Uploaded(file: string, url: string, mimeType: string)
    | UploadError(check: Check, message: Option<string>)

  // ---------------------------------------------------------------------------
  // the checks, each on its own

  /** The action a correct form post carries. */
  const UploadAction: string := "wp_handle_upload"

  const InvalidForm: string := "Invalid form submission."
  const EmptyFile: string := "File is empty. Please upload something more substantial."
  const EmptyFileSingleSite: string :=
    "File is empty. Please upload something more substantial. This error could also be caused by uploads being disabled in your php.ini or by post_max_size being defined as smaller than upload_max_filesize in php.ini."
  const FileTypeNotPermitted: string := "Sorry, this file type is not permitted for security reasons."

  /** PHP's messages for the upload error codes 1 to 8; code 5 has "", other codes none. */
  function UploadErrorString(code: int): Option<string> {
    if code == 1 then Some("The uploaded file exceeds the upload_max_filesize directive in php.ini.")
    else if code == 2 then Some("The uploaded file exceeds the MAX_FILE_SIZE directive that was specified in the HTML form.")
    else if code == 3 then Some("The uploaded file was only partially uploaded.")
    else if code == 4 then Some("No file was uploaded.")
    else if code == 5 then Some("")
    else if code == 6 then Some("Missing a temporary folder.")
    else if code == 7 then Some("Failed to write file to disk.")
    else if code == 8 then Some("File upload stopped by extension.")
    else None
  }

  /** A prefilter reports an error by putting a non-numeric, non-empty message in the error field. */
  predicate PrefilterPasses(f: FileInfo) {
    !(f.error.Message? && !IsNumeric(f.error.text) && !IsEmpty(f.error.text))
  }

  predicate FormPasses(ov: Overrides, env: UploadEnv) {
    !ov.testForm || env.postAction == Some(UploadAction)
  }

  /** `$file['error'] > 0`: a code, or a numeric message, above zero. */
  predicate ErrorIsPositive(e: ErrorField) {
    match e
    case Code(n) => n > 0
    case Message(s) => IsNumeric(s) && NumberValue(ParseNumeric(s).value) > 0.0
  }

  predicate ErrorCodePasses(f: FileInfo) {
    !ErrorIsPositive(f.error)
  }

  /** The message for an error field, looked up by code; a string key is used only when it is a plain integer. */
  function ErrorMessage(e: ErrorField): Option<string> {
    match e
    case Code(n) => UploadErrorString(n)
    case Message(s) =>
      if |s| > 0 && AllDigits(s) && (|s| == 1 || s[0] != '0') then UploadErrorString(DigitsValue(s)) else None
  }

  predicate SizePasses(ov: Overrides, f: FileInfo) {
    !ov.testSize || f.size > 0
  }

  /** The file-type check, made on the prefiltered file. */
  predicate FileTypePasses(ov: Overrides, f: FileInfo, env: UploadEnv) {
    var ft := env.checkFiletype(f.tmpName, f.name, ov.mimes);
    !ov.testType || (!IsEmpty(ft.mimeType) && !IsEmpty(ft.ext)) || env.canUnfilteredUpload
  }

  predicate DirectoryPasses(time: string, env: UploadEnv) {
    env.uploadDir(time).error.None?
  }

  // ---------------------------------------------------------------------------
  // _ajax_wp_handle_upload

  /** The name and MIME type after the file-type check: a proper filename replaces the name. */
  function TypedFile(ov: Overrides, f: FileInfo, env: UploadEnv): (FileInfo, string) {
    if ov.testType then
      var ft := env.checkFiletype(f.tmpName, f.name, ov.mimes);
      var g := if !IsEmpty(ft.properFilename) then f.(name := ft.properFilename) else f;
      (g, if IsEmpty(ft.mimeType) then g.fileType else ft.mimeType)
    else (f, "")
  }

  /** The file moved into the uploads directory under a unique name. */
  function MoveFile(f: FileInfo, mimeType: string, time: string, env: UploadEnv): UploadResult
    requires DirectoryPasses(time, env)
  {
    var uploads := env.uploadDir(time);
    var filename := env.uniqueFilename(uploads.path, f.name);
    var newFile := uploads.path + "/" + filename;
    if !env.copy(f.tmpName, newFile) then
      UploadError(Move, Some("The uploaded file could not be moved to " + uploads.path + "."))
    else
      Uploaded(newFile, uploads.url + "/" + filename, mimeType)
  }

  /** What `_ajax_wp_handle_upload` returns for a file. */
  function HandleUploadSpec(file: FileInfo, ov: Overrides, time: string, env: UploadEnv): UploadResult {
    var f := env.prefilter(file);
    if !PrefilterPasses(f) then UploadError(Prefilter, Some(f.error.text))
    else if !FormPasses(ov, env) then UploadError(Form, Some(InvalidForm))
    else if !ErrorCodePasses(f) then UploadError(ErrorCode, ErrorMessage(f.error))
    else if !SizePasses(ov, f) then
      UploadError(Size, Some(if env.multisite then EmptyFile else EmptyFileSingleSite))
    else TypeAndMoveSpec(f, ov, time, env)
  }

  /** The part of the upload after the size check: the file-type check, the uploads directory, the move. */
  function TypeAndMoveSpec(f: FileInfo, ov: Overrides, time: string, env: UploadEnv): UploadResult {
    if !FileTypePasses(ov, f, env) then UploadError(FileType, Some(FileTypeNotPermitted))
    else
      var (g, mimeType) := TypedFile(ov, f, env);
      if !DirectoryPasses(time, env) then UploadError(Directory, env.uploadDir(time).error)
      else MoveFile(g, mimeType, time, env)
  }

  /**
   * `_ajax_wp_handle_upload`: the file is rewritten by the prefilter and
   * possibly renamed by the file-type check; the first failing check ends
   * the upload.
   */
  method HandleUpload(file: FileInfo, ov: Overrides, time: string, env: UploadEnv)
    returns (r: UploadResult)
    ensures r == HandleUploadSpec(file, ov, time, env)
  {
    var f := env.prefilter(file);

    if f.error.Message? && !IsNumeric(f.error.text) && !IsEmpty(f.error.text) {
      return UploadError(Prefilter, Some(f.error.text));
    }

    if ov.testForm && (env.postAction.None? || env.postAction.value != UploadAction) {
      return UploadError(Form, Some(InvalidForm));
    }

    if ErrorIsPositive(f.error) {
      return UploadError(ErrorCode, ErrorMessage(f.error));
    }

    if ov.testSize && !(f.size > 0) {
      var errorMsg := if env.multisite then EmptyFile else EmptyFileSingleSite;
      return UploadError(Size, Some(errorMsg));
    }

    r := TypeAndMove(f, ov, time, env);
  }

  /** The file-type check, then the move into the uploads directory. */
  method TypeAndMove(f: FileInfo, ov: Overrides, time: string, env: UploadEnv) returns (r: UploadResult)
    ensures r == TypeAndMoveSpec(f, ov, time, env)
  {
    var f := f;
    var mimeType: string;
    if ov.testType {
      var ft := env.checkFiletype(f.tmpName, f.name, ov.mimes);
      if !IsEmpty(ft.properFilename) {
        f := f.(name := ft.properFilename);
      }
      if (IsEmpty(ft.mimeType) || IsEmpty(ft.ext)) && !env.canUnfilteredUpload {
        return UploadError(FileType, Some(FileTypeNotPermitted));
      }
      mimeType := ft.mimeType;
      if IsEmpty(mimeType) {
        mimeType := f.fileType;
      }
    } else {
      mimeType := "";
    }

    var uploads := env.uploadDir(time);
    if uploads.error.Some? {
      return UploadError(Directory, uploads.error);
    }

    var filename := env.uniqueFilename(uploads.path, f.name);
    var newFile := uploads.path + "/" + filename;
    if !env.copy(f.tmpName, newFile) {
      return UploadError(Move, Some("The uploaded file could not be moved to " + uploads.path + "."));
    }

    var url := uploads.url + "/" + filename;
    r := Uploaded(newFile, url, mimeType);
  }

  /**
   * The checks fire in a fixed order: the upload stops at a check exactly
   * when every earlier check passed and that one failed.
   */
  lemma UploadCheckOrder(file: FileInfo, ov: Overrides, time: string, env: UploadEnv)
    ensures var r := HandleUploadSpec(file, ov, time, env);
      var f := env.prefilter(file);
      && (r.UploadError? && r.check == Prefilter <==> !PrefilterPasses(f))
      && (r.UploadError? && r.check == Form <==> PrefilterPasses(f) && !FormPasses(ov, env))
      && (r.UploadError? && r.check == ErrorCode <==>
            PrefilterPasses(f) && FormPasses(ov, env) && !ErrorCodePasses(f))
      && (r.UploadError? && r.check == Size <==>
            PrefilterPasses(f) && FormPasses(ov, env) && ErrorCodePasses(f) && !SizePasses(ov, f))
      && (r.UploadError? && r.check == FileType <==>
            PrefilterPasses(f) && FormPasses(ov, env) && ErrorCodePasses(f) && SizePasses(ov, f)
            && !FileTypePasses(ov, f, env))
      && (r.UploadError? && r.check == Directory <==>
            PrefilterPasses(f) && FormPasses(ov, env) && ErrorCodePasses(f) && SizePasses(ov, f)
            && FileTypePasses(ov, f, env) && !DirectoryPasses(time, env))
  {
  }

  /** A moved file carries the MIME type the check found, or the one the file claimed, or "" when types are not tested. */
  lemma UploadedType(file: FileInfo, ov: Overrides, time: string, env: UploadEnv)
    requires HandleUploadSpec(file, ov, time, env).Uploaded?
    ensures var f := env.prefilter(file);
      var ft := env.checkFiletype(f.tmpName, f.name, ov.mimes);
      var t := HandleUploadSpec(file, ov, time, env).mimeType;
      && (!ov.testType ==> t == "")
      && (ov.testType && !IsEmpty(ft.mimeType) ==> t == ft.mimeType)
      && (ov.testType && IsEmpty(ft.mimeType) ==> t == f.fileType && env.canUnfilteredUpload)
  {
  }

  /** Error codes 1 to 8 have PHP's message; 5 has the empty message; others have none. */
  lemma ErrorCodeMessages(file: FileInfo, ov: Overrides, time: string, env: UploadEnv, n: int)
    requires env.prefilter(file).error == Code(n)
    requires FormPasses(ov, env)
    ensures var r := HandleUploadSpec(file, ov, time, env);
      (n > 0 ==> r.UploadError? && r.check == ErrorCode)
      && (1 <= n <= 8 ==> r.message.Some?)
      && (n == 5 ==> r.message == Some(""))
      && (n > 8 ==> r.message.None?)
  {
  }

  // ---------------------------------------------------------------------------
  // _ajax_media_handle_upload

  /**
   * `trim(substr($name, 0, -(1 + strlen($ext))))`: the name without its
   * extension and the dot before it. A name without an extension counts its
   * extension as empty and so loses its last character.
   */
  function StripExtension(name: string): (r: string)
    ensures |r| < |name| || name == []
  {
    var cut := 1 + |ExtensionOrEmpty(name)|;
    Trim(if cut <= |name| then name[..|name| - cut] else "")
  }

  lemma StripDottedName(stem: string, ext: string)
    requires '/' !in ext && '.' !in ext
    ensures StripExtension(stem + ['.'] + ext) == Trim(stem)
  {
    var name := stem + ['.'] + ext;
    ExtensionOfDotted(stem, ext);
    assert ExtensionOrEmpty(name) == ext;
    StemOfDotted(stem, ext, name);
  }

  lemma StemOfDotted(stem: string, ext: string, name: string)
    requires name == stem + ['.'] + ext
    ensures 1 + |ext| <= |name|
    ensures name[..|name| - (1 + |ext|)] == stem
  {
  }

  lemma StripUndottedName(name: string)
    requires name != [] && '.' !in Basename(name)
    ensures StripExtension(name) == Trim(name[..|name| - 1])
  {
    NoExtension(name);
    assert |ExtensionOrEmpty(name)| == 0;
    StripByCut(name, 1);
  }

  lemma NoExtension(name: string)
    requires '.' !in Basename(name)
    ensures ExtensionOrEmpty(name) == ""
  {
  }

  /** `StripExtension` cuts one character more than the extension is long. */
  lemma StripByCut(name: string, cut: nat)
    requires cut == 1 + |ExtensionOrEmpty(name)| && cut <= |name|
    ensures StripExtension(name) == Trim(name[..|name| - cut])
  {
  }

  /** PHP 8's `substr($date, 0, 4) > 0`: a numeric year compares by value, anything else as a string against "0". */
  predicate YearIsPositive(date: string) {
    var year := if |date| <= 4 then date else date[..4];
    if IsNumeric(year) then NumberValue(ParseNumeric(year).value) > 0.0
    else |year| > 0 && (year[0] > '0' || (year[0] == '0' && |year| > 1))
  }

  /** The time the upload is filed under: the post's date when it has a real one, the current time otherwise. */
  function UploadTime(postId: string, env: UploadEnv): string {
    var date := env.postDate(postId);
    if date.Some? && YearIsPositive(date.value) then date.value else env.now
  }

  /** A four-digit year compares by value: it is positive unless all four digits are '0'. */
  lemma DigitYear(date: string)
    requires |date| >= 4 && AllDigits(date[..4])
    ensures YearIsPositive(date) <==> exists i :: 0 <= i < 4 && date[i] != '0'
  {
    var year := date[..4];
    NumericYear(date, year);
    DigitsValueZero(year);
    assert forall i :: 0 <= i < 4 ==> year[i] == date[i];
  }

  /** With a digit year, the test is whether the year's value is positive. */
  lemma NumericYear(date: string, year: string)
    requires |date| >= 4 && year == date[..4] && AllDigits(year)
    ensures YearIsPositive(date) <==> DigitsValue(year) > 0
  {
    assert (if |date| <= 4 then date else date[..4]) == year;
    ParseDigits(year);
    IntegerValue(year);
  }

  /**
   * The upload is filed under the post's date when the post exists and the
   * date's year, read as `substr($date, 0, 4) > 0`, is positive; otherwise
   * under the current time. A year of four '0's, or no year at all, is not
   * positive.
   */
  lemma UploadTimeChoice(postId: string, env: UploadEnv)
    ensures env.postDate(postId).None? ==> UploadTime(postId, env) == env.now
    ensures var d := env.postDate(postId);
      d.Some? && |d.value| >= 4 && AllDigits(d.value[..4]) ==>
        UploadTime(postId, env) == if exists i :: 0 <= i < 4 && d.value[i] != '0' then d.value else env.now
    ensures env.postDate(postId) == Some("") ==> UploadTime(postId, env) == env.now
  {
    var d := env.postDate(postId);
    if d.Some? && |d.value| >= 4 && AllDigits(d.value[..4]) {
      DigitYear(d.value);
    }
  }

  /** A post dated in 2024 files its upload under that date. */
  lemma DatedPostTime(postId: string, env: UploadEnv)
    requires env.postDate(postId) == Some("2024-05-01 12:00:00")
    ensures UploadTime(postId, env) == "2024-05-01 12:00:00"
  {
    var date := env.postDate(postId).value;
    assert date[..4] == "2024";
    DigitYear(date);
    assert date[0] != '0';
  }

  /** WordPress's zero date is not a real date: the upload is filed under the current time. */
  lemma ZeroDatePostTime(postId: string, env: UploadEnv)
    requires env.postDate(postId) == Some("0000-00-00 00:00:00")
    ensures UploadTime(postId, env) == env.now
  {
    var date := env.postDate(postId).value;
    assert date[..4] == "0000";
    DigitYear(date);
  }

  /** The title: the image's own title when it has one that does not sanitize to a number. */
  function TitleFromMeta(name: string, meta: Option<ImageMeta>, env: UploadEnv): string {
    if meta.Some? && !IsEmpty(Trim(meta.value.title)) && !IsNumeric(env.sanitizeTitle(meta.value.title))
    then meta.value.title else name
  }

  /** The content: the image's caption when it has one. */
  function ContentFromMeta(meta: Option<ImageMeta>): string {
    if meta.Some? && !IsEmpty(Trim(meta.value.caption)) then meta.value.caption else ""
  }

  /** The attachment defaults, overridden by the caller's `post_data`, never with an `ID`. */
  function Attachment(mimeType: string, url: string, postId: string, title: string, content: string,
                      postData: map<string, string>): (a: map<string, string>)
    ensures "ID" !in a
    ensures forall k :: k in postData && k != "ID" ==> k in a && a[k] == postData[k]
  {
    var defaults := map["post_mime_type" := mimeType, "guid" := url, "post_parent" := postId,
                        "post_title" := title, "post_content" := content];
    (defaults + postData) - {"ID"}
  }

  /** What `_ajax_media_handle_upload` produces: the upload's error, or the attachment built and the insert's result. */
  datatype MediaResult =
    | UploadRejected(message: string)
    | Inserted(attachment: map<string, string>, file: string, id: Result<int, string>)
  {
    /** The id or `WP_Error` the PHP function returns. */
    function Id(): Result<int, string> {
      match this
      case UploadRejected(m) => Failure(m)
      case Inserted(_, _, id) => id
    }
  }

  function MediaHandleUploadSpec(f: FileInfo, postId: string, postData: map<string, string>,
                                 ov: Overrides, env: UploadEnv): (r: MediaResult)
    ensures r.Inserted? ==> "ID" !in r.attachment
    ensures r.Inserted? ==>
      forall k :: k in postData && k != "ID" ==> k in r.attachment && r.attachment[k] == postData[k]
  {
    var upload := HandleUploadSpec(f, ov, UploadTime(postId, env), env);
    if upload.UploadError? && upload.message.Some? then UploadRejected(upload.message.value)
    else InsertSpec(upload, f.name, postId, postData, env)
  }

  /** The attachment built from an upload without an error message, and the insert's result. */
  function InsertSpec(upload: UploadResult, name: string, postId: string, postData: map<string, string>,
                      env: UploadEnv): (r: MediaResult)
    ensures r.Inserted? && "ID" !in r.attachment
    ensures forall k :: k in postData && k != "ID" ==> k in r.attachment && r.attachment[k] == postData[k]
  {
    var (url, mimeType, file) :=
      if upload.Uploaded? then (upload.url, upload.mimeType, upload.file) else ("", "", "");
    var meta := env.readImageMeta(file);
    var attachment := Attachment(mimeType, url, postId,
                                 TitleFromMeta(StripExtension(name), meta, env), ContentFromMeta(meta),
                                 postData);
    Inserted(attachment, file, env.insertAttachment(attachment, file, postId))
  }

  /**
   * `_ajax_media_handle_upload`. An upload error whose message is `null`
   * is not seen by `isset`, so the attachment is then built from empty
   * file, URL and type.
   */
  method MediaHandleUpload(f: FileInfo, postId: string, postData: map<string, string>,
                           ov: Overrides, env: UploadEnv)
    returns (r: MediaResult)
    ensures r == MediaHandleUploadSpec(f, postId, postData, ov, env)
  {
    var time := env.now;
    var date := env.postDate(postId);
    if date.Some? {
      if YearIsPositive(date.value) {
        time := date.value;
      }
    }

    var name := f.name;
    var upload := HandleUpload(f, ov, time, env);

    if upload.UploadError? && upload.message.Some? {
      return UploadRejected(upload.message.value);
    }

    name := StripExtension(name);

    var url, mimeType, file := "", "", "";
    if upload.Uploaded? {
      url, mimeType, file := upload.url, upload.mimeType, upload.file;
    }
    var title := name;
    var content := "";

    var imageMeta := env.readImageMeta(file);
    if imageMeta.Some? {
      if !IsEmpty(Trim(imageMeta.value.title)) && !IsNumeric(env.sanitizeTitle(imageMeta.value.title)) {
        title := imageMeta.value.title;
      }
      if !IsEmpty(Trim(imageMeta.value.caption)) {
        content := imageMeta.value.caption;
      }
    }

    var attachment := Attachment(mimeType, url, postId, title, content, postData);

    var id := env.insertAttachment(attachment, file, postId);
    r := Inserted(attachment, file, id);
  }

  /**
   * The attachment never has an `ID`; every other `post_data` entry wins
   * over the defaults; a default the caller does not set is kept.
   */
  lemma AttachmentFields(mimeType: string, url: string, postId: string, title: string, content: string,
                         postData: map<string, string>, k: string)
    ensures var a := Attachment(mimeType, url, postId, title, content, postData);
      && "ID" !in a
      && (k != "ID" && k in postData ==> k in a && a[k] == postData[k])
      && (k !in postData ==>
            && (k == "post_title" ==> a[k] == title)
            && (k == "post_content" ==> a[k] == content)
            && (k == "post_mime_type" ==> a[k] == mimeType)
            && (k == "guid" ==> a[k] == url)
            && (k == "post_parent" ==> a[k] == postId))
      && (k in a <==> k != "ID" && (k in postData || k in {"post_mime_type", "guid", "post_parent", "post_title", "post_content"}))
  {
  }

  /**
   * The title is the image's title exactly when that one is usable: it trims
   * to something non-empty in PHP's sense (so it has a non-whitespace
   * character) and its slug is not numeric. Otherwise it is the name.
   */
  lemma TitleChoice(name: string, meta: Option<ImageMeta>, env: UploadEnv)
    ensures var t := TitleFromMeta(name, meta, env);
      t == name || (meta.Some? && t == meta.value.title && !IsEmpty(Trim(t)) && !IsNumeric(env.sanitizeTitle(t))
                    && exists i :: 0 <= i < |t| && !IsTrimChar(t[i]))
    ensures meta.Some? && !IsEmpty(Trim(meta.value.title)) && !IsNumeric(env.sanitizeTitle(meta.value.title)) ==>
      TitleFromMeta(name, meta, env) == meta.value.title
    ensures (meta.None? || IsEmpty(Trim(meta.value.title)) || IsNumeric(env.sanitizeTitle(meta.value.title))) ==>
      TitleFromMeta(name, meta, env) == name
  {
    var t := TitleFromMeta(name, meta, env);
    if t != name {
      var trimmed := Trim(t);
      assert trimmed != [];
    }
  }

  /** A failed upload with a message is reported with that message and nothing is inserted. */
  lemma RejectedUpload(f: FileInfo, postId: string, postData: map<string, string>,
                       ov: Overrides, env: UploadEnv)
    requires var u := HandleUploadSpec(f, ov, UploadTime(postId, env), env);
      u.UploadError? && u.message.Some?
    ensures MediaHandleUploadSpec(f, postId, postData, ov, env).Id()
      == Failure(HandleUploadSpec(f, ov, UploadTime(postId, env), env).message.value)
  {
  }
}
