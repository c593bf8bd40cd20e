/**
 * `ajax_badge_designer_publish`: the endpoint that receives a badge from the
 * external designer as JSON, takes its PNG out of a base64 data URI, hands
 * it to the upload helpers as if it had been uploaded, and makes the new
 * attachment the badge's featured image. Every `wp_send_json_error` and
 * `wp_die` ends the request, so each is a distinct `DesignerError`.
 */
module Designer {
  import opened Wrappers
  import opened Php
  import Base64
  import opened DataUri
  import opened Upload

  /** The fields of the decoded designer JSON that the endpoint reads; a missing field is "". */
  datatype BadgeJson = BadgeJson(image: string, badgeText: string, text: string, text2: string)

  /** The WordPress and file-system calls the endpoint makes besides the upload helpers. */
  datatype DesignerEnv = DesignerEnv(
    upload: UploadEnv,
    tempName: string,                          // tempnam(sys_get_temp_dir(), 'wpbadger-badge-designer-')
    write: (string, seq<Base64.byte>) -> bool, // file_put_contents($tmp, $data) !== false
    setThumbnail: (string, int) -> bool,       // set_post_thumbnail($post_id, $attachment_id)
    prepareForJs: int -> bool)                 // wp_prepare_attachment_for_js($attachment_id) is truthy

  /** The early exits of the endpoint, in the order they can happen. */
  datatype DesignerError =
    | BadJson                     // json_decode gave nothing usable
    | BadImage(cause: DataUriError)
    | BadBase64                   // base64_decode returned false
    | SaveFailed                  // the temporary file could not be written
    | UploadFailed(message: string)
    | ThumbnailFailed             // set_post_thumbnail failed
    | Died                        // wp_die: the attachment could not be prepared
  {
    /** The message of the JSON error response (`wp_die` sends none). */
    function Message(): string {
      match this
      case BadJson => "Error decoding the badge designer data."
      case BadImage(UnknownEncoding) => "Error decoding the badge designer image data: unknown encoding."
      case BadImage(_) => "Error decoding the badge designer image data."
      case BadBase64 => "Error decoding the badge designer image data: bad base64 data."
      case SaveFailed => "Error saving the badge designer image."
      case UploadFailed(m) => m
      case ThumbnailFailed => "Unable to set the badge as the featured image."
      case Died => ""
    }
  }

  /** The file name every JSON error response carries. */
  const ErrorFilename: string := "badge.png"

  /** The media type the upload options allow. */
  const PngType: string := "image/png"

  /** The upload options the endpoint passes: no form test, and only PNG files. */
  const DesignerOverrides: Overrides :=
    Overrides(false, true, true, Some(map["png" := PngType]))

  // ---------------------------------------------------------------------------
  // the image

  /** The `$_FILES`-like entry the endpoint builds for the decoded image. */
  function FakeUpload(u: DataUri, bytes: seq<Base64.byte>, tempName: string): FileInfo {
    FileInfo(Basename(tempName) + ".png", u.mediaType, tempName, Code(0), |bytes|)
  }

  /**
   * The attachment title: the slug of the badge text unless it is empty or
   * numeric, else the slug of the two text lines joined by a space, else "".
   */
  function TitleFor(b: BadgeJson, sanitize: string -> string): (r: string)
    ensures !IsNumeric(r)
    ensures r == "" || r == sanitize(b.badgeText) || r == sanitize(b.text + " " + b.text2)
    ensures !IsEmpty(sanitize(b.badgeText)) && !IsNumeric(sanitize(b.badgeText)) ==> r == sanitize(b.badgeText)
    ensures IsEmpty(sanitize(b.badgeText)) || IsNumeric(sanitize(b.badgeText)) ==>
      r == (if IsNumeric(sanitize(b.text + " " + b.text2)) then "" else sanitize(b.text + " " + b.text2))
  {
    var title := sanitize(b.badgeText);
    if IsEmpty(title) || IsNumeric(title) then
      var joined := sanitize(b.text + " " + b.text2);
      if IsNumeric(joined) then EmptyIsNotNumeric(); "" else joined
    else title
  }

  // ---------------------------------------------------------------------------
  // the endpoint

  /** The errors that can only come once the image is decoded. */
  predicate IsLateError(e: DesignerError) {
    e.SaveFailed? || e.UploadFailed? || e.ThumbnailFailed? || e.Died?
  }

  /** What happens after the upload: the thumbnail is set, then the attachment prepared for the response. */
  function AttachSpec(postId: string, id: Result<int, string>, env: DesignerEnv): (r: Result<int, DesignerError>)
    ensures r.Failure? ==> IsLateError(r.error)
  {
    match id
    case Failure(m) => Failure(UploadFailed(m))
    case Success(n) =>
      if !env.setThumbnail(postId, n) then Failure(ThumbnailFailed)
      else if !env.prepareForJs(n) then Failure(Died)
      else Success(n)
  }

  /** The image's file is written, titled and uploaded, and the attachment made the featured image. */
  function StoreSpec(f: FileInfo, bytes: seq<Base64.byte>, b: BadgeJson, postId: string, env: DesignerEnv)
    : (r: Result<int, DesignerError>)
    ensures r.Failure? ==> IsLateError(r.error)
  {
    if !env.write(f.tmpName, bytes) then Failure(SaveFailed)
    else
      var title := TitleFor(b, env.upload.sanitizeTitle);
      var media := MediaHandleUploadSpec(f, postId, map["post_title" := title], DesignerOverrides, env.upload);
      AttachSpec(postId, media.Id(), env)
  }

  /** What follows `base64_decode`: its failure, or the stored image. */
  function SaveSpec(decoded: Option<seq<Base64.byte>>, u: DataUri, b: BadgeJson, postId: string,
                    env: DesignerEnv): (r: Result<int, DesignerError>)
    ensures r.Failure? ==> IsLateError(r.error) || r.error == BadBase64
  {
    match decoded
    case None => Failure(BadBase64)
    case Some(bytes) => StoreSpec(FakeUpload(u, bytes, env.tempName), bytes, b, postId, env)
  }

  /** The endpoint's outcome: the new attachment id, or the first error. */
  function PublishSpec(postId: string, badge: Option<BadgeJson>, env: DesignerEnv): Result<int, DesignerError> {
    if badge.None? then Failure(BadJson)
    else match Parse(badge.value.image)
      case Failure(e) => Failure(BadImage(e))
      case Success(u) => SaveSpec(DecodePayload(u), u, badge.value, postId, env)
  }

  /**
   * `ajax_badge_designer_publish`, from the decoded JSON on. `postId` is
   * `$_POST['post_id']`, "" when it is not given.
   */
  method Publish(postId: string, badge: Option<BadgeJson>, env: DesignerEnv)
    returns (r: Result<int, DesignerError>)
    ensures r == PublishSpec(postId, badge, env)
  {
    if badge.None? {
      return Failure(BadJson);
    }

    var parsed := Parse(badge.value.image);
    if parsed.Failure? {
      return Failure(BadImage(parsed.error));
    }

    r := Save(DecodePayload(parsed.value), parsed.value, badge.value, postId, env);
  }

  /** Checks the outcome of `base64_decode`, fakes the upload's file and writes the image to it. */
  method Save(decoded: Option<seq<Base64.byte>>, u: DataUri, b: BadgeJson, postId: string, env: DesignerEnv)
    returns (r: Result<int, DesignerError>)
    ensures r == SaveSpec(decoded, u, b, postId, env)
  {
    if decoded.None? {
      return Failure(BadBase64);
    }
    var bytes := decoded.value;

    var f := FileInfo("", u.mediaType, env.tempName, Code(0), |bytes|);
    f := f.(name := Basename(f.tmpName) + ".png");

    if !env.write(f.tmpName, bytes) {
      return Failure(SaveFailed);
    }

    var title := env.upload.sanitizeTitle(b.badgeText);
    if IsEmpty(title) || IsNumeric(title) {
      title := env.upload.sanitizeTitle(b.text + " " + b.text2);
      if IsNumeric(title) {
        title := "";
      }
    }

    r := UploadAndAttach(f, postId, title, env);
  }

  /** The upload, then the featured image, then the response. */
  method UploadAndAttach(f: FileInfo, postId: string, title: string, env: DesignerEnv)
    returns (r: Result<int, DesignerError>)
    ensures r == AttachSpec(postId,
                            MediaHandleUploadSpec(f, postId, map["post_title" := title], DesignerOverrides, env.upload).Id(),
                            env)
  {
    var media := MediaHandleUpload(f, postId, map["post_title" := title], DesignerOverrides, env.upload);
    var attachmentId := media.Id();
    if attachmentId.Failure? {
      return Failure(UploadFailed(attachmentId.error));
    }
    if !env.setThumbnail(postId, attachmentId.value) {
      return Failure(ThumbnailFailed);
    }
    if !env.prepareForJs(attachmentId.value) {
      return Failure(Died);
    }
    r := Success(attachmentId.value);
  }

  // ---------------------------------------------------------------------------
  // properties

  /** The input checks fire in order: JSON, then the data URI's three checks, each with its own error. */
  lemma InputChecks(postId: string, badge: Option<BadgeJson>, env: DesignerEnv)
    ensures badge.None? ==> PublishSpec(postId, badge, env) == Failure(BadJson)
    ensures badge.Some? && !StartsWith(badge.value.image, Scheme) ==>
      PublishSpec(postId, badge, env) == Failure(BadImage(NotDataUri))
    ensures badge.Some? && Parse(badge.value.image).Failure? ==>
      PublishSpec(postId, badge, env) == Failure(BadImage(Parse(badge.value.image).error))
    ensures badge.Some? && Parse(badge.value.image).Success? && PublishSpec(postId, badge, env).Failure? ==>
      IsLateError(PublishSpec(postId, badge, env).error)
  {
    if badge.Some? && Parse(badge.value.image).Success? {
      var u := Parse(badge.value.image).value;
      Base64.DecodeNeverFails(u.payload);
    }
  }

  /**
   * `base64_decode` in its default mode never fails in PHP 7 and later, so
   * the bad-base64 response is never sent.
   */
  lemma NeverBadBase64(postId: string, badge: Option<BadgeJson>, env: DesignerEnv)
    ensures PublishSpec(postId, badge, env) != Failure(BadBase64)
  {
    if badge.Some? && Parse(badge.value.image).Success? {
      InputChecks(postId, badge, env);
    }
  }

  /**
   * An image sent as "data:<type>;base64,<payload>" reaches the upload
   * helpers as the faked file of exactly its bytes: the endpoint's outcome
   * is that of storing those bytes.
   */
  lemma EncodedImageUpload(postId: string, b: BadgeJson, mediaType: string, bytes: seq<Base64.byte>,
                           env: DesignerEnv)
    requires ',' !in mediaType && ';' !in mediaType
    requires b.image == Format(DataUri(mediaType, [], Base64.Encode(bytes)))
    ensures var f := FakeUpload(DataUri(mediaType, [], Base64.Encode(bytes)), bytes, env.tempName);
      PublishSpec(postId, Some(b), env) == StoreSpec(f, bytes, b, postId, env)
  {
    var u := DataUri(mediaType, [], Base64.Encode(bytes));
    EncodedImageRoundTrip(mediaType, bytes);
    DecodedImageStored(postId, b, u, bytes, env);
  }

  /** Once the image parses and decodes, the outcome is that of storing it. */
  lemma DecodedImageStored(postId: string, b: BadgeJson, u: DataUri, bytes: seq<Base64.byte>, env: DesignerEnv)
    requires Parse(b.image) == Success(u) && DecodePayload(u) == Some(bytes)
    ensures PublishSpec(postId, Some(b), env) == StoreSpec(FakeUpload(u, bytes, env.tempName), bytes, b, postId, env)
  {
  }

  /**
   * Unless a prefilter changes them, the faked file passes the prefilter,
   * form and error-code checks, and passes the size check exactly when the
   * image has at least one byte.
   */
  lemma FakeUploadEarlyChecks(u: DataUri, bytes: seq<Base64.byte>, tempName: string, env: UploadEnv)
    requires env.prefilter(FakeUpload(u, bytes, tempName)) == FakeUpload(u, bytes, tempName)
    ensures var f := FakeUpload(u, bytes, tempName);
      && PrefilterPasses(f) && FormPasses(DesignerOverrides, env) && ErrorCodePasses(f)
      && (SizePasses(DesignerOverrides, f) <==> |bytes| > 0)
  {
  }

  /**
   * When the attachment is inserted, its title is the derived title, which
   * is never numeric; a successful publish always went through such an
   * insert.
   */
  lemma PublishedTitle(f: FileInfo, bytes: seq<Base64.byte>, b: BadgeJson, postId: string, env: DesignerEnv)
    ensures var title := TitleFor(b, env.upload.sanitizeTitle);
      var media := MediaHandleUploadSpec(f, postId, map["post_title" := title], DesignerOverrides, env.upload);
      && (media.Inserted? ==> "post_title" in media.attachment && media.attachment["post_title"] == title
                              && !IsNumeric(media.attachment["post_title"]))
      && (StoreSpec(f, bytes, b, postId, env).Success? ==> media.Inserted?)
  {
    var title := TitleFor(b, env.upload.sanitizeTitle);
    var postData := map["post_title" := title];
    var media := MediaHandleUploadSpec(f, postId, postData, DesignerOverrides, env.upload);
    if media.Inserted? {
      assert "post_title" in postData && "post_title" != "ID";
      InsertedField(f, postId, postData, DesignerOverrides, env.upload, "post_title");
    }
    var store := StoreSpec(f, bytes, b, postId, env);
    if store.Success? {
      assert env.write(f.tmpName, bytes);
      assert store == AttachSpec(postId, media.Id(), env);
      assert media.Id().Success?;
    }
  }

  /** An inserted attachment carries every field the caller passed in `post_data`, other than `ID`. */
  lemma InsertedField(f: FileInfo, postId: string, postData: map<string, string>, ov: Overrides,
                      env: UploadEnv, k: string)
    requires k in postData && k != "ID"
    requires MediaHandleUploadSpec(f, postId, postData, ov, env).Inserted?
    ensures var a := MediaHandleUploadSpec(f, postId, postData, ov, env).attachment;
      k in a && a[k] == postData[k]
  {
  }

  /** The endpoint succeeds exactly when the thumbnail is set and the attachment prepared for the id the upload returned. */
  lemma AttachOutcome(postId: string, id: Result<int, string>, env: DesignerEnv)
    ensures AttachSpec(postId, id, env).Success? <==>
      id.Success? && env.setThumbnail(postId, id.value) && env.prepareForJs(id.value)
    ensures AttachSpec(postId, id, env).Success? ==> AttachSpec(postId, id, env).value == id.value
    ensures id.Failure? ==> AttachSpec(postId, id, env) == Failure(UploadFailed(id.error))
  {
  }

  /** The two malformed-URI exits share one message; the unknown encoding has its own. */
  lemma ImageMessages()
    ensures BadImage(NotDataUri).Message() == BadImage(NoPayloadSeparator).Message()
    ensures BadImage(UnknownEncoding).Message() != BadImage(NotDataUri).Message()
  {
  }
}
