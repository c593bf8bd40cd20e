# WPBadger badge schema in Dafny

This project models the decision logic of WPBadger's badge post type, the
`WPBadger_Badge_Schema` class in `includes/badges.php`, and proves what that
class promises about badge posts:

- **Validity.** `check_valid` computes six facets of a badge post and their
  conjunction: image, PNG image, description, description length,
  criteria and status. `admin_notices` turns the failed facets into
  warnings. `save_post_validate` stores the conjunction as the
  `wpbadger-badge-valid` meta, and `display_post_states` marks a published
  badge "Invalid" from that meta.
- **Saving.** `save_post` normalises the submitted version with two
  anchored regular expressions, then adds, updates or keeps the stored
  version. It also stores or deletes the description. WordPress's meta
  API unslashes every value it stores, so the description is unslashed a
  second time.
  `get_post_description` reads the description back, falling back to the
  post content.
- **The badge designer endpoint.** `ajax_badge_designer_publish` takes a
  badge from JSON. It checks that the badge image is a base64 `data:` URI
  (a restricted form of section 3 of RFC 2397) and decodes the payload as
  in section 4 of RFC 4648. It hands the bytes to the upload helpers as a
  faked file upload, titles the attachment from the badge text, and sets
  it as the featured image.
- **The upload helpers.** `_ajax_wp_handle_upload` runs the file through
  an ordered chain of checks: prefilter error, form, error code, size,
  file type, uploads directory, and move. `_ajax_media_handle_upload`
  derives the name and title and builds the attachment record.

The model follows PHP 8.2 and later. The PHP behaviour the code relies on
is modelled explicitly in module `Php`:

- `empty()`, under which "0" is empty.
- `strlen` in UTF-8 bytes.
- ASCII `strtolower`, and `trim` with its default character set.
- `pathinfo`, `explode`/`implode`, `stripslashes`/`addslashes` and
  `str_replace` of characters.
- PHP 8's `is_numeric`.
- Loose `==` between strings, under which numeric strings compare by value.
- In module `Version`, the PCRE `$` that also matches before a final
  newline.

WordPress and library calls are fields of environment datatypes:

- The messages passed through `__()` (for example includes/badges.php:162-170, 316-323, 340, 350-352, 367 and 387) are written as their English literals. Translation is not modelled.
- `strip_tags`, `sanitize_title` and `wp_check_filetype_and_ext`;
- the upload filters, `wp_upload_dir`, `wp_unique_filename` and `copy`;
- `wp_read_image_metadata` and `wp_insert_attachment`;
- `set_post_thumbnail` and `wp_prepare_attachment_for_js`.

The model states each operation's outcome as a function of these calls.

Modules:

- `Wrappers`: `Option`, `Result`.
- `Php`: the PHP string and comparison functions above.
- `Base64`: the non-strict `base64_decode`, with an encoder to state the
  round trip.
- `Badge`: the post record and the meta keys.
- `Version`: the version normalisation.
- `Validity`: `check_valid` and `admin_notices`.
- `PostMeta`: a `PostMetaStore` class holding one post's meta. Its
  methods are `save_post` and `save_post_validate`. The module also holds
  `display_post_states` and `get_post_description`.
- `DataUri`: the `data:` URI checks of the designer endpoint.
- `Upload`: `_ajax_wp_handle_upload` and `_ajax_media_handle_upload`.
- `Designer`: `ajax_badge_designer_publish`.

Methods that work step by step in the source (`check_valid`, the
`save_post` hooks, the upload helpers, the endpoint) are methods whose
`ensures` ties the result or the new meta to a specification function.
The lemmas state the properties of those functions.

## Model

| member | source | states |
|---|---|---|
| Php.StrLen | includes/badges.php:580 | `strlen` counts UTF-8 bytes: at least one per character, at most four, zero only for "" |
| Php.StrLenAscii | includes/badges.php:580 | for an ASCII string the byte count is the character count |
| Php.StrLenNonAscii | includes/badges.php:580 | a string with a non-ASCII character has more bytes than characters |
| Php.StrToLower | includes/badges.php:571 | `strtolower` keeps the length and lowers exactly the ASCII capitals |
| Php.LowerIsPng | includes/badges.php:570-572 | an extension lowers to "png" exactly when it is p/P, n/N, g/G |
| Php.Trim | includes/badges.php:584 | `trim` returns the slice of the input left after removing its leading and trailing trim characters: every character outside the slice is a trim character, neither end of the slice is one, and the result is empty exactly when the input is all trim characters |
| Php.IndexOf | includes/badges.php:449 | the first position of a character, or the length when it is absent |
| Php.Basename | includes/badges.php:483 | the base name is the last component of the path with its trailing slashes removed: it is a suffix of that path, contains no '/', and is preceded by a '/' when it is not the whole path |
| Php.Extension | includes/badges.php:570 | `pathinfo` gives an extension exactly when the base name has a '.', and it contains no '.' or '/' |
| Php.ExtensionOfDotted | includes/badges.php:570 | a path ending in ".ext" has extension ext |
| Php.Split | includes/badges.php:455 | `explode` gives at least one part, none holding the separator |
| Php.JoinSplit | includes/badges.php:455 | joining the parts of `explode` gives back the string |
| Php.SplitJoin | includes/badges.php:455 | exploding joined separator-free parts gives back the parts |
| Php.RemoveChars | includes/badges.php:653 | removing characters leaves none of them and changes a string that has none of them not at all |
| Php.RemoveCharsKeeps | includes/badges.php:653 | every character outside the removed set survives |
| Php.RemoveCharsSingle | includes/badges.php:653 | one character is dropped iff it is removed, kept otherwise; with `RemoveCharsAppend` this fixes the result character by character, in order |
| Php.StripSlashes | includes/badges.php:769 | `stripslashes` never lengthens and leaves a string without backslashes unchanged |
| Php.StripSlashesAddSlashes | includes/badges.php:769 | `stripslashes` undoes the slashes WordPress adds to request data |
| Php.ParseNumeric | includes/badges.php:496-500 | a numeric string parses to a well-formed number with at least one digit |
| Php.EmptyIsNotNumeric | includes/badges.php:499-500 | "" is not numeric, so the empty title is acceptable |
| Php.DigitsAreNumeric | includes/badges.php:305 | a non-empty string of digits is numeric |
| Php.ParseDigits | includes/badges.php:233 | a digit string parses as that unsigned integer |
| Php.DigitsValueZero | includes/badges.php:233 | a digit string denotes 0 iff all its digits are '0' |
| Php.LooseEquals | includes/badges.php:761-765 | loose equality holds between identical strings |
| Php.LooseEqualsEmpty | includes/badges.php:761-765 | a string is loosely equal to "" only when it is "" |
| Php.LooseEqualsSymmetric | includes/badges.php:763 | loose equality is symmetric |
| Php.LooseTrailingZero | includes/badges.php:763 | "d.f" and "d.f0" are loosely equal, so `!=` does not tell them apart |
| Base64.DecodeEncode | includes/badges.php:461 | decoding the RFC 4648 encoding of any bytes gives back those bytes |
| Base64.DecodeSkipsNonAlphabet | includes/badges.php:461 | non-strict decoding ignores any character outside the alphabet |
| Base64.PaddingSkipped | includes/badges.php:461 | padding characters contribute no sextets |
| Version.Normalize | includes/badges.php:751-756 | the normalised version is never empty (in PHP's sense) and contains a '.' |
| Version.NormalizeInteger | includes/badges.php:752-753 | an all-digit version gets ".0" appended |
| Version.NormalizeDotted | includes/badges.php:754 | a version of two or more dotted digit groups is unchanged |
| Version.NormalizeOther | includes/badges.php:754-755 | anything matching neither pattern becomes "1.0" |
| Version.NormalizeEmpty | includes/badges.php:754-755 | "" becomes "1.0" |
| Version.DigitGroupsChars | includes/badges.php:754 | a dotted version consists of digits and dots only |
| Version.DottedIsNotInteger | includes/badges.php:752-754 | a dotted version never matches the integer pattern and holds no newline |
| Version.TwoGroups | includes/badges.php:754 | two digit groups joined by '.' match the dotted pattern |
| Version.NormalizeIsDotted | includes/badges.php:751-756 | without a newline in the input the result matches `^\d+(\.\d+)+$` |
| Version.NormalizeIdempotent | includes/badges.php:751-756 | for input without a newline, normalising a normalised version changes nothing |
| Version.NormalizeNoBackslash | includes/badges.php:751-766 | a normalised version never holds a backslash, so the meta API's unslash stores it unchanged |
| Version.NormalizeModuloNewline | includes/badges.php:751-756 | for any input, the result with its newline removed matches `^\d+(\.\d+)+$` |
| Version.IntegerModuloNewline | includes/badges.php:752-753 | an integer version, possibly with the final newline `$` admits, is dotted once the newline is removed |
| Version.DottedModuloNewline | includes/badges.php:754 | a dotted version with the final newline `$` admits is dotted once the newline is removed |
| Version.NewlineQuirk | includes/badges.php:752-754 | "5\n" is stored as "5\n.0", which a second save turns into "1.0" |
| Validity.CheckValid | includes/badges.php:546-600 | `check_valid`'s step-by-step facets equal the facets stated on their own |
| Validity.NoImageFacets | includes/badges.php:561-574 | without a thumbnail or with an empty file path: no image, PNG facet true, badge invalid |
| Validity.ImageFacets | includes/badges.php:561-574 | with a thumbnail file the image facet holds and the PNG facet holds iff the extension is "png" in any case |
| Validity.PngFileIsImage | includes/badges.php:561-574 | a thumbnail stored as "….png" passes both image facets |
| Validity.DescriptionFacets | includes/badges.php:577-581 | description holds iff the meta is neither "" nor "0"; length holds iff it has at most 128 bytes |
| Validity.EmptyDescriptionFacets | includes/badges.php:577-581 | an empty description fails `description` and passes `description-length` |
| Validity.DescriptionLengthCountsBytes | includes/badges.php:580 | 128 ASCII characters pass the length facet; 128 characters with one non-ASCII fail it |
| Validity.CriteriaAndStatusFacets | includes/badges.php:583-589 | criteria holds iff the stripped content has a non-whitespace character and does not trim to "0"; status iff "publish" |
| Validity.AllIsConjunction | includes/badges.php:591-597 | `all` holds exactly when all six facets hold |
| Validity.UnpublishedIsInvalid | includes/badges.php:588-597 | a badge that is not published is never valid |
| Validity.AdminNotices | includes/badges.php:148-171 | warnings appear only on the edit screen of a published badge, one per failed facet |
| Validity.EchoNotices | includes/badges.php:161-170 | the warnings written out are those of the failed facets, in order |
| Validity.NoticesForFacets | includes/badges.php:161-170 | each warning appears iff its facet fails |
| Validity.NoticesOrdered | includes/badges.php:161-170 | the warnings come in the fixed order image, PNG, description, length, criteria, each at most once |
| Validity.PublishedBadgeNotices | includes/badges.php:148-171 | on a published badge's edit screen there are no warnings iff the badge is valid (status aside) |
| PostMeta.VersionPolicyCases | includes/badges.php:758-766 | for a normalised version: add when nothing is stored, update when loosely different, no write when loosely equal; never delete |
| PostMeta.PostMetaStore.SavePost | includes/badges.php:740-775 | the meta after `save_post` is the version step followed by the description step, or unchanged for another post type or an unauthorised request |
| PostMeta.PostMetaStore.StoreVersion | includes/badges.php:751-766 | normalises the submitted version, then applies the chosen write |
| PostMeta.PostMetaStore.WriteVersion | includes/badges.php:758-766 | a unique add only when the key is absent, an update, or a delete of the stored value (of the key whatever it holds when the value unslashes to ""), each with its value unslashed as the meta API does |
| PostMeta.PostMetaStore.StoreDescription | includes/badges.php:768-774 | an empty value deletes the description key, any other sets it to the value unslashed |
| PostMeta.PostMetaStore.SavePostValidate | includes/badges.php:780-788 | a badge's valid flag becomes "1" or "" by `check_valid`'s `all` on the current meta |
| PostMeta.PostMetaStore.OnSave | includes/badges.php:740-788 | the two `save_post` hooks run in priority order |
| PostMeta.SaveSkipped | includes/badges.php:740-749 | another post type or an unauthorised request writes nothing |
| PostMeta.SaveFrame | includes/badges.php:740-775 | saving changes no key but the version and the description |
| PostMeta.SaveVersion | includes/badges.php:751-766 | after a save the version is present: the normalised submission when absent before, kept when "" before, otherwise loosely equal to the submission |
| PostMeta.VersionAfterApply | includes/badges.php:751-766 | the same facts for the version step alone |
| PostMeta.DescriptionKeepsVersion | includes/badges.php:768-774 | the description step leaves the version alone |
| PostMeta.SaveDescription | includes/badges.php:768-774 | the description is stored iff `strip_tags(stripslashes(input))` is neither "" nor "0", as that value unslashed once more; it is deleted otherwise |
| PostMeta.SaveTypedDescription | includes/badges.php:768-774 | the description stored is the typed text, tags stripped, unslashed by the meta API; it is exactly that text when it has no backslash |
| PostMeta.TypedBackslashLost | includes/badges.php:768-774 | a typed lone backslash is stored as "" and the badge fails its description facet |
| PostMeta.LooselyEqualVersionKept | includes/badges.php:763 | a stored "d.f0" is not rewritten by a submitted "d.f" |
| PostMeta.ValidFlagAfterSave | includes/badges.php:780-788 | after both hooks the flag is "1" iff the saved badge is valid and "" iff not |
| PostMeta.ZeroDescriptionInvalid | includes/badges.php:768-774 | a description that strips to "0" leaves the badge invalid |
| PostMeta.DisplayPostStates | includes/badges.php:625-638 | a published badge with an empty flag gets the "Invalid" label under the state key, replacing any state there; any other post keeps its states unchanged |
| PostMeta.InvalidStateAfterSave | includes/badges.php:625-638 | after saving, a published badge carries the "Invalid" label iff some facet fails, and keeps its states otherwise |
| PostMeta.GetPostDescription | includes/badges.php:644-657 | a non-empty description meta is returned as is; otherwise exactly the stripped content with every CR and LF removed |
| PostMeta.DescriptionReadBack | includes/badges.php:644-657 | the description a save stores (unslashed twice) is the one read back when non-empty; otherwise the content is read back |
| DataUri.Parse | includes/badges.php:441-474 | not "data:" gives the first error; no ',' after index 5 or one at index 5 gives the second; otherwise a parse whose media type has no ';' or ',' |
| DataUri.ParseFormat | includes/badges.php:441-474 | a formatted data URI with clean header fields parses back to itself |
| DataUri.FormatParse | includes/badges.php:441-474 | every accepted image is the formatting of its parse |
| DataUri.EncodedImageRoundTrip | includes/badges.php:441-474 | an image encoded as a base64 data URI parses and decodes back to its bytes |
| DataUri.NoEncodingField | includes/badges.php:455-472 | a header without ';' is rejected as an unknown encoding |
| DataUri.SchemeIsCaseSensitive | includes/badges.php:441 | "DATA:" is not accepted |
| Upload.HandleUpload | includes/badges.php:297-400 | the upload's early exits and move equal the specification of the check chain |
| Upload.TypeAndMove | includes/badges.php:356-400 | the file-type check, uploads directory and move equal their specification |
| Upload.UploadCheckOrder | includes/badges.php:297-380 | the upload stops at a check iff every earlier check passed and that one failed |
| Upload.UploadedType | includes/badges.php:356-376 | a moved file is typed by the check's type, else the claimed type (only with unfiltered upload), else "" when types are not tested |
| Upload.ErrorCodeMessages | includes/badges.php:324-344 | a positive code stops the upload; codes 1-8 have a message, 5 the empty one, codes above 8 none |
| Upload.StripExtension | includes/badges.php:243-244 | the derived name is shorter than the file name |
| Upload.StripDottedName | includes/badges.php:243-244 | "stem.ext" gives the trimmed stem |
| Upload.StripUndottedName | includes/badges.php:243-244 | a name without extension loses its last character |
| Upload.DigitYear | includes/badges.php:233 | a date whose year is four digits passes `> 0` iff some digit is not '0' |
| Upload.UploadTimeChoice | includes/badges.php:230-235 | a missing post or date gives the current time; a four-digit year gives the post date iff it is not "0000"; an empty date gives the current time |
| Upload.DatedPostTime | includes/badges.php:230-235 | a post dated "2024-05-01 12:00:00" files its upload under that date |
| Upload.ZeroDatePostTime | includes/badges.php:230-235 | a post dated "0000-00-00 00:00:00" files its upload under the current time |
| Upload.MediaHandleUpload | includes/badges.php:228-276 | `_ajax_media_handle_upload` equals its specification |
| Upload.MediaHandleUploadSpec | includes/badges.php:261-271 | an inserted attachment never has an ID and keeps every caller-supplied field other than ID |
| Upload.AttachmentFields | includes/badges.php:261-271 | the attachment never has an ID; caller data wins over defaults; a default not overridden is kept; nothing else is present |
| Upload.TitleChoice | includes/badges.php:250-256 | the image title is chosen iff it trims to a non-empty value and its slug is not numeric; otherwise the name is |
| Upload.RejectedUpload | includes/badges.php:238-241 | an upload error with a message is returned as the error, and nothing is inserted |
| Designer.TitleFor | includes/badges.php:492-501 | the title is the badge-text slug when that is non-empty and not numeric; otherwise the slug of the two text lines joined by a space, or "" when that is numeric; never numeric |
| Designer.AttachSpec | includes/badges.php:514-528 | failures after the upload are only upload, thumbnail or preparation failures |
| Designer.StoreSpec | includes/badges.php:486-528 | failures after decoding are only late failures |
| Designer.SaveSpec | includes/badges.php:461-528 | failures after parsing are late failures or bad base64 |
| Designer.Publish | includes/badges.php:435-528 | the endpoint equals its specification |
| Designer.Save | includes/badges.php:461-512 | decoding, the faked file and the write equal their specification |
| Designer.UploadAndAttach | includes/badges.php:503-528 | the upload, thumbnail and preparation equal their specification |
| Designer.InputChecks | includes/badges.php:435-474 | bad JSON first, then the three data-URI errors; past them only late failures |
| Designer.NeverBadBase64 | includes/badges.php:461-465 | under the non-strict `base64_decode` of PHP 7 and later, which never fails, the bad-base64 response is never sent |
| Designer.EncodedImageUpload | includes/badges.php:441-483 | for a base64 data URI of any media type free of "," and ";", publishing ends as storing the faked upload of exactly the encoded bytes |
| Designer.DecodedImageStored | includes/badges.php:441-486 | once the image parses and decodes, the outcome is that of storing it |
| Designer.FakeUploadEarlyChecks | includes/badges.php:477-483 | the faked file passes the prefilter, form and error-code checks, and the size check iff it has a byte |
| Designer.PublishedTitle | includes/badges.php:492-512 | an inserted attachment carries the derived, never numeric, title; a successful publish always inserted |
| Designer.AttachOutcome | includes/badges.php:514-528 | success iff the upload gave an id, the thumbnail was set and the attachment prepared; an upload error is reported with its message |
| Designer.ImageMessages | includes/badges.php:441-472 | the two malformed-URI exits share a message; unknown encoding has its own |

## Left out

- Hook registration, post type labels, the rendering filters, the meta-box and thumbnail HTML, and `js/admin-post.js` are outside this model: they produce markup or wire up callbacks.
- Nonce and capability checks: `save_post` takes them as one `authorized` flag. For the designer endpoint they come before the modelled part and are not modelled.
- `json_decode` of the unslashed request field is not modelled: `Designer.Publish` takes the decoded badge, with `None` for a falsy result and "" for a missing field.
- `tempnam`, `file_put_contents`, the shutdown `unlink`, `stat`/`chmod` and the dirsize transient are not modelled. The temporary name and the write's success are parameters.
- `Designer.Publish`: the success response (the prepared attachment array and the thumbnail HTML) is reduced to the attachment id, and `wp_die` to the `Died` error.
- `Designer.Publish`: a missing `post_id` is "" rather than null, so `get_post(null)` falling back to the global post is not modelled.
- `Upload.HandleUpload`: the `wp_handle_upload` filter on the result is not modelled.
- `Upload.HandleUpload`: a prefilter that removes the `error` entry is not modelled.
- `Upload.HandleUpload`: the recomputed extension (includes/badges.php:369-370) is never used afterwards, so it is not modelled.
- `Upload.MediaHandleUpload`: `wp_generate_attachment_metadata` and `wp_update_attachment_metadata` after the insert are not modelled.
- `Upload.MediaHandleUpload`: `array_merge` renumbers integer-like keys; the model merges string keys only.
- `Upload.StripExtension` and `Upload.YearIsPositive`: they count characters where `substr` counts bytes. The two agree on ASCII names and dates.
- `Php.LooseEquals` compares numeric strings by exact value. PHP compares them as doubles, so strings that differ only beyond double precision are equal in PHP but not here.
- `PostMeta.PostMetaStore`: of WordPress's meta API only the `wp_unslash` of stored and matched values is modelled; serialisation and the meta filters are not. The boolean valid flag has no backslash, so its write stores it as is.
- `PostMeta.PostMetaStore`: each meta key holds one value. WordPress allows several values per key; the code only reads them with `single = true` and writes them with unique adds and updates.
- `Badge.BadgeType` fixes the post type name to "badge". That is the default; the `wpbadger_badge_post_type_name` filter can change it (includes/badges.php:66-68).
- `strip_tags`, `sanitize_title`, `wp_check_filetype_and_ext` and the other WordPress calls are uninterpreted function parameters.
