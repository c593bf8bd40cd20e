/**
 * The validity of a badge post (`check_valid`) and the warnings the post
 * editor shows for an invalid published badge (`admin_notices`).
 */
module Validity {
  import opened Php
  import opened Badge
  import opened Wrappers

  /** The result of `check_valid`: six facets and their conjunction. */
  datatype Facets = Facets(
    image: bool,
    imagePng: bool,
    description: bool,
    descriptionLength: bool,
    criteria: bool,
    status: bool,
    all: bool)

  /** The longest description, in bytes, a valid badge may have. */
  const MaxDescriptionBytes: nat := 128

  /**
   * What each facet means, stated on its own: `files` maps attachment ids to
   * what `get_attached_file` returns, `meta` is the post's meta, and
   * `stripTags` is `strip_tags`.
   */
  function Evaluate(post: Post, meta: map<string, string>, files: map<int, string>,
                    stripTags: string -> string): Facets
  {
    var file := Get(files, post.thumbnailId);
    var image := post.thumbnailId > 0 && !IsEmpty(file);
    var imagePng := !image || StrToLower(ExtensionOrEmpty(file)) == "png";
    var desc := Get(meta, DescriptionKey);
    var description := !IsEmpty(desc);
    var descriptionLength := StrLen(desc) <= MaxDescriptionBytes;
    var criteria := !IsEmpty(Trim(stripTags(post.content)));
    var status := post.status == "publish";
    Facets(image, imagePng, description, descriptionLength, criteria, status,
           image && imagePng && description && descriptionLength && criteria && status)
  }

  /**
   * `check_valid`: starts from every facet failed except `image-png`, then
   * sets each facet whose check passes, and finally their conjunction.
   */
  method CheckValid(post: Post, meta: map<string, string>, files: map<int, string>,
                    stripTags: string -> string) returns (rv: Facets)
    ensures rv == Evaluate(post, meta, files, stripTags)
  {
    rv := Facets(false, true, false, false, false, false, false);

    var imageId := post.thumbnailId;
    if imageId > 0 {
      var imageFile := Get(files, imageId);
      if !IsEmpty(imageFile) {
        rv := rv.(image := true, imagePng := false);
        var imageExt := ExtensionOrEmpty(imageFile);
        if StrToLower(imageExt) == "png" {
          rv := rv.(imagePng := true);
        }
      }
    }

    var desc := Get(meta, DescriptionKey);
    if !IsEmpty(desc) {
      rv := rv.(description := true);
    }
    if StrLen(desc) <= MaxDescriptionBytes {
      rv := rv.(descriptionLength := true);
    }

    var criteria := Trim(stripTags(post.content));
    if !IsEmpty(criteria) {
      rv := rv.(criteria := true);
    }

    if post.status == "publish" {
      rv := rv.(status := true);
    }

    rv := rv.(all := rv.image && rv.imagePng && rv.description && rv.descriptionLength
                     && rv.criteria && rv.status);
  }

  // ---------------------------------------------------------------------------
  // the facets

  /** Without a thumbnail, or when its file path is empty, there is no image and nothing to reject as non-PNG. */
  lemma NoImageFacets(post: Post, meta: map<string, string>, files: map<int, string>,
                      stripTags: string -> string)
    requires post.thumbnailId <= 0 || IsEmpty(Get(files, post.thumbnailId))
    ensures !Evaluate(post, meta, files, stripTags).image
    ensures Evaluate(post, meta, files, stripTags).imagePng
    ensures !Evaluate(post, meta, files, stripTags).all
  {
  }

  /**
   * With a thumbnail file the image facet holds, and the PNG facet holds
   * exactly when the extension is "png" in any mix of upper and lower case.
   */
  lemma ImageFacets(post: Post, meta: map<string, string>, files: map<int, string>,
                    stripTags: string -> string)
    requires post.thumbnailId > 0 && !IsEmpty(Get(files, post.thumbnailId))
    ensures Evaluate(post, meta, files, stripTags).image
    ensures var ext := ExtensionOrEmpty(Get(files, post.thumbnailId));
      Evaluate(post, meta, files, stripTags).imagePng <==>
        |ext| == 3 && (ext[0] == 'p' || ext[0] == 'P') && (ext[1] == 'n' || ext[1] == 'N')
        && (ext[2] == 'g' || ext[2] == 'G')
  {
    LowerIsPng(ExtensionOrEmpty(Get(files, post.thumbnailId)));
  }

  /** A thumbnail stored as "<anything>.png" passes both image facets. */
  lemma PngFileIsImage(post: Post, meta: map<string, string>, files: map<int, string>,
                       stripTags: string -> string, stem: string)
    requires post.thumbnailId > 0 && Get(files, post.thumbnailId) == stem + ['.', 'p', 'n', 'g']
    ensures Evaluate(post, meta, files, stripTags).image
    ensures Evaluate(post, meta, files, stripTags).imagePng
  {
    var path := stem + ['.', 'p', 'n', 'g'];
    assert stem + ['.'] + ['p', 'n', 'g'] == path;
    ExtensionOfDotted(stem, ['p', 'n', 'g']);
    assert |path| >= 4;
    assert path != "" && path != "0";
    LowerIsPng(['p', 'n', 'g']);
  }

  /**
   * The two description facets are independent: one asks for a description
   * that is not empty in PHP's sense ("0" is empty), the other for at most
   * 128 bytes.
   */
  lemma DescriptionFacets(post: Post, meta: map<string, string>, files: map<int, string>,
                          stripTags: string -> string)
    ensures var desc := Get(meta, DescriptionKey);
      && (Evaluate(post, meta, files, stripTags).description <==> desc != "" && desc != "0")
      && (Evaluate(post, meta, files, stripTags).descriptionLength <==> StrLen(desc) <= 128)
  {
  }

  /** A missing or empty description fails `description` but passes `description-length`. */
  lemma EmptyDescriptionFacets(post: Post, meta: map<string, string>, files: map<int, string>,
                               stripTags: string -> string)
    requires Get(meta, DescriptionKey) == ""
    ensures !Evaluate(post, meta, files, stripTags).description
    ensures Evaluate(post, meta, files, stripTags).descriptionLength
  {
  }

  /** The limit counts bytes: 128 ASCII characters pass, 128 characters with one outside ASCII do not. */
  lemma DescriptionLengthCountsBytes(post: Post, meta: map<string, string>, files: map<int, string>,
                                     stripTags: string -> string, k: nat)
    requires |Get(meta, DescriptionKey)| == 128
    ensures (forall i :: 0 <= i < 128 ==> (Get(meta, DescriptionKey)[i] as int) < 0x80) ==>
      Evaluate(post, meta, files, stripTags).descriptionLength
    ensures k < 128 && (Get(meta, DescriptionKey)[k] as int) >= 0x80 ==>
      !Evaluate(post, meta, files, stripTags).descriptionLength
  {
    var desc := Get(meta, DescriptionKey);
    if forall i :: 0 <= i < 128 ==> (desc[i] as int) < 0x80 {
      StrLenAscii(desc);
    }
    if k < 128 && (desc[k] as int) >= 0x80 {
      StrLenNonAscii(desc, k);
    }
  }

  /**
   * The criteria facet asks for text left after tags and surrounding
   * whitespace are removed (other than "0"); the status facet for "publish".
   */
  lemma CriteriaAndStatusFacets(post: Post, meta: map<string, string>, files: map<int, string>,
                                stripTags: string -> string)
    ensures var text := stripTags(post.content);
      Evaluate(post, meta, files, stripTags).criteria <==>
        (exists i :: 0 <= i < |text| && !IsTrimChar(text[i])) && Trim(text) != "0"
    ensures Evaluate(post, meta, files, stripTags).status <==> post.status == "publish"
  {
  }

  /** `all` holds exactly when every one of the six facets holds. */
  lemma AllIsConjunction(post: Post, meta: map<string, string>, files: map<int, string>,
                         stripTags: string -> string)
    ensures var f := Evaluate(post, meta, files, stripTags);
      f.all <==> f.image && f.imagePng && f.description && f.descriptionLength && f.criteria && f.status
  {
  }

  /** A draft is never valid, whatever else it has. */
  lemma UnpublishedIsInvalid(post: Post, meta: map<string, string>, files: map<int, string>,
                             stripTags: string -> string)
    requires post.status != "publish"
    ensures !Evaluate(post, meta, files, stripTags).all
  {
  }

  // ---------------------------------------------------------------------------
  // admin_notices

  /** The warnings `admin_notices` can show, in the order it shows them. */
  datatype Notice = NoImage | NotPng | NoDescription | DescriptionTooLong | NoCriteria
  {
    function Message(): string {
      match this
      case NoImage => "You must set a badge image."
      case NotPng => "You must set a badge image that is a PNG file."
      case NoDescription => "You must enter a badge description."
      case DescriptionTooLong => "The description cannot be longer than 128 characters."
      case NoCriteria => "You must enter the badge criteria."
    }
  }

  /** Whether `admin_notices` checks the post at all: the edit screen of a published badge. */
  predicate ShowsNotices(page: string, post: Option<Post>) {
    page == "post.php" && post.Some? && post.value.postType == BadgeType
    && post.value.status == "publish"
  }

  /** The warnings for a set of facets, one per failed facet other than `status`. */
  function NoticesFor(f: Facets): seq<Notice> {
    (if f.image then [] else [NoImage])
    + (if f.imagePng then [] else [NotPng])
    + (if f.description then [] else [NoDescription])
    + (if f.descriptionLength then [] else [DescriptionTooLong])
    + (if f.criteria then [] else [NoCriteria])
  }

  /**
   * `admin_notices`: nothing outside the edit screen of a published badge;
   * there, the warnings for the facets `check_valid` computes.
   */
  method AdminNotices(page: string, post: Option<Post>, meta: map<string, string>,
                      files: map<int, string>, stripTags: string -> string)
    returns (notices: seq<Notice>)
    ensures notices ==
      if ShowsNotices(page, post) then NoticesFor(Evaluate(post.value, meta, files, stripTags)) else []
  {
    notices := [];
    if page != "post.php" {
      return;
    }
    if post.None? || post.value.postType != BadgeType {
      return;
    }
    if post.value.status != "publish" {
      return;
    }

    var valid := CheckValid(post.value, meta, files, stripTags);
    notices := EchoNotices(valid);
  }

  /** The warnings `admin_notices` writes out for the facets of a checked badge, one after another. */
  method EchoNotices(valid: Facets) returns (notices: seq<Notice>)
    ensures notices == NoticesFor(valid)
  {
    notices := [];
    if !valid.image {
      notices := notices + [NoImage];
    }
    if !valid.imagePng {
      notices := notices + [NotPng];
    }
    if !valid.description {
      notices := notices + [NoDescription];
    }
    if !valid.descriptionLength {
      notices := notices + [DescriptionTooLong];
    }
    if !valid.criteria {
      notices := notices + [NoCriteria];
    }
  }

  /** The position of a warning in the order `admin_notices` shows them. */
  function Rank(n: Notice): nat {
    match n
    case NoImage => 0
    case NotPng => 1
    case NoDescription => 2
    case DescriptionTooLong => 3
    case NoCriteria => 4
  }

  /** Each warning appears exactly when its facet fails. */
  lemma NoticesForFacets(f: Facets)
    ensures NoImage in NoticesFor(f) <==> !f.image
    ensures NotPng in NoticesFor(f) <==> !f.imagePng
    ensures NoDescription in NoticesFor(f) <==> !f.description
    ensures DescriptionTooLong in NoticesFor(f) <==> !f.descriptionLength
    ensures NoCriteria in NoticesFor(f) <==> !f.criteria
  {
  }

  /** Ranks strictly increase along `s`. */
  predicate Increasing(s: seq<Notice>) {
    forall i, j :: 0 <= i < j < |s| ==> Rank(s[i]) < Rank(s[j])
  }

  /** Every warning of `s` ranks below `k`. */
  predicate RanksBelow(s: seq<Notice>, k: nat) {
    forall i :: 0 <= i < |s| ==> Rank(s[i]) < k
  }

  /** Appending a warning, or nothing, that ranks above all before it keeps the order. */
  lemma AppendRanked(s: seq<Notice>, failed: bool, n: Notice)
    requires Increasing(s) && RanksBelow(s, Rank(n))
    ensures var t := s + (if failed then [n] else []);
      Increasing(t) && RanksBelow(t, Rank(n) + 1)
  {
  }

  /** The warnings come in the fixed order image, PNG, description, length, criteria, each at most once. */
  lemma NoticesOrdered(f: Facets)
    ensures Increasing(NoticesFor(f))
  {
    var s0 := if f.image then [] else [NoImage];
    AppendRanked([], !f.image, NoImage);
    var s1 := s0 + (if f.imagePng then [] else [NotPng]);
    AppendRanked(s0, !f.imagePng, NotPng);
    var s2 := s1 + (if f.description then [] else [NoDescription]);
    AppendRanked(s1, !f.description, NoDescription);
    var s3 := s2 + (if f.descriptionLength then [] else [DescriptionTooLong]);
    AppendRanked(s2, !f.descriptionLength, DescriptionTooLong);
    AppendRanked(s3, !f.criteria, NoCriteria);
    assert [] + s0 == s0;
  }

  /** On a published badge's edit screen there are no warnings exactly when the badge is valid. */
  lemma PublishedBadgeNotices(post: Post, meta: map<string, string>, files: map<int, string>,
                              stripTags: string -> string)
    requires post.postType == BadgeType && post.status == "publish"
    ensures ShowsNotices("post.php", Some(post))
    ensures NoticesFor(Evaluate(post, meta, files, stripTags)) == [] <==>
      Evaluate(post, meta, files, stripTags).all
  {
  }
}
