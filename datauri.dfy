/**
 * The part of the `data` URL scheme (section 3 of RFC 2397) the badge
 * designer endpoint accepts: "data:", a header of ';'-separated fields whose
 * first is the media type and whose second must be "base64", a ',', and the
 * payload. The parse works on the string as the endpoint does and reports
 * its three early exits as distinct errors.
 */
module DataUri {
  import opened Wrappers
  import opened Php
  import Base64

  /** A parsed image: media type, the header fields after "base64", and the raw payload. */
  datatype DataUri = DataUri(mediaType: string, extra: seq<string>, payload: string)

  /** The early exits of the parse, in the order they are checked. */
  datatype DataUriError =
    | NotDataUri          // the string does not start with "data:"
    | NoPayloadSeparator  // no ',' after "data:", or one right after it
    | UnknownEncoding     // the second header field is missing or is not "base64"

  const Scheme: string := ['d', 'a', 't', 'a', ':']
  const Base64Name: string := ['b', 'a', 's', 'e', '6', '4']

  /**
   * The checks `ajax_badge_designer_publish` makes on `badge.image`: an exact,
   * case-sensitive "data:" prefix; the first ',' from index 5 on, which must
   * lie beyond index 5; the header before it split on ';', with "base64" as
   * its second field; the payload is everything after that ','.
   */
  function Parse(image: string): (r: Result<DataUri, DataUriError>)
    ensures r == Failure(NotDataUri) <==> !StartsWith(image, Scheme)
    ensures r == Failure(NoPayloadSeparator) <==>
      StartsWith(image, Scheme) && (',' !in image[5..] || image[5] == ',')
    ensures r.Success? ==> ';' !in r.value.mediaType && ',' !in r.value.mediaType
  {
    if !StartsWith(image, Scheme) then Failure(NotDataUri)
    else
      var pos := 5 + IndexOf(image[5..], ',');
      if pos == |image| || pos <= 5 then Failure(NoPayloadSeparator)
      else
        var hdr := Split(image[5..pos], ';');
        if |hdr| < 2 || hdr[1] != Base64Name then Failure(UnknownEncoding)
        else Success(DataUri(hdr[0], hdr[2..], image[pos + 1..]))
  }

  /** The header of a data URI: the media type, "base64", then the other fields. */
  function Header(u: DataUri): seq<string> {
    [u.mediaType, Base64Name] + u.extra
  }

  /** The data URI text for a parsed image. */
  function Format(u: DataUri): string {
    Scheme + Join(Header(u), ';') + [','] + u.payload
  }

  /** Whether every header field can be written without ',' and ';'. */
  predicate WellFormed(u: DataUri) {
    forall i :: 0 <= i < |Header(u)| ==> ',' !in Header(u)[i] && ';' !in Header(u)[i]
  }

  // ---------------------------------------------------------------------------
  // round trips

  /** A joined header contains no ',' when no field does. */
  lemma {:induction false} JoinNoComma(parts: seq<string>)
    requires |parts| >= 1
    requires forall i :: 0 <= i < |parts| ==> ',' !in parts[i]
    ensures ',' !in Join(parts, ';')
  {
    if |parts| > 1 {
      JoinNoComma(parts[1..]);
      assert ',' !in parts[0];
    }
  }

  /** A formatted data URI parses back to what was formatted. */
  lemma ParseFormat(u: DataUri)
    requires WellFormed(u)
    ensures Parse(Format(u)) == Success(u)
  {
    var hdr := Header(u);
    var h := Join(hdr, ';');
    JoinNoComma(hdr);
    assert h == Join([hdr[0]] + hdr[1..], ';');
    var s := Format(u);
    assert s == Scheme + (h + [','] + u.payload);
    SchemeThenComma(h, u.payload);
    SplitJoin(hdr, ';');
    assert hdr[2..] == u.extra;
  }

  /** Where `Parse` cuts "data:" + h + "," + payload when h has no ',' and is not empty. */
  lemma SchemeThenComma(h: string, payload: string)
    requires ',' !in h && h != []
    ensures var s := Scheme + (h + [','] + payload);
      && StartsWith(s, Scheme)
      && 5 + IndexOf(s[5..], ',') == 5 + |h|
      && s[5..5 + |h|] == h
      && s[5 + |h| + 1..] == payload
  {
    var rest := h + ([','] + payload);
    var s := Scheme + rest;
    assert s == Scheme + (h + [','] + payload);
    assert s[..5] == Scheme;
    assert s[5..] == rest;
    IndexOfAfterPrefix(h, [','] + payload, ',');
    assert s[5..5 + |h|] == h;
    assert s[5 + |h| + 1..] == payload;
  }

  /** Whatever parses is the formatting of its parse. */
  lemma FormatParse(image: string)
    requires Parse(image).Success?
    ensures Format(Parse(image).value) == image
  {
    var k := IndexOf(image[5..], ',');
    var pos := 5 + k;
    assert image[5..][k] == ',';
    assert image[pos] == image[5..][k];
    var hdr := Split(image[5..pos], ';');
    assert Parse(image) == Success(DataUri(hdr[0], hdr[2..], image[pos + 1..]));
    var u := Parse(image).value;
    assert Header(u) == hdr by {
      assert hdr == [hdr[0], hdr[1]] + hdr[2..];
    }
    JoinSplit(image[5..pos], ';');
    assert image[..5] == Scheme;
    SplitAround(image, 5, pos);
  }

  /** A string is its part before `i`, its part from `i` to `j`, the character at `j`, and the rest. */
  lemma SplitAround(s: string, i: nat, j: nat)
    requires i <= j < |s|
    ensures s == s[..i] + s[i..j] + [s[j]] + s[j + 1..]
  {
  }

  /** The payload is base64-decoded; in PHP's default mode this never fails (PHP 7 and later). */
  function DecodePayload(u: DataUri): Option<seq<Base64.byte>> {
    Base64.Decode(u.payload)
  }

  /** An image encoded into a data URI comes back unchanged from parse and decode. */
  lemma EncodedImageRoundTrip(mediaType: string, bytes: seq<Base64.byte>)
    requires ',' !in mediaType && ';' !in mediaType
    ensures var u := DataUri(mediaType, [], Base64.Encode(bytes));
      Parse(Format(u)) == Success(u) && DecodePayload(u) == Some(bytes)
  {
    var u := DataUri(mediaType, [], Base64.Encode(bytes));
    assert Header(u) == [mediaType, Base64Name];
    assert ',' !in Base64Name && ';' !in Base64Name;
    ParseFormat(u);
    Base64.DecodeEncode(bytes);
  }

  // ---------------------------------------------------------------------------
  // the rejections

  /** A header without ';' has no second field, so its encoding is unknown. */
  lemma NoEncodingField(mediaType: string, payload: string)
    requires mediaType != [] && ',' !in mediaType && ';' !in mediaType
    ensures Parse(Scheme + mediaType + [','] + payload) == Failure(UnknownEncoding)
  {
    var s := Scheme + mediaType + [','] + payload;
    assert s == Scheme + (mediaType + ([','] + payload));
    assert s[5..] == mediaType + ([','] + payload);
    IndexOfAfterPrefix(mediaType, [','] + payload, ',');
    assert s[5..5 + |mediaType|] == mediaType;
    assert Split(mediaType, ';') == [mediaType];
  }

  /** The scheme is matched exactly: "DATA:" is not accepted. */
  lemma SchemeIsCaseSensitive(rest: string)
    ensures Parse(['D', 'A', 'T', 'A', ':'] + rest) == Failure(NotDataUri)
  {
    var s := ['D', 'A', 'T', 'A', ':'] + rest;
    assert s[0] == 'D';
  }
}
