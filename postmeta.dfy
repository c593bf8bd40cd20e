/**
 * What saving a badge post does to its post meta (`save_post` at priority
 * 10, then `save_post_validate` at priority 99), and the two readers of that
 * meta: `display_post_states` and `get_post_description`.
 *
 * The meta of one post is a map from key to a single value.
 */
module PostMeta {
  import opened Php
  import opened Badge
  import opened Version
  import opened Validity
  import opened Wrappers

  // ---------------------------------------------------------------------------
  // the version policy

  /**
   * The write `save_post` makes to the version key. WordPress's meta API
   * applies `wp_unslash` (one level of `stripslashes`) to the value of each.
   */
  datatype VersionWrite =
    | AddUnique(value: string)     // add_post_meta(..., true): only when the key is absent
    | Update(value: string)        // update_post_meta: set the key
    | DeleteValue(value: string)   // delete_post_meta(..., value): remove the key if it holds value
    | NoWrite

  /** PHP truthiness of a string. */
  predicate Truthy(s: string) {
    !IsEmpty(s)
  }

  /** Which write `save_post` picks for a new (normalised) and a stored version. */
  function VersionPolicy(newValue: string, stored: string): VersionWrite {
    if Truthy(newValue) && LooseEquals("", stored) then AddUnique(newValue)
    else if Truthy(newValue) && !LooseEquals(newValue, stored) then Update(newValue)
    else if LooseEquals("", newValue) && Truthy(stored) then DeleteValue(stored)
    else NoWrite
  }

  /** The meta after one write to `key`; the value is unslashed first, as the meta API does. */
  function ApplyWrite(m: map<string, string>, key: string, w: VersionWrite): map<string, string> {
    match w
    case AddUnique(v) => if key in m then m else m[key := StripSlashes(v)]
    case Update(v) => m[key := StripSlashes(v)]
    case DeleteValue(v) =>
      // `delete_metadata` ignores a value that unslashes to "" and deletes the key whatever it holds
      if key in m && (StripSlashes(v) == "" || m[key] == StripSlashes(v)) then m - {key} else m
    case NoWrite => m
  }

  /** The effect of each kind of write, one case at a time. */
  lemma WriteCase(m: map<string, string>, key: string, w: VersionWrite)
    ensures w.AddUnique? ==> ApplyWrite(m, key, w) == (if key in m then m else m[key := StripSlashes(w.value)])
    ensures w.Update? ==> ApplyWrite(m, key, w) == m[key := StripSlashes(w.value)]
    ensures w.DeleteValue? ==>
      ApplyWrite(m, key, w) == (if key in m && (StripSlashes(w.value) == "" || m[key] == StripSlashes(w.value)) then m - {key} else m)
    ensures w.NoWrite? ==> ApplyWrite(m, key, w) == m
  {
  }

  /**
   * Given a normalised version (never empty): add when nothing is stored,
   * update when it differs loosely from what is stored, no write when it is
   * loosely equal. The delete branch is never taken.
   */
  lemma VersionPolicyCases(v: string, stored: string)
    ensures var w := VersionPolicy(Normalize(v), stored);
      && (stored == "" ==> w == AddUnique(Normalize(v)))
      && (stored != "" && !LooseEquals(Normalize(v), stored) ==> w == Update(Normalize(v)))
      && (stored != "" && LooseEquals(Normalize(v), stored) ==> w == NoWrite)
      && !w.DeleteValue?
  {
    LooseEqualsEmpty(stored);
    LooseEqualsEmpty(Normalize(v));
  }

  /** `save_post`'s version step on the meta of a post. */
  function ApplyVersion(m: map<string, string>, submitted: string): map<string, string> {
    ApplyWrite(m, VersionKey, VersionPolicy(Normalize(submitted), Get(m, VersionKey)))
  }

  /** What `save_post` stores as the description: `strip_tags(stripslashes(input))`. */
  function DescriptionValue(form: map<string, string>, stripTags: string -> string): string {
    stripTags(StripSlashes(Get(form, DescriptionKey)))
  }

  /**
   * `save_post`'s description step: delete the key for an empty value,
   * otherwise set it to the value as `update_post_meta` stores it, unslashed.
   */
  function ApplyDescription(m: map<string, string>, value: string): map<string, string> {
    if IsEmpty(value) then m - {DescriptionKey} else m[DescriptionKey := StripSlashes(value)]
  }

  /** Whether `save_post` writes at all: a badge, a request carrying the right nonce, a user allowed to edit. */
  predicate SaveApplies(post: Post, authorized: bool) {
    post.postType == BadgeType && authorized
  }

  /** The meta after `save_post`. */
  function SavedMeta(m: map<string, string>, post: Post, authorized: bool,
                     form: map<string, string>, stripTags: string -> string): map<string, string>
  {
    if SaveApplies(post, authorized) then
      ApplyDescription(ApplyVersion(m, Get(form, VersionKey)), DescriptionValue(form, stripTags))
    else m
  }

  /** What `save_post_validate` stores: `true` reads back as "1", `false` as "". */
  function ValidFlag(f: Facets): string {
    if f.all then "1" else ""
  }

  /** The meta after `save_post_validate`. */
  function ValidatedMeta(m: map<string, string>, post: Post, files: map<int, string>,
                         stripTags: string -> string): map<string, string>
  {
    if post.postType == BadgeType then m[ValidKey := ValidFlag(Evaluate(post, m, files, stripTags))]
    else m
  }

  /** For a badge, the validated meta records the facets' verdict. */
  lemma ValidatedBadge(m: map<string, string>, post: Post, files: map<int, string>,
                       stripTags: string -> string, valid: Facets)
    requires post.postType == BadgeType && valid == Evaluate(post, m, files, stripTags)
    ensures ValidatedMeta(m, post, files, stripTags) == m[ValidKey := ValidFlag(valid)]
  {
  }

  // ---------------------------------------------------------------------------
  // the store

  /** The post meta of the post being saved. */
  class PostMetaStore {
    var meta: map<string, string>

    constructor(initial: map<string, string>)
      ensures meta == initial
    {
      meta := initial;
    }

    /**
     * `save_post`: `authorized` stands for a non-empty request whose nonce
     * verifies and a user who may edit the post; `form` is the request.
     */
    method SavePost(post: Post, authorized: bool, form: map<string, string>,
                    stripTags: string -> string)
      modifies this
      ensures meta == SavedMeta(old(meta), post, authorized, form, stripTags)
    {
      if post.postType != BadgeType {
        return;
      }
      if !authorized {
        return;
      }

      StoreVersion(Get(form, VersionKey));
      StoreDescription(stripTags(StripSlashes(Get(form, DescriptionKey))));
    }

    /** The version half of `save_post`: normalise the submission, then add, update or delete. */
    method StoreVersion(submitted: string)
      modifies this
      ensures meta == ApplyVersion(old(meta), submitted)
    {
      var newValue := submitted;
      if MatchesInteger(newValue) {
        newValue := newValue + PointZero;
      } else if !MatchesDotted(newValue) {
        newValue := DefaultVersion;
      }
      assert newValue == Normalize(submitted);
      WriteVersion(newValue);
    }

    /**
     * The add, update or delete `save_post` chooses for a new version against
     * the stored one; each stores or matches its value unslashed, as the meta
     * API does.
     */
    method WriteVersion(newValue: string)
      modifies this
      ensures meta == ApplyWrite(old(meta), VersionKey, VersionPolicy(newValue, Get(old(meta), VersionKey)))
    {
      var metaKey := VersionKey;
      var metaValue := Get(meta, metaKey);
      ghost var w := VersionPolicy(newValue, metaValue);

      if Truthy(newValue) && LooseEquals("", metaValue) {
        assert w == AddUnique(newValue);
        WriteCase(meta, metaKey, w);
        if metaKey !in meta {
          meta := meta[metaKey := StripSlashes(newValue)];
        }
      } else if Truthy(newValue) && !LooseEquals(newValue, metaValue) {
        assert w == Update(newValue);
        WriteCase(meta, metaKey, w);
        meta := meta[metaKey := StripSlashes(newValue)];
      } else if LooseEquals("", newValue) && Truthy(metaValue) {
        assert w == DeleteValue(metaValue);
        WriteCase(meta, metaKey, w);
        if metaKey in meta && (StripSlashes(metaValue) == "" || meta[metaKey] == StripSlashes(metaValue)) {
          meta := meta - {metaKey};
        }
      } else {
        assert w == NoWrite;
        WriteCase(meta, metaKey, w);
      }
    }

    /** The description half of `save_post`: delete the key for an empty value, set it (unslashed) otherwise. */
    method StoreDescription(metaValue: string)
      modifies this
      ensures meta == ApplyDescription(old(meta), metaValue)
    {
      var metaKey := DescriptionKey;
      if IsEmpty(metaValue) {
        meta := meta - {metaKey};
      } else {
        meta := meta[metaKey := StripSlashes(metaValue)];
      }
    }

    /** `save_post_validate`: records whether the badge is valid. */
    method SavePostValidate(post: Post, files: map<int, string>, stripTags: string -> string)
      modifies this
      ensures meta == ValidatedMeta(old(meta), post, files, stripTags)
    {
      if post.postType != BadgeType {
        return;
      }
      var valid := CheckValid(post, meta, files, stripTags);
      ValidatedBadge(meta, post, files, stripTags, valid);
      meta := meta[ValidKey := ValidFlag(valid)];
    }

    /** Both `save_post` hooks, in the order of their priorities. */
    method OnSave(post: Post, authorized: bool, form: map<string, string>,
                  files: map<int, string>, stripTags: string -> string)
      modifies this
      ensures meta == ValidatedMeta(SavedMeta(old(meta), post, authorized, form, stripTags),
                                    post, files, stripTags)
    {
      SavePost(post, authorized, form, stripTags);
      SavePostValidate(post, files, stripTags);
    }
  }

  // ---------------------------------------------------------------------------
  // what saving does

  /** Nothing is written for another post type or an unauthorized request. */
  lemma SaveSkipped(m: map<string, string>, post: Post, authorized: bool,
                    form: map<string, string>, stripTags: string -> string)
    requires !SaveApplies(post, authorized)
    ensures SavedMeta(m, post, authorized, form, stripTags) == m
  {
  }

  /** Saving touches the version and description keys and nothing else. */
  lemma SaveFrame(m: map<string, string>, post: Post, authorized: bool,
                  form: map<string, string>, stripTags: string -> string, k: string)
    requires k != VersionKey && k != DescriptionKey
    ensures var r := SavedMeta(m, post, authorized, form, stripTags);
      (k in r <==> k in m) && (k in m ==> r[k] == m[k])
  {
    if SaveApplies(post, authorized) {
      var submitted := Get(form, VersionKey);
      var w := VersionPolicy(Normalize(submitted), Get(m, VersionKey));
      WriteFrame(m, VersionKey, w, k);
      var v := ApplyVersion(m, submitted);
      assert v == ApplyWrite(m, VersionKey, w);
      var value := DescriptionValue(form, stripTags);
      DescriptionFrame(v, value, k);
      assert SavedMeta(m, post, authorized, form, stripTags) == ApplyDescription(v, value);
    }
  }

  /** The description step leaves every other key as it was. */
  lemma DescriptionFrame(m: map<string, string>, value: string, k: string)
    requires k != DescriptionKey
    ensures var r := ApplyDescription(m, value);
      (k in r <==> k in m) && (k in m ==> r[k] == m[k])
  {
  }

  /** A write to one key leaves every other key as it was. */
  lemma WriteFrame(m: map<string, string>, key: string, w: VersionWrite, k: string)
    requires k != key
    ensures var r := ApplyWrite(m, key, w);
      (k in r <==> k in m) && (k in m ==> r[k] == m[k])
  {
  }

  /**
   * After a save the version key is present. When nothing was stored it now
   * holds the normalised submission; when something was stored, it holds a
   * value loosely equal to the normalised submission; a stored "" is kept,
   * because the unique add does nothing once the key exists.
   */
  lemma SaveVersion(m: map<string, string>, post: Post, form: map<string, string>,
                    stripTags: string -> string)
    requires post.postType == BadgeType
    ensures var r := SavedMeta(m, post, true, form, stripTags);
      var n := Normalize(Get(form, VersionKey));
      && VersionKey in r
      && (VersionKey !in m ==> r[VersionKey] == n)
      && (VersionKey in m && m[VersionKey] == "" ==> r[VersionKey] == "")
      && (VersionKey in m && m[VersionKey] != "" ==> LooseEquals(r[VersionKey], n))
      && (VersionKey in m && m[VersionKey] != "" && !LooseEquals(n, m[VersionKey]) ==> r[VersionKey] == n)
      && (VersionKey in m && m[VersionKey] != "" && LooseEquals(n, m[VersionKey]) ==> r[VersionKey] == m[VersionKey])
  {
    VersionAfterApply(m, Get(form, VersionKey));
    DescriptionKeepsVersion(ApplyVersion(m, Get(form, VersionKey)), DescriptionValue(form, stripTags));
  }

  /** The description step leaves the version key alone. */
  lemma DescriptionKeepsVersion(m: map<string, string>, value: string)
    requires VersionKey in m
    ensures VersionKey in ApplyDescription(m, value)
    ensures ApplyDescription(m, value)[VersionKey] == m[VersionKey]
  {
    assert VersionKey != DescriptionKey;
  }

  /** The version step on its own: see `SaveVersion`. */
  lemma VersionAfterApply(m: map<string, string>, submitted: string)
    ensures var r := ApplyVersion(m, submitted);
      var n := Normalize(submitted);
      && VersionKey in r
      && (VersionKey !in m ==> r[VersionKey] == n)
      && (VersionKey in m && m[VersionKey] == "" ==> r[VersionKey] == "")
      && (VersionKey in m && m[VersionKey] != "" ==> LooseEquals(r[VersionKey], n))
      && (VersionKey in m && m[VersionKey] != "" && !LooseEquals(n, m[VersionKey]) ==> r[VersionKey] == n)
      && (VersionKey in m && m[VersionKey] != "" && LooseEquals(n, m[VersionKey]) ==> r[VersionKey] == m[VersionKey])
  {
    var n := Normalize(submitted);
    var stored := Get(m, VersionKey);
    VersionPolicyCases(submitted, stored);
    NormalizeNoBackslash(submitted);
    var r := ApplyVersion(m, submitted);
    if stored == "" {
      assert r == (if VersionKey in m then m else m[VersionKey := n]);
    } else if !LooseEquals(n, stored) {
      assert r == m[VersionKey := n];
    } else {
      assert r == m;
      LooseEqualsSymmetric(n, stored);
    }
  }

  /**
   * After a save the description key holds `strip_tags(stripslashes(input))`,
   * unslashed once more by `update_post_meta`, when that is non-empty in
   * PHP's sense, and is absent otherwise ("0" included).
   */
  lemma SaveDescription(m: map<string, string>, post: Post, form: map<string, string>,
                        stripTags: string -> string)
    requires post.postType == BadgeType
    ensures var r := SavedMeta(m, post, true, form, stripTags);
      var d := stripTags(StripSlashes(Get(form, DescriptionKey)));
      && (d == "" || d == "0" ==> DescriptionKey !in r)
      && (d != "" && d != "0" ==> DescriptionKey in r && r[DescriptionKey] == StripSlashes(d))
  {
  }

  /**
   * WordPress adds slashes to every request field and `save_post` strips
   * them; the meta API then unslashes the description once more. So the
   * description saved is the one typed, tags stripped, exactly when that
   * holds no backslash; otherwise it loses a level of backslashes.
   */
  lemma SaveTypedDescription(m: map<string, string>, post: Post, typed: string,
                             form: map<string, string>, stripTags: string -> string)
    requires post.postType == BadgeType
    requires DescriptionKey in form && form[DescriptionKey] == AddSlashes(typed)
    requires !IsEmpty(stripTags(typed))
    ensures DescriptionKey in SavedMeta(m, post, true, form, stripTags)
    ensures SavedMeta(m, post, true, form, stripTags)[DescriptionKey] == StripSlashes(stripTags(typed))
    ensures '\\' !in stripTags(typed) ==>
      SavedMeta(m, post, true, form, stripTags)[DescriptionKey] == stripTags(typed)
  {
    StripSlashesAddSlashes(typed);
  }

  /**
   * The double unslash loses a typed lone backslash: the description key is
   * stored as "", so the badge fails its description facet.
   */
  lemma TypedBackslashLost(m: map<string, string>, post: Post, form: map<string, string>,
                           files: map<int, string>, stripTags: string -> string)
    requires post.postType == BadgeType
    requires DescriptionKey in form && form[DescriptionKey] == AddSlashes(['\\'])
    requires stripTags(['\\']) == ['\\']
    ensures var saved := SavedMeta(m, post, true, form, stripTags);
      && DescriptionKey in saved && saved[DescriptionKey] == ""
      && !Evaluate(post, saved, files, stripTags).description
  {
    StripSlashesAddSlashes(['\\']);
    assert StripSlashes(['\\']) == [];
  }

  /**
   * A stored version is not rewritten when the submission differs from it
   * only by a trailing zero: "1.0" and "1.00" are loosely equal.
   */
  lemma LooselyEqualVersionKept(m: map<string, string>, post: Post, form: map<string, string>,
                                stripTags: string -> string, d: string, f: string)
    requires post.postType == BadgeType
    requires Digits(d) && Digits(f)
    requires Get(form, VersionKey) == d + ['.'] + f
    requires VersionKey in m && m[VersionKey] == d + ['.'] + f + ['0']
    ensures VersionKey in SavedMeta(m, post, true, form, stripTags)
    ensures SavedMeta(m, post, true, form, stripTags)[VersionKey] == m[VersionKey]
  {
    TwoGroups(d, f);
    NormalizeDotted(d + ['.'] + f);
    LooseTrailingZero(d, f);
    SaveVersion(m, post, form, stripTags);
  }

  /** After both hooks the valid flag is "1" exactly when the saved badge passes every facet. */
  lemma ValidFlagAfterSave(m: map<string, string>, post: Post, authorized: bool,
                           form: map<string, string>, files: map<int, string>,
                           stripTags: string -> string)
    requires post.postType == BadgeType
    ensures var saved := SavedMeta(m, post, authorized, form, stripTags);
      var r := ValidatedMeta(saved, post, files, stripTags);
      && ValidKey in r
      && (r[ValidKey] == "1" <==> Evaluate(post, saved, files, stripTags).all)
      && (r[ValidKey] == "" <==> !Evaluate(post, saved, files, stripTags).all)
  {
  }

  /**
   * The validity check sees the description just saved: submitting one that
   * strips to "0" leaves the badge invalid.
   */
  lemma ZeroDescriptionInvalid(m: map<string, string>, post: Post, form: map<string, string>,
                               files: map<int, string>, stripTags: string -> string)
    requires post.postType == BadgeType
    requires stripTags(StripSlashes(Get(form, DescriptionKey))) == "0"
    ensures var saved := SavedMeta(m, post, true, form, stripTags);
      !Evaluate(post, saved, files, stripTags).description
      && ValidatedMeta(saved, post, files, stripTags)[ValidKey] == ""
  {
    SaveDescription(m, post, form, stripTags);
  }

  // ---------------------------------------------------------------------------
  // display_post_states

  const StateKey: string := "wpbadger-badge-state"
  const InvalidState: string := "<span class=\"wpbadger-badge-state-invalid\">Invalid</span>"

  /** Whether the list of posts marks this one invalid: a published badge whose flag is empty. */
  predicate MarkedInvalid(post: Post, meta: map<string, string>) {
    post.postType == BadgeType && post.status == "publish" && IsEmpty(Get(meta, ValidKey))
  }

  /**
   * `display_post_states` for the current post: a published badge whose
   * valid flag is empty in PHP's sense gets the "Invalid" state, replacing
   * any state already under that key; every other post keeps its states.
   */
  function DisplayPostStates(post: Post, meta: map<string, string>, states: map<string, string>)
    : (r: map<string, string>)
    ensures MarkedInvalid(post, meta) ==> StateKey in r && r[StateKey] == InvalidState
    ensures !MarkedInvalid(post, meta) ==> r == states
    ensures StateKey !in states ==> (StateKey in r <==> MarkedInvalid(post, meta))
    ensures forall k :: k != StateKey ==> (k in r <==> k in states) && (k in states ==> r[k] == states[k])
  {
    if post.postType != BadgeType then states
    else if post.status == "publish" && !Truthy(Get(meta, ValidKey)) then
      states[StateKey := InvalidState]
    else states
  }

  /** After saving, a published badge is listed as invalid exactly when one of its facets fails. */
  lemma InvalidStateAfterSave(m: map<string, string>, post: Post, authorized: bool,
                              form: map<string, string>, files: map<int, string>,
                              stripTags: string -> string, states: map<string, string>)
    requires post.postType == BadgeType && post.status == "publish"
    ensures var saved := SavedMeta(m, post, authorized, form, stripTags);
      var r := DisplayPostStates(post, ValidatedMeta(saved, post, files, stripTags), states);
      && (!Evaluate(post, saved, files, stripTags).all ==> StateKey in r && r[StateKey] == InvalidState)
      && (Evaluate(post, saved, files, stripTags).all ==> r == states)
      && (StateKey !in states ==> (StateKey in r <==> !Evaluate(post, saved, files, stripTags).all))
  {
    ValidFlagAfterSave(m, post, authorized, form, files, stripTags);
  }

  // ---------------------------------------------------------------------------
  // get_post_description

  /**
   * `get_post_description`: the description meta when it is non-empty in
   * PHP's sense, otherwise the post content without tags and without
   * carriage returns or line feeds.
   */
  function GetPostDescription(post: Post, meta: map<string, string>, stripTags: string -> string)
    : (r: string)
    ensures Truthy(Get(meta, DescriptionKey)) ==> r == meta[DescriptionKey]
    ensures !Truthy(Get(meta, DescriptionKey)) ==>
      '\r' !in r && '\n' !in r && |r| <= |stripTags(post.content)|
    ensures !Truthy(Get(meta, DescriptionKey)) ==> r == RemoveChars(stripTags(post.content), {'\r', '\n'})
  {
    var desc := Get(meta, DescriptionKey);
    if IsEmpty(desc) then RemoveChars(stripTags(post.content), {'\r', '\n'}) else desc
  }

  /** The description a save stores is the one read back; an empty one falls back to the content. */
  lemma DescriptionReadBack(m: map<string, string>, post: Post, form: map<string, string>,
                            stripTags: string -> string)
    requires post.postType == BadgeType
    ensures var d := StripSlashes(stripTags(StripSlashes(Get(form, DescriptionKey))));
      var r := GetPostDescription(post, SavedMeta(m, post, true, form, stripTags), stripTags);
      && (Truthy(d) ==> r == d)
      && (!Truthy(d) ==> r == RemoveChars(stripTags(post.content), {'\r', '\n'}))
  {
    SaveDescription(m, post, form, stripTags);
  }
}
