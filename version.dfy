/**
 * The badge version a user submits with the post editor, normalised as
 * `save_post` does with the anchored patterns `^\d+$` and `^\d+(\.\d+)+$`.
 * Neither pattern has the D modifier, so (as in PCRE) the `$` also matches
 * just before a single newline at the very end of the subject.
 */
module Version {
  import opened Php

  /** `\d+`: one or more ASCII digits. */
  predicate Digits(s: string) {
    |s| > 0 && AllDigits(s)
  }

  /** `\d+(\.\d+)*`: groups of digits separated by single dots. */
  predicate DigitGroups(s: string)
    decreases |s|
  {
    var k := IndexOf(s, '.');
    Digits(s[..k]) && (k == |s| || DigitGroups(s[k + 1..]))
  }

  /** `\d+(\.\d+)+`: at least two groups of digits. */
  predicate DottedNumeric(s: string) {
    '.' in s && DigitGroups(s)
  }

  /** Whether an anchored pattern matches, given whether it matches a whole string. */
  predicate AnchoredMatch(s: string, whole: string -> bool) {
    whole(s) || (|s| > 0 && s[|s| - 1] == '\n' && whole(s[..|s| - 1]))
  }

  /** `preg_match('/^\d+$/', s)`. */
  predicate MatchesInteger(s: string) {
    AnchoredMatch(s, Digits)
  }

  /** `preg_match('/^\d+(\.\d+)+$/', s)`. */
  predicate MatchesDotted(s: string) {
    AnchoredMatch(s, DottedNumeric)
  }

  /** What an integer version gets appended. */
  const PointZero: string := ['.', '0']

  /** The version stored when the submitted one is not a version number. */
  const DefaultVersion: string := ['1', '.', '0']

  /**
   * The normalisation in `save_post`: an integer gets ".0" appended, a
   * dotted number is kept, anything else becomes "1.0".
   */
  function Normalize(v: string): (r: string)
    ensures !IsEmpty(r) && '.' in r
  {
    if MatchesInteger(v) then v + PointZero
    else if MatchesDotted(v) then v
    else DefaultVersion
  }

  // ---------------------------------------------------------------------------
  // the three outcomes

  lemma NormalizeInteger(v: string)
    requires Digits(v)
    ensures Normalize(v) == v + ".0"
  {
  }

  lemma NormalizeDotted(v: string)
    requires DottedNumeric(v)
    ensures Normalize(v) == v
  {
    DottedIsNotInteger(v);
  }

  /** Whatever matches neither pattern, "" and "abc" among them, becomes "1.0". */
  lemma NormalizeOther(v: string)
    requires !MatchesInteger(v) && !MatchesDotted(v)
    ensures Normalize(v) == "1.0"
  {
  }

  lemma NormalizeEmpty()
    ensures Normalize("") == "1.0"
  {
  }

  // ---------------------------------------------------------------------------
  // the shape of the result

  predicate VersionChar(c: char) {
    IsDigit(c) || c == '.'
  }

  /** A sequence of digit groups is made of digits and dots only. */
  lemma {:induction false} DigitGroupsChars(s: string)
    requires DigitGroups(s)
    ensures forall i :: 0 <= i < |s| ==> VersionChar(s[i])
    decreases |s|
  {
    var k := IndexOf(s, '.');
    if k < |s| {
      DigitGroupsChars(s[k + 1..]);
      forall i | 0 <= i < |s|
        ensures VersionChar(s[i])
      {
        if i > k {
          assert s[i] == s[k + 1..][i - k - 1];
        } else if i < k {
          assert s[i] == s[..k][i];
        }
      }
    } else {
      assert s[..k] == s;
    }
  }

  lemma DottedIsNotInteger(s: string)
    requires DottedNumeric(s)
    ensures !MatchesInteger(s) && '\n' !in s
  {
    DigitGroupsChars(s);
    var k := IndexOf(s, '.');
    assert !IsDigit(s[k]);
  }

  /** Two groups of digits joined by a dot make a dotted number. */
  lemma TwoGroups(d: string, f: string)
    requires Digits(d) && Digits(f)
    ensures DottedNumeric(d + ['.'] + f)
  {
    var s := d + ['.'] + f;
    assert s == d + (['.'] + f);
    IndexOfAfterPrefix(d, ['.'] + f, '.');
    assert s[..|d|] == d;
    assert s[|d| + 1..] == f;
    assert f[..|f|] == f;
    assert s[|d|] == '.';
  }

  /** Digits followed by ".0" make a dotted number. */
  lemma DigitsPointZero(d: string)
    requires Digits(d)
    ensures DottedNumeric(d + PointZero)
  {
    TwoGroups(d, ['0']);
    assert d + ['.'] + ['0'] == d + PointZero;
  }

  lemma DefaultIsDotted()
    ensures DottedNumeric(DefaultVersion)
  {
    DigitsPointZero(['1']);
    assert ['1'] + PointZero == DefaultVersion;
  }

  /** Without a newline in the input the result always matches `^\d+(\.\d+)+$` exactly. */
  lemma NormalizeIsDotted(v: string)
    requires '\n' !in v
    ensures DottedNumeric(Normalize(v))
  {
    if MatchesInteger(v) {
      assert Digits(v);
      DigitsPointZero(v);
    } else if !MatchesDotted(v) {
      DefaultIsDotted();
    }
  }

  /**
   * A normalised version holds only digits, dots and at most the newline
   * `$` admits: never a backslash, so the unslashing the meta API applies
   * before storing it changes nothing.
   */
  lemma NormalizeNoBackslash(v: string)
    ensures '\\' !in Normalize(v)
    ensures StripSlashes(Normalize(v)) == Normalize(v)
  {
    var n := Normalize(v);
    if MatchesInteger(v) {
      var d := if Digits(v) then v else v[..|v| - 1];
      assert Digits(d);
      assert n == d + PointZero || n == d + ['\n'] + PointZero;
      assert forall i :: 0 <= i < |d| ==> IsDigit(d[i]);
    } else if MatchesDotted(v) {
      var d := if DottedNumeric(v) then v else v[..|v| - 1];
      DigitGroupsChars(d);
      assert n == d || n == d + ['\n'];
    } else {
      assert n == DefaultVersion;
    }
  }

  /** Normalising twice changes nothing when the input has no newline. */
  lemma NormalizeIdempotent(v: string)
    requires '\n' !in v
    ensures Normalize(Normalize(v)) == Normalize(v)
  {
    NormalizeIsDotted(v);
    NormalizeDotted(Normalize(v));
  }

  /** "d\n" is stored as "d\n.0", which is "d.0" once its newline is removed. */
  lemma IntegerNewlineRemoved(d: string)
    requires Digits(d)
    ensures RemoveChars(d + ['\n'] + PointZero, {'\n'}) == d + PointZero
  {
    DigitsPointZero(d);
    DottedIsNotInteger(d + PointZero);
    RemoveCharsAppend(d + ['\n'], PointZero, {'\n'});
    RemoveCharsAppend(d, ['\n'], {'\n'});
    assert RemoveChars(['\n'], {'\n'}) == [];
    assert '\n' !in d && '\n' !in PointZero;
    assert RemoveChars(d, {'\n'}) == d;
    assert RemoveChars(PointZero, {'\n'}) == PointZero;
  }

  lemma TrailingNewlineRemoved(d: string)
    requires '\n' !in d
    ensures RemoveChars(d + ['\n'], {'\n'}) == d
  {
    RemoveCharsAppend(d, ['\n'], {'\n'});
    assert RemoveChars(['\n'], {'\n'}) == [];
  }

  /** The integer case of `NormalizeModuloNewline`. */
  lemma IntegerModuloNewline(v: string)
    requires MatchesInteger(v)
    ensures DottedNumeric(RemoveChars(v + PointZero, {'\n'}))
  {
    if Digits(v) {
      DigitsPointZero(v);
      DottedIsNotInteger(v + PointZero);
    } else {
      var d := v[..|v| - 1];
      assert v == d + ['\n'];
      IntegerNewlineRemoved(d);
      DigitsPointZero(d);
    }
  }

  /** The dotted case of `NormalizeModuloNewline`. */
  lemma DottedModuloNewline(v: string)
    requires MatchesDotted(v)
    ensures DottedNumeric(RemoveChars(v, {'\n'}))
  {
    if DottedNumeric(v) {
      DottedIsNotInteger(v);
    } else {
      var d := v[..|v| - 1];
      assert v == d + ['\n'];
      DottedIsNotInteger(d);
      TrailingNewlineRemoved(d);
    }
  }

  /** With any input, the result is a dotted number once its newline is removed. */
  lemma NormalizeModuloNewline(v: string)
    ensures DottedNumeric(RemoveChars(Normalize(v), {'\n'}))
  {
    if MatchesInteger(v) {
      IntegerModuloNewline(v);
    } else if MatchesDotted(v) {
      DottedModuloNewline(v);
    } else {
      DefaultIsDotted();
      DottedIsNotInteger(DefaultVersion);
    }
  }

  /**
   * The trailing-newline case: "5\n" matches `^\d+$`, so it is stored as
   * "5\n.0", a string that normalises to "1.0" when submitted again.
   */
  lemma NewlineQuirk()
    ensures Normalize("5\n") == "5\n.0"
    ensures Normalize("5\n.0") == "1.0"
  {
    var v := ['5', '\n'];
    assert v[..1] == ['5'];
    assert MatchesInteger(v);
    var w := v + PointZero;
    assert !MatchesInteger(w) by {
      assert !IsDigit(w[1]);
    }
    assert !DigitGroups(w) by {
      assert IndexOf(w, '.') == 2;
      assert !IsDigit(w[..2][1]);
    }
    assert w[..|w| - 1] == ['5', '\n', '.'];
    assert !DigitGroups(['5', '\n', '.']) by {
      assert IndexOf(['5', '\n', '.'], '.') == 2;
      assert !IsDigit(['5', '\n', '.'][..2][1]);
    }
  }
}
