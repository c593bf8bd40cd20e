/**
 * The PHP string semantics the badge schema relies on: `empty()`, `strlen`
 * (bytes, not characters), `strtolower`, `trim`, `strpos`, `explode`,
 * `basename`/`pathinfo`, `stripslashes`/`addslashes`, `str_replace` of single
 * characters, `is_numeric`, and the loose `==` between two strings.
 * PHP strings are byte strings; here a string is a sequence of Unicode scalar
 * values and a byte count is the length of its UTF-8 encoding.
 */
module Php {
  import opened Wrappers

  /** `empty($s)` for a string: the empty string and "0" are empty. */
  predicate IsEmpty(s: string) {
    s == "" || s == "0"
  }

  // ---------------------------------------------------------------------------
  // strlen: UTF-8 byte count

  /** Number of bytes UTF-8 uses for one scalar value. */
  function Utf8Width(c: char): (n: nat)
    ensures 1 <= n <= 4
    ensures n == 1 <==> (c as int) < 0x80
  {
    if (c as int) < 0x80 then 1
    else if (c as int) < 0x800 then 2
    else if (c as int) < 0x10000 then 3
    else 4
  }

  /** `strlen($s)`: the number of bytes of the UTF-8 encoding of `s`. */
  function StrLen(s: string): (n: nat)
    ensures |s| <= n <= 4 * |s|
    ensures n == 0 <==> s == []
  {
    if s == [] then 0 else Utf8Width(s[0]) + StrLen(s[1..])
  }

  /** On ASCII text bytes and characters coincide. */
  lemma {:induction false} StrLenAscii(s: string)
    requires forall i :: 0 <= i < |s| ==> (s[i] as int) < 0x80
    ensures StrLen(s) == |s|
  {
    if s != [] {
      StrLenAscii(s[1..]);
    }
  }

  /** Any scalar value outside ASCII makes the byte count exceed the length. */
  lemma {:induction false} StrLenNonAscii(s: string, k: nat)
    requires k < |s| && (s[k] as int) >= 0x80
    ensures StrLen(s) > |s|
  {
    if k > 0 {
      StrLenNonAscii(s[1..], k - 1);
    }
  }

  // ---------------------------------------------------------------------------
  // strtolower (ASCII letters only, as in PHP 8.2 and later)

  function LowerChar(c: char): (d: char)
    ensures ('A' <= c <= 'Z') ==> (d as int) == (c as int) + 32
    ensures !('A' <= c <= 'Z') ==> d == c
  {
    if 'A' <= c <= 'Z' then ((c as int) + 32) as char else c
  }

  /** `strtolower($s)`. */
  function StrToLower(s: string): (r: string)
    ensures |r| == |s|
    ensures forall i :: 0 <= i < |s| ==> r[i] == LowerChar(s[i])
  {
    if s == [] then [] else [LowerChar(s[0])] + StrToLower(s[1..])
  }

  /** Lower-casing gives "png" exactly for the eight spellings of png in any case. */
  lemma LowerIsPng(s: string)
    ensures StrToLower(s) == "png" <==>
      |s| == 3 && (s[0] == 'p' || s[0] == 'P') && (s[1] == 'n' || s[1] == 'N') && (s[2] == 'g' || s[2] == 'G')
  {
    var r := StrToLower(s);
    if |s| == 3 {
      LowerCharIs(s[0], 'p', 'P');
      LowerCharIs(s[1], 'n', 'N');
      LowerCharIs(s[2], 'g', 'G');
      ThreeChars(r, 'p', 'n', 'g');
    } else {
      assert |r| != |"png"|;
    }
  }

  lemma ThreeChars(r: string, a: char, b: char, c: char)
    requires |r| == 3
    ensures r == [a, b, c] <==> r[0] == a && r[1] == b && r[2] == c
  {
    if r[0] == a && r[1] == b && r[2] == c {
      assert r == [r[0], r[1], r[2]];
    }
  }

  lemma LowerCharIs(c: char, lower: char, upper: char)
    requires 'A' <= upper <= 'Z' && (lower as int) == (upper as int) + 32
    ensures LowerChar(c) == lower <==> c == lower || c == upper
  {
  }

  // ---------------------------------------------------------------------------
  // trim and its relatives

  /** The characters PHP's `trim` removes by default: " \t\n\r\0\x0B". */
  const TrimChars: set<char> := {' ', '\t', '\n', '\r', '\0', '\U{B}'}

  predicate IsTrimChar(c: char) {
    c in TrimChars
  }

  /** Drops the longest prefix of characters from `cs`. */
  function DropWhile(s: string, cs: set<char>): (r: string)
    ensures |r| <= |s| && r == s[|s| - |r|..]
    ensures forall i :: 0 <= i < |s| - |r| ==> s[i] in cs
    ensures r == [] || r[0] !in cs
  {
    if s != [] && s[0] in cs then DropWhile(s[1..], cs) else s
  }

  /** Drops the longest suffix of characters from `cs`. */
  function DropWhileEnd(s: string, cs: set<char>): (r: string)
    ensures |r| <= |s| && r == s[..|r|]
    ensures forall i :: |r| <= i < |s| ==> s[i] in cs
    ensures r == [] || r[|r| - 1] !in cs
  {
    if s != [] && s[|s| - 1] in cs then DropWhileEnd(s[..|s| - 1], cs) else s
  }

  /** `r` is the slice of `s` at `i`, and everything of `s` before and after it is a trim character. */
  predicate TrimmedAt(s: string, r: string, i: int) {
    0 <= i && i + |r| <= |s| && r == s[i..i + |r|]
    && (forall k :: 0 <= k < i ==> IsTrimChar(s[k]))
    && (forall k :: i + |r| <= k < |s| ==> IsTrimChar(s[k]))
  }

  /**
   * `trim($s)`: the input without its leading and trailing trim characters,
   * that is, the slice between them that starts and ends with a kept character.
   */
  function Trim(s: string): (r: string)
    ensures |r| <= |s|
    ensures r == [] || (!IsTrimChar(r[0]) && !IsTrimChar(r[|r| - 1]))
    ensures r == [] <==> forall i :: 0 <= i < |s| ==> IsTrimChar(s[i])
    ensures exists i :: TrimmedAt(s, r, i)
  {
    var left := DropWhile(s, TrimChars);
    var r := DropWhileEnd(left, TrimChars);
    TrimmedSlice(s, left, r);
    r
  }

  /** Dropping a trim prefix and then a trim suffix leaves a slice of `s` with only trim characters around it. */
  lemma TrimmedSlice(s: string, left: string, r: string)
    requires |left| <= |s| && left == s[|s| - |left|..]
    requires forall i :: 0 <= i < |s| - |left| ==> s[i] in TrimChars
    requires |r| <= |left| && r == left[..|r|]
    requires forall i :: |r| <= i < |left| ==> left[i] in TrimChars
    ensures TrimmedAt(s, r, |s| - |left|)
  {
    var i := |s| - |left|;
    assert r == s[i..i + |r|];
    forall k | i + |r| <= k < |s|
      ensures IsTrimChar(s[k])
    {
      assert s[k] == left[k - i];
    }
  }

  // ---------------------------------------------------------------------------
  // searching

  /** Index of the first character of `s` that is in `cs`, or |s| when there is none. */
  function IndexOfAny(s: string, cs: set<char>): (k: nat)
    ensures k <= |s|
    ensures forall i :: 0 <= i < k ==> s[i] !in cs
    ensures k < |s| ==> s[k] in cs
  {
    if s == [] then 0
    else if s[0] in cs then 0
    else 1 + IndexOfAny(s[1..], cs)
  }

  /** `strpos($s, $c)` with "not found" written as |s|. */
  function IndexOf(s: string, c: char): (k: nat)
    ensures k <= |s|
    ensures forall i :: 0 <= i < k ==> s[i] != c
    ensures k < |s| ==> s[k] == c
    ensures k == |s| <==> c !in s
  {
    IndexOfAny(s, {c})
  }

  lemma IndexOfAfterPrefix(a: string, b: string, c: char)
    requires c !in a
    ensures IndexOf(a + b, c) == |a| + IndexOf(b, c)
  {
    var k := IndexOf(a + b, c);
    var j := IndexOf(b, c);
    assert forall i :: 0 <= i < |a| ==> (a + b)[i] == a[i];
    assert forall i :: 0 <= i < |b| ==> (a + b)[|a| + i] == b[i];
  }

  predicate StartsWith(s: string, prefix: string) {
    |prefix| <= |s| && s[..|prefix|] == prefix
  }

  /** The part of `s` after its last `c` (all of `s` when there is none). */
  function AfterLast(s: string, c: char): (r: string)
    ensures |r| <= |s| && r == s[|s| - |r|..]
    ensures c !in r
    ensures |r| < |s| ==> s[|s| - |r| - 1] == c
  {
    if s == [] then []
    else if s[|s| - 1] == c then []
    else AfterLast(s[..|s| - 1], c) + [s[|s| - 1]]
  }

  lemma {:induction false} AfterLastAppend(s: string, t: string, c: char)
    requires c !in t
    ensures AfterLast(s + t, c) == AfterLast(s, c) + t
    decreases |t|
  {
    if t != [] {
      var t' := t[..|t| - 1];
      assert (s + t)[..|s + t| - 1] == s + t';
      AfterLastAppend(s, t', c);
      assert t == t' + [t[|t| - 1]];
    } else {
      assert s + t == s;
    }
  }

  lemma AfterLastSeparator(s: string, t: string, c: char)
    requires c !in t
    ensures AfterLast(s + [c] + t, c) == t
  {
    AfterLastAppend(s + [c], t, c);
  }

  /** Drops every trailing `c`. */
  function StripTrailing(s: string, c: char): (r: string)
    ensures |r| <= |s| && r == s[..|r|]
    ensures r == [] || r[|r| - 1] != c
    ensures forall i :: |r| <= i < |s| ==> s[i] == c
  {
    if s != [] && s[|s| - 1] == c then StripTrailing(s[..|s| - 1], c) else s
  }

  /** `basename($path)`: the last '/'-separated component, ignoring trailing slashes. */
  function Basename(path: string): (r: string)
    ensures '/' !in r
    ensures var p := StripTrailing(path, '/');
      |r| <= |p| && r == p[|p| - |r|..] && (|r| < |p| ==> p[|p| - |r| - 1] == '/')
  {
    AfterLast(StripTrailing(path, '/'), '/')
  }

  /**
   * The 'extension' entry of `pathinfo($path)`: what follows the last '.' of
   * the base name, and no entry at all when the base name has no '.'.
   */
  function Extension(path: string): (r: Option<string>)
    ensures r.None? <==> '.' !in Basename(path)
    ensures r.Some? ==> '.' !in r.value && '/' !in r.value
  {
    var base := Basename(path);
    if '.' in base then Some(AfterLast(base, '.')) else None
  }

  /** `pathinfo($path, PATHINFO_EXTENSION)`, which is "" when there is no extension. */
  function ExtensionOrEmpty(path: string): string {
    Extension(path).GetOr("")
  }

  /** A path that ends in `.ext` (with no '/' or '.' in ext) has extension ext. */
  lemma ExtensionOfDotted(stem: string, ext: string)
    requires '/' !in ext && '.' !in ext
    ensures Extension(stem + ['.'] + ext) == Some(ext)
  {
    BasenameOfDotted(stem, ext);
    AfterLastSeparator(AfterLast(stem, '/'), ext, '.');
  }

  lemma BasenameOfDotted(stem: string, ext: string)
    requires '/' !in ext
    ensures Basename(stem + ['.'] + ext) == AfterLast(stem, '/') + ['.'] + ext
  {
    DottedNoTrailingSlash(stem, ext);
    DottedAfterLastSlash(stem, ext);
  }

  lemma DottedNoTrailingSlash(stem: string, ext: string)
    requires '/' !in ext
    ensures StripTrailing(stem + ['.'] + ext, '/') == stem + ['.'] + ext
  {
    var path := stem + ['.'] + ext;
    assert path[|path| - 1] != '/' by {
      if ext == [] {
        assert path[|path| - 1] == '.';
      } else {
        assert path[|path| - 1] == ext[|ext| - 1];
      }
    }
    NoTrailing(path, '/');
  }

  lemma DottedAfterLastSlash(stem: string, ext: string)
    requires '/' !in ext
    ensures AfterLast(stem + ['.'] + ext, '/') == AfterLast(stem, '/') + ['.'] + ext
  {
    var tail := ['.'] + ext;
    assert stem + ['.'] + ext == stem + tail;
    assert '/' !in tail;
    AfterLastAppend(stem, tail, '/');
    assert AfterLast(stem, '/') + ['.'] + ext == AfterLast(stem, '/') + tail;
  }

  /** A string that does not end in `c` has nothing to strip. */
  lemma NoTrailing(s: string, c: char)
    requires s != [] && s[|s| - 1] != c
    ensures StripTrailing(s, c) == s
  {
  }

  // ---------------------------------------------------------------------------
  // explode / implode on one separator character

  /** `explode($c, $s)`: never empty; no part contains the separator. */
  function Split(s: string, c: char): (parts: seq<string>)
    ensures |parts| >= 1
    ensures forall i :: 0 <= i < |parts| ==> c !in parts[i]
    decreases |s|
  {
    var k := IndexOf(s, c);
    if k == |s| then [s] else [s[..k]] + Split(s[k + 1..], c)
  }

  /** `implode($c, $parts)`. */
  function Join(parts: seq<string>, c: char): string
    requires |parts| >= 1
  {
    if |parts| == 1 then parts[0] else parts[0] + [c] + Join(parts[1..], c)
  }

  /** Joining the parts of a split gives back the string. */
  lemma {:induction false} JoinSplit(s: string, c: char)
    ensures Join(Split(s, c), c) == s
    decreases |s|
  {
    var k := IndexOf(s, c);
    if k < |s| {
      var rest := s[k + 1..];
      SplitAtIndex(s, c);
      JoinSplit(rest, c);
      JoinCons(s[..k], Split(rest, c), c);
      CutAt(s, k, c);
    }
  }

  /** A string is its part before `k`, the `c` at `k`, and the rest. */
  lemma CutAt(s: string, k: nat, c: char)
    requires k < |s| && s[k] == c
    ensures s == s[..k] + [c] + s[k + 1..]
  {
  }

  /** Where `s` holds `c`, its split is the part before the first `c`, then the split of the rest. */
  lemma SplitAtIndex(s: string, c: char)
    requires IndexOf(s, c) < |s|
    ensures Split(s, c) == [s[..IndexOf(s, c)]] + Split(s[IndexOf(s, c) + 1..], c)
  {
  }

  lemma JoinCons(head: string, parts: seq<string>, c: char)
    requires |parts| >= 1
    ensures Join([head] + parts, c) == head + [c] + Join(parts, c)
  {
    assert ([head] + parts)[1..] == parts;
  }

  /** Splitting a join of separator-free parts gives back the parts. */
  lemma {:induction false} SplitJoin(parts: seq<string>, c: char)
    requires |parts| >= 1
    requires forall i :: 0 <= i < |parts| ==> c !in parts[i]
    ensures Split(Join(parts, c), c) == parts
  {
    if |parts| > 1 {
      assert c !in parts[0];
      SplitAtFirst(parts[0], Join(parts[1..], c), c);
      SplitJoin(parts[1..], c);
      assert parts == [parts[0]] + parts[1..];
    }
  }

  /** A separator-free head and the first separator split off the front. */
  lemma SplitAtFirst(head: string, rest: string, c: char)
    requires c !in head
    ensures Split(head + [c] + rest, c) == [head] + Split(rest, c)
  {
    var s := head + [c] + rest;
    assert s == head + ([c] + rest);
    IndexOfAfterPrefix(head, [c] + rest, c);
    assert s[..|head|] == head;
    assert s[|head| + 1..] == rest;
  }

  // ---------------------------------------------------------------------------
  // str_replace of single characters by ''

  /** Removes every character that is in `cs`. */
  function RemoveChars(s: string, cs: set<char>): (r: string)
    ensures |r| <= |s|
    ensures forall i :: 0 <= i < |r| ==> r[i] !in cs
    ensures (forall i :: 0 <= i < |s| ==> s[i] !in cs) ==> r == s
  {
    if s == [] then []
    else if s[0] in cs then RemoveChars(s[1..], cs)
    else [s[0]] + RemoveChars(s[1..], cs)
  }

  /** One character is dropped when it is in `cs` and kept otherwise. */
  lemma RemoveCharsSingle(c: char, cs: set<char>)
    ensures RemoveChars([c], cs) == if c in cs then [] else [c]
  {
    assert [c][1..] == [];
  }

  /** Every character outside `cs` survives the removal. */
  lemma {:induction false} RemoveCharsKeeps(s: string, cs: set<char>, c: char)
    requires c !in cs
    ensures c in RemoveChars(s, cs) <==> c in s
  {
    if s != [] {
      RemoveCharsKeeps(s[1..], cs, c);
      assert s == [s[0]] + s[1..];
    }
  }

  lemma {:induction false} RemoveCharsAppend(a: string, b: string, cs: set<char>)
    ensures RemoveChars(a + b, cs) == RemoveChars(a, cs) + RemoveChars(b, cs)
  {
    if a == [] {
      assert a + b == b;
    } else {
      assert (a + b)[1..] == a[1..] + b;
      RemoveCharsAppend(a[1..], b, cs);
    }
  }

  // ---------------------------------------------------------------------------
  // stripslashes / addslashes

  /**
   * `stripslashes($s)`: a backslash is dropped and the character after it is
   * kept, except that backslash-zero becomes the NUL character; a lone
   * trailing backslash is dropped.
   */
  function StripSlashes(s: string): (r: string)
    ensures |r| <= |s|
    ensures '\\' !in s ==> r == s
    decreases |s|
  {
    if s == [] then []
    else if s[0] != '\\' then [s[0]] + StripSlashes(s[1..])
    else if |s| == 1 then []
    else [if s[1] == '0' then '\0' else s[1]] + StripSlashes(s[2..])
  }

  /** How `addslashes` writes one character. */
  function Escape(c: char): string {
    if c == '\0' then "\\0"
    else if c == '\'' || c == '"' || c == '\\' then ['\\', c]
    else [c]
  }

  /** `addslashes($s)`, which WordPress applies to every request field. */
  function AddSlashes(s: string): (r: string)
    ensures |s| <= |r| <= 2 * |s|
  {
    if s == [] then [] else Escape(s[0]) + AddSlashes(s[1..])
  }

  /** `stripslashes` undoes `addslashes`. */
  lemma {:induction false} StripSlashesAddSlashes(s: string)
    ensures StripSlashes(AddSlashes(s)) == s
  {
    if s != [] {
      var rest := AddSlashes(s[1..]);
      var e := Escape(s[0]);
      StripSlashesAddSlashes(s[1..]);
      if |e| == 2 {
        assert (e + rest)[2..] == rest;
      } else {
        assert (e + rest)[1..] == rest;
      }
    }
  }

  // ---------------------------------------------------------------------------
  // is_numeric and the loose comparison of numeric strings

  /** Whitespace PHP allows before and (since PHP 8) after a numeric string. */
  const NumericSpaces: set<char> := {' ', '\t', '\n', '\r', '\U{B}', '\U{C}'}

  predicate IsDigit(c: char) {
    '0' <= c <= '9'
  }

  predicate AllDigits(s: string) {
    forall i :: 0 <= i < |s| ==> IsDigit(s[i])
  }

  /** The parts of a numeric string: sign, integer digits, fraction digits, exponent. */
  datatype Number = Number(negative: bool, intDigits: string, fracDigits: string,
                           expNegative: bool, expDigits: string)
  {
    predicate Valid() {
      AllDigits(intDigits) && AllDigits(fracDigits) && AllDigits(expDigits)
    }
  }

  /** The exponent part after 'e' or 'E': an optional sign and at least one digit. */
  function ParseExponent(x: string): (r: Option<(bool, string)>)
    ensures r.Some? ==> |r.value.1| > 0 && AllDigits(r.value.1)
  {
    var digits := if |x| > 0 && (x[0] == '+' || x[0] == '-') then x[1..] else x;
    if |digits| > 0 && AllDigits(digits) then Some((|x| > 0 && x[0] == '-', digits)) else None
  }

  /**
   * PHP's numeric-string grammar: optional whitespace, an optional sign,
   * digits with at most one '.' and at least one digit, an optional exponent,
   * optional whitespace. Hexadecimal and binary forms are not numeric.
   */
  function ParseNumeric(s: string): (r: Option<Number>)
    ensures r.Some? ==> r.value.Valid() && |r.value.intDigits| + |r.value.fracDigits| > 0
  {
    ParseSigned(DropWhileEnd(DropWhile(s, NumericSpaces), NumericSpaces))
  }

  /** A numeric string without surrounding whitespace: the sign, then the rest. */
  function ParseSigned(t: string): (r: Option<Number>)
    ensures r.Some? ==> r.value.Valid() && |r.value.intDigits| + |r.value.fracDigits| > 0
  {
    var negative := |t| > 0 && t[0] == '-';
    ParseUnsigned(negative, if |t| > 0 && (t[0] == '+' || t[0] == '-') then t[1..] else t)
  }

  /** The mantissa up to the first 'e' or 'E', then the exponent after it. */
  function ParseUnsigned(negative: bool, u: string): (r: Option<Number>)
    ensures r.Some? ==> r.value.Valid() && |r.value.intDigits| + |r.value.fracDigits| > 0
  {
    var k := IndexOfAny(u, {'e', 'E'});
    ParseMantissa(negative, u[..k], if k < |u| then ParseExponent(u[k + 1..]) else Some((false, "")))
  }

  /** Digits with at most one '.', at least one digit in all, and a well-formed exponent. */
  function ParseMantissa(negative: bool, mantissa: string, exponent: Option<(bool, string)>)
    : (r: Option<Number>)
    requires exponent.Some? ==> AllDigits(exponent.value.1)
    ensures r.Some? ==> r.value.Valid() && |r.value.intDigits| + |r.value.fracDigits| > 0
  {
    var d := IndexOf(mantissa, '.');
    var intDigits := mantissa[..d];
    var fracDigits := if d < |mantissa| then mantissa[d + 1..] else "";
    if AllDigits(intDigits) && AllDigits(fracDigits) && |intDigits| + |fracDigits| > 0 && exponent.Some? then
      Some(Number(negative, intDigits, fracDigits, exponent.value.0, exponent.value.1))
    else
      None
  }

  /** `is_numeric($s)` for a string. */
  predicate IsNumeric(s: string) {
    ParseNumeric(s).Some?
  }

  lemma EmptyIsNotNumeric()
    ensures !IsNumeric("")
  {
  }

  /** A non-empty string of decimal digits is numeric. */
  lemma DigitsAreNumeric(s: string)
    requires |s| > 0 && AllDigits(s)
    ensures IsNumeric(s)
  {
    ParseDigits(s);
  }

  /** A string of digits parses to that integer, with no sign, fraction or exponent. */
  lemma ParseDigits(s: string)
    requires |s| > 0 && AllDigits(s)
    ensures ParseNumeric(s) == Some(Number(false, s, [], false, []))
  {
    NoLeadingSpace(s);
    NoTrailingSpace(s);
    assert ParseSigned(s) == ParseUnsigned(false, s);
    NoExponentMark(s);
    assert s[..|s|] == s;
    assert IndexOf(s, '.') == |s|;
  }

  function Pow10(n: nat): (p: nat)
    ensures p >= 1
  {
    if n == 0 then 1 else 10 * Pow10(n - 1)
  }

  function DigitValue(c: char): nat
    requires IsDigit(c)
  {
    (c as int) - ('0' as int)
  }

  /** The value of a string of decimal digits. */
  function DigitsValue(s: string): nat
    requires AllDigits(s)
  {
    if s == [] then 0 else 10 * DigitsValue(s[..|s| - 1]) + DigitValue(s[|s| - 1])
  }

  /** A digit string denotes zero exactly when all its digits are '0'. */
  lemma {:induction false} DigitsValueZero(s: string)
    requires AllDigits(s)
    ensures DigitsValue(s) == 0 <==> forall i :: 0 <= i < |s| ==> s[i] == '0'
    decreases |s|
  {
    if s != [] {
      var init := s[..|s| - 1];
      DigitsValueZero(init);
      assert forall i :: 0 <= i < |init| ==> init[i] == s[i];
    }
  }

  /** An integer without sign or exponent denotes its digits' value. */
  lemma IntegerValue(s: string)
    requires AllDigits(s)
    ensures NumberValue(Number(false, s, [], false, [])) == DigitsValue(s) as real
  {
    DecimalValue(s, []);
    assert DigitsValue([]) == 0;
  }

  /** The exact value a numeric string denotes. */
  function NumberValue(n: Number): real
    requires n.Valid()
  {
    var mantissa := DigitsValue(n.intDigits) as real
      + DigitsValue(n.fracDigits) as real / Pow10(|n.fracDigits|) as real;
    var scale := Pow10(DigitsValue(n.expDigits)) as real;
    var magnitude := if n.expNegative then mantissa / scale else mantissa * scale;
    if n.negative then -magnitude else magnitude
  }

  /**
   * `$a == $b` for two strings: numeric strings compare by value, any other
   * pair byte by byte.
   */
  predicate LooseEquals(a: string, b: string)
    ensures a == b ==> LooseEquals(a, b)
  {
    var na, nb := ParseNumeric(a), ParseNumeric(b);
    if na.Some? && nb.Some? then NumberValue(na.value) == NumberValue(nb.value) else a == b
  }

  /** Comparing with the empty string is plain equality, since "" is not numeric. */
  lemma LooseEqualsEmpty(s: string)
    ensures LooseEquals("", s) <==> s == ""
    ensures LooseEquals(s, "") <==> s == ""
  {
    EmptyIsNotNumeric();
  }

  lemma LooseEqualsSymmetric(a: string, b: string)
    ensures LooseEquals(a, b) <==> LooseEquals(b, a)
  {
  }

  /** A decimal "d.f" parses to its integer and fraction digits. */
  lemma ParseDecimal(d: string, f: string)
    requires |d| > 0 && AllDigits(d) && AllDigits(f)
    ensures ParseNumeric(d + ['.'] + f) == Some(Number(false, d, f, false, []))
  {
    var s := d + ['.'] + f;
    assert forall i :: 0 <= i < |s| ==> s[i] == '.' || IsDigit(s[i]);
    NoNumericSpace(s);
    assert ParseSigned(s) == ParseUnsigned(false, s);
    NoExponentMark(s);
    assert s[..|s|] == s;
    MantissaDecimal(d, f);
  }

  /** Digits and dots have no whitespace to trim. */
  lemma NoNumericSpace(s: string)
    requires |s| > 0 && IsDigit(s[0])
    requires forall i :: 0 <= i < |s| ==> s[i] == '.' || IsDigit(s[i])
    ensures DropWhileEnd(DropWhile(s, NumericSpaces), NumericSpaces) == s
  {
    NoLeadingSpace(s);
    NoTrailingSpace(s);
  }

  lemma NoLeadingSpace(s: string)
    requires |s| > 0 && IsDigit(s[0])
    ensures DropWhile(s, NumericSpaces) == s
  {
    assert s[0] !in NumericSpaces;
  }

  lemma NoTrailingSpace(s: string)
    requires |s| > 0 && (s[|s| - 1] == '.' || IsDigit(s[|s| - 1]))
    ensures DropWhileEnd(s, NumericSpaces) == s
  {
    assert s[|s| - 1] !in NumericSpaces;
  }

  lemma MantissaDecimal(d: string, f: string)
    requires |d| > 0 && AllDigits(d) && AllDigits(f)
    ensures ParseMantissa(false, d + ['.'] + f, Some((false, ""))) == Some(Number(false, d, f, false, []))
  {
    var s := d + ['.'] + f;
    IndexOfAfterPrefix(d, ['.'] + f, '.');
    assert d + (['.'] + f) == s;
    assert IndexOf(s, '.') == |d|;
    assert s[..|d|] == d;
    assert s[|d| + 1..] == f;
  }

  /** Digits and dots contain no exponent mark. */
  lemma NoExponentMark(s: string)
    requires forall i :: 0 <= i < |s| ==> s[i] == '.' || IsDigit(s[i])
    ensures IndexOfAny(s, {'e', 'E'}) == |s|
  {
  }

  lemma DigitsValueAppendZero(f: string)
    requires AllDigits(f)
    ensures AllDigits(f + ['0'])
    ensures DigitsValue(f + ['0']) == 10 * DigitsValue(f)
  {
    assert (f + ['0'])[..|f|] == f;
  }

  /** A zero appended to the fraction does not change the value: "1.0" == "1.00" in PHP. */
  lemma LooseTrailingZero(d: string, f: string)
    requires |d| > 0 && AllDigits(d) && AllDigits(f)
    ensures LooseEquals(d + ['.'] + f, d + ['.'] + f + ['0'])
  {
    var f' := f + ['0'];
    assert d + ['.'] + f + ['0'] == d + ['.'] + f';
    DigitsValueAppendZero(f);
    ParseDecimal(d, f);
    ParseDecimal(d, f');
    TrailingZeroValue(d, f);
  }

  /** The value of "d.f0" is the value of "d.f". */
  lemma TrailingZeroValue(d: string, f: string)
    requires AllDigits(d) && AllDigits(f)
    ensures AllDigits(f + ['0'])
    ensures NumberValue(Number(false, d, f, false, [])) == NumberValue(Number(false, d, f + ['0'], false, []))
  {
    var f' := f + ['0'];
    DigitsValueAppendZero(f);
    DecimalValue(d, f);
    DecimalValue(d, f');
    var x, p := DigitsValue(f) as real, Pow10(|f|) as real;
    var y, q := DigitsValue(f') as real, Pow10(|f'|) as real;
    assert y == 10.0 * x;
    assert q == 10.0 * p;
    ScaleFraction(x, p, y, q);
  }

  lemma DecimalValue(d: string, f: string)
    requires AllDigits(d) && AllDigits(f)
    ensures NumberValue(Number(false, d, f, false, [])) ==
      DigitsValue(d) as real + DigitsValue(f) as real / Pow10(|f|) as real
  {
    var n := Number(false, d, f, false, []);
    assert DigitsValue(n.expDigits) == 0;
    assert Pow10(0) == 1;
    var mantissa := DigitsValue(d) as real + DigitsValue(f) as real / Pow10(|f|) as real;
    assert NumberValue(n) == mantissa * 1.0;
  }

  lemma ScaleFraction(x: real, p: real, y: real, q: real)
    requires p > 0.0 && y == 10.0 * x && q == 10.0 * p
    ensures y / q == x / p
  {
  }
}
