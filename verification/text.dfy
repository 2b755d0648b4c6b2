/** String rules shared by the handlers: the name regular expression, JS
    `trim`, first-letter capitalisation (utils/helper.ts), lower-casing,
    and the Cloudinary public-id derivation used before deleting an image. */
module Text {

  predicate IsAsciiLetter(c: char) {
    ('A' <= c <= 'Z') || ('a' <= c <= 'z')
  }

  predicate IsDigit(c: char) {
    '0' <= c <= '9'
  }

  predicate IsAlnum(c: char) {
    IsAsciiLetter(c) || IsDigit(c)
  }

  /** A character of a word of the name pattern: `[A-Za-z0-9]`, or
      `[A-Za-z0-9']` in the variant the group-chat handlers use. */
  predicate IsWordChar(c: char, apostrophe: bool) {
    IsAlnum(c) || (apostrophe && c == '\'')
  }

  /** JS line terminators (not matched by `.` in a regular expression). */
  predicate IsLineTerminator(c: char) {
    c == '\n' || c == '\r' || c == '\U{2028}' || c == '\U{2029}'
  }

  /** JS white space and line terminators: what `\s` matches and what
      `String.prototype.trim` removes. */
  predicate IsJsWhitespace(c: char) {
    || c == '\t' || c == '\n' || c == '\U{B}' || c == '\U{C}' || c == '\r' || c == ' '
    || c == '\U{A0}' || c == '\U{1680}' || ('\U{2000}' <= c <= '\U{200A}')
    || c == '\U{2028}' || c == '\U{2029}' || c == '\U{202F}' || c == '\U{205F}'
    || c == '\U{3000}' || c == '\U{FEFF}'
  }

  // ---------------------------------------------------------------------
  // The name regular expression
  //   /^(?!.*\s{2,})[A-Za-z0-9]+(?: [A-Za-z0-9]+)*$/
  // (and the group-chat variant with `'` in both character classes).
  // ---------------------------------------------------------------------

  function IndexOf(s: string, c: char): (i: nat)
    requires c in s
    ensures i < |s| && s[i] == c && c !in s[..i]
  {
    if s[0] == c then 0 else 1 + IndexOf(s[1..], c)
  }

  /** One or more word characters. */
  predicate IsWord(s: string, apostrophe: bool) {
    |s| > 0 && forall i :: 0 <= i < |s| ==> IsWordChar(s[i], apostrophe)
  }

  /** The body `W+(?: W+)*`: a word, then any number of (one space, word).
      A word holds no space, so the first space always ends the first word. */
  predicate Words(s: string, apostrophe: bool)
    decreases |s|
  {
    if ' ' !in s then IsWord(s, apostrophe)
    else
      var k := IndexOf(s, ' ');
      IsWord(s[..k], apostrophe) && Words(s[k + 1..], apostrophe)
  }

  /** The look-ahead `(?!.*\s{2,})` anchored at the start: no two white-space
      characters in a row at a position that `.*` can reach, that is, before
      the first line terminator. */
  predicate NoDoubleSpaceAhead(s: string) {
    forall i :: 0 <= i < |s| - 1 && NoLineTerminatorBefore(s, i) ==>
      !(IsJsWhitespace(s[i]) && IsJsWhitespace(s[i + 1]))
  }

  predicate NoLineTerminatorBefore(s: string, i: int)
    requires 0 <= i <= |s|
  {
    forall j :: 0 <= j < i ==> !IsLineTerminator(s[j])
  }

  /** `nameRegex.test(s)`. */
  predicate NameRegex(s: string, apostrophe: bool) {
    NoDoubleSpaceAhead(s) && Words(s, apostrophe)
  }

  /** What the regular expression means: word characters and single spaces,
      starting and ending with a word character. */
  predicate NameShape(s: string, apostrophe: bool) {
    && |s| > 0
    && IsWordChar(s[0], apostrophe)
    && IsWordChar(s[|s| - 1], apostrophe)
    && (forall i :: 0 <= i < |s| ==> IsWordChar(s[i], apostrophe) || s[i] == ' ')
    && (forall i :: 0 <= i < |s| - 1 ==> s[i] == ' ' ==> s[i + 1] != ' ')
  }

  /** The name regular expression accepts exactly the alphanumeric words
      separated by single spaces; its look-ahead adds nothing. */
  lemma {:induction false} NameRegexMeaning(s: string, apostrophe: bool)
    ensures NameRegex(s, apostrophe) <==> NameShape(s, apostrophe)
  {
    WordsIsShape(s, apostrophe);
    if NameShape(s, apostrophe) {
      ShapeHasNoDoubleSpace(s, apostrophe);
    }
  }

  lemma {:induction false} WordsIsShape(s: string, a: bool)
    ensures Words(s, a) <==> NameShape(s, a)
    decreases |s|
  {
    if ' ' !in s {
      SingleWordIsShape(s, a);
    } else {
      var k := IndexOf(s, ' ');
      WordsIsShape(s[k + 1..], a);
      if IsWord(s[..k], a) && NameShape(s[k + 1..], a) {
        ShapeJoin(s[..k], s[k + 1..], a);
        assert s == s[..k] + [' '] + s[k + 1..];
      }
      if NameShape(s, a) {
        ShapeSplit(s, k, a);
      }
    }
  }

  lemma SingleWordIsShape(s: string, a: bool)
    requires ' ' !in s
    ensures IsWord(s, a) <==> NameShape(s, a)
  {
    if NameShape(s, a) {
      forall i | 0 <= i < |s| ensures IsWordChar(s[i], a) {
        assert s[i] != ' ';
      }
    }
  }

  /** A word, one space and a name form a name. */
  lemma ShapeJoin(w: string, rest: string, a: bool)
    requires IsWord(w, a) && NameShape(rest, a)
    ensures NameShape(w + [' '] + rest, a)
  {
    var s := w + [' '] + rest;
    var k := |w|;
    forall i | 0 <= i < |s| ensures IsWordChar(s[i], a) || s[i] == ' ' {
      if i < k { assert s[i] == w[i]; }
      else if i > k { assert s[i] == rest[i - k - 1]; }
    }
    forall i | 0 <= i < |s| - 1 ensures s[i] == ' ' ==> s[i + 1] != ' ' {
      if i < k { assert s[i] == w[i]; }
      else if i == k { assert s[i + 1] == rest[0]; }
      else { assert s[i] == rest[i - k - 1] && s[i + 1] == rest[i - k]; }
    }
    assert s[0] == w[0];
    assert s[|s| - 1] == rest[|rest| - 1];
  }

  /** Cutting a name at its first space gives a word and a name. */
  lemma ShapeSplit(s: string, k: nat, a: bool)
    requires NameShape(s, a) && k < |s| && s[k] == ' ' && ' ' !in s[..k]
    ensures IsWord(s[..k], a) && NameShape(s[k + 1..], a)
  {
    var w, rest := s[..k], s[k + 1..];
    assert k > 0 by { assert s[0] != ' '; }
    forall i | 0 <= i < k ensures IsWordChar(w[i], a) {
      assert w[i] == s[i];
      assert w[i] != ' ';
    }
    assert k < |s| - 1 by { assert s[|s| - 1] != ' '; }
    assert rest[0] == s[k + 1];
    assert rest[|rest| - 1] == s[|s| - 1];
    forall i | 0 <= i < |rest| ensures IsWordChar(rest[i], a) || rest[i] == ' ' {
      assert rest[i] == s[k + 1 + i];
    }
    forall i | 0 <= i < |rest| - 1 ensures rest[i] == ' ' ==> rest[i + 1] != ' ' {
      assert rest[i] == s[k + 1 + i] && rest[i + 1] == s[k + 2 + i];
    }
  }

  lemma ShapeHasNoDoubleSpace(s: string, a: bool)
    requires NameShape(s, a)
    ensures NoDoubleSpaceAhead(s)
  {
    forall i | 0 <= i < |s| - 1 ensures !(IsJsWhitespace(s[i]) && IsJsWhitespace(s[i + 1])) {
      assert IsWordChar(s[i], a) || s[i] == ' ';
      assert IsWordChar(s[i + 1], a) || s[i + 1] == ' ';
    }
  }

  // ---------------------------------------------------------------------
  // String.prototype.trim
  // ---------------------------------------------------------------------

  function TrimStart(s: string): (r: string)
    ensures |r| <= |s|
    ensures r == s[|s| - |r|..]
    ensures |r| > 0 ==> !IsJsWhitespace(r[0])
    ensures forall i :: 0 <= i < |s| - |r| ==> IsJsWhitespace(s[i])
  {
    if |s| > 0 && IsJsWhitespace(s[0]) then
      var r := TrimStart(s[1..]);
      assert forall i :: 1 <= i < |s| - |r| ==> s[i] == s[1..][i - 1];
      r
    else s
  }

  function TrimEnd(s: string): (r: string)
    ensures |r| <= |s|
    ensures r == s[..|r|]
    ensures |r| > 0 ==> !IsJsWhitespace(r[|r| - 1])
    ensures forall i :: |r| <= i < |s| ==> IsJsWhitespace(s[i])
  {
    if |s| > 0 && IsJsWhitespace(s[|s| - 1]) then TrimEnd(s[..|s| - 1]) else s
  }

  /** `s.trim()`. */
  function Trim(s: string): (r: string)
    ensures |r| <= |s|
    ensures |r| > 0 ==> !IsJsWhitespace(r[0]) && !IsJsWhitespace(r[|r| - 1])
  {
    TrimEnd(TrimStart(s))
  }

  /** Trimming keeps an infix of the string and removes only white space:
      `s` is white space up to `i`, then `Trim(s)`, then white space. */
  lemma TrimRemovesOnlyWhitespace(s: string) returns (i: nat)
    ensures i + |Trim(s)| <= |s| && s[i..i + |Trim(s)|] == Trim(s)
    ensures forall j :: 0 <= j < i ==> IsJsWhitespace(s[j])
    ensures forall j :: i + |Trim(s)| <= j < |s| ==> IsJsWhitespace(s[j])
  {
    i := TrimIsInfix(s);
    TrimmedTail(s);
  }

  /** `Trim(s)` sits in `s` right after the leading white space. */
  lemma TrimIsInfix(s: string) returns (i: nat)
    ensures i == |s| - |TrimStart(s)|
    ensures i + |Trim(s)| <= |s| && s[i..i + |Trim(s)|] == Trim(s)
  {
    var t := TrimStart(s);
    var r := TrimEnd(t);
    i := |s| - |t|;
    assert Trim(s) == r;
    assert t == s[i..] && r == t[..|r|] && |r| <= |t|;
    SliceOfSuffix(s, i, |r|);
  }

  /** Everything after `Trim(s)` in `s` is white space. */
  lemma TrimmedTail(s: string)
    ensures forall j :: |s| - |TrimStart(s)| + |Trim(s)| <= j < |s| ==> IsJsWhitespace(s[j])
  {
    var t := TrimStart(s);
    var i := |s| - |t|;
    var r := TrimEnd(t);
    assert Trim(s) == r;
    forall j | i + |r| <= j < |s| ensures IsJsWhitespace(s[j]) {
      assert s[j] == t[j - i];
    }
  }

  /** A prefix of a suffix is an infix. */
  lemma SliceOfSuffix<T>(s: seq<T>, i: nat, n: nat)
    requires i + n <= |s|
    ensures s[i..][..n] == s[i..i + n]
  {
  }

  /** A string that neither starts nor ends with white space is its own
      trim; in particular trimming twice is trimming once. */
  lemma {:induction false} TrimFixesTrimmed(s: string)
    requires |s| > 0 ==> !IsJsWhitespace(s[0]) && !IsJsWhitespace(s[|s| - 1])
    ensures Trim(s) == s
  {
  }

  lemma TrimIdempotent(s: string)
    ensures Trim(Trim(s)) == Trim(s)
  {
    TrimFixesTrimmed(Trim(s));
  }

  // ---------------------------------------------------------------------
  // Case conversion (ASCII letters; other characters are left unchanged)
  // ---------------------------------------------------------------------

  function ToUpper(c: char): (u: char)
    ensures 'a' <= c <= 'z' ==> 'A' <= u <= 'Z' && u as int - 'A' as int == c as int - 'a' as int
    ensures !('a' <= c <= 'z') ==> u == c
  {
    if 'a' <= c <= 'z' then (c as int - 'a' as int + 'A' as int) as char else c
  }

  function ToLower(c: char): (l: char)
    ensures 'A' <= c <= 'Z' ==> 'a' <= l <= 'z' && l as int - 'a' as int == c as int - 'A' as int
    ensures !('A' <= c <= 'Z') ==> l == c
  {
    if 'A' <= c <= 'Z' then (c as int - 'A' as int + 'a' as int) as char else c
  }

  /** `s.toLowerCase()`. */
  function LowerCase(s: string): (r: string)
    ensures |r| == |s|
    ensures forall i :: 0 <= i < |s| ==> r[i] == ToLower(s[i])
  {
    if s == [] then [] else [ToLower(s[0])] + LowerCase(s[1..])
  }

  lemma LowerCaseIdempotent(s: string)
    ensures LowerCase(LowerCase(s)) == LowerCase(s)
  {
  }

  /** `castFirstLetterToUpperCase` (utils/helper.ts). */
  function CastFirstLetterToUpperCase(s: string): (r: string)
    ensures s == [] ==> r == []
    ensures |r| == |s|
    ensures s != [] ==> r[0] == ToUpper(s[0]) && r[1..] == s[1..]
  {
    if s == [] then [] else [ToUpper(s[0])] + s[1..]
  }

  lemma CastFirstLetterIdempotent(s: string)
    ensures CastFirstLetterToUpperCase(CastFirstLetterToUpperCase(s)) == CastFirstLetterToUpperCase(s)
  {
  }

  /** Upper-casing the first letter keeps a name valid for the name
      regular expression, so a stored capitalised name is still a name. */
  lemma CastKeepsNameShape(s: string, a: bool)
    requires NameShape(s, a)
    ensures NameShape(CastFirstLetterToUpperCase(s), a)
  {
    var r := CastFirstLetterToUpperCase(s);
    assert forall i :: 1 <= i < |s| ==> r[i] == s[i];
  }

  /** Whether `sub` occurs in `s` (`s.includes(sub)`). */
  predicate Contains(s: string, sub: string)
    decreases |s|
  {
    (|sub| <= |s| && s[..|sub|] == sub) || (|s| > 0 && Contains(s[1..], sub))
  }

  // ---------------------------------------------------------------------
  // split / join, and the public id of a stored Cloudinary image
  // ---------------------------------------------------------------------

  /** `s.split(sep)` for a one-character separator. */
  function Split(s: string, sep: char): (parts: seq<string>)
    ensures |parts| >= 1
    ensures forall i :: 0 <= i < |parts| ==> sep !in parts[i]
    decreases |s|
  {
    if sep !in s then [s]
    else
      var k := IndexOf(s, sep);
      [s[..k]] + Split(s[k + 1..], sep)
  }

  /** `parts.join(sep)`. */
  function Join(parts: seq<string>, sep: char): string
    requires |parts| >= 1
  {
    if |parts| == 1 then parts[0] else parts[0] + [sep] + Join(parts[1..], sep)
  }

  /** Splitting loses nothing: joining the parts gives the string back. */
  lemma {:induction false} JoinSplit(s: string, sep: char)
    ensures Join(Split(s, sep), sep) == s
    decreases |s|
  {
    if sep in s {
      var k := IndexOf(s, sep);
      var rest := s[k + 1..];
      JoinSplit(rest, sep);
      SplitAtFirst(s, sep);
      var parts := Split(s, sep);
      assert parts[0] == s[..k] && parts[1..] == Split(rest, sep);
      assert Join(parts, sep) == s[..k] + [sep] + rest;
      assert s == s[..k] + [sep] + rest;
    }
  }

  /** With the separator present, the first part is everything before its
      first occurrence and the other parts split the rest. */
  lemma SplitAtFirst(s: string, sep: char)
    requires sep in s
    ensures var k := IndexOf(s, sep);
            var parts := Split(s, sep);
            && |parts| >= 2 && parts[0] == s[..k] && parts[1..] == Split(s[k + 1..], sep)
  {
    var k := IndexOf(s, sep);
    assert Split(s, sep) == [s[..k]] + Split(s[k + 1..], sep);
  }

  /** The public id `deleteImageFromCloudinary` destroys:
      `${folder}/${image.split("/").pop().split(".")[0]}`. */
  function PublicId(image: string, folder: string): (id: string)
  {
    folder + "/" + Split(LastSegment(image), '.')[0]
  }

  /** The last `/`-separated segment of a URL: `url.split("/").pop()`. */
  function LastSegment(url: string): (seg: string)
  {
    LastPart(url, '/')
  }

  /** The public id is the folder, a slash, and the stem of the image URL's
      last path segment: the part before its first dot. */
  lemma PublicIdShape(image: string, folder: string)
    ensures var seg := LastSegment(image);
            var stem := Split(seg, '.')[0];
            && PublicId(image, folder) == folder + "/" + stem
            && '/' !in seg && '.' !in stem
            && |seg| <= |image| && seg == image[|image| - |seg|..]
            && (|seg| < |image| ==> image[|image| - |seg| - 1] == '/')
            && |stem| <= |seg| && stem == seg[..|stem|]
  {
    SplitHeadIsPrefix(LastSegment(image), '.');
    LastPartIsSuffix(image, '/');
    LastPartFollowsSep(image, '/');
  }

  lemma {:induction false} SplitHeadIsPrefix(s: string, sep: char)
    ensures |Split(s, sep)[0]| <= |s| && Split(s, sep)[0] == s[..|Split(s, sep)[0]|]
  {
  }

  /** The last part of `s.split(sep)`. */
  function LastPart(s: string, sep: char): (last: string)
  {
    var parts := Split(s, sep);
    parts[|parts| - 1]
  }

  /** With the separator present, the last part is the last part of what
      follows its first occurrence. */
  lemma LastPartOfRest(s: string, sep: char)
    requires sep in s
    ensures LastPart(s, sep) == LastPart(s[IndexOf(s, sep) + 1..], sep)
  {
    SplitAtFirst(s, sep);
    var parts := Split(s, sep);
    var tail := parts[1..];
    assert tail == Split(s[IndexOf(s, sep) + 1..], sep);
    assert parts[|parts| - 1] == tail[|tail| - 1];
  }

  lemma {:induction false} LastPartIsSuffix(s: string, sep: char)
    ensures |LastPart(s, sep)| <= |s| && LastPart(s, sep) == s[|s| - |LastPart(s, sep)|..]
    decreases |s|
  {
    if sep in s {
      var k := IndexOf(s, sep);
      var rest := s[k + 1..];
      LastPartIsSuffix(rest, sep);
      LastPartOfRest(s, sep);
      var last := LastPart(rest, sep);
      SuffixOfSuffix(s, k + 1, |last|);
      assert |rest| - |last| == |s| - (k + 1) - |last|;
    }
  }

  /** Unless the last part is all of `s`, the separator comes right before
      it. */
  lemma {:induction false} LastPartFollowsSep(s: string, sep: char)
    ensures |LastPart(s, sep)| < |s| ==> s[|s| - |LastPart(s, sep)| - 1] == sep
    decreases |s|
  {
    LastPartIsSuffix(s, sep);
    if sep in s {
      var k := IndexOf(s, sep);
      var rest := s[k + 1..];
      LastPartFollowsSep(rest, sep);
      LastPartOfRest(s, sep);
      var last := LastPart(rest, sep);
      LastPartIsSuffix(rest, sep);
      if |last| == |rest| {
        assert s[|s| - |last| - 1] == s[k];
      } else {
        assert s[|s| - |last| - 1] == rest[|rest| - |last| - 1];
      }
    }
  }

  /** A suffix of a suffix is a suffix. */
  lemma SuffixOfSuffix<T>(s: seq<T>, i: nat, n: nat)
    requires i + n <= |s|
    ensures s[i..][|s| - i - n..] == s[|s| - n..]
  {
  }
}
