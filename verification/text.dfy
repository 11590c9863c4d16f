/**
  String helpers the moderation filter relies on: JavaScript's
  `String.prototype.split` with a one-character separator, the
  "last segment after the final dot" extension it is used for, and ASCII
  lower-casing.
 */
module Text {

  /** Joins `parts` with `sep` between consecutive parts (the inverse of `Split`). */
  function Join(parts: seq<string>, sep: char): string
    decreases |parts|
  {
    if |parts| == 0 then ""
    else if |parts| == 1 then parts[0]
    else parts[0] + [sep] + Join(parts[1..], sep)
  }

  /** `s.split(sep)` for a one-character separator: never empty, the parts
      hold no separator, and joining them back gives `s`. */
  function Split(s: string, sep: char): (parts: seq<string>)
    ensures |parts| >= 1
    ensures forall i :: 0 <= i < |parts| ==> sep !in parts[i]
    ensures Join(parts, sep) == s
    ensures |parts| == 1 <==> sep !in s
    decreases |s|
  {
    if |s| == 0 then [""]
    else
      var rest := Split(s[1..], sep);
      if s[0] == sep then
        assert ([""] + rest)[1..] == rest;
        [""] + rest
      else
        var parts := [[s[0]] + rest[0]] + rest[1..];
        assert parts[1..] == rest[1..];
        assert s == [s[0]] + s[1..];
        parts
  }

  /** The last part of a split: what `split(sep).pop()` returns. */
  function LastPart(s: string, sep: char): (r: string)
    ensures sep !in r
  {
    var parts := Split(s, sep);
    parts[|parts| - 1]
  }

  /** A string without the separator splits into itself alone. */
  lemma {:induction false} SplitWithoutSeparator(s: string, sep: char)
    requires sep !in s
    ensures Split(s, sep) == [s]
  {
    if |s| > 0 {
      SplitWithoutSeparator(s[1..], sep);
      assert [s[0]] + s[1..] == s;
    }
  }

  /** Whatever precedes the last separator does not affect the last part. */
  lemma {:induction false} LastPartAfterSeparator(p: string, sep: char, q: string)
    ensures LastPart(p + [sep] + q, sep) == LastPart(q, sep)
    decreases |p|
  {
    var s := p + [sep] + q;
    if |p| == 0 {
      assert s[0] == sep && s[1..] == q;
    } else {
      assert s[0] == p[0] && s[1..] == p[1..] + [sep] + q;
      LastPartAfterSeparator(p[1..], sep, q);
      if p[0] != sep {
        assert sep in s[1..];
      }
    }
  }

  /** The file extension as the moderation filter computes it: the text
      after the last `.`, or the whole name when it has no `.` at all. */
  function Extension(name: string): (ext: string)
    ensures '.' !in ext
    decreases |name|
  {
    if '.' !in name then name else Extension(name[1..])
  }

  /** The extension is a suffix of the name, preceded by a dot unless it is
      the whole name. */
  lemma {:induction false} ExtensionIsSuffixAfterDot(name: string)
    ensures |Extension(name)| <= |name|
    ensures Extension(name) == name[|name| - |Extension(name)|..]
    ensures |Extension(name)| < |name| ==> name[|name| - |Extension(name)| - 1] == '.'
    decreases |name|
  {
    if '.' in name {
      ExtensionIsSuffixAfterDot(name[1..]);
      var ext := Extension(name[1..]);
      assert name[1..][|name[1..]| - |ext|..] == name[|name| - |ext|..];
      if |ext| == |name[1..]| {
        assert name[1..] == ext;
        assert '.' !in name[1..];
        assert name[0] == '.';
      }
    }
  }

  /** `Extension` is what `name.split(".").pop()` returns. */
  lemma {:induction false} ExtensionIsLastSplitPart(name: string)
    ensures Extension(name) == LastPart(name, '.')
    decreases |name|
  {
    if '.' !in name {
      SplitWithoutSeparator(name, '.');
    } else {
      ExtensionIsLastSplitPart(name[1..]);
      if name[0] != '.' {
        assert '.' in name[1..];
      }
    }
  }

  /** A dotless name is its own extension (it is not the empty string). */
  lemma ExtensionOfDotlessName(name: string)
    requires '.' !in name
    ensures Extension(name) == name
  {
  }

  /** A name ending in `.ext`, with no dot inside `ext`, has extension `ext`. */
  lemma {:induction false} ExtensionAfterLastDot(stem: string, ext: string)
    requires '.' !in ext
    ensures Extension(stem + "." + ext) == ext
    decreases |stem|
  {
    var name := stem + "." + ext;
    if |stem| == 0 {
      assert name[1..] == ext;
    } else {
      assert name[1..] == stem[1..] + "." + ext;
      ExtensionAfterLastDot(stem[1..], ext);
    }
  }

  predicate IsAsciiUpper(c: char) {
    'A' <= c <= 'Z'
  }

  /** ASCII lower-casing of one character: `A`..`Z` move 32 code points up to
      `a`..`z`; every other character is unchanged. */
  function LowerChar(c: char): (d: char)
    ensures IsAsciiUpper(c) ==> 'a' <= d <= 'z' && d as int == c as int + 32
    ensures !IsAsciiUpper(c) ==> d == c
  {
    if IsAsciiUpper(c) then (c as int - 'A' as int + 'a' as int) as char else c
  }

  /** `toLowerCase` restricted to ASCII letters. */
  function ToLower(s: string): (r: string)
    ensures |r| == |s|
    ensures forall i :: 0 <= i < |r| ==> !IsAsciiUpper(r[i])
    ensures forall i :: 0 <= i < |s| && IsAsciiUpper(s[i]) ==> r[i] as int == s[i] as int - 'A' as int + 'a' as int
    ensures forall i :: 0 <= i < |s| && !IsAsciiUpper(s[i]) ==> r[i] == s[i]
  {
    seq(|s|, i requires 0 <= i < |s| => LowerChar(s[i]))
  }

  /** Two characters are the same letter up to ASCII case (defined by code
      points, independently of `LowerChar`). */
  predicate SameIgnoringCase(c: char, d: char) {
    || c == d
    || ('A' <= c <= 'Z' && d as int == c as int + 32)
    || ('A' <= d <= 'Z' && c as int == d as int + 32)
  }

  /** Two strings are equal up to ASCII case. */
  predicate EqualIgnoringCase(a: string, b: string) {
    |a| == |b| && forall i :: 0 <= i < |a| ==> SameIgnoringCase(a[i], b[i])
  }

  /** Lower-casing and comparing with an all-lower-case word is the same as a
      case-insensitive comparison with it. */
  lemma ToLowerMatchesIgnoringCase(s: string, word: string)
    requires forall i :: 0 <= i < |word| ==> !IsAsciiUpper(word[i])
    ensures ToLower(s) == word <==> EqualIgnoringCase(s, word)
  {
    var r := ToLower(s);
    if EqualIgnoringCase(s, word) {
      forall i | 0 <= i < |word|
        ensures r[i] == word[i]
      {
        assert SameIgnoringCase(s[i], word[i]);
      }
      assert r == word;
    }
    if r == word {
      forall i | 0 <= i < |s|
        ensures SameIgnoringCase(s[i], word[i])
      {
        assert r[i] == word[i];
      }
    }
  }
}
