/** `slugify` of generate-events.js: lower-case the name, replace every maximal
    run of whitespace by one '-', then delete every character outside
    [a-z0-9-]. Repeated hyphens are not collapsed and leading or trailing
    hyphens are not trimmed. */
module Slug {

  /** The `\s` class of an ECMAScript regular expression: the WhiteSpace and
      LineTerminator code points. */
  predicate IsSpace(c: char) {
    || c == '\t' || c == '\n' || c == '\U{000B}' || c == '\U{000C}' || c == '\r'
    || c == ' ' || c == '\U{00A0}' || c == '\U{1680}'
    || ('\U{2000}' <= c <= '\U{200A}')
    || c == '\U{2028}' || c == '\U{2029}' || c == '\U{202F}' || c == '\U{205F}'
    || c == '\U{3000}' || c == '\U{FEFF}'
  }

  predicate IsUpper(c: char) {
    'A' <= c <= 'Z'
  }

  predicate IsLowerAlnum(c: char) {
    'a' <= c <= 'z' || '0' <= c <= '9'
  }

  /** The characters `[a-z0-9\-]` that the last step keeps. */
  predicate IsSlugChar(c: char) {
    IsLowerAlnum(c) || c == '-'
  }

  predicate IsSlug(s: string) {
    forall i | 0 <= i < |s| :: IsSlugChar(s[i])
  }

  predicate HasNoSpace(s: string) {
    forall i | 0 <= i < |s| :: !IsSpace(s[i])
  }

  /** `toLowerCase` of one code point. Spelled out are the mappings whose result
      holds a character the later steps keep: A-Z, U+0130 (to "i" followed by
      U+0307) and the Kelvin sign U+212A (to "k"). Any other code point is
      kept as it is: its real lower-case form is neither whitespace nor in
      [a-z0-9-] either, so the last step deletes it all the same. */
  function LowerChar(c: char): (r: string)
    ensures 1 <= |r| <= 2
    ensures IsSpace(c) ==> r == [c]
    ensures !IsSpace(c) ==> HasNoSpace(r)
  {
    if IsUpper(c) then [(c as int + 32) as char]
    else if c == '\U{0130}' then ['i', '\U{0307}']
    else if c == '\U{212A}' then ['k']
    else [c]
  }

  /** Step 1: `name.toLowerCase()`. */
  function LowerCase(s: string): string {
    if s == [] then [] else LowerChar(s[0]) + LowerCase(s[1..])
  }

  /** What is left of `s` after its leading whitespace run. */
  function SkipSpaces(s: string): (r: string)
    ensures |r| <= |s|
    ensures r == s[|s| - |r|..]
    ensures r == [] || !IsSpace(r[0])
    ensures |s| > 0 && IsSpace(s[0]) ==> |r| < |s|
  {
    if |s| > 0 && IsSpace(s[0]) then SkipSpaces(s[1..]) else s
  }

  /** Step 2: `.replace(/\s+/g, '-')`. */
  function ReplaceSpaceRuns(s: string): (r: string)
    ensures |r| <= |s|
    ensures HasNoSpace(r)
    decreases |s|
  {
    if s == [] then []
    else if IsSpace(s[0]) then "-" + ReplaceSpaceRuns(SkipSpaces(s))
    else [s[0]] + ReplaceSpaceRuns(s[1..])
  }

  /** Step 3: `.replace(/[^a-z0-9\-]/g, '')`. */
  function KeepSlugChars(s: string): (r: string)
    ensures |r| <= |s|
    ensures IsSlug(r)
  {
    if s == [] then []
    else (if IsSlugChar(s[0]) then [s[0]] else []) + KeepSlugChars(s[1..])
  }

  /** `slugify(name)`. */
  function Slugify(name: string): (slug: string)
    ensures IsSlug(slug)
  {
    KeepSlugChars(ReplaceSpaceRuns(LowerCase(name)))
  }

  // ---------------------------------------------------------------------------
  // A one-pass reference definition.

  /** What one non-space character of the name contributes to the slug. */
  function Piece(c: char): string {
    if IsUpper(c) then [(c as int + 32) as char]
    else if IsSlugChar(c) then [c]
    else if c == '\U{0130}' then "i"
    else if c == '\U{212A}' then "k"
    else []
  }

  /** The slug computed in one left-to-right scan: a whitespace character
      yields '-' when it starts a run (`inRun` says whether the previous
      character was whitespace), any other character yields its `Piece`. */
  function Scan(s: string, inRun: bool): string {
    if s == [] then []
    else if IsSpace(s[0]) then (if inRun then "" else "-") + Scan(s[1..], true)
    else Piece(s[0]) + Scan(s[1..], false)
  }

  lemma {:induction false} KeepAppend(a: string, b: string)
    ensures KeepSlugChars(a + b) == KeepSlugChars(a) + KeepSlugChars(b)
  {
    if a != [] {
      assert (a + b)[0] == a[0];
      assert (a + b)[1..] == a[1..] + b;
      KeepAppend(a[1..], b);
      var head := if IsSlugChar(a[0]) then [a[0]] else [];
      assert KeepSlugChars(a + b) == head + (KeepSlugChars(a[1..]) + KeepSlugChars(b));
      assert KeepSlugChars(a) == head + KeepSlugChars(a[1..]);
    } else {
      assert a + b == b;
    }
  }

  lemma {:induction false} ReplaceSpacelessPrefix(a: string, b: string)
    requires HasNoSpace(a)
    ensures ReplaceSpaceRuns(a + b) == a + ReplaceSpaceRuns(b)
  {
    if a != [] {
      assert (a + b)[0] == a[0];
      assert (a + b)[1..] == a[1..] + b;
      ReplaceSpacelessPrefix(a[1..], b);
    } else {
      assert a + b == b;
    }
  }

  lemma {:induction false} SkipSpacesLowerCase(s: string)
    ensures SkipSpaces(LowerCase(s)) == LowerCase(SkipSpaces(s))
  {
    if s != [] {
      if IsSpace(s[0]) {
        assert LowerCase(s) == [s[0]] + LowerCase(s[1..]);
        assert ([s[0]] + LowerCase(s[1..]))[1..] == LowerCase(s[1..]);
        SkipSpacesLowerCase(s[1..]);
      } else {
        var l := LowerChar(s[0]);
        assert LowerCase(s) == l + LowerCase(s[1..]);
        assert (l + LowerCase(s[1..]))[0] == l[0];
      }
    }
  }

  lemma KeepLowerChar(c: char)
    requires !IsSpace(c)
    ensures KeepSlugChars(LowerChar(c)) == Piece(c)
  {
    if c == '\U{0130}' {
      assert LowerChar(c) == "i" + ['\U{0307}'];
      KeepAppend("i", ['\U{0307}']);
    }
  }

  /** The three-step pipeline and the one-pass scan agree; a scan that starts
      inside a run sees the name with its leading whitespace removed. */
  lemma {:induction false} ScanAgrees(s: string, inRun: bool)
    ensures Scan(s, inRun) == KeepSlugChars(ReplaceSpaceRuns(LowerCase(if inRun then SkipSpaces(s) else s)))
    decreases |s|
  {
    if s == [] {
    } else if IsSpace(s[0]) {
      ScanAgrees(s[1..], true);
      if !inRun {
        var rest := LowerCase(s[1..]);
        assert LowerCase(s) == [s[0]] + rest;
        assert ([s[0]] + rest)[1..] == rest;
        calc {
          ReplaceSpaceRuns(LowerCase(s));
          "-" + ReplaceSpaceRuns(SkipSpaces([s[0]] + rest));
          "-" + ReplaceSpaceRuns(SkipSpaces(rest));
          { SkipSpacesLowerCase(s[1..]); }
          "-" + ReplaceSpaceRuns(LowerCase(SkipSpaces(s[1..])));
        }
        KeepAppend("-", ReplaceSpaceRuns(LowerCase(SkipSpaces(s[1..]))));
      }
    } else {
      ScanAgrees(s[1..], false);
      var l := LowerChar(s[0]);
      assert LowerCase(s) == l + LowerCase(s[1..]);
      ReplaceSpacelessPrefix(l, LowerCase(s[1..]));
      KeepAppend(l, ReplaceSpaceRuns(LowerCase(s[1..])));
      KeepLowerChar(s[0]);
    }
  }

  /** `slugify` computes the one-pass scan. */
  lemma SlugifyIsScan(name: string)
    ensures Slugify(name) == Scan(name, false)
  {
    ScanAgrees(name, false);
  }

  // ---------------------------------------------------------------------------
  // Properties of slugify.

  /** The slug has no more characters than the name, even though lower-casing
      U+0130 yields two characters. */
  lemma {:induction false} SlugifyLength(name: string)
    ensures |Slugify(name)| <= |name|
  {
    SlugifyIsScan(name);
    ScanLength(name, false);
  }

  lemma {:induction false} ScanLength(s: string, inRun: bool)
    ensures |Scan(s, inRun)| <= |s|
  {
    if s != [] {
      ScanLength(s[1..], IsSpace(s[0]));
    }
  }

  /** A slug is left unchanged by each of the three steps. */
  lemma {:induction false} StepsFixSlugs(s: string)
    requires IsSlug(s)
    ensures LowerCase(s) == s
    ensures ReplaceSpaceRuns(s) == s
    ensures KeepSlugChars(s) == s
  {
    if s != [] {
      assert IsSlugChar(s[0]);
      StepsFixSlugs(s[1..]);
      assert s == [s[0]] + s[1..];
    }
  }

  /** slugify is idempotent. */
  lemma SlugifyIdempotent(name: string)
    ensures Slugify(Slugify(name)) == Slugify(name)
  {
    StepsFixSlugs(Slugify(name));
  }

  /** A string is its own slug exactly when it already is a slug. */
  lemma SlugifyFixedPoints(s: string)
    ensures Slugify(s) == s <==> IsSlug(s)
  {
    if IsSlug(s) {
      StepsFixSlugs(s);
    }
  }

  function Count(s: string, c: char): nat {
    if s == [] then 0 else (if s[0] == c then 1 else 0) + Count(s[1..], c)
  }

  /** The number of maximal whitespace runs in `s` (`inRun`: the character
      before `s` was whitespace). */
  function SpaceRuns(s: string, inRun: bool): nat {
    if s == [] then 0
    else (if IsSpace(s[0]) && !inRun then 1 else 0) + SpaceRuns(s[1..], IsSpace(s[0]))
  }

  lemma {:induction false} CountAppend(a: string, b: string, c: char)
    ensures Count(a + b, c) == Count(a, c) + Count(b, c)
  {
    if a == [] {
      assert a + b == b;
    } else {
      assert (a + b)[1..] == a[1..] + b;
      CountAppend(a[1..], b, c);
    }
  }

  lemma {:induction false} ScanHyphens(s: string, inRun: bool)
    ensures Count(Scan(s, inRun), '-') == Count(s, '-') + SpaceRuns(s, inRun)
  {
    if s != [] {
      ScanHyphens(s[1..], IsSpace(s[0]));
      if IsSpace(s[0]) {
        CountAppend(if inRun then "" else "-", Scan(s[1..], true), '-');
      } else {
        CountAppend(Piece(s[0]), Scan(s[1..], false), '-');
      }
    }
  }

  /** No hyphen is removed and each maximal whitespace run adds exactly one:
      nothing is collapsed or trimmed. */
  lemma SlugifyHyphens(name: string)
    ensures Count(Slugify(name), '-') == Count(name, '-') + SpaceRuns(name, false)
  {
    SlugifyIsScan(name);
    ScanHyphens(name, false);
  }

  /** The letters and digits of the name as the slug keeps them, in order:
      ASCII letters lower-cased, and the two non-ASCII letters whose lower
      case is an ASCII letter. */
  function LettersAndDigits(s: string): string {
    if s == [] then []
    else if IsUpper(s[0]) then [(s[0] as int + 32) as char] + LettersAndDigits(s[1..])
    else if IsLowerAlnum(s[0]) then [s[0]] + LettersAndDigits(s[1..])
    else if s[0] == '\U{0130}' then "i" + LettersAndDigits(s[1..])
    else if s[0] == '\U{212A}' then "k" + LettersAndDigits(s[1..])
    else LettersAndDigits(s[1..])
  }

  /** The letters and digits of a slug, in order. */
  function AlnumsOf(s: string): string {
    if s == [] then [] else (if IsLowerAlnum(s[0]) then [s[0]] else []) + AlnumsOf(s[1..])
  }

  lemma {:induction false} AlnumsAppend(a: string, b: string)
    ensures AlnumsOf(a + b) == AlnumsOf(a) + AlnumsOf(b)
  {
    if a == [] {
      assert a + b == b;
    } else {
      assert (a + b)[0] == a[0];
      assert (a + b)[1..] == a[1..] + b;
      AlnumsAppend(a[1..], b);
      var head := if IsLowerAlnum(a[0]) then [a[0]] else [];
      assert AlnumsOf(a + b) == head + (AlnumsOf(a[1..]) + AlnumsOf(b));
      assert AlnumsOf(a) == head + AlnumsOf(a[1..]);
    }
  }

  lemma {:induction false} ScanAlnums(s: string, inRun: bool)
    ensures AlnumsOf(Scan(s, inRun)) == LettersAndDigits(s)
  {
    if s != [] {
      ScanAlnums(s[1..], IsSpace(s[0]));
      if IsSpace(s[0]) {
        AlnumsAppend(if inRun then "" else "-", Scan(s[1..], true));
      } else {
        AlnumsAppend(Piece(s[0]), Scan(s[1..], false));
      }
    }
  }

  /** Every letter and digit of the name survives, lower-cased and in its
      original order, and the slug holds no other letters or digits. */
  lemma SlugifyKeepsLettersAndDigits(name: string)
    ensures AlnumsOf(Slugify(name)) == LettersAndDigits(name)
  {
    SlugifyIsScan(name);
    ScanAlnums(name, false);
  }

  /** Whether a scan is inside a whitespace run after reading `a`. */
  function RunAfter(a: string, inRun: bool): bool {
    if a == [] then inRun else IsSpace(a[|a| - 1])
  }

  lemma {:induction false} ScanAppend(a: string, b: string, inRun: bool)
    ensures Scan(a + b, inRun) == Scan(a, inRun) + Scan(b, RunAfter(a, inRun))
  {
    if a == [] {
      assert a + b == b;
    } else {
      assert (a + b)[0] == a[0];
      assert (a + b)[1..] == a[1..] + b;
      ScanAppend(a[1..], b, IsSpace(a[0]));
      if |a| > 1 {
        assert a[1..][|a[1..]| - 1] == a[|a| - 1];
      }
    }
  }


  /** A scan is only influenced by `inRun` when it starts on whitespace. */
  lemma ScanStartsOutsideRun(b: string)
    requires b == [] || !IsSpace(b[0])
    ensures Scan(b, true) == Scan(b, false)
  {
  }

  /** A character that is neither whitespace nor kept (punctuation, most
      non-ASCII letters) is dropped without a trace, unless dropping it would
      join two whitespace runs into one. */
  lemma DropsOtherCharacters(a: string, c: char, b: string)
    requires !IsSpace(c) && Piece(c) == []
    requires !(RunAfter(a, false) && |b| > 0 && IsSpace(b[0]))
    ensures Slugify(a + [c] + b) == Slugify(a + b)
  {
    var after := RunAfter(a, false);
    calc {
      Slugify(a + [c] + b);
      { SlugifyIsScan(a + [c] + b); assert a + [c] + b == a + ([c] + b); }
      Scan(a + ([c] + b), false);
      { ScanAppend(a, [c] + b, false); }
      Scan(a, false) + Scan([c] + b, after);
      { ScanCons(c, b, after); }
      Scan(a, false) + Scan(b, false);
      { if after { ScanStartsOutsideRun(b); } }
      Scan(a, false) + Scan(b, after);
      { ScanAppend(a, b, false); SlugifyIsScan(a + b); }
      Slugify(a + b);
    }
  }

  lemma ScanCons(c: char, rest: string, inRun: bool)
    ensures Scan([c] + rest, inRun)
         == if IsSpace(c) then (if inRun then "" else "-") + Scan(rest, true)
            else Piece(c) + Scan(rest, false)
  {
    assert ([c] + rest)[0] == c;
    assert ([c] + rest)[1..] == rest;
  }
}
