// The two string normalisations of the regional indicators scraper: the slug
// that serves as the merge key between the population, income and
// unemployment tables, and the cleaning of one cell of a numeric column.

module ScraperInseeRegion {
  import opened Base
  import opened Text
  import opened InseeScraper

  predicate IsLowerLetter(c: char)
  {
    'a' <= c <= 'z'
  }

  /** `re.sub(r"[^a-z]", "", s)`. */
  function KeepLetters(s: string): (r: string)
    ensures forall i :: 0 <= i < |r| ==> IsLowerLetter(r[i])
    ensures |r| <= |s|
  {
    if s == [] then [] else (if IsLowerLetter(s[0]) then [s[0]] else []) + KeepLetters(s[1..])
  }

  /** `_slug`: accents folded away (NFKD, then ASCII only), lower case, and
      every character other than `a`–`z` removed. */
  function Slug(text: string): (r: string)
    ensures forall i :: 0 <= i < |r| ==> IsLowerLetter(r[i])
  {
    KeepLetters(Lower(Fold(text)))
  }

  // ---------------------------------------------------------------------
  // The slug character by character

  lemma {:induction false} KeepLettersAppend(a: string, b: string)
    ensures KeepLetters(a + b) == KeepLetters(a) + KeepLetters(b)
  {
    if a == [] {
      assert a + b == b;
    } else {
      assert (a + b)[0] == a[0] && (a + b)[1..] == a[1..] + b;
      KeepLettersAppend(a[1..], b);
    }
  }

  lemma LowerAppend(a: string, b: string)
    ensures Lower(a + b) == Lower(a) + Lower(b)
  {
  }

  /** The slug of a concatenation is the concatenation of the slugs. */
  lemma SlugAppend(a: string, b: string)
    ensures Slug(a + b) == Slug(a) + Slug(b)
  {
    FoldAppend(a, b);
    LowerAppend(Fold(a), Fold(b));
    KeepLettersAppend(Lower(Fold(a)), Lower(Fold(b)));
  }

  /** The slug of a one-character string. */
  lemma SlugOfChar(c: char)
    ensures Slug([c]) == KeepLetters(Lower(FoldChar(c)))
  {
    assert [c][1..] == [];
    assert Fold([c]) == FoldChar(c) + Fold([]);
    assert Fold([]) == [] && FoldChar(c) + [] == FoldChar(c);
  }

  /** A string is its own slug exactly when it is made of `a`–`z`. */
  lemma {:induction false} SlugOfLetters(s: string)
    requires forall i :: 0 <= i < |s| ==> IsLowerLetter(s[i])
    ensures Slug(s) == s
  {
    if s != [] {
      SlugOfLetters(s[1..]);
      SlugOfChar(s[0]);
      assert s == [s[0]] + s[1..];
      SlugAppend([s[0]], s[1..]);
      assert Lower([s[0]]) == [s[0]];
      assert KeepLetters([s[0]]) == [s[0]] + KeepLetters([]);
    }
  }

  /** `_slug` is idempotent. */
  lemma SlugIdempotent(text: string)
    ensures Slug(Slug(text)) == Slug(text)
  {
    SlugOfLetters(Slug(text));
  }

  /** Characters that are not letters, such as spaces, hyphens, apostrophes,
      digits and punctuation, do not count. */
  predicate Ignored(c: char)
  {
    c < '\U{80}' && !('a' <= c <= 'z') && !('A' <= c <= 'Z')
  }

  /** Removing a space, a hyphen or any other ignored character leaves the
      slug unchanged. */
  lemma SlugIgnores(a: string, c: char, b: string)
    requires Ignored(c)
    ensures Slug(a + [c] + b) == Slug(a + b)
  {
    assert Slug([c]) == [] by {
      SlugOfChar(c);
      assert FoldChar(c) == [c];
      assert Lower([c]) == [c];
      assert KeepLetters([c]) == [] + KeepLetters([]);
    }
    SlugAppend(a + [c], b);
    SlugAppend(a, [c]);
    SlugAppend(a, b);
    assert Slug(a) + [] == Slug(a);
  }

  /** One character and its lower-case form have the same slug. */
  lemma SlugCharLower(c: char)
    ensures Slug([LowerChar(c)]) == Slug([c])
  {
    SlugOfChar(c);
    SlugOfChar(LowerChar(c));
    if 'A' <= c <= 'Z' || IsLatinCapital(c) || IsFullwidthCapital(c) {
      var d := LowerChar(c);
      assert KeepLetters(Lower(FoldChar(d))) == KeepLetters(Lower(FoldChar(c))) by {
        FoldCharLower(c);
      }
    }
  }

  /** Folding a capital and folding its lower-case form give the same letter
      up to case. */
  lemma FoldCharLower(c: char)
    requires 'A' <= c <= 'Z' || IsLatinCapital(c) || IsFullwidthCapital(c)
    ensures Lower(FoldChar(LowerChar(c))) == Lower(FoldChar(c))
  {
    if IsLatinCapital(c) {
      var small := FoldSmall(LowerChar(c));
      assert FoldChar(c) == Upper(small);
      assert Lower(Upper(small)) == small == Lower(small);
    } else if IsFullwidthCapital(c) {
      FoldFullwidth(c);
      FoldFullwidth(LowerChar(c));
      assert Lower(FoldChar(c)) == [LowerChar(FoldChar(c)[0])];
    }
  }

  /** Labels that differ only in case get the same slug. */
  lemma {:induction false} SlugIgnoresCase(s: string)
    ensures Slug(Lower(s)) == Slug(s)
  {
    if s != [] {
      var c, rest := s[0], s[1..];
      assert Slug(s) == Slug([c]) + Slug(rest) by {
        assert s == [c] + rest;
        SlugAppend([c], rest);
      }
      assert Slug(Lower(s)) == Slug([LowerChar(c)]) + Slug(Lower(rest)) by {
        assert s == [c] + rest;
        LowerAppend([c], rest);
        assert Lower([c]) == [LowerChar(c)];
        SlugAppend([LowerChar(c)], Lower(rest));
      }
      SlugIgnoresCase(rest);
      SlugCharLower(c);
    }
  }

  // ---------------------------------------------------------------------
  // `_clean_numeric`, one element

  /** One element of `_clean_numeric` before the conversion to float: every
      character other than a digit, `.` or `-` removed, and an empty result
      turned into a missing value rather than a zero. */
  function CleanElement(s: string): (r: Option<string>)
    ensures r.Some? ==> r.value != [] && forall i :: 0 <= i < |r.value| ==> IsNumericChar(r.value[i])
  {
    var t := KeepNumeric(s);
    if t == [] then None else Some(t)
  }

  lemma {:induction false} KeepNumericAppend(a: string, b: string)
    ensures KeepNumeric(a + b) == KeepNumeric(a) + KeepNumeric(b)
  {
    if a == [] {
      assert a + b == b;
    } else {
      assert (a + b)[0] == a[0] && (a + b)[1..] == a[1..] + b;
      KeepNumericAppend(a[1..], b);
    }
  }

  /** An element is missing exactly when it has no digit, dot or minus
      sign. */
  lemma {:induction false} CleanElementMissing(s: string)
    ensures CleanElement(s).None? <==> forall i :: 0 <= i < |s| ==> !IsNumericChar(s[i])
  {
    if s != [] {
      CleanElementMissing(s[1..]);
      assert forall i :: 1 <= i < |s| ==> s[i] == s[1..][i - 1];
    }
  }

  /** The kept characters are those of the element, in order: cleaning the
      two halves of a text and joining them gives the cleaned text. */
  lemma CleanElementJoins(a: string, b: string)
    requires CleanElement(a).Some? && CleanElement(b).Some?
    ensures CleanElement(a + b) == Some(CleanElement(a).value + CleanElement(b).value)
  {
    KeepNumericAppend(a, b);
  }

  lemma {:induction false} KeepNumericOfNumeric(s: string)
    requires forall i :: 0 <= i < |s| ==> IsNumericChar(s[i])
    ensures KeepNumeric(s) == s
  {
    if s != [] {
      KeepNumericOfNumeric(s[1..]);
    }
  }

  /** Cleaning a cleaned element changes nothing. */
  lemma CleanElementIdempotent(s: string)
    requires CleanElement(s).Some?
    ensures CleanElement(CleanElement(s).value) == CleanElement(s)
  {
    KeepNumericOfNumeric(CleanElement(s).value);
  }
}
