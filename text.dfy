// String helpers standing for the Python `str` methods and the small regular
// expressions the components use. Strings are sequences of Unicode scalar
// values; case mapping covers ASCII and Latin-1 only.

module Text {

  /** Python's `str.isspace()`, which is also what `\s` matches. */
  predicate IsSpace(c: char)
  {
    || ('\t' <= c <= '\r')
    || ('\U{1C}' <= c <= ' ')
    || c == '\U{85}' || c == '\U{A0}' || c == '\U{1680}'
    || ('\U{2000}' <= c <= '\U{200A}')
    || c == '\U{2028}' || c == '\U{2029}' || c == '\U{202F}' || c == '\U{205F}' || c == '\U{3000}'
  }

  /** `\d`, restricted to the ASCII digits. */
  predicate IsDigit(c: char)
  {
    '0' <= c <= '9'
  }

  predicate AllDigits(s: string)
  {
    forall i :: 0 <= i < |s| ==> IsDigit(s[i])
  }

  function DigitValue(c: char): (d: nat)
    requires IsDigit(c)
    ensures d < 10
  {
    c as int - '0' as int
  }

  /** Value of a string of decimal digits (0 for the empty string). */
  function DigitsValue(s: string): (v: nat)
    requires AllDigits(s)
  {
    if s == [] then 0 else DigitsValue(s[..|s| - 1]) * 10 + DigitValue(s[|s| - 1])
  }

  function Pow10(n: nat): (p: nat)
    ensures p >= 1
  {
    if n == 0 then 1 else 10 * Pow10(n - 1)
  }

  // ---------------------------------------------------------------------
  // Stripping whitespace

  // The stripping functions carry no postcondition: their properties are
  // the lemmas below, so that a proof pays for them only when it asks.

  function StripLeft(s: string): string
  {
    if s != [] && IsSpace(s[0]) then StripLeft(s[1..]) else s
  }

  function StripRight(s: string): string
  {
    if s != [] && IsSpace(s[|s| - 1]) then StripRight(s[..|s| - 1]) else s
  }

  /** `str.strip()`. */
  function Strip(s: string): string
  {
    StripRight(StripLeft(s))
  }

  /** `not s or not s.strip()`: empty or whitespace only. */
  predicate IsBlank(s: string)
  {
    forall i :: 0 <= i < |s| ==> IsSpace(s[i])
  }

  /** `StripLeft` drops the leading whitespace and nothing else. */
  lemma {:induction false} StripLeftSpec(s: string)
    ensures var r := StripLeft(s);
            && |r| <= |s| && r == s[|s| - |r|..]
            && (r == [] || !IsSpace(r[0]))
            && forall i :: 0 <= i < |s| - |r| ==> IsSpace(s[i])
  {
    if s != [] && IsSpace(s[0]) {
      StripLeftSpec(s[1..]);
      var r := StripLeft(s[1..]);
      assert s[1..][|s| - 1 - |r|..] == s[|s| - |r|..];
      forall i | 0 <= i < |s| - |r|
        ensures IsSpace(s[i])
      {
        if i > 0 {
          assert s[i] == s[1..][i - 1];
        }
      }
    }
  }

  /** `StripRight` drops the trailing whitespace and nothing else. */
  lemma {:induction false} StripRightSpec(s: string)
    ensures var r := StripRight(s);
            && |r| <= |s| && r == s[..|r|]
            && (r == [] || !IsSpace(r[|r| - 1]))
            && forall i :: |r| <= i < |s| ==> IsSpace(s[i])
  {
    if s != [] && IsSpace(s[|s| - 1]) {
      var n := |s| - 1;
      StripRightSpec(s[..n]);
      var r := StripRight(s[..n]);
      assert s[..n][..|r|] == s[..|r|];
      forall i | |r| <= i < |s|
        ensures IsSpace(s[i])
      {
        if i < n {
          assert s[i] == s[..n][i];
        }
      }
    }
  }

  /** The stripped string is the slice of the original that starts after
      the leading whitespace; it has whitespace on neither end, and
      everything cut off was whitespace. */
  lemma StripSpec(s: string)
    ensures var r, k := Strip(s), |s| - |StripLeft(s)|;
            && (r == [] || (!IsSpace(r[0]) && !IsSpace(r[|r| - 1])))
            && 0 <= k <= |s| - |r| && r == s[k..k + |r|]
            && (forall i :: 0 <= i < k ==> IsSpace(s[i]))
            && (forall i :: k + |r| <= i < |s| ==> IsSpace(s[i]))
  {
    var l := StripLeft(s);
    StripLeftSpec(s);
    StripRightSpec(l);
    var r := StripRight(l);
    var k := |s| - |l|;
    if r != [] {
      assert r[0] == l[0];
    }
    assert r == s[k..k + |r|];
    forall i | k + |r| <= i < |s|
      ensures IsSpace(s[i])
    {
      assert s[i] == l[i - k];
    }
  }

  lemma {:induction false} StripLeftKeeps(s: string)
    requires s == [] || !IsSpace(s[0])
    ensures StripLeft(s) == s
  {
  }

  lemma {:induction false} StripRightKeeps(s: string)
    requires s == [] || !IsSpace(s[|s| - 1])
    ensures StripRight(s) == s
  {
  }

  /** Stripping leaves a string without surrounding whitespace unchanged. */
  lemma StripKeeps(s: string)
    requires s == [] || (!IsSpace(s[0]) && !IsSpace(s[|s| - 1]))
    ensures Strip(s) == s
  {
    StripLeftKeeps(s);
    StripRightKeeps(s);
  }

  /** A string is blank exactly when stripping it leaves nothing. */
  lemma {:induction false} BlankIffStripsEmpty(s: string)
    ensures IsBlank(s) <==> Strip(s) == []
  {
    StripSpec(s);
  }

  // ---------------------------------------------------------------------
  // Case mapping

  /** A Latin-1 capital with an accent or a lower-case partner: `À`–`Þ`
      without the multiplication sign. */
  predicate IsLatinCapital(c: char)
  {
    '\U{C0}' <= c <= '\U{DE}' && c != '\U{D7}'
  }

  /** A fullwidth Latin capital, `Ａ`–`Ｚ`. */
  predicate IsFullwidthCapital(c: char)
  {
    '\U{FF21}' <= c <= '\U{FF3A}'
  }

  /** `str.lower()` on one character: ASCII, Latin-1 and fullwidth
      capitals, each 32 code points below its small letter. */
  function LowerChar(c: char): (d: char)
    ensures d == c || ('A' <= c <= 'Z' && d as int == c as int + 32)
                   || (IsLatinCapital(c) && d as int == c as int + 32)
                   || (IsFullwidthCapital(c) && d as int == c as int + 32)
  {
    if 'A' <= c <= 'Z' || IsLatinCapital(c) || IsFullwidthCapital(c) then (c as int + 32) as char else c
  }

  /** `str.lower()`: the result keeps the length and has no ASCII, Latin-1
      or fullwidth capital left. */
  function Lower(s: string): (r: string)
    ensures |r| == |s| && forall i :: 0 <= i < |s| ==> r[i] == LowerChar(s[i])
    ensures forall i :: 0 <= i < |r| ==> !('A' <= r[i] <= 'Z') && !IsLatinCapital(r[i]) && !IsFullwidthCapital(r[i])
  {
    seq(|s|, i requires 0 <= i < |s| => LowerChar(s[i]))
  }

  /** Lowering twice is lowering once. */
  lemma LowerIdempotent(s: string)
    ensures Lower(Lower(s)) == Lower(s)
  {
    var l := Lower(s);
    forall i | 0 <= i < |l|
      ensures Lower(l)[i] == l[i]
    {
      assert !('A' <= l[i] <= 'Z') && !IsLatinCapital(l[i]) && !IsFullwidthCapital(l[i]);
    }
  }

  /** `str.upper()` restricted to the ASCII letters. */
  function UpperChar(c: char): (d: char)
    ensures d == c || ('a' <= c <= 'z' && d as int == c as int - 32)
  {
    if 'a' <= c <= 'z' then (c as int - 32) as char else c
  }

  /** `str.upper()` on ASCII: the result keeps the length and has no ASCII
      lower-case letter left. */
  function Upper(s: string): (r: string)
    ensures |r| == |s| && forall i :: 0 <= i < |s| ==> r[i] == UpperChar(s[i])
    ensures forall i :: 0 <= i < |r| ==> !('a' <= r[i] <= 'z')
  {
    seq(|s|, i requires 0 <= i < |s| => UpperChar(s[i]))
  }

  /** Upper-casing loses nothing that lower-casing keeps: lowering the
      upper-cased text gives the lowered text. */
  lemma LowerUpper(s: string)
    ensures Lower(Upper(s)) == Lower(s)
  {
    var u := Upper(s);
    forall i | 0 <= i < |s|
      ensures Lower(u)[i] == Lower(s)[i]
    {
      assert u[i] == UpperChar(s[i]);
    }
  }

  // ---------------------------------------------------------------------
  // Replacing and searching

  /** `str.replace(a, b)` for single characters. */
  function ReplaceChar(s: string, a: char, b: char): (r: string)
    ensures |r| == |s|
    ensures forall i :: 0 <= i < |s| ==> r[i] == (if s[i] == a then b else s[i])
  {
    seq(|s|, i requires 0 <= i < |s| => if s[i] == a then b else s[i])
  }

  /** The non-breaking space replaced by a plain space, as `.replace("\xa0", " ")`. */
  function NoNbsp(s: string): (r: string)
    ensures |r| == |s| && '\U{A0}' !in r
  {
    ReplaceChar(s, '\U{A0}', ' ')
  }

  predicate StartsWith(s: string, prefix: string)
  {
    |prefix| <= |s| && s[..|prefix|] == prefix
  }

  /** Python's `t in s` for strings. */
  predicate Contains(s: string, t: string)
  {
    StartsWith(s, t) || (s != [] && Contains(s[1..], t))
  }

  predicate OccursAt(s: string, t: string, i: int)
  {
    0 <= i <= |s| - |t| && s[i..i + |t|] == t
  }

  /** `Contains` holds exactly when `t` occurs at some position of `s`. */
  lemma {:induction false} ContainsAt(s: string, t: string)
    ensures Contains(s, t) <==> exists i :: OccursAt(s, t, i)
  {
    if StartsWith(s, t) {
      assert OccursAt(s, t, 0);
    }
    if s != [] {
      ContainsAt(s[1..], t);
      if Contains(s[1..], t) {
        var i :| OccursAt(s[1..], t, i);
        assert OccursAt(s, t, i + 1);
      }
      if exists i :: OccursAt(s, t, i) {
        var i :| OccursAt(s, t, i);
        if i > 0 {
          assert OccursAt(s[1..], t, i - 1);
        }
      }
    } else {
      if exists i :: OccursAt(s, t, i) {
        var i :| OccursAt(s, t, i);
        assert i == 0 && s[..|t|] == t;
      }
    }
  }

  /** `sep.join(parts)`. */
  function Join(parts: seq<string>, sep: string): string
  {
    if parts == [] then []
    else if |parts| == 1 then parts[0]
    else parts[0] + sep + Join(parts[1..], sep)
  }

  /** `str(n)` for a natural number. */
  function NatToString(n: nat): (s: string)
    ensures s != [] && AllDigits(s)
    ensures DigitsValue(s) == n
  {
    if n < 10 then ["0123456789"[n]]
    else
      var p := NatToString(n / 10);
      var s := p + ["0123456789"[n % 10]];
      assert s[..|s| - 1] == p;
      s
  }

  // ---------------------------------------------------------------------
  // Accent folding

  /** The base letter of a lower-case Latin-1 letter, or nothing when it has
      none (`æ`, `ð`, `ø`, `þ`, `ß`, and every non-letter). */
  function FoldSmall(c: char): (r: string)
    ensures |r| <= 1 && forall i :: 0 <= i < |r| ==> 'a' <= r[i] <= 'z'
  {
    if c in "àáâãäå" then "a"
    else if c == 'ç' then "c"
    else if c in "èéêë" then "e"
    else if c in "ìíîï" then "i"
    else if c == 'ñ' then "n"
    else if c in "òóôõö" then "o"
    else if c in "ùúûü" then "u"
    else if c in "ýÿ" then "y"
    else []
  }

  /** The ASCII part of the compatibility decomposition of a character
      outside the Latin-1 letters: the spaces of every width and the
      spacing accents become a space, the ordinal indicators, superscript
      and subscript digits, the fractions ¼ ½ ¾, dot leaders, `№`, `™`,
      ligatures and fullwidth forms become their ASCII letters, digits and
      signs; a character without such a decomposition gives nothing. */
  function FoldCompat(c: char): (r: string)
    ensures |r| <= 3 && forall i :: 0 <= i < |r| ==> r[i] < '\U{80}'
  {
    if c == '\U{A0}' || c == '\U{A8}' || c == '\U{AF}' || c == '\U{B4}' || c == '\U{B8}' then " "
    else if ('\U{2000}' <= c <= '\U{200A}') || c == '\U{202F}' || c == '\U{205F}' || c == '\U{3000}' then " "
    else if c == '\U{AA}' then "a"
    else if c == '\U{BA}' then "o"
    else if c == '\U{B9}' then "1"
    else if c == '\U{B2}' then "2"
    else if c == '\U{B3}' then "3"
    else if c == '\U{BC}' then "14"
    else if c == '\U{BD}' then "12"
    else if c == '\U{BE}' then "34"
    else if c == '\U{2024}' then "."
    else if c == '\U{2025}' then ".."
    else if c == '\U{2026}' then "..."
    else if c == '\U{2070}' then "0"
    else if '\U{2074}' <= c <= '\U{2079}' then [(c as int - 0x2074 + '4' as int) as char]
    else if '\U{2080}' <= c <= '\U{2089}' then [(c as int - 0x2080 + '0' as int) as char]
    else if c == '\U{2116}' then "No"
    else if c == '\U{2122}' then "TM"
    else if c == '\U{FB00}' then "ff"
    else if c == '\U{FB01}' then "fi"
    else if c == '\U{FB02}' then "fl"
    else if c == '\U{FB03}' then "ffi"
    else if c == '\U{FB04}' then "ffl"
    else if c == '\U{FB05}' || c == '\U{FB06}' then "st"
    else if '\U{FF01}' <= c <= '\U{FF5E}' then [(c as int - 0xFEE0) as char]
    else []
  }

  /** `unicodedata.normalize("NFKD", c).encode("ascii", "ignore")` for one
      character: ASCII is kept, accented Latin-1 letters lose their accent
      (a capital folds like its lower-case partner, in upper case), other
      characters keep the ASCII part of their compatibility decomposition,
      and a character with none is dropped. A character gives at most
      three. */
  function FoldChar(c: char): (r: string)
    ensures |r| <= 3 && forall i :: 0 <= i < |r| ==> r[i] < '\U{80}'
    ensures c < '\U{80}' ==> r == [c]
  {
    if c < '\U{80}' then [c]
    else if IsLatinCapital(c) then Upper(FoldSmall((c as int + 32) as char))
    else if '\U{DF}' <= c <= '\U{FF}' then FoldSmall(c)
    else FoldCompat(c)
  }

  /** A fullwidth ASCII form folds to its ASCII character. */
  lemma FoldFullwidth(c: char)
    requires '\U{FF01}' <= c <= '\U{FF5E}'
    ensures FoldChar(c) == [(c as int - 0xFEE0) as char]
  {
    assert FoldChar(c) == FoldCompat(c);
  }

  /** The whole text folded character by character: pure ASCII, at most
      three characters for each of the input. */
  function Fold(s: string): (r: string)
    ensures |r| <= 3 * |s| && forall i :: 0 <= i < |r| ==> r[i] < '\U{80}'
  {
    if s == [] then [] else FoldChar(s[0]) + Fold(s[1..])
  }

  /** Folding works character by character: the fold of a concatenation
      is the concatenation of the folds. */
  lemma {:induction false} FoldAppend(a: string, b: string)
    ensures Fold(a + b) == Fold(a) + Fold(b)
  {
    if a == [] {
      assert a + b == b;
    } else {
      assert (a + b)[0] == a[0] && (a + b)[1..] == a[1..] + b;
      FoldAppend(a[1..], b);
    }
  }

  /** Folding leaves ASCII text unchanged. */
  lemma {:induction false} FoldAscii(s: string)
    requires forall i :: 0 <= i < |s| ==> s[i] < '\U{80}'
    ensures Fold(s) == s
  {
    if s != [] {
      FoldAscii(s[1..]);
    }
  }
}
