// The table extractor of the real-time price worker: it turns the HTML tables
// of the statistics page into price points. A table is abstracted as its
// caption and its rows, a row as its cells, and a cell as a header flag (`th`
// or `td`) and the text that `get_text(" ", strip=True)` gives for it.

module InseeScraper {
  import opened Base
  import opened Text

  /** One extracted metric value. `scrapedAt` is a UTC time in microseconds. */
  datatype PricePoint = PricePoint(
    metricUid: string,
    metricName: string,
    geo: string,
    unit: string,
    period: string,
    value: Num,
    source: string,
    sourceUrl: string,
    scrapedAt: int)

  datatype Cell = Cell(isHeader: bool, text: string)
  type Row = seq<Cell>
  /** A table: the stripped text of its `<caption>` (empty when it has
      none) and its rows in document order. */
  datatype Table = Table(caption: string, rows: seq<Row>)

  /** The two series the extractor looks for. */
  datatype Kind = Indices | Yoy

  function KindName(k: Kind): string
  {
    match k
    case Indices => "indices"
    case Yoy => "yoy"
  }

  // =====================================================================
  // Numbers: `_to_float`

  predicate IsNumericChar(c: char)
  {
    IsDigit(c) || c == '.' || c == '-'
  }

  /** `re.sub(r"[^0-9\.\-]", "", s)`. */
  function KeepNumeric(s: string): (r: string)
    ensures forall i :: 0 <= i < |r| ==> IsNumericChar(r[i])
  {
    if s == [] then [] else (if IsNumericChar(s[0]) then [s[0]] else []) + KeepNumeric(s[1..])
  }

  /** Position of the first '.', or |s| when there is none. */
  function DotIndex(s: string): (k: nat)
    ensures k <= |s| && (k < |s| ==> s[k] == '.')
    ensures forall i :: 0 <= i < k ==> s[i] != '.'
  {
    if s == [] then 0 else if s[0] == '.' then 0 else 1 + DotIndex(s[1..])
  }

  /** The value of the fraction digits `frac` written after a decimal
      point: ".25" is 0.25. */
  function FracValue(frac: string): (v: real)
    requires AllDigits(frac)
    ensures 0.0 <= v < 1.0
  {
    if frac == [] then 0.0 else (DigitValue(frac[0]) as real + FracValue(frac[1..])) / 10.0
  }

  /** The value of the literal `whole.frac`. */
  function DecimalValue(whole: string, frac: string): (v: real)
    requires AllDigits(whole) && AllDigits(frac)
    ensures DigitsValue(whole) as real <= v < DigitsValue(whole) as real + 1.0
  {
    DigitsValue(whole) as real + FracValue(frac)
  }

  /** Python's `float()` on an unsigned decimal literal made of digits and at
      most one '.', with at least one digit. */
  function ParseUnsigned(s: string): (r: Option<real>)
    ensures r.Some? ==> r.value >= 0.0
  {
    var k := DotIndex(s);
    var whole := s[..k];
    var frac := if k < |s| then s[k + 1..] else [];
    if AllDigits(whole) && AllDigits(frac) && |whole| + |frac| > 0 then
      Some(DecimalValue(whole, frac))
    else None
  }

  /** Python's `float()` on a string over `[0-9.-]`: an optional leading
      minus sign, then an unsigned literal. Anything else raises. */
  function ParseFloat(s: string): Option<real>
  {
    if s != [] && s[0] == '-' then
      match ParseUnsigned(s[1..])
      case Some(v) => Some(-v)
      case None => None
    else ParseUnsigned(s)
  }

  /** What survives of a character once commas become dots and every
      character outside `[0-9.-]` is dropped. */
  function NumericPart(c: char): string
  {
    if c == ',' then "." else if IsNumericChar(c) then [c] else []
  }

  /** The numeric residue of a cell text: the string `float()` is given. */
  function Numeric(s: string): string
  {
    if s == [] then [] else NumericPart(s[0]) + Numeric(s[1..])
  }

  lemma {:induction false} NumericAppend(a: string, b: string)
    ensures Numeric(a + b) == Numeric(a) + Numeric(b)
  {
    if a != [] {
      calc {
        Numeric(a + b);
        NumericPart((a + b)[0]) + Numeric((a + b)[1..]);
        { assert (a + b)[0] == a[0] && (a + b)[1..] == a[1..] + b; }
        NumericPart(a[0]) + Numeric(a[1..] + b);
        { NumericAppend(a[1..], b); }
        NumericPart(a[0]) + (Numeric(a[1..]) + Numeric(b));
        Numeric(a) + Numeric(b);
      }
    } else {
      assert a + b == b;
    }
  }

  lemma {:induction false} NumericOfSpaces(s: string)
    requires forall i :: 0 <= i < |s| ==> IsSpace(s[i])
    ensures Numeric(s) == []
  {
    if s != [] {
      NumericOfSpaces(s[1..]);
    }
  }

  /** Whitespace around a text contributes nothing to its numeric residue. */
  lemma NumericStrip(s: string)
    ensures Numeric(Strip(s)) == Numeric(s)
  {
    NumericStripLeft(s);
    NumericStripRight(StripLeft(s));
  }

  lemma NumericStripLeft(s: string)
    ensures Numeric(StripLeft(s)) == Numeric(s)
  {
    var l := StripLeft(s);
    StripLeftSpec(s);
    assert s == s[..|s| - |l|] + l;
    NumericAppend(s[..|s| - |l|], l);
    NumericOfSpaces(s[..|s| - |l|]);
  }

  lemma NumericStripRight(s: string)
    ensures Numeric(StripRight(s)) == Numeric(s)
  {
    var r := StripRight(s);
    StripRightSpec(s);
    assert s == r + s[|r|..];
    NumericAppend(r, s[|r|..]);
    NumericOfSpaces(s[|r|..]);
  }

  lemma {:induction false} NumericNoNbsp(s: string)
    ensures Numeric(NoNbsp(s)) == Numeric(s)
  {
    if s != [] {
      assert NoNbsp(s)[1..] == NoNbsp(s[1..]);
      NumericNoNbsp(s[1..]);
    }
  }

  lemma {:induction false} KeepNumericOfCommas(s: string)
    ensures KeepNumeric(ReplaceChar(s, ',', '.')) == Numeric(s)
  {
    if s != [] {
      assert ReplaceChar(s, ',', '.')[1..] == ReplaceChar(s[1..], ',', '.');
      KeepNumericOfCommas(s[1..]);
    }
  }

  /** `_to_float`: `None` for a missing or blank text; otherwise the text
      with NBSP turned into a space and commas into dots, reduced to
      `[0-9.-]` and parsed, `None` when the parse fails. The contract says
      that only the numeric residue of the text decides the result. */
  function ToFloat(s: Option<string>): (r: Option<real>)
    ensures s.None? ==> r.None?
    ensures s.Some? && IsBlank(s.value) ==> r.None?
    ensures s.Some? && !IsBlank(s.value) ==> r == ParseFloat(Numeric(s.value))
  {
    if s.None? then None
    else
      var t := Strip(s.value);
      BlankIffStripsEmpty(s.value);
      if t == [] then None
      else
        var u := Strip(NoNbsp(t));
        var w := KeepNumeric(ReplaceChar(u, ',', '.'));
        assert w == Numeric(s.value) by {
          KeepNumericOfCommas(u);
          NumericStrip(NoNbsp(t));
          NumericNoNbsp(t);
          NumericStrip(s.value);
        }
        ParseFloat(w)
  }

  /** A text with no digit at all never parses. */
  lemma {:induction false} NoDigitNoNumber(s: string)
    requires forall i :: 0 <= i < |s| ==> !IsDigit(s[i])
    ensures ParseFloat(Numeric(s)) == None
  {
    NumericHasNoDigit(s);
  }

  lemma {:induction false} NumericHasNoDigit(s: string)
    requires forall i :: 0 <= i < |s| ==> !IsDigit(s[i])
    ensures forall i :: 0 <= i < |Numeric(s)| ==> !IsDigit(Numeric(s)[i])
  {
    if s != [] {
      NumericHasNoDigit(s[1..]);
    }
  }

  lemma {:induction false} NumericOfDigits(s: string)
    requires AllDigits(s)
    ensures Numeric(s) == s
  {
    if s != [] {
      NumericOfDigits(s[1..]);
    }
  }

  lemma {:induction false} NumericOfNoise(s: string)
    requires forall i :: 0 <= i < |s| ==> !IsNumericChar(s[i]) && s[i] != ','
    ensures Numeric(s) == []
  {
    if s != [] {
      NumericOfNoise(s[1..]);
    }
  }

  lemma NumericOfDecimalComma(whole: string, frac: string, noise: string)
    requires AllDigits(whole) && AllDigits(frac)
    requires forall i :: 0 <= i < |noise| ==> !IsNumericChar(noise[i]) && noise[i] != ','
    ensures Numeric(whole + "," + frac + noise) == whole + "." + frac
  {
    NumericAppend(whole + "," + frac, noise);
    NumericAppend(whole + ",", frac);
    NumericAppend(whole, ",");
    NumericOfDigits(whole);
    NumericOfDigits(frac);
    NumericOfNoise(noise);
    assert Numeric(",") == ".";
  }

  lemma ParseDecimal(whole: string, frac: string)
    requires AllDigits(whole) && AllDigits(frac) && |whole| + |frac| > 0
    ensures ParseFloat(whole + "." + frac) == Some(DecimalValue(whole, frac))
  {
    var n := whole + "." + frac;
    assert n[|whole|] == '.';
    forall i | 0 <= i < |whole|
      ensures n[i] != '.'
    {
      assert n[i] == whole[i];
    }
    assert DotIndex(n) == |whole|;
    assert n[..|whole|] == whole;
    assert n[|whole| + 1..] == frac;
    assert n[0] != '-' by {
      if whole != [] {
        assert n[0] == whole[0];
      }
    }
  }

  /** A leading minus sign negates the value of the literal after it. */
  lemma ParseFloatNegative(n: string)
    ensures ParseFloat("-" + n) == match ParseUnsigned(n)
                                   case Some(v) => Some(-v)
                                   case None => None
  {
    var t := "-" + n;
    assert t[0] == '-' && t[1..] == n;
  }

  /** The French cell format: whole digits, a decimal comma and fraction
      digits, then any decoration without digits, dots, dashes or commas
      (a percent sign, a footnote letter, spaces). The comma is read as the
      decimal point and the decoration is ignored. */
  lemma ToFloatDecimalComma(whole: string, frac: string, noise: string)
    requires AllDigits(whole) && AllDigits(frac) && |whole| + |frac| > 0
    requires forall i :: 0 <= i < |noise| ==> !IsNumericChar(noise[i]) && noise[i] != ','
    ensures ToFloat(Some(whole + "," + frac + noise)) == Some(DecimalValue(whole, frac))
  {
    var s := whole + "," + frac + noise;
    assert !IsBlank(s) by {
      assert s[|whole|] == ',';
    }
    NumericOfDecimalComma(whole, frac, noise);
    ParseDecimal(whole, frac);
  }

  // =====================================================================
  // Periods: `_normalize_period`

  /** `^\d{4}-T[1-4]$`. */
  predicate IsPeriod(p: string)
  {
    |p| == 7 && AllDigits(p[..4]) && p[4] == '-' && p[5] == 'T' && '1' <= p[6] <= '4'
  }

  /** Index of the first non-whitespace character at or after `j`. */
  function SkipSpaces(s: string, j: nat): (k: nat)
    requires j <= |s|
    ensures j <= k <= |s|
    ensures forall i :: j <= i < k ==> IsSpace(s[i])
    ensures k == |s| || !IsSpace(s[k])
    decreases |s| - j
  {
    if j < |s| && IsSpace(s[j]) then SkipSpaces(s, j + 1) else j
  }

  /** The tail `\s*[- ]?\s*T\s*([1-4])` of the year-first pattern, tried at
      `j`; its quarter digit when it matches. The optional separator is a
      dash once the whitespace around it is skipped, and greedy skipping
      loses no match because the next character must be the letter T. */
  function QuarterAfterYear(s: string, j: nat, ignoreCase: bool): (r: Option<char>)
    requires j <= |s|
    ensures r.Some? ==> '1' <= r.value <= '4'
  {
    var a := SkipSpaces(s, j);
    var b := if a < |s| && s[a] == '-' then SkipSpaces(s, a + 1) else a;
    if b < |s| && (s[b] == 'T' || (ignoreCase && s[b] == 't')) then
      var c := SkipSpaces(s, b + 1);
      if c < |s| && '1' <= s[c] <= '4' then Some(s[c]) else None
    else None
  }

  predicate YearAt(s: string, i: nat)
  {
    i + 4 <= |s| && AllDigits(s[i..i + 4])
  }

  /** `re.search(r"(\d{4})\s*[- ]?\s*T\s*([1-4])", s)` from position
      `from`: the year and quarter of the leftmost match. */
  function SearchYearQuarter(s: string, from: nat, ignoreCase: bool): (r: Option<(string, char)>)
    requires from <= |s|
    ensures r.Some? ==> |r.value.0| == 4 && AllDigits(r.value.0) && '1' <= r.value.1 <= '4'
    decreases |s| - from
  {
    if from + 4 > |s| then None
    else if YearAt(s, from) && QuarterAfterYear(s, from + 4, ignoreCase).Some? then
      Some((s[from..from + 4], QuarterAfterYear(s, from + 4, ignoreCase).value))
    else SearchYearQuarter(s, from + 1, ignoreCase)
  }

  /** The pattern `T\s*([1-4])\s*(\d{4})` tried at position `i`. */
  function QuarterYearAt(s: string, i: nat): (r: Option<(string, char)>)
    ensures r.Some? ==> |r.value.0| == 4 && AllDigits(r.value.0) && '1' <= r.value.1 <= '4'
  {
    if i < |s| && s[i] == 'T' then
      var a := SkipSpaces(s, i + 1);
      if a < |s| && '1' <= s[a] <= '4' then
        var b := SkipSpaces(s, a + 1);
        if YearAt(s, b) then Some((s[b..b + 4], s[a])) else None
      else None
    else None
  }

  /** `re.search(r"T\s*([1-4])\s*(\d{4})", s)` from position `from`. */
  function SearchQuarterYear(s: string, from: nat): (r: Option<(string, char)>)
    requires from <= |s|
    ensures r.Some? ==> |r.value.0| == 4 && AllDigits(r.value.0) && '1' <= r.value.1 <= '4'
    decreases |s| - from
  {
    if from == |s| then None
    else if QuarterYearAt(s, from).Some? then QuarterYearAt(s, from)
    else SearchQuarterYear(s, from + 1)
  }

  /** `re.sub(r"\s+", " ", s)`. */
  function CollapseSpaces(s: string): (r: string)
    decreases |s|
  {
    if s == [] then []
    else if IsSpace(s[0]) then
      StripLeftSpec(s[1..]);
      " " + CollapseSpaces(StripLeft(s[1..]))
    else [s[0]] + CollapseSpaces(s[1..])
  }

  /** `_normalize_period`: strip, upper-case, turn whitespace runs into one
      space, then try the year-first pattern and, failing that, the
      quarter-first one. Whatever it returns is a canonical period. */
  function NormalizePeriod(s: string): (r: Option<string>)
    ensures s == [] ==> r.None?
    ensures r.Some? ==> IsPeriod(r.value)
  {
    if s == [] then None
    else
      var u := CollapseSpaces(NoNbsp(Upper(Strip(s))));
      match SearchYearQuarter(u, 0, false)
      case Some((y, q)) => Some(y + "-T" + [q])
      case None =>
        match SearchQuarterYear(u, 0)
        case Some((y, q)) => Some(y + "-T" + [q])
        case None => None
  }

  lemma {:induction false} CollapseWithoutSpaces(s: string)
    requires forall i :: 0 <= i < |s| ==> !IsSpace(s[i])
    ensures CollapseSpaces(s) == s
  {
    if s != [] {
      CollapseWithoutSpaces(s[1..]);
    }
  }

  /** A canonical period has nothing for the cleaning steps to change. */
  lemma PeriodIsClean(p: string)
    requires IsPeriod(p)
    ensures CollapseSpaces(NoNbsp(Upper(Strip(p)))) == p
  {
    assert forall i :: 0 <= i < |p| ==> !IsSpace(p[i]) && UpperChar(p[i]) == p[i] by {
      forall i | 0 <= i < |p|
        ensures !IsSpace(p[i]) && UpperChar(p[i]) == p[i]
      {
        if i < 4 {
          assert p[..4][i] == p[i];
        }
      }
    }
    StripKeeps(p);
    assert Upper(p) == p;
    assert NoNbsp(p) == p;
    CollapseWithoutSpaces(p);
  }

  /** In a canonical period the year-then-quarter pattern matches at the
      start. */
  lemma PeriodMatchesAtStart(p: string)
    requires IsPeriod(p)
    ensures SearchYearQuarter(p, 0, false) == Some((p[0..4], p[6]))
  {
    assert YearAt(p, 0);
    assert QuarterAfterYear(p, 4, false) == Some(p[6]);
  }

  /** `_normalize_period` is idempotent: a canonical period is returned as
      it is, so normalising its own output changes nothing. */
  lemma NormalizePeriodIdempotent(p: string)
    requires IsPeriod(p)
    ensures NormalizePeriod(p) == Some(p)
  {
    PeriodIsClean(p);
    PeriodMatchesAtStart(p);
    assert p[0..4] + "-T" + [p[6]] == p;
  }

  /** Normalising a normalised period again gives the same result. */
  lemma NormalizePeriodTwice(s: string)
    ensures NormalizePeriod(s).Some? ==> NormalizePeriod(NormalizePeriod(s).value) == NormalizePeriod(s)
  {
    if NormalizePeriod(s).Some? {
      NormalizePeriodIdempotent(NormalizePeriod(s).value);
    }
  }

  /** A string whose only whitespace is single plain spaces. */
  predicate SingleSpaced(s: string)
  {
    forall i :: 0 <= i < |s| && IsSpace(s[i]) ==> s[i] == ' ' && (i + 1 < |s| ==> !IsSpace(s[i + 1]))
  }

  lemma {:induction false} CollapseSingleSpaced(s: string)
    requires SingleSpaced(s)
    ensures CollapseSpaces(s) == s
  {
    if s != [] {
      assert SingleSpaced(s[1..]) by {
        forall i | 0 <= i < |s[1..]| && IsSpace(s[1..][i])
          ensures s[1..][i] == ' ' && (i + 1 < |s[1..]| ==> !IsSpace(s[1..][i + 1]))
        {
          assert s[1..][i] == s[i + 1];
        }
      }
      CollapseSingleSpaced(s[1..]);
      if IsSpace(s[0]) {
        StripLeftKeeps(s[1..]);
        assert s == " " + s[1..];
      }
    }
  }

  /** The canonical text a period normaliser works on is left as it is by
      the strip, upper-case, NBSP and whitespace steps. */
  lemma PrepareKeeps(s: string)
    requires s != [] && !IsSpace(s[0]) && !IsSpace(s[|s| - 1])
    requires forall i :: 0 <= i < |s| ==> UpperChar(s[i]) == s[i]
    requires SingleSpaced(s)
    ensures CollapseSpaces(NoNbsp(Upper(Strip(s)))) == s
  {
    StripKeeps(s);
    assert Upper(s) == s;
    assert NoNbsp(s) == s;
    CollapseSingleSpaced(s);
  }

  lemma PrepareYearFirst(y: string, sep: string, q: char)
    requires |y| == 4 && AllDigits(y) && '1' <= q <= '4'
    requires sep == "-" || sep == " " || sep == ""
    ensures CollapseSpaces(NoNbsp(Upper(Strip(y + sep + "T" + [q])))) == y + sep + "T" + [q]
  {
    var s := y + sep + "T" + [q];
    forall i | 0 <= i < |s|
      ensures UpperChar(s[i]) == s[i] && (IsSpace(s[i]) ==> i == 4 && sep == " ")
    {
      if i < 4 {
        assert s[i] == y[i];
      }
    }
    PrepareKeeps(s);
  }

  lemma SearchYearFirst(y: string, sep: string, q: char)
    requires |y| == 4 && AllDigits(y) && '1' <= q <= '4'
    requires sep == "-" || sep == " " || sep == ""
    ensures SearchYearQuarter(y + sep + "T" + [q], 0, false) == Some((y, q))
  {
    var s := y + sep + "T" + [q];
    assert s[0..4] == y;
    assert YearAt(s, 0);
    if sep == "-" {
      assert SkipSpaces(s, 4) == 4 && SkipSpaces(s, 5) == 5 && SkipSpaces(s, 6) == 6;
    } else if sep == " " {
      assert SkipSpaces(s, 4) == 5 && SkipSpaces(s, 6) == 6;
    } else {
      assert SkipSpaces(s, 4) == 4 && SkipSpaces(s, 5) == 5;
    }
    assert QuarterAfterYear(s, 4, false) == Some(q);
  }

  /** The year-first forms "2025-T3", "2025 T3" and "2025T3" all give the
      canonical period. */
  lemma NormalizeYearFirst(y: string, sep: string, q: char)
    requires |y| == 4 && AllDigits(y) && '1' <= q <= '4'
    requires sep == "-" || sep == " " || sep == ""
    ensures NormalizePeriod(y + sep + "T" + [q]) == Some(y + "-T" + [q])
  {
    PrepareYearFirst(y, sep, q);
    SearchYearFirst(y, sep, q);
  }

  lemma SearchQuarterFirst(y: string, q: char)
    requires |y| == 4 && AllDigits(y) && '1' <= q <= '4'
    ensures SearchYearQuarter("T" + [q] + " " + y, 0, false) == None
    ensures SearchQuarterYear("T" + [q] + " " + y, 0) == Some((y, q))
  {
    var s := "T" + [q] + " " + y;
    assert s[0] == 'T' && s[1] == q && s[2] == ' ' && s[3..7] == y;
    assert !IsDigit(s[0]) && !IsDigit(s[2]);
    assert !YearAt(s, 0) by { assert s[0..4][0] == s[0]; }
    assert !YearAt(s, 1) by { assert s[1..5][1] == s[2]; }
    assert !YearAt(s, 2) by { assert s[2..6][0] == s[2]; }
    assert SkipSpaces(s, 7) == 7;
    assert QuarterAfterYear(s, 7, false) == None;
    assert SearchYearQuarter(s, 4, false) == None;
    assert SearchYearQuarter(s, 3, false) == None;
    assert SearchYearQuarter(s, 2, false) == None;
    assert SearchYearQuarter(s, 1, false) == None;
    assert SkipSpaces(s, 1) == 1;
    assert SkipSpaces(s, 2) == 3;
    assert YearAt(s, 3);
    assert QuarterYearAt(s, 0) == Some((y, q));
  }

  /** The quarter-first form "T3 2025" gives the canonical period. */
  lemma NormalizeQuarterFirst(y: string, q: char)
    requires |y| == 4 && AllDigits(y) && '1' <= q <= '4'
    ensures NormalizePeriod("T" + [q] + " " + y) == Some(y + "-T" + [q])
  {
    var s := "T" + [q] + " " + y;
    forall i | 0 <= i < |s|
      ensures UpperChar(s[i]) == s[i] && (IsSpace(s[i]) ==> i == 2)
    {
      if i >= 3 {
        assert s[i] == y[i - 3];
      }
    }
    PrepareKeeps(s);
    SearchQuarterFirst(y, q);
  }

  // =====================================================================
  // Column slugs: `_slugify`

  predicate IsSlugChar(c: char)
  {
    'a' <= c <= 'z' || '0' <= c <= '9'
  }

  predicate NoDoubleUnderscore(s: string)
  {
    forall i :: 0 <= i < |s| - 1 ==> !(s[i] == '_' && s[i + 1] == '_')
  }

  /** The shape of every slug: non-empty, over `[a-z0-9_]`, with no leading,
      trailing or doubled underscore. */
  predicate IsSlug(s: string)
  {
    && s != []
    && (forall i :: 0 <= i < |s| ==> IsSlugChar(s[i]) || s[i] == '_')
    && s[0] != '_' && s[|s| - 1] != '_'
    && NoDoubleUnderscore(s)
  }

  /** The slug characters of a text, in order. */
  function Alnums(s: string): (r: string)
    ensures forall i :: 0 <= i < |r| ==> IsSlugChar(r[i])
  {
    if s == [] then [] else (if IsSlugChar(s[0]) then [s[0]] else []) + Alnums(s[1..])
  }

  /** `re.sub(r"[^a-z0-9]+", "_", s)`; `inRun` says whether the previous
      character already began a replaced run. A run becomes one underscore,
      so the result never holds two underscores in a row. */
  function Underscore(s: string, inRun: bool): (r: string)
    ensures forall i :: 0 <= i < |r| ==> IsSlugChar(r[i]) || r[i] == '_'
    ensures Alnums(r) == Alnums(s)
    ensures NoDoubleUnderscore(r)
    ensures inRun && r != [] ==> r[0] != '_'
    decreases |s|
  {
    if s == [] then []
    else
      AlnumsAppend([s[0]], s[1..]);
      assert s == [s[0]] + s[1..];
      if IsSlugChar(s[0]) then [s[0]] + Underscore(s[1..], false)
      else if inRun then Underscore(s[1..], true)
      else "_" + Underscore(s[1..], true)
  }

  /** `re.sub(r"_+", "_", s)`. */
  function Squash(s: string): (r: string)
    ensures NoDoubleUnderscore(r)
    ensures Alnums(r) == Alnums(s)
    ensures r != [] ==> s != [] && r[0] == s[0]
    decreases |s|
  {
    if s == [] then []
    else
      AlnumsAppend([s[0]], s[1..]);
      assert s == [s[0]] + s[1..];
      if |s| >= 2 && s[0] == '_' && s[1] == '_' then Squash(s[1..])
      else [s[0]] + Squash(s[1..])
  }

  /** The underscore runs `Underscore` leaves are single already, so the
      squeezing step of `_slugify` never changes anything. */
  lemma {:induction false} SquashKeeps(s: string)
    requires NoDoubleUnderscore(s)
    ensures Squash(s) == s
  {
    if s != [] {
      SquashKeeps(s[1..]);
    }
  }

  lemma {:induction false} AlnumsAppend(a: string, b: string)
    ensures Alnums(a + b) == Alnums(a) + Alnums(b)
  {
    if a != [] {
      calc {
        Alnums(a + b);
        { assert (a + b)[0] == a[0] && (a + b)[1..] == a[1..] + b; }
        (if IsSlugChar(a[0]) then [a[0]] else []) + Alnums(a[1..] + b);
        { AlnumsAppend(a[1..], b); }
        (if IsSlugChar(a[0]) then [a[0]] else []) + (Alnums(a[1..]) + Alnums(b));
        Alnums(a) + Alnums(b);
      }
    } else {
      assert a + b == b;
    }
  }

  lemma {:induction false} AlnumsOfUnderscores(s: string)
    requires forall i :: 0 <= i < |s| ==> s[i] == '_'
    ensures Alnums(s) == []
  {
    if s != [] {
      AlnumsOfUnderscores(s[1..]);
    }
  }

  /** `s.lstrip("_")`. */
  function DropUnderscores(s: string): (r: string)
    ensures |r| <= |s| && r == s[|s| - |r|..]
    ensures r == [] || r[0] != '_'
    ensures forall i :: 0 <= i < |s| - |r| ==> s[i] == '_'
  {
    if s != [] && s[0] == '_' then DropUnderscores(s[1..]) else s
  }

  /** `s.rstrip("_")`. */
  function DropTrailingUnderscores(s: string): (r: string)
    ensures |r| <= |s| && r == s[..|r|]
    ensures r == [] || r[|r| - 1] != '_'
    ensures forall i :: |r| <= i < |s| ==> s[i] == '_'
  {
    if s != [] && s[|s| - 1] == '_' then DropTrailingUnderscores(s[..|s| - 1]) else s
  }

  /** `s.strip("_")`. */
  function TrimUnderscores(s: string): string
  {
    DropTrailingUnderscores(DropUnderscores(s))
  }

  /** Trimming gives a slice of `s` that neither starts nor ends with an
      underscore and keeps every letter and digit of `s`. */
  lemma TrimUnderscoresSpec(s: string)
    ensures var r := TrimUnderscores(s);
            && (r == [] || (r[0] != '_' && r[|r| - 1] != '_'))
            && |r| <= |DropUnderscores(s)| && r == DropUnderscores(s)[..|r|]
            && Alnums(r) == Alnums(s)
  {
    var l := DropUnderscores(s);
    var r := DropTrailingUnderscores(l);
    if r != [] {
      assert r[0] == l[0];
    }
    AlnumsDropUnderscores(s);
    AlnumsDropTrailingUnderscores(l);
  }

  lemma AlnumsDropUnderscores(s: string)
    ensures Alnums(DropUnderscores(s)) == Alnums(s)
  {
    var l := DropUnderscores(s);
    assert s == s[..|s| - |l|] + l;
    AlnumsAppend(s[..|s| - |l|], l);
    AlnumsOfUnderscores(s[..|s| - |l|]);
  }

  lemma AlnumsDropTrailingUnderscores(s: string)
    ensures Alnums(DropTrailingUnderscores(s)) == Alnums(s)
  {
    var r := DropTrailingUnderscores(s);
    assert s == r + s[|r|..];
    AlnumsAppend(r, s[|r|..]);
    AlnumsOfUnderscores(s[|r|..]);
  }

  lemma SliceNoDoubleUnderscore(s: string, a: nat, b: nat)
    requires a <= b <= |s| && NoDoubleUnderscore(s)
    ensures NoDoubleUnderscore(s[a..b])
  {
    forall i | 0 <= i < b - a - 1
      ensures !(s[a..b][i] == '_' && s[a..b][i + 1] == '_')
    {
      assert s[a..b][i] == s[a + i] && s[a..b][i + 1] == s[a + i + 1];
    }
  }

  /** `_slugify`: strip, lower-case, fold accents, replace every run of
      characters outside `[a-z0-9]` by one underscore, squeeze and trim the
      underscores, and fall back to "col". The result is a well-formed slug
      that keeps exactly the letters and digits of the folded label. */
  function Slugify(text: string): (r: string)
    ensures IsSlug(r)
    ensures var core := Alnums(Fold(Lower(Strip(text))));
            if core == [] then r == "col" else Alnums(r) == core
  {
    var trimmed := TrimUnderscores(Squash(Underscore(Fold(Lower(Strip(text))), false)));
    SlugifyParts(Fold(Lower(Strip(text))));
    if trimmed == [] then
      FallbackIsSlug();
      "col"
    else
      trimmed
  }

  lemma FallbackIsSlug()
    ensures IsSlug("col")
  {
    assert IsSlugChar('c') && IsSlugChar('o') && IsSlugChar('l');
  }

  /** The underscored, squeezed and trimmed text is empty exactly when the
      text has no letter or digit, and is a slug with the same letters and
      digits otherwise. */
  lemma SlugifyParts(s: string)
    ensures var t := TrimUnderscores(Squash(Underscore(s, false)));
            && (t == [] <==> Alnums(s) == [])
            && (t != [] ==> IsSlug(t) && Alnums(t) == Alnums(s))
  {
    TrimmedIsSlug(Underscore(s, false));
  }

  /** Letters and digits go through `Underscore` unchanged. */
  lemma {:induction false} UnderscoreKeepsSlugChars(b: string, inRun: bool)
    requires forall i :: 0 <= i < |b| ==> IsSlugChar(b[i])
    ensures Underscore(b, inRun) == b
    decreases |b|
  {
    if b != [] {
      UnderscoreKeepsSlugChars(b[1..], false);
      assert b == [b[0]] + b[1..];
    }
  }

  /** A leading word of letters and digits is kept as it is, and ends any
      run of replaced characters. */
  lemma {:induction false} UnderscoreWordPrefix(a: string, s: string)
    requires forall i :: 0 <= i < |a| ==> IsSlugChar(a[i])
    ensures Underscore(a + s, false) == a + Underscore(s, false)
    decreases |a|
  {
    if a == [] {
      assert a + s == s;
    } else {
      var u := Underscore(s, false);
      ConsAppend(a, s);
      UnderscoreSlugChar(a[0], a[1..] + s);
      UnderscoreWordPrefix(a[1..], s);
      ConsAppend(a, u);
    }
  }

  lemma ConsAppend(a: string, s: string)
    requires a != []
    ensures [a[0]] + (a[1..] + s) == a + s
  {
  }

  lemma UnderscoreSlugChar(c: char, s: string)
    requires IsSlugChar(c)
    ensures Underscore([c] + s, false) == [c] + Underscore(s, false)
  {
    assert ([c] + s)[0] == c && ([c] + s)[1..] == s;
  }

  /** A run of characters outside `[a-z0-9]` becomes one underscore, or
      nothing when a run is already open. */
  lemma {:induction false} UnderscoreRun(c: string, s: string, inRun: bool)
    requires c != [] && forall i :: 0 <= i < |c| ==> !IsSlugChar(c[i])
    ensures Underscore(c + s, inRun) == (if inRun then [] else "_") + Underscore(s, true)
    decreases |c|
  {
    assert (c + s)[0] == c[0] && (c + s)[1..] == c[1..] + s;
    if |c| > 1 {
      UnderscoreRun(c[1..], s, true);
    } else {
      assert c[1..] + s == s;
    }
  }

  /** Two words separated by a run of other characters come out joined by
      a single underscore. */
  lemma UnderscoreSeparates(a: string, c: string, b: string)
    requires forall i :: 0 <= i < |a| ==> IsSlugChar(a[i])
    requires forall i :: 0 <= i < |b| ==> IsSlugChar(b[i])
    requires c != [] && forall i :: 0 <= i < |c| ==> !IsSlugChar(c[i])
    ensures Underscore(a + c + b, false) == a + "_" + b
  {
    assert a + c + b == a + (c + b);
    UnderscoreWordPrefix(a, c + b);
    UnderscoreRun(c, b, false);
    UnderscoreKeepsSlugChars(b, true);
  }

  /** A label that folds to two words of letters and digits around a run
      of other characters slugs to the two words joined by one
      underscore. */
  lemma SlugifyJoinsWords(text: string, a: string, c: string, b: string)
    requires Fold(Lower(Strip(text))) == a + c + b
    requires a != [] && forall i :: 0 <= i < |a| ==> IsSlugChar(a[i])
    requires b != [] && forall i :: 0 <= i < |b| ==> IsSlugChar(b[i])
    requires c != [] && forall i :: 0 <= i < |c| ==> !IsSlugChar(c[i])
    ensures Slugify(text) == a + "_" + b
  {
    var u := a + "_" + b;
    UnderscoreSeparates(a, c, b);
    SquashKeeps(u);
    assert u[0] == a[0] && u[|u| - 1] == b[|b| - 1];
    assert DropUnderscores(u) == u;
    assert DropTrailingUnderscores(u) == u;
  }

  /** Two words joined by a non-breaking space, as in "prix\xa0moyen",
      slug to the words joined by an underscore: the space folds to an
      ordinary space, which the underscore then replaces. */
  lemma SlugifyNbspJoins(a: string, b: string)
    requires a != [] && forall i :: 0 <= i < |a| ==> IsSlugChar(a[i])
    requires b != [] && forall i :: 0 <= i < |b| ==> IsSlugChar(b[i])
    ensures Slugify(a + "\U{A0}" + b) == a + "_" + b
  {
    var t := a + "\U{A0}" + b;
    assert Lower(Strip(t)) == t by {
      assert t[0] == a[0] && t[|t| - 1] == b[|b| - 1];
      StripKeeps(t);
    }
    FoldNbspJoins(a, b);
    SlugifyJoinsWords(t, a, " ", b);
  }

  lemma FoldNbspJoins(a: string, b: string)
    requires forall i :: 0 <= i < |a| ==> a[i] < '\U{80}'
    requires forall i :: 0 <= i < |b| ==> b[i] < '\U{80}'
    ensures Fold(a + "\U{A0}" + b) == a + " " + b
  {
    var n := "\U{A0}";
    assert Fold(n) == " " by {
      assert n[1..] == [];
      assert Fold(n) == FoldChar(n[0]) + Fold([]);
    }
    assert Fold(a + n) == a + " " by {
      FoldAppend(a, n);
      FoldAscii(a);
    }
    FoldAppend(a + n, b);
    FoldAscii(b);
  }

  predicate SlugText(s: string)
  {
    (forall i :: 0 <= i < |s| ==> IsSlugChar(s[i]) || s[i] == '_') && NoDoubleUnderscore(s)
  }

  lemma SliceSlugText(s: string, a: nat, b: nat)
    requires a <= b <= |s| && SlugText(s)
    ensures SlugText(s[a..b])
  {
    SliceNoDoubleUnderscore(s, a, b);
    forall i | 0 <= i < b - a
      ensures IsSlugChar(s[a..b][i]) || s[a..b][i] == '_'
    {
      assert s[a..b][i] == s[a + i];
    }
  }

  lemma TrimmedSlugText(u: string)
    requires SlugText(u)
    ensures SlugText(TrimUnderscores(u))
  {
    var l := DropUnderscores(u);
    SliceSlugText(u, |u| - |l|, |u|);
    assert SlugText(l);
    var t := TrimUnderscores(u);
    TrimUnderscoresSpec(u);
    SliceSlugText(l, 0, |t|);
    assert l[0..|t|] == t;
  }

  /** Squeezing and trimming the output of the run replacement leaves either
      nothing or a well-formed slug, with the same letters and digits. */
  lemma TrimmedIsSlug(u: string)
    requires SlugText(u)
    ensures var t := TrimUnderscores(Squash(u));
            Alnums(t) == Alnums(u) && (t == [] <==> Alnums(u) == []) && (t != [] ==> IsSlug(t))
  {
    SquashKeeps(u);
    var t := TrimUnderscores(u);
    TrimUnderscoresSpec(u);
    TrimmedSlugText(u);
    if t != [] {
      assert IsSlugChar(t[0]);
      assert Alnums(t) == [t[0]] + Alnums(t[1..]);
    }
  }

  // =====================================================================
  // Geography: `_infer_geo`

  predicate MentionsIdf(l: string)
  {
    Contains(l, "ile-de-france") || Contains(l, "île-de-france") || Contains(l, "idf")
  }

  /** `_infer_geo`: substring checks on the lower-cased label, in the order
      IDF, PROVINCE, FR, NA. */
  function InferGeo(header: string): (g: string)
    ensures g in {"IDF", "PROVINCE", "FR", "NA"}
  {
    var l := Lower(header);
    if MentionsIdf(l) then "IDF"
    else if Contains(l, "province") then "PROVINCE"
    else if Contains(l, "france") then "FR"
    else "NA"
  }

  /** The checks are ordered: a label naming the Paris region is IDF even
      though it also contains "france", and FR is given only to labels that
      mention France and neither of the other two. */
  lemma InferGeoPrecedence(header: string)
    ensures MentionsIdf(Lower(header)) ==> InferGeo(header) == "IDF"
    ensures InferGeo(header) == "FR" <==>
              Contains(Lower(header), "france") && !MentionsIdf(Lower(header)) && !Contains(Lower(header), "province")
    ensures InferGeo(header) == "NA" ==> !Contains(Lower(header), "france")
  {
  }

  lemma InferGeoRegion()
    ensures InferGeo("Île-de-France") == "IDF"
  {
    assert Lower("Île-de-France") == "île-de-france";
    assert StartsWith("île-de-france", "île-de-france");
  }

  // =====================================================================
  // Scoring: `_table_full_text`, `_score_table`

  /** The non-empty cell texts of a row, in order. */
  function RowTexts(r: Row): (texts: seq<string>)
    ensures forall i :: 0 <= i < |texts| ==> texts[i] != []
  {
    if r == [] then []
    else (if r[0].text != [] then [r[0].text] else []) + RowTexts(r[1..])
  }

  function CellTexts(t: seq<Row>): (texts: seq<string>)
    ensures forall i :: 0 <= i < |texts| ==> texts[i] != []
  {
    if t == [] then [] else RowTexts(t[0]) + CellTexts(t[1..])
  }

  /** The text strings of a table in document order: the caption, then
      the cells. */
  function TableTexts(t: Table): seq<string>
  {
    (if t.caption != [] then [t.caption] else []) + CellTexts(t.rows)
  }

  /** `_table_full_text(table).lower()`: the caption and cell texts joined
      by single spaces, NBSP turned into a space, lower-cased. */
  function ScoreText(t: Table): string
  {
    Lower(NoNbsp(Join(TableTexts(t), " ")))
  }

  /** The caption is scored with the cells: a keyword of the caption is a
      keyword of the table. */
  lemma CaptionScored(t: Table, kw: string)
    requires Contains(Lower(NoNbsp(t.caption)), kw)
    ensures Contains(ScoreText(t), kw)
  {
    var texts := TableTexts(t);
    if t.caption == [] {
      ContainsAt(Lower(NoNbsp(t.caption)), kw);
      assert StartsWith(ScoreText(t), kw);
    } else {
      var rest := if |texts| == 1 then [] else " " + Join(texts[1..], " ");
      assert texts[0] == t.caption;
      assert Join(texts, " ") == t.caption + rest;
      LowerNoNbspAppend(t.caption, rest);
      ContainsAppend(Lower(NoNbsp(t.caption)), Lower(NoNbsp(rest)), kw);
    }
  }

  lemma LowerNoNbspAppend(a: string, b: string)
    ensures Lower(NoNbsp(a + b)) == Lower(NoNbsp(a)) + Lower(NoNbsp(b))
  {
    var l, r := Lower(NoNbsp(a + b)), Lower(NoNbsp(a)) + Lower(NoNbsp(b));
    forall i | 0 <= i < |l|
      ensures l[i] == r[i]
    {
      if i < |a| {
        assert (a + b)[i] == a[i];
      } else {
        assert (a + b)[i] == b[i - |a|];
      }
    }
  }

  /** Text found in a prefix is found in the whole. */
  lemma ContainsAppend(a: string, b: string, kw: string)
    requires Contains(a, kw)
    ensures Contains(a + b, kw)
  {
    ContainsAt(a, kw);
    ContainsAt(a + b, kw);
    var i :| OccursAt(a, kw, i);
    assert (a + b)[i..i + |kw|] == a[i..i + |kw|];
    assert OccursAt(a + b, kw, i);
  }

  /** `_score_table`: keyword weights for the kind, plus 2 for a
      quarter-like token anywhere (the pattern is matched ignoring case). */
  function ScoreTable(t: Table, kind: Kind): (score: nat)
    ensures score <= 15
  {
    var txt := ScoreText(t);
    var common := if Contains(txt, "logements anciens") then 3 else 0;
    var specific :=
      match kind
      case Indices =>
        (if Contains(txt, "indice") || Contains(txt, "indices") then 3 else 0)
        + (if Contains(txt, "base") && Contains(txt, "100") then 1 else 0)
        + (if Contains(txt, "ile-de-france") || Contains(txt, "île-de-france") then 2 else 0)
        + (if Contains(txt, "province") then 2 else 0)
        + (if Contains(txt, "appartement") then 1 else 0)
        + (if Contains(txt, "maison") then 1 else 0)
      case Yoy =>
        (if Contains(txt, "variation") then 3 else 0)
        + (if Contains(txt, "sur un an") || Contains(txt, "annuelle") then 2 else 0)
        + (if Contains(txt, "%") || Contains(txt, "pourcentage") then 1 else 0)
        + (if Contains(txt, "france") then 2 else 0)
        + (if Contains(txt, "appartement") then 1 else 0)
        + (if Contains(txt, "maison") then 1 else 0);
    var quarter := if SearchYearQuarter(txt, 0, true).Some? then 2 else 0;
    common + specific + quarter
  }

  /** A scoring rule as a table: it fires when the text contains one of
      `anyOf` and every word of `allOf`, and then adds `weight`. */
  datatype Rule = Rule(anyOf: seq<string>, allOf: seq<string>, weight: nat)

  predicate ContainsAny(txt: string, words: seq<string>)
  {
    words != [] && (Contains(txt, words[0]) || ContainsAny(txt, words[1..]))
  }

  predicate ContainsAll(txt: string, words: seq<string>)
  {
    words == [] || (Contains(txt, words[0]) && ContainsAll(txt, words[1..]))
  }

  predicate Fires(txt: string, rule: Rule)
  {
    ContainsAny(txt, rule.anyOf) && ContainsAll(txt, rule.allOf)
  }

  /** The keyword rules of each kind, written out as data. */
  function Rules(kind: Kind): seq<Rule>
  {
    match kind
    case Indices => [
      Rule(["logements anciens"], [], 3),
      Rule(["indice", "indices"], [], 3),
      Rule(["base"], ["100"], 1),
      Rule(["ile-de-france", "île-de-france"], [], 2),
      Rule(["province"], [], 2),
      Rule(["appartement"], [], 1),
      Rule(["maison"], [], 1)]
    case Yoy => [
      Rule(["logements anciens"], [], 3),
      Rule(["variation"], [], 3),
      Rule(["sur un an", "annuelle"], [], 2),
      Rule(["%", "pourcentage"], [], 1),
      Rule(["france"], [], 2),
      Rule(["appartement"], [], 1),
      Rule(["maison"], [], 1)]
  }

  function RulesScore(txt: string, rules: seq<Rule>): nat
  {
    if rules == [] then 0
    else (if Fires(txt, rules[0]) then rules[0].weight else 0) + RulesScore(txt, rules[1..])
  }

  function FiredCount(txt: string, rules: seq<Rule>): (n: nat)
    ensures n <= |rules|
  {
    if rules == [] then 0
    else (if Fires(txt, rules[0]) then 1 else 0) + FiredCount(txt, rules[1..])
  }

  lemma FiresOne(txt: string, w: string, weight: nat)
    ensures Fires(txt, Rule([w], [], weight)) <==> Contains(txt, w)
  {
    assert [w][1..] == [];
    assert !ContainsAny(txt, []);
  }

  lemma FiresEither(txt: string, w1: string, w2: string, weight: nat)
    ensures Fires(txt, Rule([w1, w2], [], weight)) <==> Contains(txt, w1) || Contains(txt, w2)
  {
    assert [w1, w2][1..] == [w2];
    FiresOne(txt, w2, weight);
  }

  lemma FiresBoth(txt: string, w1: string, w2: string, weight: nat)
    ensures Fires(txt, Rule([w1], [w2], weight)) <==> Contains(txt, w1) && Contains(txt, w2)
  {
    FiresOne(txt, w1, weight);
    assert [w2][1..] == [];
    assert ContainsAll(txt, []);
  }

  lemma RulesScoreOfSeven(txt: string, rs: seq<Rule>)
    requires |rs| == 7
    ensures RulesScore(txt, rs)
              == (if Fires(txt, rs[0]) then rs[0].weight else 0) + (if Fires(txt, rs[1]) then rs[1].weight else 0)
                 + (if Fires(txt, rs[2]) then rs[2].weight else 0) + (if Fires(txt, rs[3]) then rs[3].weight else 0)
                 + (if Fires(txt, rs[4]) then rs[4].weight else 0) + (if Fires(txt, rs[5]) then rs[5].weight else 0)
                 + (if Fires(txt, rs[6]) then rs[6].weight else 0)
  {
    var w := seq(7, i requires 0 <= i < 7 => if Fires(txt, rs[i]) then rs[i].weight else 0);
    assert RulesScore(txt, rs[7..]) == 0;
    assert RulesScore(txt, rs[6..]) == w[6] by { assert rs[6..][0] == rs[6] && rs[6..][1..] == rs[7..]; }
    assert RulesScore(txt, rs[5..]) == w[5] + w[6] by { assert rs[5..][0] == rs[5] && rs[5..][1..] == rs[6..]; }
    assert RulesScore(txt, rs[4..]) == w[4] + w[5] + w[6] by { assert rs[4..][0] == rs[4] && rs[4..][1..] == rs[5..]; }
    assert RulesScore(txt, rs[3..]) == w[3] + w[4] + w[5] + w[6] by { assert rs[3..][0] == rs[3] && rs[3..][1..] == rs[4..]; }
    assert RulesScore(txt, rs[2..]) == w[2] + w[3] + w[4] + w[5] + w[6] by { assert rs[2..][0] == rs[2] && rs[2..][1..] == rs[3..]; }
    assert RulesScore(txt, rs[1..]) == w[1] + w[2] + w[3] + w[4] + w[5] + w[6] by { assert rs[1..][0] == rs[1] && rs[1..][1..] == rs[2..]; }
  }

  /** The score is the sum of the weights of the rules that fire, plus the
      bonus for a quarter-like token. */
  lemma ScoreIsRuleSum(t: Table, kind: Kind)
    ensures ScoreTable(t, kind)
              == RulesScore(ScoreText(t), Rules(kind))
                 + (if SearchYearQuarter(ScoreText(t), 0, true).Some? then 2 else 0)
  {
    match kind
    case Indices => IndicesScoreIsRuleSum(t);
    case Yoy => YoyScoreIsRuleSum(t);
  }

  lemma IndicesScoreIsRuleSum(t: Table)
    ensures ScoreTable(t, Indices)
              == RulesScore(ScoreText(t), Rules(Indices))
                 + (if SearchYearQuarter(ScoreText(t), 0, true).Some? then 2 else 0)
  {
    var txt := ScoreText(t);
    RulesScoreOfSeven(txt, Rules(Indices));
    FiresOne(txt, "logements anciens", 3);
    FiresOne(txt, "appartement", 1);
    FiresOne(txt, "maison", 1);
    FiresEither(txt, "indice", "indices", 3);
    FiresBoth(txt, "base", "100", 1);
    FiresEither(txt, "ile-de-france", "île-de-france", 2);
    FiresOne(txt, "province", 2);
  }

  lemma YoyScoreIsRuleSum(t: Table)
    ensures ScoreTable(t, Yoy)
              == RulesScore(ScoreText(t), Rules(Yoy))
                 + (if SearchYearQuarter(ScoreText(t), 0, true).Some? then 2 else 0)
  {
    var txt := ScoreText(t);
    RulesScoreOfSeven(txt, Rules(Yoy));
    FiresOne(txt, "logements anciens", 3);
    FiresOne(txt, "appartement", 1);
    FiresOne(txt, "maison", 1);
    FiresOne(txt, "variation", 3);
    FiresEither(txt, "sur un an", "annuelle", 2);
    FiresEither(txt, "%", "pourcentage", 1);
    FiresOne(txt, "france", 2);
  }

  lemma {:induction false} RulesScoreBound(txt: string, rules: seq<Rule>)
    requires forall i :: 0 <= i < |rules| ==> rules[i].weight <= 3
    ensures RulesScore(txt, rules) <= 3 * FiredCount(txt, rules)
  {
    if rules != [] {
      RulesScoreBound(txt, rules[1..]);
    }
  }

  /** Every weight is at most 3 and the quarter bonus is 2, so a table
      reaches the selection threshold of 4 only when at least two of its
      signals are present: no single keyword, and no quarter token alone,
      makes a table eligible. */
  lemma ThresholdNeedsTwoSignals(t: Table, kind: Kind)
    requires ScoreTable(t, kind) >= 4
    ensures FiredCount(ScoreText(t), Rules(kind))
            + (if SearchYearQuarter(ScoreText(t), 0, true).Some? then 1 else 0) >= 2
  {
    ScoreIsRuleSum(t, kind);
    RulesScoreBound(ScoreText(t), Rules(kind));
  }

  /** The score of every table for the kind, in page order; none exceeds
      15. */
  function Scores(tables: seq<Table>, kind: Kind): (s: seq<nat>)
    ensures |s| == |tables| && forall i :: 0 <= i < |tables| ==> s[i] == ScoreTable(tables[i], kind)
    ensures forall i :: 0 <= i < |s| ==> s[i] <= 15
  {
    seq(|tables|, i requires 0 <= i < |tables| => ScoreTable(tables[i], kind))
  }

  /** The head of `sorted(..., key=score, reverse=True)`: Python's sort is
      stable, so among the best-scored tables the first one wins. */
  function BestIndex(scores: seq<nat>): (k: nat)
    requires scores != []
    ensures k < |scores|
    ensures forall i :: 0 <= i < |scores| ==> scores[i] <= scores[k]
    ensures forall i :: 0 <= i < k ==> scores[i] < scores[k]
  {
    if |scores| == 1 then 0
    else
      var k := BestIndex(scores[..|scores| - 1]);
      if scores[|scores| - 1] > scores[k] then |scores| - 1 else k
  }

  // =====================================================================
  // Header row: `_extract_headers`

  /** The texts of a row's cells with NBSP turned into spaces. */
  function Texts(r: Row): (texts: seq<string>)
    ensures |texts| == |r| && forall i :: 0 <= i < |r| ==> texts[i] == NoNbsp(r[i].text)
  {
    seq(|r|, i requires 0 <= i < |r| => NoNbsp(r[i].text))
  }

  /** A row with `th` cells and no `td` cell. */
  predicate IsHeaderRow(r: Row)
  {
    r != [] && forall i :: 0 <= i < |r| ==> r[i].isHeader
  }

  /** The labels of every header row, in document order. */
  function Candidates(t: seq<Row>): seq<seq<string>>
  {
    if t == [] then []
    else Candidates(t[..|t| - 1]) + (if IsHeaderRow(t[|t| - 1]) then [Texts(t[|t| - 1])] else [])
  }

  /** The last candidate with at least two labels. */
  function LastWide(cands: seq<seq<string>>): (r: Option<seq<string>>)
    ensures r.Some? ==> |r.value| >= 2
  {
    if cands == [] then None
    else if |cands[|cands| - 1]| >= 2 then Some(cands[|cands| - 1])
    else LastWide(cands[..|cands| - 1])
  }

  /** The texts of every `th` cell of the table, row by row. */
  function AllHeaderTexts(t: seq<Row>): seq<string>
  {
    if t == [] then []
    else AllHeaderTexts(t[..|t| - 1]) + HeaderTexts(t[|t| - 1])
  }

  function HeaderTexts(r: Row): seq<string>
  {
    if r == [] then []
    else HeaderTexts(r[..|r| - 1]) + (if r[|r| - 1].isHeader then [NoNbsp(r[|r| - 1].text)] else [])
  }

  function Headers(t: seq<Row>): seq<string>
  {
    match LastWide(Candidates(t))
    case Some(labels) => labels
    case None => AllHeaderTexts(t)
  }

  predicate WideHeaderRow(r: Row)
  {
    IsHeaderRow(r) && |r| >= 2
  }

  /** The header labels are those of the last header row with two cells or
      more; when no such row exists they are all the `th` texts of the
      table. */
  lemma {:induction false} HeadersFromLastWideRow(t: seq<Row>)
    ensures (forall k :: 0 <= k < |t| ==> !WideHeaderRow(t[k])) ==> Headers(t) == AllHeaderTexts(t)
    ensures forall k :: 0 <= k < |t| && WideHeaderRow(t[k]) && (forall j :: k < j < |t| ==> !WideHeaderRow(t[j]))
              ==> Headers(t) == Texts(t[k])
  {
    LastWideOfCandidates(t);
  }

  lemma {:induction false} LastWideOfCandidates(t: seq<Row>)
    ensures (forall k :: 0 <= k < |t| ==> !WideHeaderRow(t[k])) ==> LastWide(Candidates(t)).None?
    ensures forall k :: 0 <= k < |t| && WideHeaderRow(t[k]) && (forall j :: k < j < |t| ==> !WideHeaderRow(t[j]))
              ==> LastWide(Candidates(t)) == Some(Texts(t[k]))
  {
    if t != [] {
      var p := t[..|t| - 1];
      var last := t[|t| - 1];
      LastWideOfCandidates(p);
      var c := Candidates(t);
      if IsHeaderRow(last) {
        assert c[..|c| - 1] == Candidates(p);
      } else {
        assert c == Candidates(p);
      }
      forall k | 0 <= k < |p| ensures p[k] == t[k] {}
    }
  }

  method ExtractHeaders(t: seq<Row>) returns (labels: seq<string>)
    ensures labels == Headers(t)
  {
    var candidates: seq<seq<string>> := [];
    var i := 0;
    while i < |t|
      invariant 0 <= i <= |t|
      invariant candidates == Candidates(t[..i])
    {
      assert t[..i + 1][..i] == t[..i];
      if IsHeaderRow(t[i]) {
        candidates := candidates + [Texts(t[i])];
      }
      i := i + 1;
    }
    assert t[..|t|] == t;
    var j := |candidates|;
    assert candidates[..j] == candidates;
    while j > 0
      invariant 0 <= j <= |candidates|
      invariant LastWide(candidates) == LastWide(candidates[..j])
    {
      if |candidates[j - 1]| >= 2 {
        return candidates[j - 1];
      }
      assert candidates[..j][..j - 1] == candidates[..j - 1];
      j := j - 1;
    }
    labels := [];
    i := 0;
    while i < |t|
      invariant 0 <= i <= |t|
      invariant labels == AllHeaderTexts(t[..i])
    {
      assert t[..i + 1][..i] == t[..i];
      var k := 0;
      var before := labels;
      while k < |t[i]|
        invariant 0 <= k <= |t[i]|
        invariant labels == before + HeaderTexts(t[i][..k])
      {
        assert t[i][..k + 1][..k] == t[i][..k];
        if t[i][k].isHeader {
          labels := labels + [NoNbsp(t[i][k].text)];
        }
        k := k + 1;
      }
      assert t[i][..|t[i]|] == t[i];
      i := i + 1;
    }
  }

  // =====================================================================
  // Data row: `_find_latest_data_row`

  /** A row whose first cell reads as a quarter and which has a second
      cell: its period and its cell texts. */
  function DataRow(r: Row): (d: Option<(string, seq<string>)>)
    ensures d.Some? ==> IsPeriod(d.value.0) && |d.value.1| >= 2 && d.value.1 == Texts(r)
  {
    if r == [] then None
    else
      var texts := Texts(r);
      match NormalizePeriod(texts[0])
      case Some(p) => if |texts| >= 2 then Some((p, texts)) else None
      case None => None
  }

  function LatestDataRow(t: seq<Row>): (d: Option<(string, seq<string>)>)
    ensures d.Some? ==> IsPeriod(d.value.0) && |d.value.1| >= 2
  {
    if t == [] then None
    else if DataRow(t[0]).Some? then DataRow(t[0])
    else LatestDataRow(t[1..])
  }

  /** The data row chosen is the first row of the table that qualifies. */
  lemma {:induction false} LatestDataRowIsFirst(t: seq<Row>)
    ensures LatestDataRow(t).None? <==> forall k :: 0 <= k < |t| ==> DataRow(t[k]).None?
    ensures LatestDataRow(t).Some? ==>
              exists k :: 0 <= k < |t| && LatestDataRow(t) == DataRow(t[k])
                          && forall j :: 0 <= j < k ==> DataRow(t[j]).None?
  {
    if t != [] {
      LatestDataRowIsFirst(t[1..]);
      if DataRow(t[0]).Some? {
        assert LatestDataRow(t) == DataRow(t[0]);
      } else {
        forall k | 1 <= k < |t| ensures t[1..][k - 1] == t[k] {}
        if LatestDataRow(t).Some? {
          var k :| 0 <= k < |t[1..]| && LatestDataRow(t[1..]) == DataRow(t[1..][k])
                   && forall j :: 0 <= j < k ==> DataRow(t[1..][j]).None?;
          assert LatestDataRow(t) == DataRow(t[k + 1]);
          forall j | 0 <= j < k + 1 ensures DataRow(t[j]).None? {
            if j > 0 {
              assert t[j] == t[1..][j - 1];
            }
          }
        }
      }
    }
  }

  method FindLatestDataRow(t: seq<Row>) returns (r: Option<(string, seq<string>)>)
    ensures r == LatestDataRow(t)
  {
    var i := 0;
    while i < |t|
      invariant 0 <= i <= |t|
      invariant LatestDataRow(t) == LatestDataRow(t[i..])
    {
      assert t[i..][0] == t[i] && t[i..][1..] == t[i + 1..];
      var cells := t[i];
      if cells != [] {
        var texts := Texts(cells);
        var period := NormalizePeriod(texts[0]);
        if period.Some? && |texts| >= 2 {
          return Some((period.value, texts));
        }
      }
      i := i + 1;
    }
    return None;
  }

  // =====================================================================
  // Points: `parse_table`

  /** The labels given to `n` values: the last `n` headers when there are
      at least `n + 1` of them, otherwise "col_1" ... "col_n". */
  function ColumnLabels(hdrs: seq<string>, n: nat): (labels: seq<string>)
    requires n >= 1
    ensures |labels| == n
    ensures |hdrs| >= n + 1 ==> forall i :: 0 <= i < n ==> labels[i] == hdrs[|hdrs| - n + i]
    ensures |hdrs| < n + 1 ==> forall i :: 0 <= i < n ==> labels[i] == "col_" + NatToString(i + 1)
  {
    if |hdrs| >= n + 1 then hdrs[|hdrs| - n..]
    else seq(n, i requires 0 <= i < n => "col_" + NatToString(i + 1))
  }

  function UnitOf(kind: Kind): string
  {
    match kind
    case Yoy => "pct"
    case Indices => "index_base"
  }

  function UidPrefix(kind: Kind): string
  {
    "insee_" + KindName(kind) + ":"
  }

  /** `f"insee_{kind}:{_slugify(label)}"`: the kind's prefix followed by a
      well-formed slug. */
  function MetricUid(kind: Kind, header: string): (uid: string)
    ensures StartsWith(uid, UidPrefix(kind)) && IsSlug(uid[|UidPrefix(kind)|..])
  {
    var uid := UidPrefix(kind) + Slugify(header);
    assert uid[|UidPrefix(kind)|..] == Slugify(header);
    uid
  }

  /** The point `parse_table` builds for a header label and a parsed value. */
  function MakePoint(kind: Kind, header: string, period: string, v: real, url: string, now: int): PricePoint
  {
    PricePoint(
      metricUid := MetricUid(kind, header),
      metricName := "INSEE " + KindName(kind) + " — " + header,
      geo := InferGeo(header),
      unit := UnitOf(kind),
      period := period,
      value := Finite(v),
      source := "insee",
      sourceUrl := url,
      scrapedAt := now)
  }

  /** The point for one labelled cell, or nothing when the cell is not a
      number. */
  function PointOf(kind: Kind, header: string, cell: string, period: string, url: string, now: int): Option<PricePoint>
  {
    match ToFloat(Some(cell))
    case None => None
    case Some(v) => Some(MakePoint(kind, header, period, v, url, now))
  }

  function PointsFrom(kind: Kind, labels: seq<string>, cells: seq<string>, period: string, url: string, now: int): (ps: seq<PricePoint>)
    requires |labels| == |cells|
    ensures |ps| <= |cells|
  {
    if cells == [] then []
    else
      var n := |cells| - 1;
      PointsFrom(kind, labels[..n], cells[..n], period, url, now)
      + match PointOf(kind, labels[n], cells[n], period, url, now)
        case Some(p) => [p]
        case None => []
  }

  /** What every point built for a table of the given kind looks like. */
  predicate PointShape(p: PricePoint, kind: Kind, period: string, url: string, now: int)
  {
    && StartsWith(p.metricUid, UidPrefix(kind)) && IsSlug(p.metricUid[|UidPrefix(kind)|..])
    && p.geo in {"IDF", "PROVINCE", "FR", "NA"}
    && p.unit == UnitOf(kind)
    && p.period == period
    && p.value.Finite?
    && p.source == "insee"
    && p.sourceUrl == url
    && p.scrapedAt == now
  }

  /** Only the cells that parse as numbers give points, one each. */
  function NumericCells(cells: seq<string>): (n: nat)
    ensures n <= |cells|
  {
    if cells == [] then 0
    else NumericCells(cells[..|cells| - 1]) + (if ToFloat(Some(cells[|cells| - 1])).Some? then 1 else 0)
  }

  lemma MakePointShape(kind: Kind, header: string, period: string, v: real, url: string, now: int)
    ensures PointShape(MakePoint(kind, header, period, v, url, now), kind, period, url, now)
  {
  }

  lemma {:induction false} PointsFromShape(kind: Kind, labels: seq<string>, cells: seq<string>, period: string, url: string, now: int)
    requires |labels| == |cells|
    ensures |PointsFrom(kind, labels, cells, period, url, now)| == NumericCells(cells)
    ensures forall p :: p in PointsFrom(kind, labels, cells, period, url, now) ==> PointShape(p, kind, period, url, now)
  {
    if cells != [] {
      var n := |cells| - 1;
      var front := PointsFrom(kind, labels[..n], cells[..n], period, url, now);
      PointsFromShape(kind, labels[..n], cells[..n], period, url, now);
      var v := ToFloat(Some(cells[n]));
      if v.Some? {
        MakePointShape(kind, labels[n], period, v.value, url, now);
        assert PointsFrom(kind, labels, cells, period, url, now) == front + [MakePoint(kind, labels[n], period, v.value, url, now)];
      } else {
        assert PointsFrom(kind, labels, cells, period, url, now) == front;
      }
    }
  }

  /** The points `parse_table` appends for one table. */
  function TablePoints(t: Table, kind: Kind, url: string, now: int): seq<PricePoint>
  {
    match LatestDataRow(t.rows)
    case None => []
    case Some((period, row)) =>
      var cells := row[1..];
      PointsFrom(kind, ColumnLabels(Headers(t.rows), |cells|), cells, period, url, now)
  }

  lemma PointsFromStep(kind: Kind, labels: seq<string>, cells: seq<string>, period: string, url: string, now: int, i: nat)
    requires |labels| == |cells| && i < |cells|
    ensures var v := ToFloat(Some(cells[i]));
            PointsFrom(kind, labels[..i + 1], cells[..i + 1], period, url, now)
            == PointsFrom(kind, labels[..i], cells[..i], period, url, now)
               + if v.Some? then [MakePoint(kind, labels[i], period, v.value, url, now)] else []
  {
    assert labels[..i + 1][..i] == labels[..i] && cells[..i + 1][..i] == cells[..i];
    assert labels[..i + 1][i] == labels[i] && cells[..i + 1][i] == cells[i];
  }

  /** The loop of `parse_table` over the labelled cells. */
  method BuildPoints(kind: Kind, labels: seq<string>, cells: seq<string>, period: string, url: string, now: int)
    returns (points: seq<PricePoint>)
    requires |labels| == |cells|
    ensures points == PointsFrom(kind, labels, cells, period, url, now)
  {
    points := [];
    var i := 0;
    while i < |cells|
      invariant 0 <= i <= |cells|
      invariant points == PointsFrom(kind, labels[..i], cells[..i], period, url, now)
    {
      PointsFromStep(kind, labels, cells, period, url, now, i);
      var v := ToFloat(Some(cells[i]));
      if v.Some? {
        points := points + [MakePoint(kind, labels[i], period, v.value, url, now)];
      }
      i := i + 1;
    }
    assert labels[..|cells|] == labels && cells[..|cells|] == cells;
  }

  method ParseTable(t: Table, kind: Kind, url: string, now: int) returns (points: seq<PricePoint>)
    ensures points == TablePoints(t, kind, url, now)
  {
    var found := FindLatestDataRow(t.rows);
    if found.None? {
      return [];
    }
    var (period, row) := found.value;
    var hdrs := ExtractHeaders(t.rows);
    var cells := row[1..];
    var labels := ColumnLabels(hdrs, |cells|);
    points := BuildPoints(kind, labels, cells, period, url, now);
  }

  // =====================================================================
  // The extractor: `scrape_insee_housing_prices`

  datatype Choice = Choice(score: nat, tableIndex: nat)

  /** The debug record returned beside the points. Fields the source does
      not set on a path are `None`. */
  datatype Debug = Debug(
    sourceUrl: string,
    scrapedAt: int,
    tablesFound: nat,
    error: Option<string>,
    bestIndices: Option<Choice>,
    bestYoy: Option<Choice>,
    pointsCount: Option<nat>,
    indicesHeadersSample: Option<seq<string>>,
    yoyHeadersSample: Option<seq<string>>)

  function Sample(hdrs: seq<string>): (s: seq<string>)
    ensures |s| == if |hdrs| <= 12 then |hdrs| else 12
    ensures s == hdrs[..|s|]
  {
    if |hdrs| <= 12 then hdrs else hdrs[..12]
  }

  /** The threshold a best table's score must reach to be parsed. */
  const MinScore: nat := 4

  function KindPoints(tables: seq<Table>, kind: Kind, url: string, now: int): seq<PricePoint>
    requires tables != []
  {
    var scores := Scores(tables, kind);
    var best := BestIndex(scores);
    if scores[best] >= MinScore then TablePoints(tables[best], kind, url, now) else []
  }

  function ScrapePoints(tables: seq<Table>, url: string, now: int): seq<PricePoint>
  {
    if tables == [] then []
    else KindPoints(tables, Indices, url, now) + KindPoints(tables, Yoy, url, now)
  }

  /** Picks the best table for one kind and parses it when its score
      reaches the threshold. */
  method ScrapeKind(tables: seq<Table>, kind: Kind, url: string, now: int) returns (best: Choice, points: seq<PricePoint>)
    requires tables != []
    ensures best.tableIndex == BestIndex(Scores(tables, kind))
    ensures best.score == ScoreTable(tables[best.tableIndex], kind)
    ensures points == KindPoints(tables, kind, url, now)
  {
    var scores := Scores(tables, kind);
    var k := BestIndex(scores);
    best := Choice(scores[k], k);
    points := [];
    if scores[k] >= MinScore {
      points := ParseTable(tables[k], kind, url, now);
    }
  }

  /** `scrape_insee_housing_prices` once the page is fetched and its tables
      are found: the HTTP request is left to the caller and `now` is the
      clock reading. */
  method Scrape(tables: seq<Table>, url: string, now: int) returns (points: seq<PricePoint>, debug: Debug)
    ensures points == ScrapePoints(tables, url, now)
    ensures debug.sourceUrl == url && debug.scrapedAt == now && debug.tablesFound == |tables|
    ensures tables == [] ==> points == [] && debug.error == Some("no_tables_found_in_html")
                             && debug.bestIndices.None? && debug.pointsCount.None?
    ensures tables != [] ==>
              var bi := BestIndex(Scores(tables, Indices));
              var yi := BestIndex(Scores(tables, Yoy));
              && debug.error.None?
              && debug.bestIndices == Some(Choice(ScoreTable(tables[bi], Indices), bi))
              && debug.bestYoy == Some(Choice(ScoreTable(tables[yi], Yoy), yi))
              && debug.pointsCount == Some(|points|)
              && debug.indicesHeadersSample == Some(Sample(Headers(tables[bi].rows)))
              && debug.yoyHeadersSample == Some(Sample(Headers(tables[yi].rows)))
  {
    if tables == [] {
      return [], Debug(url, now, 0, Some("no_tables_found_in_html"), None, None, None, None, None);
    }
    var bestIndices, indicesPoints := ScrapeKind(tables, Indices, url, now);
    var bestYoy, yoyPoints := ScrapeKind(tables, Yoy, url, now);
    points := indicesPoints + yoyPoints;
    var hi := ExtractHeaders(tables[bestIndices.tableIndex].rows);
    var hy := ExtractHeaders(tables[bestYoy.tableIndex].rows);
    debug := Debug(url, now, |tables|, None, Some(bestIndices), Some(bestYoy), Some(|points|),
                   Some(Sample(hi)), Some(Sample(hy)));
  }

  /** Every point of a table carries the period of the table's first
      quarter row, and there is one point per numeric cell of that row
      after the period cell. */
  lemma TablePointsShape(t: Table, kind: Kind, url: string, now: int)
    ensures TablePoints(t, kind, url, now) != [] ==> LatestDataRow(t.rows).Some?
    ensures LatestDataRow(t.rows).Some? ==>
              var (period, row) := LatestDataRow(t.rows).value;
              && |TablePoints(t, kind, url, now)| == NumericCells(row[1..])
              && forall p :: p in TablePoints(t, kind, url, now) ==> PointShape(p, kind, period, url, now)
  {
    match LatestDataRow(t.rows)
    case None =>
    case Some((period, row)) =>
      var cells := row[1..];
      var labels := ColumnLabels(Headers(t.rows), |cells|);
      assert TablePoints(t, kind, url, now) == PointsFrom(kind, labels, cells, period, url, now);
      PointsFromShape(kind, labels, cells, period, url, now);
  }

  lemma KindPointsShape(tables: seq<Table>, kind: Kind, url: string, now: int)
    requires tables != []
    ensures forall p :: p in KindPoints(tables, kind, url, now) ==> PointShape(p, kind, p.period, url, now) && IsPeriod(p.period)
    ensures ScoreTable(tables[BestIndex(Scores(tables, kind))], kind) < MinScore ==> KindPoints(tables, kind, url, now) == []
  {
    var k := BestIndex(Scores(tables, kind));
    TablePointsShape(tables[k], kind, url, now);
  }

  /** What the extractor returns: the points of the best indices table,
      then those of the best year-on-year table, each present only when its
      table scored at least 4; every point has a canonical period, a finite
      value, the kind's unit and a `insee_<kind>:<slug>` identifier. */
  lemma ScrapePointsShape(tables: seq<Table>, url: string, now: int)
    ensures tables == [] ==> ScrapePoints(tables, url, now) == []
    ensures forall p :: p in ScrapePoints(tables, url, now) ==>
              (PointShape(p, Indices, p.period, url, now) || PointShape(p, Yoy, p.period, url, now)) && IsPeriod(p.period)
    ensures tables != [] && ScoreTable(tables[BestIndex(Scores(tables, Indices))], Indices) < MinScore ==>
              forall p :: p in ScrapePoints(tables, url, now) ==> p.unit == "pct"
    ensures tables != [] && ScoreTable(tables[BestIndex(Scores(tables, Yoy))], Yoy) < MinScore ==>
              forall p :: p in ScrapePoints(tables, url, now) ==> p.unit == "index_base"
  {
    if tables != [] {
      KindPointsShape(tables, Indices, url, now);
      KindPointsShape(tables, Yoy, url, now);
      assert UnitOf(Indices) == "index_base" && UnitOf(Yoy) == "pct";
    }
  }
}
