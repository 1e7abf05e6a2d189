// The department code of an INSEE commune code, as the income ingestion
// derives it: the code is left-padded with zeros to five characters, the
// overseas codes keep three characters, the old numeric Corsican codes are
// split into 2A and 2B, and every other code keeps two.

module IngestInseeIncome {
  import opened Base
  import opened Text

  function Zeros(n: nat): (z: string)
    ensures |z| == n && forall i :: 0 <= i < n ==> z[i] == '0'
  {
    seq(n, _ => '0')
  }

  /** Python's `str.zfill(width)`: zeros on the left up to `width`
      characters, after a leading sign when there is one. */
  function ZFill(s: string, width: nat): (r: string)
    ensures |r| == Max(|s|, width)
    ensures |s| >= width ==> r == s
  {
    if |s| >= width then s
    else if Signed(s) then [s[0]] + Zeros(width - |s|) + s[1..]
    else Zeros(width - |s|) + s
  }

  predicate Signed(s: string)
  {
    s != [] && (s[0] == '+' || s[0] == '-')
  }

  /** Padding keeps what the text says: an unsigned text ends the padded
      one, a signed text keeps its sign in front and its digits at the end,
      and nothing but zeros is added. */
  lemma ZFillPads(s: string, width: nat)
    requires |s| < width
    ensures var r := ZFill(s, width);
            var k := width - |s|;
            && (!Signed(s) ==> r[..k] == Zeros(k) && r[k..] == s)
            && (Signed(s) ==> r[0] == s[0] && r[1..k + 1] == Zeros(k) && r[k + 1..] == s[1..])
  {
  }

  /** Padding a string of digits keeps its value. */
  lemma ZFillKeepsValue(s: string, width: nat)
    requires AllDigits(s)
    ensures AllDigits(ZFill(s, width)) && DigitsValue(ZFill(s, width)) == DigitsValue(s)
  {
    if |s| < width {
      var z := Zeros(width - |s|);
      DigitsOfZeros(z);
      DigitsAppend(z, s);
    }
  }

  lemma {:induction false} DigitsOfZeros(z: string)
    requires forall i :: 0 <= i < |z| ==> z[i] == '0'
    ensures AllDigits(z) && DigitsValue(z) == 0
  {
    if z != [] {
      DigitsOfZeros(z[..|z| - 1]);
    }
  }

  /** The value of a concatenation of digit strings. */
  lemma {:induction false} DigitsAppend(a: string, b: string)
    requires AllDigits(a) && AllDigits(b)
    ensures AllDigits(a + b)
    ensures DigitsValue(a + b) == DigitsValue(a) * Pow10(|b|) + DigitsValue(b)
    ensures DigitsValue(b) < Pow10(|b|)
  {
    if b == [] {
      assert a + b == a;
    } else {
      var b' := b[..|b| - 1];
      var last := DigitValue(b[|b| - 1]);
      DigitsAppend(a, b');
      assert (a + b)[..|a + b| - 1] == a + b';
      assert (a + b)[|a + b| - 1] == b[|b| - 1];
      ShiftDigit(DigitsValue(a), Pow10(|b'|), DigitsValue(b'), last);
    }
  }

  /** One more digit on the right: the arithmetic step of `DigitsAppend`. */
  lemma ShiftDigit(x: nat, p: nat, y: nat, last: nat)
    requires y < p && last < 10
    ensures (x * p + y) * 10 + last == x * (p * 10) + (y * 10 + last)
    ensures y * 10 + last < p * 10
  {
  }

  /** `extract_dept`. `None` stands for the `ValueError` that `int()`
      raises when the padded code starts with "20" and its third character
      is not a digit. */
  function ExtractDept(codeInsee: string): (r: Option<string>)
    ensures var c := ZFill(codeInsee, 5);
            r.None? <==> !StartsWith(c, "97") && !StartsWith(c, "98") && c[..2] == "20" && !IsDigit(c[2])
    ensures r.Some? ==> |r.value| == 2 || |r.value| == 3
  {
    var c := ZFill(codeInsee, 5);
    if StartsWith(c, "97") || StartsWith(c, "98") then Some(c[..3])
    else if c[..2] == "20" then
      if IsDigit(c[2]) then Some(if DigitValue(c[2]) < 2 then "2A" else "2B") else None
    else Some(c[..2])
  }

  /** The department depends only on the first three characters of the
      padded code: the last two, the commune number, never matter. */
  lemma DeptIgnoresCommune(a: string, b: string)
    requires |a| == 5 && |b| == 5 && a[..3] == b[..3]
    ensures ExtractDept(a) == ExtractDept(b)
  {
    assert a[..2] == a[..3][..2] && b[..2] == b[..3][..2];
    assert a[2] == a[..3][2] && b[2] == b[..3][2];
  }

  /** Codes that already carry a Corsican department, such as "2A004",
      give that department unchanged. */
  lemma CorsicanLettersKept(dept: string, commune: string)
    requires dept == "2A" || dept == "2B"
    requires |commune| == 3
    ensures ExtractDept(dept + commune) == Some(dept)
  {
    var c := dept + commune;
    assert c[..2] == dept;
    assert c[0] == '2' && c[1] != '0' && c[1] != '7' && c[1] != '8';
    assert !StartsWith(c, "97") && !StartsWith(c, "98");
  }

  /** For a numeric commune code of at most five digits, the department
      follows from the number `v` the code denotes: `v / 100` for the
      overseas range 97000–98999, 2A below 20200 and 2B from there in the
      20000–20999 range, and `v / 1000`, written on two digits, for every
      other code. */
  lemma DeptByNumber(s: string)
    requires AllDigits(s) && |s| <= 5
    ensures var v := DigitsValue(s);
            var r := ExtractDept(s);
            && r.Some? && AllDigits(ZFill(s, 5))
            && (97000 <= v < 99000 ==> |r.value| == 3 && AllDigits(r.value) && DigitsValue(r.value) == v / 100)
            && (20000 <= v < 21000 ==> r.value == if v < 20200 then "2A" else "2B")
            && (!(97000 <= v < 99000) && !(20000 <= v < 21000) ==>
                  |r.value| == 2 && AllDigits(r.value) && DigitsValue(r.value) == v / 1000)
  {
    var c := ZFill(s, 5);
    ZFillKeepsValue(s, 5);
    PaddedParts(c);
    TwoDigits(c[..2]);
    assert c[..2][0] == c[0] && c[..2][1] == c[1];
  }

  /** The first two and the first three digits of a five-digit code are its
      value divided by 1000 and by 100. */
  lemma PaddedParts(c: string)
    requires |c| == 5 && AllDigits(c)
    ensures AllDigits(c[..2]) && AllDigits(c[..3])
    ensures DigitsValue(c) / 1000 == DigitsValue(c[..2]) && DigitsValue(c) / 100 == DigitsValue(c[..3])
    ensures DigitsValue(c[..3]) == DigitsValue(c[..2]) * 10 + DigitValue(c[2])
    ensures DigitsValue(c) == DigitsValue(c[..2]) * 1000 + DigitsValue(c[2..]) && DigitsValue(c[2..]) < 1000
  {
    assert c == c[..2] + c[2..] && c == c[..3] + c[3..];
    DigitsAppend(c[..2], c[2..]);
    DigitsAppend(c[..3], c[3..]);
    DivOfSplit(DigitsValue(c), DigitsValue(c[..2]), DigitsValue(c[2..]), 1000);
    DivOfSplit(DigitsValue(c), DigitsValue(c[..3]), DigitsValue(c[3..]), 100);
    assert c[..3][..2] == c[..2];
  }

  lemma DivOfSplit(v: nat, q: nat, r: nat, d: nat)
    requires d > 0 && v == q * d + r && r < d
    ensures v / d == q
  {
    var e := v / d - q;
    assert e * d == r - v % d by {
      assert v == (v / d) * d + v % d;
      assert (v / d) * d == (e + q) * d == e * d + q * d;
    }
  }

  /** A two-digit code starts with "97", "98" or "20" exactly when its value
      is 97, 98 or 20. */
  lemma TwoDigits(p: string)
    requires |p| == 2 && AllDigits(p)
    ensures DigitsValue(p) == DigitValue(p[0]) * 10 + DigitValue(p[1])
    ensures p == "97" <==> DigitsValue(p) == 97
    ensures p == "98" <==> DigitsValue(p) == 98
    ensures p == "20" <==> DigitsValue(p) == 20
  {
    assert p[..1][..0] == [];
    assert p[..1] == [p[0]];
    assert DigitsValue(p[..1]) == DigitValue(p[0]);
  }
}
