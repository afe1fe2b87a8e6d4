/** File-name normalisation used by duplicate detection: surrounding
    whitespace trimmed, then letters lower-cased. */
module Names {

  /** The characters `str.isspace` accepts, which is what `strip()` removes. */
  predicate IsSpace(c: char) {
    c == ' ' || ('\t' <= c <= '\r') || ('\U{1C}' <= c <= '\U{1F}') ||
    c == '\U{85}' || c == '\U{A0}' || c == '\U{1680}' || ('\U{2000}' <= c <= '\U{200A}') ||
    c == '\U{2028}' || c == '\U{2029}' || c == '\U{202F}' || c == '\U{205F}' || c == '\U{3000}'
  }

  predicate AllSpace(s: string) {
    forall i :: 0 <= i < |s| ==> IsSpace(s[i])
  }

  predicate IsUpper(c: char) {
    'A' <= c <= 'Z'
  }

  function LowerChar(c: char): char {
    if IsUpper(c) then (c as int + 32) as char else c
  }

  /** Leading whitespace removed (`lstrip`). */
  function TrimLeft(s: string): string {
    if |s| > 0 && IsSpace(s[0]) then TrimLeft(s[1..]) else s
  }

  /** Trailing whitespace removed (`rstrip`). */
  function TrimRight(s: string): string {
    if |s| > 0 && IsSpace(s[|s| - 1]) then TrimRight(s[..|s| - 1]) else s
  }

  /** TrimLeft drops exactly the longest all-whitespace prefix. */
  lemma {:induction false} TrimLeftDropsLeadingSpace(s: string)
    ensures |TrimLeft(s)| <= |s| && TrimLeft(s) == s[|s| - |TrimLeft(s)|..]
    ensures AllSpace(s[..|s| - |TrimLeft(s)|])
    ensures TrimLeft(s) == [] || !IsSpace(TrimLeft(s)[0])
  {
    if |s| > 0 && IsSpace(s[0]) {
      var r := TrimLeft(s[1..]);
      TrimLeftDropsLeadingSpace(s[1..]);
      assert s[..|s| - |r|] == [s[0]] + s[1..][..|s| - 1 - |r|];
    }
  }

  /** TrimRight drops exactly the longest all-whitespace suffix. */
  lemma {:induction false} TrimRightDropsTrailingSpace(s: string)
    ensures |TrimRight(s)| <= |s| && TrimRight(s) == s[..|TrimRight(s)|]
    ensures AllSpace(s[|TrimRight(s)|..])
    ensures TrimRight(s) == [] || !IsSpace(TrimRight(s)[|TrimRight(s)| - 1])
  {
    if |s| > 0 && IsSpace(s[|s| - 1]) {
      var r := TrimRight(s[..|s| - 1]);
      TrimRightDropsTrailingSpace(s[..|s| - 1]);
      assert s[|r|..] == s[..|s| - 1][|r|..] + [s[|s| - 1]];
    }
  }

  function Strip(s: string): string {
    TrimRight(TrimLeft(s))
  }

  /** ASCII lower-casing, character by character. */
  function Lower(s: string): string {
    seq(|s|, i requires 0 <= i < |s| => LowerChar(s[i]))
  }

  /** Lower-casing keeps the length, turns each letter A-Z into its own
      lower-case letter, keeps every other character, leaves no upper-case
      letter, and changes nothing a second time. */
  lemma LowerLeavesNoUpper(s: string)
    ensures |Lower(s)| == |s|
    ensures forall i :: 0 <= i < |s| && IsUpper(s[i]) ==>
              'a' <= Lower(s)[i] <= 'z' && Lower(s)[i] as int - 'a' as int == s[i] as int - 'A' as int
    ensures forall i :: 0 <= i < |s| && !IsUpper(s[i]) ==> Lower(s)[i] == s[i]
    ensures forall i :: 0 <= i < |s| ==> !IsUpper(Lower(s)[i])
    ensures Lower(Lower(s)) == Lower(s)
  {
  }

  /** The form under which two attachment names are compared. */
  function Normalize(s: string): string {
    Lower(Strip(s))
  }

  /** The comparison duplicate detection applies to two file names. */
  predicate NamesMatch(a: string, b: string) {
    Normalize(a) == Normalize(b)
  }

  /** Two names that differ at most in the case of their letters. */
  predicate SameUpToCase(s: string, t: string) {
    |s| == |t| && forall i :: 0 <= i < |s| ==> LowerChar(s[i]) == LowerChar(t[i])
  }

  lemma {:induction false} TrimLeftSkipsSpace(p: string, x: string)
    requires AllSpace(p)
    ensures TrimLeft(p + x) == TrimLeft(x)
  {
    if |p| > 0 {
      assert (p + x)[0] == p[0];
      assert (p + x)[1..] == p[1..] + x;
      TrimLeftSkipsSpace(p[1..], x);
    } else {
      assert p + x == x;
    }
  }

  lemma {:induction false} TrimRightSkipsSpace(x: string, q: string)
    requires AllSpace(q)
    ensures TrimRight(x + q) == TrimRight(x)
  {
    if |q| > 0 {
      assert (x + q)[|x + q| - 1] == q[|q| - 1];
      assert (x + q)[..|x + q| - 1] == x + q[..|q| - 1];
      TrimRightSkipsSpace(x, q[..|q| - 1]);
    } else {
      assert x + q == x;
    }
  }

  lemma {:induction false} TrimLeftAppend(s: string, q: string)
    ensures TrimLeft(s + q) == if AllSpace(s) then TrimLeft(q) else TrimLeft(s) + q
  {
    if |s| == 0 {
      assert s + q == q;
    } else if IsSpace(s[0]) {
      assert (s + q)[0] == s[0];
      assert (s + q)[1..] == s[1..] + q;
      TrimLeftAppend(s[1..], q);
      assert AllSpace(s) <==> AllSpace(s[1..]);
    } else {
      assert (s + q)[0] == s[0];
    }
  }

  /** Surrounding whitespace never changes the stripped name. */
  lemma StripIgnoresSurroundingSpace(p: string, s: string, q: string)
    requires AllSpace(p) && AllSpace(q)
    ensures Strip(p + s + q) == Strip(s)
  {
    assert p + s + q == p + (s + q);
    TrimLeftSkipsSpace(p, s + q);
    TrimLeftAppend(s, q);
    if AllSpace(s) {
      TrimLeftSkipsSpace(q, []);
      TrimLeftSkipsSpace(s, []);
      assert q + [] == q && s + [] == s;
    } else {
      TrimRightSkipsSpace(TrimLeft(s), q);
    }
  }

  lemma SpaceIgnoresCase(a: char, b: char)
    requires LowerChar(a) == LowerChar(b)
    ensures IsSpace(a) <==> IsSpace(b)
  {
  }

  lemma {:induction false} TrimLeftSameUpToCase(s: string, t: string)
    requires SameUpToCase(s, t)
    ensures SameUpToCase(TrimLeft(s), TrimLeft(t))
  {
    if |s| > 0 {
      SpaceIgnoresCase(s[0], t[0]);
      if IsSpace(s[0]) {
        TrimLeftSameUpToCase(s[1..], t[1..]);
      }
    }
  }

  lemma {:induction false} TrimRightSameUpToCase(s: string, t: string)
    requires SameUpToCase(s, t)
    ensures SameUpToCase(TrimRight(s), TrimRight(t))
  {
    if |s| > 0 {
      SpaceIgnoresCase(s[|s| - 1], t[|t| - 1]);
      if IsSpace(s[|s| - 1]) {
        TrimRightSameUpToCase(s[..|s| - 1], t[..|t| - 1]);
      }
    }
  }

  /** Names that differ only in letter case normalise alike. */
  lemma NormalizeIgnoresCase(s: string, t: string)
    requires SameUpToCase(s, t)
    ensures Normalize(s) == Normalize(t)
  {
    TrimLeftSameUpToCase(s, t);
    TrimRightSameUpToCase(TrimLeft(s), TrimLeft(t));
  }

  /** Names that differ only in surrounding whitespace normalise alike. */
  lemma NormalizeIgnoresSurroundingSpace(p: string, s: string, q: string)
    requires AllSpace(p) && AllSpace(q)
    ensures Normalize(p + s + q) == Normalize(s)
  {
    StripIgnoresSurroundingSpace(p, s, q);
  }

  /** Two names match exactly when, once stripped, they differ at most in
      the case of their letters: nothing else is ignored. */
  lemma NamesMatchIffSameUpToCase(a: string, b: string)
    ensures NamesMatch(a, b) <==> SameUpToCase(Strip(a), Strip(b))
  {
    var x, y := Strip(a), Strip(b);
    if NamesMatch(a, b) {
      assert |Lower(x)| == |x| && |Lower(y)| == |y|;
      forall i | 0 <= i < |x|
        ensures LowerChar(x[i]) == LowerChar(y[i])
      {
        assert Lower(x)[i] == Lower(y)[i];
      }
    }
    if SameUpToCase(x, y) {
      assert Lower(x) == Lower(y);
    }
  }

  lemma PaddedReportNormalizesAlike()
    ensures Normalize(" report.pdf ") == Normalize("report.pdf")
  {
    assert " report.pdf " == [' '] + "report.pdf" + [' '];
    NormalizeIgnoresSurroundingSpace([' '], "report.pdf", [' ']);
  }

  lemma LowerReportNormalizesAlike()
    ensures Normalize("report.pdf") == Normalize("Report.pdf")
  {
    assert SameUpToCase("report.pdf", "Report.pdf");
    NormalizeIgnoresCase("report.pdf", "Report.pdf");
  }

  lemma UpperReportNormalizesAlike()
    ensures Normalize("REPORT.PDF") == Normalize("Report.pdf")
  {
    assert SameUpToCase("REPORT.PDF", "Report.pdf");
    NormalizeIgnoresCase("REPORT.PDF", "Report.pdf");
  }

  /** "Report.pdf", " report.pdf " and "REPORT.PDF" name the same file. */
  lemma ReportVariantsNormalizeAlike()
    ensures Normalize(" report.pdf ") == Normalize("Report.pdf")
    ensures Normalize("REPORT.PDF") == Normalize("Report.pdf")
  {
    PaddedReportNormalizesAlike();
    LowerReportNormalizesAlike();
    UpperReportNormalizesAlike();
  }
}
