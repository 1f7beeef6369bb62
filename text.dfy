/** The file-name test of the upload loop: `file_name.lower().endswith('.pdf')`. */
module Text {

  function LowerChar(c: char): char {
    if 'A' <= c <= 'Z' then (c as int + 32) as char else c
  }

  /** `str.lower`, on the letters A to Z. */
  function Lower(s: string): (r: string)
    ensures |r| == |s|
    ensures forall i :: 0 <= i < |s| ==> r[i] == LowerChar(s[i])
  {
    seq(|s|, i requires 0 <= i < |s| => LowerChar(s[i]))
  }

  /** The two characters are equal, or are the same letter A to Z in the two cases. */
  predicate SameUpToCase(a: char, b: char) {
    a == b
    || ('A' <= a <= 'Z' && b as int == a as int + 32)
    || ('A' <= b <= 'Z' && a as int == b as int + 32)
  }

  /** Lowering leaves no capital A to Z and changes nothing a second time. */
  lemma LowerIsLowerCase(s: string)
    ensures forall i :: 0 <= i < |s| ==> !('A' <= Lower(s)[i] <= 'Z')
    ensures forall i :: 0 <= i < |s| ==> SameUpToCase(s[i], Lower(s)[i])
    ensures Lower(Lower(s)) == Lower(s)
  {
  }

  /** Names that differ only in the case of their letters lower to the same string. */
  lemma LowerIgnoresCase(s: string, t: string)
    requires |s| == |t| && forall i :: 0 <= i < |s| ==> SameUpToCase(s[i], t[i])
    ensures Lower(s) == Lower(t)
  {
  }

  /** `str.endswith`. */
  predicate EndsWith(s: string, suffix: string) {
    |suffix| <= |s| && s[|s| - |suffix|..] == suffix
  }

  /** Whether an upload's name marks it as a PDF attachment. */
  predicate HasPdfSuffix(name: string) {
    EndsWith(Lower(name), ".pdf")
  }

  /** The suffix test is exactly "the last four characters are `.`, p, d, f in either case". */
  lemma HasPdfSuffixIff(name: string)
    ensures HasPdfSuffix(name) <==>
      (|name| >= 4
       && name[|name| - 4] == '.'
       && (name[|name| - 3] == 'p' || name[|name| - 3] == 'P')
       && (name[|name| - 2] == 'd' || name[|name| - 2] == 'D')
       && (name[|name| - 1] == 'f' || name[|name| - 1] == 'F'))
  {
  }

  /** The name test cannot tell apart names that differ only in letter case. */
  lemma HasPdfSuffixIgnoresCase(s: string, t: string)
    requires |s| == |t| && forall i :: 0 <= i < |s| ==> SameUpToCase(s[i], t[i])
    ensures HasPdfSuffix(s) <==> HasPdfSuffix(t)
  {
  }

  /** Upper-case, lower-case and mixed-case extensions are all accepted; others are not. */
  lemma SuffixExamples()
    ensures HasPdfSuffix("X.PDF") && HasPdfSuffix("report.pdf") && HasPdfSuffix("Scan.Pdf")
    ensures !HasPdfSuffix("scan.png") && !HasPdfSuffix("photo.JPG")
    ensures !HasPdfSuffix("pdf") && !HasPdfSuffix("a.pdf.png") && !HasPdfSuffix("")
  {
    HasPdfSuffixIff("X.PDF");
    HasPdfSuffixIff("report.pdf");
    HasPdfSuffixIff("Scan.Pdf");
    HasPdfSuffixIff("scan.png");
    HasPdfSuffixIff("photo.JPG");
    HasPdfSuffixIff("pdf");
    HasPdfSuffixIff("a.pdf.png");
    HasPdfSuffixIff("");
  }
}
