/**
 * Which files of the input folder are converted, and under what name the
 * result is saved: a file is taken when its lower-cased name ends in
 * `.pdf`, and its output is `os.path.splitext(name)[0] + "_ocr.pdf"`.
 * `splitext` follows Python's POSIX rules: the extension starts at the last
 * dot after the last `/`, and dots that only lead the file name do not
 * start an extension.
 */
module OutputNames {

  /** Lower-casing of one character (ASCII letters only). */
  function LowerChar(c: char): (r: char)
    ensures r == c || ('A' <= c <= 'Z' && r as int == c as int + 32)
    ensures !('A' <= r <= 'Z')
  {
    if 'A' <= c <= 'Z' then (c as int + 32) as char else c
  }

  /** `s.lower()`. */
  function Lower(s: string): (r: string)
    ensures |r| == |s|
  {
    seq(|s|, j requires 0 <= j < |s| => LowerChar(s[j]))
  }

  /** `s.endswith(suffix)`. */
  predicate EndsWith(s: string, suffix: string) {
    |suffix| <= |s| && s[|s| - |suffix|..] == suffix
  }

  /** The filter of the main loop: `filename.lower().endswith('.pdf')`. */
  predicate IsPdfName(name: string) {
    EndsWith(Lower(name), ".pdf")
  }

  /** A name is taken exactly when it ends in a dot and the letters p, d, f in either case. */
  lemma IsPdfNameIff(name: string)
    ensures IsPdfName(name) <==>
      |name| >= 4 && name[|name| - 4] == '.' &&
      (name[|name| - 3] == 'p' || name[|name| - 3] == 'P') &&
      (name[|name| - 2] == 'd' || name[|name| - 2] == 'D') &&
      (name[|name| - 1] == 'f' || name[|name| - 1] == 'F')
  {
    var n := |name|;
    if n >= 4 {
      var tail := Lower(name)[n - 4..];
      assert tail == [LowerChar(name[n - 4]), LowerChar(name[n - 3]), LowerChar(name[n - 2]), LowerChar(name[n - 1])];
    }
  }

  /** `s.rfind(c)`: the last index holding `c`, or -1. */
  function RFind(s: string, c: char): (r: int)
    ensures -1 <= r < |s|
    ensures r >= 0 ==> s[r] == c
    ensures forall j :: r < j < |s| ==> s[j] != c
  {
    if s == [] then -1
    else if s[|s| - 1] == c then |s| - 1
    else RFind(s[..|s| - 1], c)
  }

  predicate OnlyDots(s: string) {
    forall j :: 0 <= j < |s| ==> s[j] == '.'
  }

  /** `os.path.splitext(p)` (POSIX): the pair (root, extension). */
  function SplitExt(p: string): (r: (string, string))
    ensures r.0 + r.1 == p
  {
    var sepIndex := RFind(p, '/');
    var dotIndex := RFind(p, '.');
    if dotIndex > sepIndex && !OnlyDots(p[sepIndex + 1..dotIndex]) then
      (p[..dotIndex], p[dotIndex..])
    else
      (p, "")
  }

  /**
   * The extension is empty or a dot followed by neither dots nor `/`, and
   * it is empty exactly when the last component has no dot after a character
   * other than a dot.
   */
  lemma SplitExtExtension(p: string)
    ensures var ext := SplitExt(p).1;
      ext == "" || (ext[0] == '.' && forall j :: 1 <= j < |ext| ==> ext[j] != '.' && ext[j] != '/')
    ensures var sepIndex := RFind(p, '/');
      SplitExt(p).1 == "" <==> !exists i, d :: sepIndex < i < d < |p| && p[i] != '.' && p[d] == '.'
  {
    var sepIndex := RFind(p, '/');
    var dotIndex := RFind(p, '.');
    if SplitExt(p).1 != "" {
      assert 0 <= dotIndex && sepIndex < dotIndex && SplitExt(p).1 == p[dotIndex..];
      forall j | dotIndex < j < |p| ensures p[j] != '.' && p[j] != '/' {
        RFindAfter(p, '.', j);
        RFindAfter(p, '/', j);
      }
      var stem := p[sepIndex + 1..dotIndex];
      var k :| 0 <= k < |stem| && stem[k] != '.';
      assert p[sepIndex + 1 + k] != '.' && p[dotIndex] == '.';
    } else {
      forall i, d | sepIndex < i < d < |p| && p[d] == '.' ensures p[i] == '.' {
        assert dotIndex > sepIndex && p[sepIndex + 1..dotIndex][i - sepIndex - 1] == p[i];
      }
    }
  }

  /** Nothing after the position `rfind` returns holds the character. */
  lemma RFindAfter(s: string, c: char, j: nat)
    requires RFind(s, c) < j < |s|
    ensures s[j] != c
  {
  }

  /** The output file name: `splitext(name)[0] + "_ocr.pdf"`. It is always itself a `.pdf` name. */
  function OutputName(name: string): (out: string)
    ensures IsPdfName(out)
  {
    var out := SplitExt(name).0 + "_ocr.pdf";
    IsPdfNameIff(out);
    out
  }

  /** In a name that passes the filter, the last dot is the one of the `.pdf` suffix. */
  lemma PdfNameLastDot(name: string)
    requires IsPdfName(name)
    ensures |name| >= 4 && RFind(name, '.') == |name| - 4
  {
    var n := |name|;
    assert n >= 4 && name[n - 4] == '.' && name[n - 3] != '.' && name[n - 2] != '.' && name[n - 1] != '.' by {
      IsPdfNameIff(name);
    }
    LastDotBeforeThree(name);
  }

  lemma LastDotBeforeThree(s: string)
    requires |s| >= 4 && s[|s| - 4] == '.'
    requires s[|s| - 3] != '.' && s[|s| - 2] != '.' && s[|s| - 1] != '.'
    ensures RFind(s, '.') == |s| - 4
  {
    var n := |s|;
    forall j | n - 4 < j < n ensures s[j] != '.' {
      if j == n - 3 {
      } else if j == n - 2 {
      } else {
        assert j == n - 1;
      }
    }
    RFindAt(s, '.', n - 4);
  }

  /** `rfind` returns the position of the last occurrence. */
  lemma RFindAt(s: string, c: char, i: nat)
    requires i < |s| && s[i] == c
    requires forall j :: i < j < |s| ==> s[j] != c
    ensures RFind(s, c) == i
  {
  }

  lemma RFindAbsent(s: string, c: char)
    requires c !in s
    ensures RFind(s, c) == -1
  {
  }

  /**
   * For a directory entry (no `/`) that passes the filter, the extension
   * removed is exactly the final four characters, unless everything before
   * them is dots (`.pdf`, `..pdf`), in which case nothing is removed.
   */
  lemma PdfOutputName(name: string)
    requires IsPdfName(name) && '/' !in name
    ensures OutputName(name) ==
      (if OnlyDots(name[..|name| - 4]) then name else name[..|name| - 4]) + "_ocr.pdf"
  {
    PdfNameLastDot(name);
    RFindAbsent(name, '/');
    assert name[0..|name| - 4] == name[..|name| - 4];
  }

  /**
   * The case of the extension does not matter (`a.PDF` and `a.pdf` both give
   * `a_ocr.pdf`, so the later of the two overwrites the earlier), and dots
   * inside the stem are kept.
   */
  lemma OutputNameOfStem(stem: string, ext: string)
    requires '/' !in stem && !OnlyDots(stem)
    requires |ext| == 4 && IsPdfName(ext)
    ensures IsPdfName(stem + ext)
    ensures OutputName(stem + ext) == stem + "_ocr.pdf"
  {
    var name := stem + ext;
    IsPdfNameIff(ext);
    IsPdfNameIff(name);
    assert name[..|name| - 4] == stem;
    PdfOutputName(name);
  }

  /** A name made only of dots before its `.pdf` (such as `.pdf` itself) has no extension to drop. */
  lemma OutputNameOfDotName(dots: string, ext: string)
    requires OnlyDots(dots)
    requires |ext| == 4 && IsPdfName(ext)
    ensures IsPdfName(dots + ext)
    ensures OutputName(dots + ext) == dots + ext + "_ocr.pdf"
  {
    var name := dots + ext;
    IsPdfNameIff(ext);
    IsPdfNameIff(name);
    assert name[..|name| - 4] == dots;
    PdfOutputName(name);
  }
}
