/**
 * The text assembly of `ocr_pdf_to_text`: the OCR result of each page of a
 * scanned PDF is appended, in page order, behind a two-blank-line separator
 * and a `--- Page i ---` header line (pages numbered from 1). The OCR engine
 * itself is not modelled: its per-page results are the input.
 */
module OcrText {
  import opened LineSplit

  /** The decimal digit character for `d`. */
  function Digit(d: nat): (c: char)
    requires d < 10
    ensures '0' <= c <= '9'
  {
    ('0' as int + d) as char
  }

  /** Python's `str(n)` for a natural number: its decimal digits, no leading zeros. */
  function NatToString(n: nat): (s: string)
    ensures |s| >= 1
    ensures forall j :: 0 <= j < |s| ==> '0' <= s[j] <= '9'
    ensures s[0] == '0' ==> n == 0
  {
    if n < 10 then [Digit(n)] else NatToString(n / 10) + [Digit(n % 10)]
  }

  /** Value of a string of decimal digits (the inverse of `NatToString`). */
  function ParseDecimal(s: string): (n: nat)
    requires forall j :: 0 <= j < |s| ==> '0' <= s[j] <= '9'
  {
    if s == [] then 0
    else 10 * ParseDecimal(s[..|s| - 1]) + (s[|s| - 1] as int - '0' as int)
  }

  /** The page number written into a header reads back as that number. */
  lemma {:induction false} ParseNatToString(n: nat)
    ensures ParseDecimal(NatToString(n)) == n
  {
    if n >= 10 {
      ParseNatToString(n / 10);
      var s := NatToString(n);
      assert s[..|s| - 1] == NatToString(n / 10);
    }
  }

  /** The header line `--- Page i ---`. */
  function PageHeader(i: nat): (header: string) {
    "--- Page " + NatToString(i) + " ---"
  }

  /** The piece appended for page `i` with OCR text `t`. */
  function Section(i: nat, t: string): (section: string) {
    "\n\n" + PageHeader(i) + "\n" + t
  }

  /** The text `ocr_pdf_to_text` returns for the given per-page OCR results. */
  function Assembled(pageTexts: seq<string>): (text: string)
    decreases |pageTexts|
  {
    if pageTexts == [] then ""
    else Assembled(pageTexts[..|pageTexts| - 1]) + Section(|pageTexts|, pageTexts[|pageTexts| - 1])
  }

  /** `ocr_pdf_to_text` with the OCR call abstracted to `pageTexts[i]` for page `i + 1`. */
  method OcrPdfToText(pageTexts: seq<string>) returns (extractedText: string)
    ensures extractedText == Assembled(pageTexts)
  {
    extractedText := "";
    for i := 0 to |pageTexts|
      invariant extractedText == Assembled(pageTexts[..i])
    {
      assert pageTexts[..i + 1][..i] == pageTexts[..i];
      extractedText := extractedText + Section(i + 1, pageTexts[i]);
    }
    assert pageTexts[..|pageTexts|] == pageTexts;
  }

  /** A header line contains no line boundary, so `splitlines` keeps it whole. */
  lemma PageHeaderHasNoBreaks(i: nat)
    ensures NoBreaks(PageHeader(i))
  {
  }

  /** The result is empty exactly when the PDF has no pages. */
  lemma AssembledEmptyIff(pageTexts: seq<string>)
    ensures Assembled(pageTexts) == "" <==> pageTexts == []
  {
  }

  /** The first page's section opens the text, and sections follow in page order. */
  lemma {:induction false} AssembledPrefix(pageTexts: seq<string>, k: nat)
    requires k <= |pageTexts|
    ensures Assembled(pageTexts[..k]) <= Assembled(pageTexts)
    decreases |pageTexts|
  {
    if k < |pageTexts| {
      var front := pageTexts[..|pageTexts| - 1];
      AssembledPrefix(front, k);
      assert front[..k] == pageTexts[..k];
    } else {
      assert pageTexts[..k] == pageTexts;
    }
  }

  /** The sections of pages `i + 1` to N, in page order. */
  function SectionsFrom(pageTexts: seq<string>, i: nat): (text: string)
    requires i <= |pageTexts|
    decreases |pageTexts| - i
  {
    if i == |pageTexts| then "" else Section(i + 1, pageTexts[i]) + SectionsFrom(pageTexts, i + 1)
  }

  /** Page `i + 1` adds its section behind the text of the pages before it. */
  lemma AssembledStep(pageTexts: seq<string>, i: nat)
    requires i < |pageTexts|
    ensures Assembled(pageTexts[..i + 1]) == Assembled(pageTexts[..i]) + Section(i + 1, pageTexts[i])
  {
    assert pageTexts[..i + 1][..i] == pageTexts[..i];
  }

  lemma ConcatAssoc(a: string, b: string, c: string)
    ensures (a + b) + c == a + (b + c)
  {
  }

  /** The text is the sections of the first `i` pages followed by the sections of the others. */
  lemma {:induction false} AssembledSplit(pageTexts: seq<string>, i: nat)
    requires i <= |pageTexts|
    ensures Assembled(pageTexts) == Assembled(pageTexts[..i]) + SectionsFrom(pageTexts, i)
    decreases |pageTexts| - i
  {
    if i == |pageTexts| {
      assert pageTexts[..i] == pageTexts;
    } else {
      AssembledSplit(pageTexts, i + 1);
      AssembledStep(pageTexts, i);
      ConcatAssoc(Assembled(pageTexts[..i]), Section(i + 1, pageTexts[i]), SectionsFrom(pageTexts, i + 1));
    }
  }

  /**
   * In the whole text, section `i` (1-based) comes right after the sections
   * of pages 1 to i-1, and only the later sections follow it.
   */
  lemma AssembledSection(pageTexts: seq<string>, i: nat)
    requires 1 <= i <= |pageTexts|
    ensures Assembled(pageTexts) ==
      Assembled(pageTexts[..i - 1]) + Section(i, pageTexts[i - 1]) + SectionsFrom(pageTexts, i)
  {
    assert pageTexts[..i][..i - 1] == pageTexts[..i - 1];
    assert Assembled(pageTexts[..i]) == Assembled(pageTexts[..i - 1]) + Section(i, pageTexts[i - 1]);
    AssembledSplit(pageTexts, i);
  }

  /** A section splits into two empty lines, its header line, and the lines of what follows the header. */
  lemma SplitLinesSection(header: string, after: string)
    requires NoBreaks(header)
    ensures SplitLines("\n\n" + header + "\n" + after) == ["", "", header] + SplitLines(after)
  {
    var lines := ["", "", header];
    assert JoinTerminated(lines) == "\n\n" + header + "\n" by {
      assert JoinTerminated(lines[2..]) == header + "\n";
      assert lines[1..][1..] == lines[2..];
    }
    SplitLinesPrefix(lines, after);
  }

  /** For at least one page, the lines of the text start with two empty lines and the first header. */
  lemma AssembledLinesStart(pageTexts: seq<string>)
    requires |pageTexts| >= 1
    ensures |SplitLines(Assembled(pageTexts))| >= 3
    ensures SplitLines(Assembled(pageTexts))[..3] == ["", "", "--- Page 1 ---"]
  {
    var text := Assembled(pageTexts);
    var first := Section(1, pageTexts[0]);
    assert first <= text by {
      AssembledPrefix(pageTexts, 1);
      assert pageTexts[..1][..0] == [];
    }
    var after := pageTexts[0] + text[|first|..];
    assert text == "\n\n" + PageHeader(1) + "\n" + after;
    assert SplitLines(text) == ["", "", PageHeader(1)] + SplitLines(after) by {
      PageHeaderHasNoBreaks(1);
      SplitLinesSection(PageHeader(1), after);
    }
    assert PageHeader(1) == "--- Page 1 ---";
  }
}
