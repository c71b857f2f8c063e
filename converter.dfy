/**
 * The main loop: every entry of the input folder that passes the `.pdf`
 * filter is run through OCR, the text is laid out by the paginator, and the
 * document is saved in the output folder under the derived name. The
 * output folder is modelled as a map from file name to the document last
 * saved under that name; it starts out holding whatever an earlier run left
 * there (`initial`), since the script creates it only when it is missing and
 * never empties it. The OCR of a file is a given function of its name that
 * yields the per-page texts.
 */
module Converter {
  import opened LineSplit
  import opened Paginator
  import opened OcrText
  import opened OutputNames

  /** The document saved for a PDF whose pages OCR to `pageTexts`. */
  function Render(pageTexts: seq<string>): (doc: Document) {
    Layout(SplitLines(Assembled(pageTexts)))
  }

  /**
   * Output folder after processing `filenames` in listing order, starting
   * from `initial`.
   */
  function FolderAfter(initial: map<string, Document>, filenames: seq<string>, ocr: string -> seq<string>): (folder: map<string, Document>)
    decreases |filenames|
  {
    if filenames == [] then initial
    else
      var before := FolderAfter(initial, filenames[..|filenames| - 1], ocr);
      var f := filenames[|filenames| - 1];
      if IsPdfName(f) then before[OutputName(f) := Render(ocr(f))] else before
  }

  /** The main loop of the script, over the folder listing `filenames`. */
  method ConvertFolder(initial: map<string, Document>, filenames: seq<string>, ocr: string -> seq<string>) returns (saved: map<string, Document>)
    ensures saved == FolderAfter(initial, filenames, ocr)
  {
    saved := initial;
    for i := 0 to |filenames|
      invariant saved == FolderAfter(initial, filenames[..i], ocr)
    {
      assert filenames[..i + 1][..i] == filenames[..i];
      var filename := filenames[i];
      if IsPdfName(filename) {
        var extractedText := OcrPdfToText(ocr(filename));
        var outputName := OutputName(filename);
        var doc := CreateTextPdf(extractedText);
        saved := saved[outputName := doc];
      }
    }
    assert filenames[..|filenames|] == filenames;
  }

  /**
   * An output file exists exactly when it was there before or is the output
   * name of an entry that passes the filter.
   */
  lemma {:induction false} FolderAfterNames(initial: map<string, Document>, filenames: seq<string>, ocr: string -> seq<string>, out: string)
    ensures out in FolderAfter(initial, filenames, ocr) <==>
      out in initial || exists j :: 0 <= j < |filenames| && IsPdfName(filenames[j]) && OutputName(filenames[j]) == out
    decreases |filenames|
  {
    if filenames != [] {
      var n := |filenames|;
      var front := filenames[..n - 1];
      FolderAfterNames(initial, front, ocr, out);
      if out in FolderAfter(initial, filenames, ocr) && out !in initial && !(IsPdfName(filenames[n - 1]) && OutputName(filenames[n - 1]) == out) {
        var j :| 0 <= j < |front| && IsPdfName(front[j]) && OutputName(front[j]) == out;
        assert filenames[j] == front[j];
      }
      if exists j :: 0 <= j < n && IsPdfName(filenames[j]) && OutputName(filenames[j]) == out {
        var j :| 0 <= j < n && IsPdfName(filenames[j]) && OutputName(filenames[j]) == out;
        if j < n - 1 {
          assert front[j] == filenames[j];
        }
      }
    }
  }

  /**
   * Last writer wins: the document saved under a name is the rendering of
   * the last entry in listing order that passes the filter and maps to that
   * name.
   */
  lemma {:induction false} FolderAfterContents(initial: map<string, Document>, filenames: seq<string>, ocr: string -> seq<string>, j: nat)
    requires j < |filenames| && IsPdfName(filenames[j])
    requires forall k :: j < k < |filenames| && IsPdfName(filenames[k]) ==> OutputName(filenames[k]) != OutputName(filenames[j])
    ensures OutputName(filenames[j]) in FolderAfter(initial, filenames, ocr)
    ensures FolderAfter(initial, filenames, ocr)[OutputName(filenames[j])] == Render(ocr(filenames[j]))
    decreases |filenames|
  {
    var n := |filenames|;
    if j < n - 1 {
      var front := filenames[..n - 1];
      NoLaterWriterInFront(filenames, j);
      FolderAfterContents(initial, front, ocr, j);
      FolderAfterOther(initial, filenames, ocr, OutputName(filenames[j]));
    } else {
      FolderAfterLast(initial, filenames, ocr);
    }
  }

  /** The last entry, when it passes the filter, writes its own output file. */
  lemma FolderAfterLast(initial: map<string, Document>, filenames: seq<string>, ocr: string -> seq<string>)
    requires filenames != [] && IsPdfName(filenames[|filenames| - 1])
    ensures var f := filenames[|filenames| - 1];
      OutputName(f) in FolderAfter(initial, filenames, ocr) &&
      FolderAfter(initial, filenames, ocr)[OutputName(f)] == Render(ocr(f))
  {
  }

  /** Dropping the last entry keeps entry `j` the last writer of its output name. */
  lemma NoLaterWriterInFront(filenames: seq<string>, j: nat)
    requires j < |filenames| - 1 && IsPdfName(filenames[j])
    requires forall k :: j < k < |filenames| && IsPdfName(filenames[k]) ==> OutputName(filenames[k]) != OutputName(filenames[j])
    ensures var front := filenames[..|filenames| - 1];
      front[j] == filenames[j] && IsPdfName(front[j]) &&
      forall k :: j < k < |front| && IsPdfName(front[k]) ==> OutputName(front[k]) != OutputName(front[j])
  {
    var front := filenames[..|filenames| - 1];
    forall k | j < k < |front| && IsPdfName(front[k])
      ensures OutputName(front[k]) != OutputName(front[j])
    {
      assert front[k] == filenames[k];
    }
  }

  /** Processing an entry leaves every file other than its own output as it was. */
  lemma FolderAfterOther(initial: map<string, Document>, filenames: seq<string>, ocr: string -> seq<string>, out: string)
    requires filenames != []
    requires !IsPdfName(filenames[|filenames| - 1]) || OutputName(filenames[|filenames| - 1]) != out
    ensures var before := FolderAfter(initial, filenames[..|filenames| - 1], ocr);
      var after := FolderAfter(initial, filenames, ocr);
      (out in after <==> out in before) && (out in before ==> after[out] == before[out])
  {
  }

  /**
   * A file that no filtered entry maps to keeps what the earlier run left:
   * the run neither deletes nor rewrites it.
   */
  lemma {:induction false} FolderAfterKeeps(initial: map<string, Document>, filenames: seq<string>, ocr: string -> seq<string>, out: string)
    requires out in initial
    requires forall k :: 0 <= k < |filenames| && IsPdfName(filenames[k]) ==> OutputName(filenames[k]) != out
    ensures out in FolderAfter(initial, filenames, ocr)
    ensures FolderAfter(initial, filenames, ocr)[out] == initial[out]
    decreases |filenames|
  {
    if filenames != [] {
      var front := filenames[..|filenames| - 1];
      forall k | 0 <= k < |front| && IsPdfName(front[k]) ensures OutputName(front[k]) != out {
        assert front[k] == filenames[k];
      }
      FolderAfterKeeps(initial, front, ocr, out);
      FolderAfterOther(initial, filenames, ocr, out);
    }
  }

  /** Every document this run saves carries exactly the lines of its OCR text, at most 60 per page. */
  lemma SavedDocumentsAreLayouts(initial: map<string, Document>, filenames: seq<string>, ocr: string -> seq<string>, j: nat)
    requires j < |filenames| && IsPdfName(filenames[j])
    requires forall k :: j < k < |filenames| && IsPdfName(filenames[k]) ==> OutputName(filenames[k]) != OutputName(filenames[j])
    ensures OutputName(filenames[j]) in FolderAfter(initial, filenames, ocr)
    ensures var doc := FolderAfter(initial, filenames, ocr)[OutputName(filenames[j])];
      DocLines(doc) == SplitLines(Assembled(ocr(filenames[j]))) &&
      forall p :: 0 <= p < |doc| ==> |doc[p]| <= LinesPerPage
  {
    FolderAfterContents(initial, filenames, ocr, j);
    var lines := SplitLines(Assembled(ocr(filenames[j])));
    LayoutPreservesLines(lines);
    forall p | 0 <= p < |Layout(lines)| ensures |Layout(lines)[p]| <= LinesPerPage {
      LayoutPageSize(lines, p);
    }
  }
}
