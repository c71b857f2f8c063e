/**
 * The text paginator of `create_text_pdf`: the OCR text is cut into lines
 * and the lines are drawn one below the other on letter-size pages, a new
 * page being started whenever the vertical cursor has reached the bottom
 * margin. The PDF canvas is modelled only as page bookkeeping: a document
 * is the sequence of its pages, a page the sequence of its line placements.
 */
module Paginator {
  import opened LineSplit

  /** Height of a letter page in points. */
  const Height: int := 792
  /** Margin on every side. */
  const Margin: int := 40
  /** Vertical distance between consecutive lines (also the text object's leading for a 10 pt font). */
  const Pitch: int := 12
  /** Cursor position of the first line of every page. */
  const Top: int := Height - Margin
  /** Number of lines that fit on one page: the first k with `Top - Pitch * k <= Margin`. */
  const LinesPerPage: nat := 60

  /** One line drawn at height `y` (the horizontal position is the constant margin). */
  datatype Placement = Placement(y: int, line: string)

  type Page = seq<Placement>
  type Document = seq<Page>

  /** 60 is the capacity: the cursor is above the margin exactly for the first 60 line slots. */
  lemma CapacityIsSixty(k: nat)
    ensures Top - Pitch * k > Margin <==> k < LinesPerPage
  {
  }

  /** A page holding `lines`, the k-th of them at `Top - Pitch * k`. */
  function Place(lines: seq<string>): (page: Page)
    ensures |page| == |lines|
  {
    seq(|lines|, k requires 0 <= k < |lines| => Placement(Top - Pitch * k, lines[k]))
  }

  /** Reference pagination: consecutive chunks of 60 lines, the last one possibly shorter or empty. */
  function Layout(lines: seq<string>): (doc: Document)
    decreases |lines|
  {
    if |lines| <= LinesPerPage then [Place(lines)]
    else [Place(lines[..LinesPerPage])] + Layout(lines[LinesPerPage..])
  }

  /** The text lines of a page, top to bottom. */
  function PageLines(page: Page): (lines: seq<string>)
    ensures |lines| == |page|
  {
    seq(|page|, k requires 0 <= k < |page| => page[k].line)
  }

  /** The text lines of a whole document, page after page. */
  function DocLines(doc: Document): (lines: seq<string>) {
    if doc == [] then [] else PageLines(doc[0]) + DocLines(doc[1..])
  }

  /**
   * `create_text_pdf(text, ...)`: the returned document is what the canvas
   * holds when `save` is called, every page sealed by `showPage` followed by
   * the page sealed by the final `drawText`.
   */
  method CreateTextPdf(text: string) returns (doc: Document)
    ensures doc == Layout(SplitLines(text))
  {
    var lines := SplitLines(text);
    var pages: Document := [];
    var page: Page := [];
    var y := Top;
    for i := 0 to |lines|
      invariant |page| <= LinesPerPage
      invariant y == Top - Pitch * |page|
      invariant Layout(lines[..i]) == pages + [page]
    {
      LayoutSnoc(lines[..i], lines[i]);
      assert lines[..i + 1] == lines[..i] + [lines[i]];
      ghost var next := Layout(lines[..i + 1]);
      assert (pages + [page])[..|pages|] == pages;
      CapacityIsSixty(|page|);
      if y <= Margin {
        assert next == pages + [page] + [[Placement(Top, lines[i])]];
        // drawText of the full page, showPage, and a fresh text object at the top
        pages := pages + [page];
        page := [];
        y := Top;
        assert page + [Placement(y, lines[i])] == [Placement(Top, lines[i])];
      } else {
        assert next == pages + [page + [Placement(y, lines[i])]];
      }
      page := page + [Placement(y, lines[i])];
      y := y - Pitch;
    }
    assert lines[..|lines|] == lines;
    doc := pages + [page];
  }

  lemma PlaceSnoc(lines: seq<string>, x: string)
    ensures Place(lines + [x]) == Place(lines) + [Placement(Top - Pitch * |lines|, x)]
  {
  }

  /** Adding one line either extends the last page or, when it is full, opens a new page. */
  lemma {:induction false} LayoutSnoc(lines: seq<string>, x: string)
    ensures |Layout(lines)| >= 1
    ensures |Layout(lines)[|Layout(lines)| - 1]| <= LinesPerPage
    ensures
      var doc: Document := Layout(lines);
      var last := doc[|doc| - 1];
      Layout(lines + [x]) ==
        if |last| < LinesPerPage then doc[..|doc| - 1] + [last + [Placement(Top - Pitch * |last|, x)]]
        else doc + [[Placement(Top, x)]]
    decreases |lines|
  {
    if |lines| < LinesPerPage {
      PlaceSnoc(lines, x);
    } else if |lines| == LinesPerPage {
      assert (lines + [x])[..LinesPerPage] == lines;
      assert (lines + [x])[LinesPerPage..] == [x];
      assert Place([x]) == [Placement(Top, x)];
    } else {
      var rest := lines[LinesPerPage..];
      LayoutSnoc(rest, x);
      assert (lines + [x])[..LinesPerPage] == lines[..LinesPerPage];
      assert (lines + [x])[LinesPerPage..] == rest + [x];
      var doc, tail := Layout(lines), Layout(rest);
      assert doc == [Place(lines[..LinesPerPage])] + tail;
      assert doc[..|doc| - 1] == [Place(lines[..LinesPerPage])] + tail[..|tail| - 1];
    }
  }

  /** Lines are preserved in order: reading the document page by page gives back the input lines. */
  lemma {:induction false} LayoutPreservesLines(lines: seq<string>)
    ensures DocLines(Layout(lines)) == lines
    decreases |lines|
  {
    assert PageLines(Place(lines)) == lines;
    if |lines| > LinesPerPage {
      LayoutPreservesLines(lines[LinesPerPage..]);
      assert PageLines(Place(lines[..LinesPerPage])) == lines[..LinesPerPage];
      assert lines[..LinesPerPage] + lines[LinesPerPage..] == lines;
    }
  }

  /**
   * Placement positions and the cursor bound: the k-th line of every page is
   * drawn at `Top - Pitch * k`, strictly above the bottom margin and not
   * above the top margin.
   */
  lemma {:induction false} LayoutPositions(lines: seq<string>)
    ensures forall p, k :: 0 <= p < |Layout(lines)| && 0 <= k < |Layout(lines)[p]| ==>
      Layout(lines)[p][k].y == Top - Pitch * k && Margin < Layout(lines)[p][k].y <= Top
    decreases |lines|
  {
    var doc: Document := Layout(lines);
    if |lines| > LinesPerPage {
      LayoutPositions(lines[LinesPerPage..]);
      assert doc == [Place(lines[..LinesPerPage])] + Layout(lines[LinesPerPage..]);
    }
    forall p: nat, k: nat | p < |doc| && k < |doc[p]|
      ensures Margin < doc[p][k].y <= Top
    {
      LayoutPageSize(lines, p);
      CapacityIsSixty(k);
    }
  }

  /** Every page holds at most 60 lines. */
  lemma {:induction false} LayoutPageSize(lines: seq<string>, p: nat)
    requires p < |Layout(lines)|
    ensures |Layout(lines)[p]| <= LinesPerPage
    decreases |lines|
  {
    if |lines| > LinesPerPage && p > 0 {
      LayoutPageSize(lines[LinesPerPage..], p - 1);
    }
  }

  /**
   * Capacity and page count: every page but the last holds exactly 60 lines,
   * the last holds between 1 and 60 when there is any line, and a text of
   * n >= 1 lines takes ceil(n / 60) pages; no lines give one empty page.
   */
  lemma {:induction false} LayoutShape(lines: seq<string>)
    ensures |Layout(lines)| == if |lines| == 0 then 1 else (|lines| + LinesPerPage - 1) / LinesPerPage
    ensures forall p :: 0 <= p < |Layout(lines)| - 1 ==> |Layout(lines)[p]| == LinesPerPage
    ensures |lines| > 0 ==> 1 <= |Layout(lines)[|Layout(lines)| - 1]| <= LinesPerPage
    ensures |lines| == 0 ==> Layout(lines) == [[]]
    decreases |lines|
  {
    if |lines| > LinesPerPage {
      var rest := lines[LinesPerPage..];
      LayoutShape(rest);
      assert Layout(lines) == [Place(lines[..LinesPerPage])] + Layout(rest);
    }
  }

  /** Sealing happens only right before a line goes on the next page: with any line at all, no page is empty. */
  lemma LayoutPagesNonEmpty(lines: seq<string>)
    requires |lines| > 0
    ensures forall p :: 0 <= p < |Layout(lines)| ==> |Layout(lines)[p]| >= 1
  {
    LayoutShape(lines);
  }

  /** The empty text gives one page with no lines; a lone LF gives one page with one empty line. */
  lemma CreateTextPdfDegenerate()
    ensures Layout(SplitLines("")) == [[]]
    ensures Layout(SplitLines("\n")) == [[Placement(Top, "")]]
  {
    SplitLinesCons("", "");
    assert "" + "\n" + "" == "\n";
    assert SplitLines("\n") == [""];
    assert Place([""]) == [Placement(Top, "")];
  }

  /** The document of `create_text_pdf` carries exactly the lines of `text.splitlines()`, in order. */
  lemma CreateTextPdfLines(text: string)
    ensures DocLines(Layout(SplitLines(text))) == SplitLines(text)
    ensures forall p, k :: 0 <= p < |Layout(SplitLines(text))| && 0 <= k < |Layout(SplitLines(text))[p]| ==>
      NoBreaks(Layout(SplitLines(text))[p][k].line)
  {
    var lines := SplitLines(text);
    var doc: Document := Layout(lines);
    LayoutPreservesLines(lines);
    SplitLinesHaveNoBreaks(text);
    forall p: nat, k: nat | p < |doc| && k < |doc[p]|
      ensures NoBreaks(doc[p][k].line)
    {
      LayoutLineOrigin(lines, p, k);
    }
  }

  /** The k-th line of page p is input line `60 * p + k`. */
  lemma {:induction false} LayoutLineOrigin(lines: seq<string>, p: nat, k: nat)
    requires p < |Layout(lines)| && k < |Layout(lines)[p]|
    ensures LinesPerPage * p + k < |lines|
    ensures Layout(lines)[p][k].line == lines[LinesPerPage * p + k]
    decreases |lines|
  {
    if |lines| > LinesPerPage && p > 0 {
      var rest := lines[LinesPerPage..];
      LayoutLineOrigin(rest, p - 1, k);
      assert LinesPerPage * p + k == LinesPerPage + (LinesPerPage * (p - 1) + k);
    }
  }
}
