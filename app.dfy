/** The two pieces of sequential logic in the application shell (src/App.js): the page
    layout of the PDF export, and the choice of file name when saving. */
module App {
  import opened Wrappers
  import Sidebar

  // ---------------------------------------------------------------------------------------
  // PDF export layout

  /** The page size the document reports, in its units (millimetres for an A4 default). */
  datatype Page = Page(width: real, height: real)

  /** Something drawn on a page: a paragraph's wrapped lines, or a diagram's raster. */
  datatype Placement =
    | TextBlock(page: nat, x: real, y: real, lineCount: nat)
    | Image(page: nat, x: real, y: real, width: real, height: real)

  /** What rasterising one diagram gives: the canvas size in pixels, or a rejection. */
  datatype Raster = Raster(pixelWidth: nat, pixelHeight: nat) | RasterFailed

  /** The rasterisation throws, or the image it yields has no area (the canvas then encodes
      to an empty data URL, whose properties cannot be read): the `catch` path. */
  predicate Throws(r: Raster) {
    r.RasterFailed? || r.pixelWidth == 0 || r.pixelHeight == 0
  }

  /** The layout so far: the page count, the vertical cursor and what has been placed. */
  datatype Layout = Layout(pages: nat, cursor: real, placed: seq<Placement>)

  /** A new document has one page, and the cursor starts 10 below its top. */
  const Start: Layout := Layout(1, 10.0, [])

  /** The overflow rule shared by paragraphs and diagrams: a block of height `h` that would
      cross the bottom margin goes to the top of a new page. */
  function Break(l: Layout, h: real, page: Page): Layout {
    if l.cursor + h > page.height - 10.0 then Layout(l.pages + 1, 10.0, l.placed) else l
  }

  /** The height of `n` wrapped lines. */
  function TextHeight(n: nat): real {
    n as real * 7.0
  }

  /** One paragraph of `n` wrapped lines: break if needed, place at the cursor 10 from the
      left, advance by the block and a gap of 5. */
  function PlaceText(l: Layout, n: nat, page: Page): Layout {
    var b := Break(l, TextHeight(n), page);
    Layout(b.pages, b.cursor + TextHeight(n) + 5.0, b.placed + [TextBlock(b.pages, 10.0, b.cursor, n)])
  }

  /** The drawn size of a raster: the page width less both margins, and the height that
      keeps the raster's aspect ratio. */
  function DrawnWidth(page: Page): real {
    page.width - 20.0
  }

  function DrawnHeight(r: Raster, page: Page): real
    requires !Throws(r)
  {
    (r.pixelHeight as real * DrawnWidth(page)) / r.pixelWidth as real
  }

  /** One diagram: a failed one changes nothing; otherwise break if needed, place at the
      cursor, advance by the image and a gap of 10. */
  function PlaceDiagram(l: Layout, r: Raster, page: Page): Layout {
    if Throws(r) then l
    else
      var h := DrawnHeight(r, page);
      var b := Break(l, h, page);
      Layout(b.pages, b.cursor + h + 10.0, b.placed + [Image(b.pages, 10.0, b.cursor, DrawnWidth(page), h)])
  }

  /** The paragraphs, in document order. */
  function LayoutTexts(l: Layout, ns: seq<nat>, page: Page): Layout {
    if ns == [] then l else PlaceText(LayoutTexts(l, ns[..|ns| - 1], page), ns[|ns| - 1], page)
  }

  /** The diagrams, in document order. */
  function LayoutDiagrams(l: Layout, rs: seq<Raster>, page: Page): Layout {
    if rs == [] then l else PlaceDiagram(LayoutDiagrams(l, rs[..|rs| - 1], page), rs[|rs| - 1], page)
  }

  /** The whole export: every paragraph first, then every diagram. */
  function Export(lineCounts: seq<nat>, rasters: seq<Raster>, page: Page): Layout {
    LayoutDiagrams(LayoutTexts(Start, lineCounts, page), rasters, page)
  }

  /** The diagrams whose rasterisation succeeds, in order. */
  function Successful(rs: seq<Raster>): (ok: seq<Raster>)
    ensures |ok| <= |rs|
    ensures forall i | 0 <= i < |ok| :: !Throws(ok[i]) && ok[i] in rs
    ensures forall x | !Throws(x) :: multiset(ok)[x] == multiset(rs)[x]
    ensures forall x | Throws(x) :: multiset(ok)[x] == 0
  {
    if rs == [] then []
    else
      var prefix, last := rs[..|rs| - 1], rs[|rs| - 1];
      assert rs == prefix + [last];
      if Throws(last) then Successful(prefix)
      else Successful(prefix) + [last]
  }

  /** Every diagram that rasterises is kept. */
  lemma SuccessfulComplete(rs: seq<Raster>, i: nat)
    requires i < |rs| && !Throws(rs[i])
    ensures rs[i] in Successful(rs)
  {
    assert rs[i] in multiset(rs);
  }

  /** The filter keeps document order: the kept diagrams of a concatenation are those of
      the first part, then those of the second. */
  lemma {:induction false} SuccessfulAppend(a: seq<Raster>, b: seq<Raster>)
    ensures Successful(a + b) == Successful(a) + Successful(b)
    decreases |b|
  {
    if b == [] {
      assert a + b == a;
    } else {
      var b0, last := b[..|b| - 1], b[|b| - 1];
      assert (a + b)[..|a + b| - 1] == a + b0;
      assert (a + b)[|a + b| - 1] == last;
      assert b[..|b| - 1] == b0;
      SuccessfulAppend(a, b0);
    }
  }

  /** The jsPDF document: its page count and what has been drawn, each item on the page
      that was current when it was drawn. */
  class PdfDocument {
    var pages: nat
    var placed: seq<Placement>

    constructor()
      ensures pages == 1 && placed == []
    {
      pages := 1;
      placed := [];
    }

    method AddPage()
      modifies this
      ensures pages == old(pages) + 1 && placed == old(placed)
    {
      pages := pages + 1;
    }

    method Text(lineCount: nat, x: real, y: real)
      modifies this
      ensures pages == old(pages) && placed == old(placed) + [TextBlock(old(pages), x, y, lineCount)]
    {
      placed := placed + [TextBlock(pages, x, y, lineCount)];
    }

    method AddImage(x: real, y: real, width: real, height: real)
      modifies this
      ensures pages == old(pages) && placed == old(placed) + [Image(old(pages), x, y, width, height)]
    {
      placed := placed + [Image(pages, x, y, width, height)];
    }
  }

  /** `handleExportPDF`: the text loop, then the diagram loop, over one document whose
      final page count and contents are returned. `lineCounts` are the lengths of the
      wrapped paragraphs, `rasters` the rasterisation result of each diagram. */
  method ExportPdf(lineCounts: seq<nat>, rasters: seq<Raster>, page: Page)
    returns (pageCount: nat, placed: seq<Placement>)
    ensures pageCount == Export(lineCounts, rasters, page).pages
    ensures placed == Export(lineCounts, rasters, page).placed
  {
    var pdf := new PdfDocument();
    var verticalOffset := 10.0;
    for i := 0 to |lineCounts|
      invariant Layout(pdf.pages, verticalOffset, pdf.placed) == LayoutTexts(Start, lineCounts[..i], page)
    {
      var n := lineCounts[i];
      if verticalOffset + n as real * 7.0 > page.height - 10.0 {
        pdf.AddPage();
        verticalOffset := 10.0;
      }
      pdf.Text(n, 10.0, verticalOffset);
      verticalOffset := verticalOffset + n as real * 7.0 + 5.0;
      assert lineCounts[..i + 1][..i] == lineCounts[..i];
    }
    assert lineCounts[..|lineCounts|] == lineCounts;
    ghost var afterTexts := Layout(pdf.pages, verticalOffset, pdf.placed);
    for j := 0 to |rasters|
      invariant Layout(pdf.pages, verticalOffset, pdf.placed) == LayoutDiagrams(afterTexts, rasters[..j], page)
    {
      assert rasters[..j + 1][..j] == rasters[..j];
      ghost var before := Layout(pdf.pages, verticalOffset, pdf.placed);
      match rasters[j]
      case RasterFailed =>
      case Raster(pixelWidth, pixelHeight) =>
        if pixelWidth != 0 && pixelHeight != 0 {
          var pdfWidth := page.width - 20.0;
          var pdfHeight := (pixelHeight as real * pdfWidth) / pixelWidth as real;
          assert pdfHeight == DrawnHeight(rasters[j], page);
          if verticalOffset + pdfHeight > page.height - 10.0 {
            pdf.AddPage();
            verticalOffset := 10.0;
          }
          pdf.AddImage(10.0, verticalOffset, pdfWidth, pdfHeight);
          verticalOffset := verticalOffset + pdfHeight + 10.0;
        }
        assert Layout(pdf.pages, verticalOffset, pdf.placed) == PlaceDiagram(before, rasters[j], page);
    }
    assert rasters[..|rasters|] == rasters;
    pageCount, placed := pdf.pages, pdf.placed;
  }

  // Properties of the layout

  /** From `offset` on, `placed` holds one paragraph block per entry of `ns`, in order. */
  predicate TextsAt(placed: seq<Placement>, offset: nat, ns: seq<nat>) {
    && offset + |ns| <= |placed|
    && forall i | 0 <= i < |ns| :: BlockOf(placed[offset + i], ns[i])
  }

  /** A paragraph block of `n` lines, 10 from the left edge. */
  predicate BlockOf(p: Placement, n: nat) {
    p.TextBlock? && p.x == 10.0 && p.lineCount == n
  }

  /** The paragraphs are placed in order, one block each, after what was there. */
  lemma {:induction false} TextsPlaced(l: Layout, ns: seq<nat>, page: Page)
    ensures |LayoutTexts(l, ns, page).placed| == |l.placed| + |ns|
    ensures LayoutTexts(l, ns, page).placed[..|l.placed|] == l.placed
    ensures TextsAt(LayoutTexts(l, ns, page).placed, |l.placed|, ns)
  {
    if ns != [] {
      var prefix := ns[..|ns| - 1];
      var n := ns[|ns| - 1];
      TextsPlaced(l, prefix, page);
      var before := LayoutTexts(l, prefix, page);
      var b := Break(before, TextHeight(n), page);
      var block := TextBlock(b.pages, 10.0, b.cursor, n);
      var r := LayoutTexts(l, ns, page);
      assert b.placed == before.placed;
      assert r.placed == before.placed + [block];
      forall i | 0 <= i < |ns| ensures BlockOf(r.placed[|l.placed| + i], ns[i]) {
        if i < |prefix| {
          assert r.placed[|l.placed| + i] == before.placed[|l.placed| + i];
          assert ns[i] == prefix[i];
        } else {
          assert r.placed[|l.placed| + i] == block;
        }
      }
      assert r.placed[..|l.placed|] == before.placed[..|l.placed|];
    }
  }

  /** An image drawn from the raster `r`: the full width between the margins, and the
      raster's aspect ratio. */
  predicate DrawnFrom(p: Placement, r: Raster, page: Page) {
    && !Throws(r)
    && p.Image?
    && p.x == 10.0
    && p.width == DrawnWidth(page)
    && p.height * r.pixelWidth as real == r.pixelHeight as real * p.width
  }

  /** From `offset` on, `placed` holds one image per raster of `ok`, in order. */
  predicate ImagesAt(placed: seq<Placement>, offset: nat, ok: seq<Raster>, page: Page) {
    && offset + |ok| <= |placed|
    && forall i | 0 <= i < |ok| :: DrawnFrom(placed[offset + i], ok[i], page)
  }

  lemma PlaceDiagramDrawn(l: Layout, r: Raster, page: Page)
    requires !Throws(r)
    ensures var p := PlaceDiagram(l, r, page).placed;
            && p[..|l.placed|] == l.placed && |p| == |l.placed| + 1
            && DrawnFrom(p[|l.placed|], r, page)
  {
    var h := DrawnHeight(r, page);
    assert h * r.pixelWidth as real == r.pixelHeight as real * DrawnWidth(page);
  }

  /** The diagrams add one image per successful raster, in order, after what was there. */
  lemma {:induction false} DiagramsPlaced(l: Layout, rs: seq<Raster>, page: Page)
    ensures |LayoutDiagrams(l, rs, page).placed| == |l.placed| + |Successful(rs)|
    ensures LayoutDiagrams(l, rs, page).placed[..|l.placed|] == l.placed
    ensures ImagesAt(LayoutDiagrams(l, rs, page).placed, |l.placed|, Successful(rs), page)
  {
    if rs != [] {
      var prefix := rs[..|rs| - 1];
      var last := rs[|rs| - 1];
      DiagramsPlaced(l, prefix, page);
      var before := LayoutDiagrams(l, prefix, page);
      var okBefore := Successful(prefix);
      if !Throws(last) {
        var r := LayoutDiagrams(l, rs, page);
        var ok := Successful(rs);
        assert ok == okBefore + [last];
        PlaceDiagramDrawn(before, last, page);
        assert r.placed[..|before.placed|] == before.placed;
        forall i | 0 <= i < |ok| ensures DrawnFrom(r.placed[|l.placed| + i], ok[i], page) {
          if i < |okBefore| {
            assert r.placed[|l.placed| + i] == before.placed[|l.placed| + i];
            assert ok[i] == okBefore[i];
          }
        }
        assert r.placed[..|l.placed|] == before.placed[..|l.placed|];
      }
    }
  }

  /** Every paragraph is placed before any diagram: the export is the paragraphs, in
      document order, followed by one image per successful diagram, in document order. */
  lemma TextsBeforeDiagrams(lineCounts: seq<nat>, rasters: seq<Raster>, page: Page)
    ensures |Export(lineCounts, rasters, page).placed| == |lineCounts| + |Successful(rasters)|
    ensures TextsAt(Export(lineCounts, rasters, page).placed, 0, lineCounts)
    ensures ImagesAt(Export(lineCounts, rasters, page).placed, |lineCounts|, Successful(rasters), page)
  {
    TextsPlaced(Start, lineCounts, page);
    var texts := LayoutTexts(Start, lineCounts, page);
    DiagramsPlaced(texts, rasters, page);
    var placed := Export(lineCounts, rasters, page).placed;
    assert placed[..|texts.placed|] == texts.placed;
    assert forall i | 0 <= i < |lineCounts| :: placed[i] == placed[..|texts.placed|][i];
    assert TextsAt(placed, 0, lineCounts);
    assert ImagesAt(placed, |lineCounts|, Successful(rasters), page);
  }

  /** A diagram whose rasterisation fails is skipped as if it were not there: the layout of
      the diagrams is that of the successful ones alone. */
  lemma {:induction false} FailedDiagramsSkipped(l: Layout, rs: seq<Raster>, page: Page)
    ensures LayoutDiagrams(l, rs, page) == LayoutDiagrams(l, Successful(rs), page)
  {
    if rs != [] {
      var prefix := rs[..|rs| - 1];
      var last := rs[|rs| - 1];
      FailedDiagramsSkipped(l, prefix, page);
      if !Throws(last) {
        var ok := Successful(prefix) + [last];
        assert ok[..|ok| - 1] == Successful(prefix);
      }
    }
  }

  /** A placement inside the vertical margins: a block no taller than the space between
      the margins starts at or below the top margin and ends at or above the bottom one. */
  predicate InsideMargins(p: Placement, page: Page) {
    var h := if p.TextBlock? then TextHeight(p.lineCount) else p.height;
    0.0 <= h <= page.height - 20.0 ==> 10.0 <= p.y && p.y + h <= page.height - 10.0
  }

  /** What every layout reached from `Start` keeps: a page exists, the cursor is at or below
      the top margin, and every placement is on an existing page and inside the margins. */
  predicate Sound(l: Layout, page: Page) {
    && l.pages >= 1
    && l.cursor >= 10.0
    && forall i | 0 <= i < |l.placed| :: 1 <= l.placed[i].page <= l.pages && InsideMargins(l.placed[i], page)
  }

  lemma BreakSound(l: Layout, h: real, page: Page)
    requires Sound(l, page) && h >= 0.0
    ensures var b := Break(l, h, page);
            && Sound(b, page) && b.placed == l.placed
            && (b.pages == l.pages || b.pages == l.pages + 1)
            && (h <= page.height - 20.0 ==> b.cursor + h <= page.height - 10.0)
  {
    var b := Break(l, h, page);
    assert forall i | 0 <= i < |b.placed| :: b.placed[i] == l.placed[i];
  }

  lemma {:induction false} TextsSound(l: Layout, ns: seq<nat>, page: Page)
    requires Sound(l, page)
    ensures Sound(LayoutTexts(l, ns, page), page)
  {
    if ns != [] {
      var prefix := ns[..|ns| - 1];
      var n := ns[|ns| - 1];
      TextsSound(l, prefix, page);
      var before := LayoutTexts(l, prefix, page);
      var b := Break(before, TextHeight(n), page);
      BreakSound(before, TextHeight(n), page);
      var block := TextBlock(b.pages, 10.0, b.cursor, n);
      assert InsideMargins(block, page);
      var r := LayoutTexts(l, ns, page);
      assert r.placed == b.placed + [block];
      assert forall i | 0 <= i < |b.placed| :: r.placed[i] == b.placed[i];
    }
  }

  lemma {:induction false} DiagramsSound(l: Layout, rs: seq<Raster>, page: Page)
    requires Sound(l, page) && page.width >= 20.0
    ensures Sound(LayoutDiagrams(l, rs, page), page)
  {
    if rs != [] {
      var prefix := rs[..|rs| - 1];
      var last := rs[|rs| - 1];
      DiagramsSound(l, prefix, page);
      if !Throws(last) {
        var before := LayoutDiagrams(l, prefix, page);
        var h := DrawnHeight(last, page);
        assert h >= 0.0;
        var b := Break(before, h, page);
        BreakSound(before, h, page);
        var image := Image(b.pages, 10.0, b.cursor, DrawnWidth(page), h);
        assert InsideMargins(image, page);
        var r := LayoutDiagrams(l, rs, page);
        assert r.placed == b.placed + [image];
        assert forall i | 0 <= i < |b.placed| :: r.placed[i] == b.placed[i];
      }
    }
  }

  /** On a page at least as wide as its side margins, the export never draws on a page it
      has not added, and never lets a block that fits between the margins cross either one. */
  lemma ExportSound(lineCounts: seq<nat>, rasters: seq<Raster>, page: Page)
    requires page.width >= 20.0
    ensures Sound(Export(lineCounts, rasters, page), page)
  {
    TextsSound(Start, lineCounts, page);
    DiagramsSound(LayoutTexts(Start, lineCounts, page), rasters, page);
  }

  // ---------------------------------------------------------------------------------------
  // Saving

  /** The two toolbar actions that save. */
  datatype SaveType = Save | SaveAs

  /** JavaScript truthiness of a string that may be `null`. */
  predicate Truthy(s: Option<string>) {
    s.Some? && s.value != []
  }

  /** `handleSave` prompts for a name for "Save as", and for "Save" when there is no
      current file. */
  predicate AsksForName(saveType: SaveType, currentFile: Option<string>) {
    saveType == SaveAs || !Truthy(currentFile)
  }

  /** The name the document is saved under, or `None` when the prompt was answered with
      nothing (cancelled or empty) and `handleSave` returns early. `answer` is what the
      prompt returns if it is shown. */
  function FileNameToSave(saveType: SaveType, currentFile: Option<string>, answer: Option<string>): (r: Option<string>)
    ensures r.Some? ==> r.value != []
  {
    if AsksForName(saveType, currentFile) then
      if Truthy(answer) then answer else None
    else
      currentFile
  }

  /** A save goes ahead exactly when no prompt is needed, or the prompt gets a non-empty
      answer; a prompted save uses the answer, any other the current file. */
  lemma FileNameChoice(saveType: SaveType, currentFile: Option<string>, answer: Option<string>)
    ensures FileNameToSave(saveType, currentFile, answer).Some?
            <==> !AsksForName(saveType, currentFile) || Truthy(answer)
    ensures AsksForName(saveType, currentFile) && Truthy(answer) ==> FileNameToSave(saveType, currentFile, answer) == answer
    ensures !AsksForName(saveType, currentFile) ==> FileNameToSave(saveType, currentFile, answer) == currentFile
  {
  }

  /** "Save" of a document that has a name never prompts and keeps that name; "Save as"
      always prompts. */
  lemma SaveKeepsNamedFile(currentFile: Option<string>, answer: Option<string>)
    ensures Truthy(currentFile) ==> !AsksForName(Save, currentFile) && FileNameToSave(Save, currentFile, answer) == currentFile
    ensures AsksForName(SaveAs, currentFile)
  {
  }

  const SavedMessage: string := "Document saved successfully!"
  const SaveFailedMessage: string := "Failed to save document"

  /** The part of the application state `handleSave` reads and writes, and a record of its
      effects: the prompts shown, the `saveDocument` calls made and the alerts raised. */
  class AppState {
    var markdown: string
    var currentFile: Option<string>
    var files: seq<Sidebar.FileEntry>
    /** The `last-selected-file` entry of local storage. */
    var lastSelectedFile: Option<string>
    var prompts: nat
    /** Each `saveDocument(content, fileName)` call, in order. */
    var saves: seq<(string, string)>
    var alerts: seq<string>

    constructor(markdown: string, currentFile: Option<string>)
      ensures this.markdown == markdown && this.currentFile == currentFile
      ensures files == [] && lastSelectedFile == None && prompts == 0 && saves == [] && alerts == []
    {
      this.markdown := markdown;
      this.currentFile := currentFile;
      files := [];
      lastSelectedFile := None;
      prompts := 0;
      saves := [];
      alerts := [];
    }

    /** `handleSave(saveType)`. `answer` is what the prompt returns if shown, `saveOk`
        whether `saveDocument` resolves, and `listing` what `loadDocumentList` resolves to
        (`None` when it rejects). */
    method HandleSave(saveType: SaveType, answer: Option<string>, saveOk: bool,
                      listing: Option<seq<Sidebar.FileEntry>>)
      modifies this
      ensures markdown == old(markdown)
      ensures prompts == old(prompts) + (if AsksForName(saveType, old(currentFile)) then 1 else 0)
      ensures var name := FileNameToSave(saveType, old(currentFile), answer);
              if name.None? then
                && saves == old(saves) && alerts == old(alerts) && currentFile == old(currentFile)
                && lastSelectedFile == old(lastSelectedFile) && files == old(files)
              else
                && saves == old(saves) + [(old(markdown), name.value)]
                && currentFile == (if saveOk then name else old(currentFile))
                && lastSelectedFile == (if saveOk then name else old(lastSelectedFile))
                && files == (if saveOk && listing.Some? then listing.value else old(files))
                && alerts == old(alerts) + [if saveOk && listing.Some? then SavedMessage else SaveFailedMessage]
    {
      var fileName := currentFile;
      if saveType == SaveAs || !Truthy(fileName) {
        prompts := prompts + 1;
        fileName := answer;
        if !Truthy(fileName) {
          return;
        }
      }
      saves := saves + [(markdown, fileName.value)];
      if !saveOk {
        alerts := alerts + [SaveFailedMessage];
        return;
      }
      currentFile := fileName;
      lastSelectedFile := fileName;
      if listing.None? {
        alerts := alerts + [SaveFailedMessage];
        return;
      }
      files := listing.value;
      alerts := alerts + [SavedMessage];
    }
  }
}
