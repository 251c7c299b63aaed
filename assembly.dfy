/** `get_combined_markdown`: each page's placeholders are resolved against a dict
    built from that page's own images, and the pages are joined with a blank line. */
module Assembly {
  import opened Strings
  import opened Ocr
  import opened Placeholders

  /** The separator of `"\n\n".join(markdowns)`. */
  const PageSeparator := "\n\n"

  /** A page's markdown once its placeholders are resolved against its own images. */
  function ResolvePage(p: Page): string {
    Resolve(p.markdown, FromImages(p.images))
  }

  function ResolvedPages(pages: seq<Page>): seq<string> {
    seq(|pages|, i requires 0 <= i < |pages| => ResolvePage(pages[i]))
  }

  /** The text `get_combined_markdown` returns for a response with these pages. */
  function Assemble(pages: seq<Page>): string {
    Join(ResolvedPages(pages), PageSeparator)
  }

  /** Where page `i`'s resolved text begins in the assembled text. */
  function PageStart(pages: seq<Page>, i: nat): nat
    requires i < |pages|
  {
    Offset(ResolvedPages(pages), PageSeparator, i)
  }

  /** The stretch of the assembled text that page `i` occupies. */
  function PageSegment(pages: seq<Page>, i: nat): string
    requires i < |pages|
  {
    JoinLayout(ResolvedPages(pages), PageSeparator, i);
    Assemble(pages)[PageStart(pages, i)..PageStart(pages, i) + |ResolvePage(pages[i])|]
  }

  /** The inner loop of `get_combined_markdown`: `img_data[img.id] = img.image_base64`
      for each image of the page, in order. */
  method CollectImages(images: seq<Image>) returns (imgData: ImageDict)
    ensures imgData == FromImages(images)
  {
    imgData := [];
    var j := 0;
    while j < |images|
      invariant 0 <= j <= |images|
      invariant imgData == FromImages(images[..j])
    {
      var img := images[j];
      assert images[..j + 1][..j] == images[..j];
      imgData := Assign(imgData, img.id, img.imageBase64);
      j := j + 1;
    }
    assert images[..j] == images;
  }

  /** One turn of the outer loop of `get_combined_markdown`: the page's dict is
      filled, and the page's markdown resolved against it. */
  method MarkdownOfPage(page: Page) returns (pageMd: string)
    ensures pageMd == ResolvePage(page)
  {
    var imgData := CollectImages(page.images);
    pageMd := ReplaceImagesInMarkdown(page.markdown, imgData);
  }

  method GetCombinedMarkdown(response: Response) returns (combined: string)
    ensures combined == Assemble(response.pages)
  {
    var pages := response.pages;
    var markdowns: seq<string> := [];
    var i := 0;
    while i < |pages|
      invariant 0 <= i <= |pages|
      invariant |markdowns| == i
      invariant forall k :: 0 <= k < i ==> markdowns[k] == ResolvePage(pages[k])
    {
      var pageMd := MarkdownOfPage(pages[i]);
      markdowns := markdowns + [pageMd];
      i := i + 1;
    }
    assert markdowns == ResolvedPages(pages);
    combined := Join(markdowns, PageSeparator);
  }

  // ---------------------------------------------------------------------------
  // Shape of the assembled text
  // ---------------------------------------------------------------------------

  /** The assembled text is the pages' resolved texts in page order, each followed
      by exactly one `"\n\n"` except the last: the first page starts at 0, each
      later page starts two characters after the previous one ends, and the text
      ends where the last page ends. */
  lemma AssembleLayout(pages: seq<Page>, i: nat)
    requires i < |pages|
    ensures PageStart(pages, 0) == 0
    ensures PageSegment(pages, i) == ResolvePage(pages[i])
    ensures i + 1 < |pages| ==>
      && PageStart(pages, i + 1) == PageStart(pages, i) + |ResolvePage(pages[i])| + 2
      && PageStart(pages, i + 1) <= |Assemble(pages)|
      && Assemble(pages)[PageStart(pages, i) + |ResolvePage(pages[i])|..PageStart(pages, i + 1)] == "\n\n"
    ensures i + 1 == |pages| ==> |Assemble(pages)| == PageStart(pages, i) + |ResolvePage(pages[i])|
  {
    JoinLayout(ResolvedPages(pages), PageSeparator, i);
  }

  /** No pages give the empty text. */
  lemma AssembleEmpty()
    ensures Assemble([]) == ""
  {
  }

  /** A single page gives just its own resolved text, with no separator. */
  lemma AssembleSingle(p: Page)
    ensures Assemble([p]) == ResolvePage(p)
  {
  }

  /** Appending a page appends one separator and that page's resolved text. */
  lemma AssembleAppend(pages: seq<Page>, p: Page)
    requires |pages| > 0
    ensures Assemble(pages + [p]) == Assemble(pages) + "\n\n" + ResolvePage(p)
  {
    assert ResolvedPages(pages + [p]) == ResolvedPages(pages) + [ResolvePage(p)];
    JoinAppend(ResolvedPages(pages), ResolvePage(p), PageSeparator);
  }

  /** Two pages of plain text. */
  lemma TwoPagesExample()
    ensures Assemble([Page("Page1 text", []), Page("Page2 text", [])]) == "Page1 text\n\nPage2 text"
  {
    var pages := [Page("Page1 text", []), Page("Page2 text", [])];
    assert ResolvedPages(pages) == ["Page1 text", "Page2 text"];
  }

  // ---------------------------------------------------------------------------
  // Images belong to their page
  // ---------------------------------------------------------------------------

  /** No image id or payload of the page holds a bracket or a parenthesis. */
  predicate WellFormedImages(images: seq<Image>) {
    forall i :: 0 <= i < |images| ==> BracketFree(images[i].id) && BracketFree(images[i].imageBase64)
  }

  lemma FromImagesWellFormed(images: seq<Image>)
    requires WellFormedImages(images)
    ensures WellFormedDict(FromImages(images))
  {
    FromImagesKeys(images);
    var d := FromImages(images);
    forall i | 0 <= i < |d| ensures BracketFree(d[i].0) && BracketFree(d[i].1) {
      assert d[i] in d;
      var j :| 0 <= j < |images| && images[j] == Image(d[i].0, d[i].1);
    }
  }

  /** The text assembled for page `i` depends on that page alone: any response that
      has the same page at position `j` holds the same text there. */
  lemma PageSegmentIsolated(pages: seq<Page>, i: nat, other: seq<Page>, j: nat)
    requires i < |pages| && j < |other| && pages[i] == other[j]
    ensures PageSegment(pages, i) == PageSegment(other, j)
  {
    AssembleLayout(pages, i);
    AssembleLayout(other, j);
  }

  /** A placeholder for an id that none of the page's own images carries stays in
      that page's text, whatever images the other pages have. */
  lemma ForeignPlaceholderKept(pages: seq<Page>, i: nat, k: string)
    requires i < |pages| && BracketFree(k) && WellFormedImages(pages[i].images)
    requires forall m :: 0 <= m < |pages[i].images| ==> pages[i].images[m].id != k
    requires Contains(pages[i].markdown, Placeholder(k))
    ensures Contains(PageSegment(pages, i), Placeholder(k))
  {
    var images := pages[i].images;
    AbsentIdHasNoEntry(images, k);
    FromImagesWellFormed(images);
    UnknownPlaceholderKept(pages[i].markdown, FromImages(images), k);
    AssembleLayout(pages, i);
  }

  /** Every placeholder of an id among the page's images is gone from its text. */
  lemma OwnPlaceholdersRemoved(p: Page, m: nat)
    requires m < |p.images| && WellFormedImages(p.images)
    ensures !Contains(ResolvePage(p), Placeholder(p.images[m].id))
  {
    var d := FromImages(p.images);
    FromImagesKeys(p.images);
    FromImagesWellFormed(p.images);
    var e :| 0 <= e < |d| && d[e].0 == p.images[m].id;
    ResolveRemovesPlaceholders(p.markdown, d, e);
  }

  /** A placeholder of an id among the page's images gives way to the payload of the
      last image with that id. */
  lemma OwnPlaceholderResolved(p: Page, m: nat)
    requires m < |p.images| && WellFormedImages(p.images)
    requires forall n :: m < n < |p.images| ==> p.images[n].id != p.images[m].id
    requires Contains(p.markdown, Placeholder(p.images[m].id))
    ensures Contains(ResolvePage(p), Replacement(p.images[m].id, p.images[m].imageBase64))
  {
    var d := FromImages(p.images);
    var img := p.images[m];
    LastImageWins(p.images, m);
    FromImagesKeys(p.images);
    FromImagesWellFormed(p.images);
    assert (img.id, img.imageBase64) in d;
    var e :| 0 <= e < |d| && d[e] == (img.id, img.imageBase64);
    PlaceholderResolved(p.markdown, d, e);
  }

  /** A placeholder for an id that none of the page's images carries stays where it
      stands, and the page's text on either side of it is resolved on its own. */
  lemma ForeignPlaceholderInPlace(a: string, b: string, images: seq<Image>, k: string)
    requires BracketFree(k) && WellFormedImages(images)
    requires forall m :: 0 <= m < |images| ==> images[m].id != k
    ensures ResolvePage(Page(a + Placeholder(k) + b, images))
      == ResolvePage(Page(a, images)) + Placeholder(k) + ResolvePage(Page(b, images))
  {
    AbsentIdHasNoEntry(images, k);
    FromImagesWellFormed(images);
    ResolveAround(a, b, FromImages(images), k);
  }

  /** A placeholder of an image id becomes, where it stands, the reference to the
      payload of the last image with that id, and the page's text on either side of
      it is resolved on its own. */
  lemma OwnPlaceholderInPlace(a: string, b: string, images: seq<Image>, m: nat)
    requires m < |images| && WellFormedImages(images)
    requires forall n :: m < n < |images| ==> images[n].id != images[m].id
    ensures ResolvePage(Page(a + Placeholder(images[m].id) + b, images))
      == ResolvePage(Page(a, images)) + Replacement(images[m].id, images[m].imageBase64) + ResolvePage(Page(b, images))
  {
    LastImageWins(images, m);
    FromImagesWellFormed(images);
    ResolveAround(a, b, FromImages(images), images[m].id);
  }
}
