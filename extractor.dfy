/** `get_text_from_url`: pick the PDF or the HTML extractor from the URL and
    turn any failure of the chosen extractor into the empty text. The two
    extractors (an HTTP fetch followed by a PDF or HTML parser) are
    parameters of the model. */
module Extractor {
  import opened Text
  import opened Outcomes

  datatype Strategy = PdfStrategy | HtmlStrategy

  /** The marker whose presence anywhere in a URL selects the PDF extractor. */
  const PdfMarker: string := ".pdf"

  /** The extractor `get_text_from_url` chooses for `url`. */
  function Route(url: string): Strategy {
    if Contains(url, PdfMarker) then PdfStrategy else HtmlStrategy
  }

  /** The PDF extractor is chosen exactly when `.pdf` occurs somewhere in
      the URL. */
  lemma RouteIsSubstringTest(url: string)
    ensures Route(url) == PdfStrategy <==> exists i: nat :: OccursAt(url, PdfMarker, i)
  {
    ContainsOccurs(url, PdfMarker);
  }

  /** `get_text_from_url(url)`: the chosen extractor's text, or `""` when it
      raises. */
  function GetTextFromUrl(url: string, pdf: string -> Outcome<string>, html: string -> Outcome<string>): string {
    var attempt := if Route(url) == PdfStrategy then pdf(url) else html(url);
    match attempt
    case Ok(t) => t
    case Raised => ""
  }

  /** The text is what the extractor chosen by the substring test returns,
      and `""` when that extractor raises: no failure escapes. */
  lemma GetTextFromUrlChoosesBySubstring(url: string, pdf: string -> Outcome<string>, html: string -> Outcome<string>)
    ensures var chosen := if exists i: nat :: OccursAt(url, PdfMarker, i) then pdf(url) else html(url);
            GetTextFromUrl(url, pdf, html) == (if chosen.Ok? then chosen.value else "")
  {
    RouteIsSubstringTest(url);
  }

  /** A URL that ends in `.pdf` goes to the PDF extractor. */
  lemma PdfSuffixRoutesToPdf(url: string)
    requires |url| >= |PdfMarker| && url[|url| - |PdfMarker|..] == PdfMarker
    ensures Route(url) == PdfStrategy
  {
    assert OccursAt(url, PdfMarker, |url| - |PdfMarker|);
    RouteIsSubstringTest(url);
  }

  /** The test is a substring test, not a suffix test: a URL with `.pdf` in
      the middle also goes to the PDF extractor. */
  lemma PdfInsideRoutesToPdf()
    ensures var url := "https://www.irs.gov/pub/irs.pdf/index.html";
            url[|url| - |PdfMarker|..] != PdfMarker && Route(url) == PdfStrategy
  {
    var url := "https://www.irs.gov/pub/irs.pdf/index.html";
    assert url[27..31] == PdfMarker;
    assert OccursAt(url, PdfMarker, 27);
    RouteIsSubstringTest(url);
    assert url[|url| - |PdfMarker|..][0] == 'h';
  }
}
