/** `vertex_search_top_links`: ask the search service for results and keep
    the `formattedUrl` of at most the first five, in ranking order. */
module Retriever {
  import opened Outcomes

  /** The part of a search result the assistant reads:
      `result.document.derived_struct_data`. */
  datatype Document = Document(derivedStructData: map<string, string>)
  datatype SearchResult = SearchResult(document: Document)

  /** How many URLs the loop keeps before it breaks. */
  const MaxLinks: nat := 5

  /** `top_k`'s default, sent to the service as the page size. */
  const DefaultTopK: nat := 1

  /** `derived.get("formattedUrl", "")`: a result without a URL yields `""`. */
  function FormattedUrl(r: SearchResult): string {
    var derived := r.document.derivedStructData;
    if "formattedUrl" in derived then derived["formattedUrl"] else ""
  }

  /** The formatted URL of every result, in order. */
  function Urls(rs: seq<SearchResult>): (urls: seq<string>)
    ensures |urls| == |rs|
    ensures forall k :: 0 <= k < |rs| ==> urls[k] == FormattedUrl(rs[k])
  {
    if rs == [] then [] else Urls(rs[..|rs| - 1]) + [FormattedUrl(rs[|rs| - 1])]
  }

  /** What the loop returns for a result sequence: the URLs of the first
      `min(5, len)` results, in ranking order. */
  function TopLinks(rs: seq<SearchResult>): (urls: seq<string>)
    ensures |urls| <= MaxLinks
    ensures |urls| == if |rs| < MaxLinks then |rs| else MaxLinks
    ensures forall k :: 0 <= k < |urls| ==> urls[k] == FormattedUrl(rs[k])
  {
    if |rs| < MaxLinks then Urls(rs) else Urls(rs[..MaxLinks])
  }

  /** `vertex_search_top_links(query, top_k)`. `search(query, pageSize)`
      stands for `client.search` and yields the results its iterator would
      produce, or raises. The exception is not caught here. */
  method VertexSearchTopLinks(query: string, topK: nat, search: (string, nat) -> Outcome<seq<SearchResult>>)
    returns (r: Outcome<seq<string>>)
    ensures search(query, topK).Raised? ==> r.Raised?
    ensures search(query, topK).Ok? ==> r == Ok(TopLinks(search(query, topK).value))
  {
    var response := search(query, topK);
    if response.Raised? {
      return Raised;
    }
    var results := response.value;
    var urls: seq<string> := [];
    var cnt := 0;
    var i := 0;
    while i < |results|
      invariant 0 <= i <= |results| && cnt == i && cnt <= MaxLinks
      invariant urls == Urls(results[..i])
    {
      if cnt >= MaxLinks {
        break;
      }
      cnt := cnt + 1;
      var url := FormattedUrl(results[i]);
      assert results[..i + 1][..i] == results[..i];
      urls := urls + [url];
      i := i + 1;
    }
    assert i == |results| ==> results[..i] == results;
    return Ok(urls);
  }

  /** Results past the fifth never influence the URLs. */
  lemma {:induction false} TopLinksIgnoresTail(rs: seq<SearchResult>, more: seq<SearchResult>)
    requires |rs| >= MaxLinks
    ensures TopLinks(rs + more) == TopLinks(rs)
  {
    assert (rs + more)[..MaxLinks] == rs[..MaxLinks];
  }

  /** Taking `[0:5]` of the returned URLs, as the button handler does,
      changes nothing. */
  lemma TopLinksSliceRedundant(rs: seq<SearchResult>)
    ensures var urls := TopLinks(rs);
            urls[..if |urls| < MaxLinks then |urls| else MaxLinks] == urls
  {
  }
}
