/** `summarize_query` and the "Generate Response" button handler: gather
    the text of the top sources, cut it into chunks, summarise each chunk
    with the language model, then ask the model to answer the question
    from the joined summaries. The language model is the parameter
    `complete`, mapping a prompt to the response text or an exception. */
module Pipeline {
  import opened Text
  import opened Outcomes
  import opened Chunker
  import opened Extractor
  import opened Retriever

  /** The text `summarize_query` accumulates from the extracted contents:
      each non-empty content preceded by a newline; empty ones are
      skipped. */
  function Evidence(contents: seq<string>): (text: string)
    ensures text == "" <==> forall k :: 0 <= k < |contents| ==> contents[k] == ""
    ensures text != "" ==> text[0] == '\n'
  {
    if contents == [] then ""
    else
      var init := Evidence(contents[..|contents| - 1]);
      var c := contents[|contents| - 1];
      if c != "" then init + "\n" + c else init
  }

  /** `get_text_from_url` applied to each URL, in order. */
  function ExtractAll(urls: seq<string>, pdf: string -> Outcome<string>, html: string -> Outcome<string>)
    : (contents: seq<string>)
    ensures |contents| == |urls|
    ensures forall k :: 0 <= k < |urls| ==> contents[k] == GetTextFromUrl(urls[k], pdf, html)
  {
    if urls == [] then []
    else ExtractAll(urls[..|urls| - 1], pdf, html) + [GetTextFromUrl(urls[|urls| - 1], pdf, html)]
  }

  /** The words of each content, one content after another. */
  function WordsOf(contents: seq<string>): seq<string> {
    if contents == [] then [] else WordsOf(contents[..|contents| - 1]) + Split(contents[|contents| - 1])
  }

  /** One more content extends the evidence by a newline and that content,
      unless it is empty. */
  lemma EvidenceSnoc(contents: seq<string>, c: string)
    ensures Evidence(contents + [c]) == if c != "" then Evidence(contents) + "\n" + c else Evidence(contents)
  {
    assert (contents + [c])[..|contents|] == contents;
  }

  /** The evidence of two runs of contents is the evidence of the first
      followed by that of the second. */
  lemma {:induction false} EvidenceAppend(a: seq<string>, b: seq<string>)
    ensures Evidence(a + b) == Evidence(a) + Evidence(b)
    decreases |b|
  {
    if b == [] {
      assert a + b == a;
    } else {
      var init := b[..|b| - 1];
      var c := b[|b| - 1];
      assert a + b == (a + init) + [c];
      assert b == init + [c];
      EvidenceAppend(a, init);
      EvidenceSnoc(a + init, c);
      EvidenceSnoc(init, c);
    }
  }

  /** An empty content, such as a failed extraction, leaves the evidence
      as if its URL had not been listed. */
  lemma EvidenceSkipsEmpty(a: seq<string>, b: seq<string>)
    ensures Evidence(a + [""] + b) == Evidence(a + b)
  {
    EvidenceAppend(a + [""], b);
    EvidenceAppend(a, b);
    EvidenceSnoc(a, "");
  }

  /** The evidence holds exactly the words of the contents, in URL order:
      the newline separators never merge or split a word. */
  lemma {:induction false} EvidenceWords(contents: seq<string>)
    ensures Split(Evidence(contents)) == WordsOf(contents)
  {
    if contents != [] {
      var init := contents[..|contents| - 1];
      var c := contents[|contents| - 1];
      EvidenceWords(init);
      if c != "" {
        var prefix := Evidence(init);
        assert Evidence(contents) == prefix + ("\n" + c);
        SplitAppend(prefix, "\n" + c);
        SplitLeadingSpace('\n', c);
        assert ['\n'] + c == "\n" + c;
      }
    }
  }

  /** Extracting two runs of URLs is extracting each run in turn. */
  lemma {:induction false} ExtractAllAppend(a: seq<string>, b: seq<string>, pdf: string -> Outcome<string>,
                                            html: string -> Outcome<string>)
    ensures ExtractAll(a + b, pdf, html) == ExtractAll(a, pdf, html) + ExtractAll(b, pdf, html)
    decreases |b|
  {
    if b == [] {
      assert a + b == a;
    } else {
      var init := b[..|b| - 1];
      assert (a + b)[..|a + b| - 1] == a + init;
      ExtractAllAppend(a, init, pdf, html);
    }
  }

  /** Extracting one more URL appends its text. */
  lemma ExtractAllStep(urls: seq<string>, i: nat, pdf: string -> Outcome<string>, html: string -> Outcome<string>)
    requires i < |urls|
    ensures ExtractAll(urls[..i + 1], pdf, html) == ExtractAll(urls[..i], pdf, html) + [GetTextFromUrl(urls[i], pdf, html)]
  {
    PrefixStep(urls, i);
  }

  lemma PrefixStep<T>(xs: seq<T>, i: nat)
    requires i < |xs|
    ensures xs[..i + 1][..i] == xs[..i] && xs[..i + 1][i] == xs[i]
  {
  }

  lemma Whole<T>(xs: seq<T>)
    ensures xs[..|xs|] == xs
  {
  }

  lemma Decompose<T>(xs: seq<T>, i: nat)
    requires i < |xs|
    ensures xs == xs[..i] + [xs[i]] + xs[i + 1..]
  {
  }

  /** A URL whose extractor raises contributes nothing: the evidence is the
      same as without that URL. */
  lemma FailedSourceContributesNothing(urls: seq<string>, i: nat, pdf: string -> Outcome<string>,
                                       html: string -> Outcome<string>)
    requires i < |urls|
    requires (if Route(urls[i]) == PdfStrategy then pdf(urls[i]) else html(urls[i])).Raised?
    ensures Evidence(ExtractAll(urls, pdf, html)) == Evidence(ExtractAll(urls[..i] + urls[i + 1..], pdf, html))
  {
    var before := urls[..i];
    var after := urls[i + 1..];
    Decompose(urls, i);
    ExtractAllAppend(before + [urls[i]], after, pdf, html);
    ExtractAllAppend(before, [urls[i]], pdf, html);
    ExtractAllAppend(before, after, pdf, html);
    assert ExtractAll([urls[i]], pdf, html) == [""];
    EvidenceSkipsEmpty(ExtractAll(before, pdf, html), ExtractAll(after, pdf, html));
  }

  /** The instruction `summarize_with_vertex` places before each chunk. */
  const SummaryInstruction: string := "You are an IRS assistant, summarize the following IRS information:\n\n"

  function SummaryPrompt(chunk: string): string {
    SummaryInstruction + chunk
  }

  /** `summarize_with_vertex(chunk)`: the stripped response to the summary
      prompt; an exception from the model propagates. */
  function SummarizeWithVertex(chunk: string, complete: string -> Outcome<string>): (r: Outcome<string>)
    ensures r.Ok? == complete(SummaryPrompt(chunk)).Ok?
    ensures r.Ok? ==> r.value == [] || (!IsSpace(r.value[0]) && !IsSpace(r.value[|r.value| - 1]))
    ensures r.Ok? ==> Split(r.value) == Split(complete(SummaryPrompt(chunk)).value)
  {
    match complete(SummaryPrompt(chunk))
    case Ok(t) =>
      StripKeepsWords(t);
      Ok(Strip(t))
    case Raised => Raised
  }

  /** The outcome of evaluating a sequence of calls in order: the first
      exception propagates, otherwise every value in order. */
  function Collect<T>(outs: seq<Outcome<T>>): (r: Outcome<seq<T>>)
    ensures r.Ok? <==> forall k :: 0 <= k < |outs| ==> outs[k].Ok?
    ensures r.Ok? ==> |r.value| == |outs|
    ensures r.Ok? ==> forall k :: 0 <= k < |outs| ==> r.value[k] == outs[k].value
  {
    if outs == [] then Ok([])
    else if outs[0].Raised? then Raised
    else
      match Collect(outs[1..])
      case Raised =>
        assert !(forall k :: 0 <= k < |outs| ==> outs[k].Ok?) by {
          var k :| 0 <= k < |outs[1..]| && !outs[1..][k].Ok?;
          assert outs[k + 1] == outs[1..][k];
        }
        Raised
      case Ok(rest) =>
        var r := [outs[0].value] + rest;
        assert forall k :: 0 < k < |outs| ==> outs[k] == outs[1..][k - 1] && r[k] == rest[k - 1];
        Ok(r)
  }

  /** The summary call for each chunk, in chunk order. */
  function SummaryCalls(chunks: seq<string>, complete: string -> Outcome<string>): (outs: seq<Outcome<string>>)
    ensures |outs| == |chunks|
    ensures forall k :: 0 <= k < |chunks| ==> outs[k] == SummarizeWithVertex(chunks[k], complete)
  {
    if chunks == [] then []
    else SummaryCalls(chunks[..|chunks| - 1], complete) + [SummarizeWithVertex(chunks[|chunks| - 1], complete)]
  }

  /** `[summarize_with_vertex(c) for c in chunks]`: succeeds exactly when
      every chunk's summary succeeds, and then holds each chunk's stripped
      summary in chunk order. */
  function SummarizeChunks(chunks: seq<string>, complete: string -> Outcome<string>): (r: Outcome<seq<string>>)
    ensures r.Ok? <==> forall k :: 0 <= k < |chunks| ==> SummarizeWithVertex(chunks[k], complete).Ok?
    ensures r.Ok? ==> |r.value| == |chunks|
    ensures r.Ok? ==> forall k :: 0 <= k < |chunks| ==> r.value[k] == SummarizeWithVertex(chunks[k], complete).value
  {
    Collect(SummaryCalls(chunks, complete))
  }

  /** What `summarize_query` does once the evidence text is gathered: the
      chunk summaries joined by blank lines. A text without words has no
      chunk, so its summary is empty and the model is not consulted; one
      failing chunk summary makes the whole summary fail. */
  function Summarize(text: string, complete: string -> Outcome<string>): (r: Outcome<string>)
    ensures Split(text) == [] ==> r == Ok("")
  {
    match SummarizeChunks(ChunkText(text, ChunkSize, ChunkOverlap), complete)
    case Ok(summaries) => Ok(Join("\n\n", summaries))
    case Raised => Raised
  }

  /** The summary fails exactly when the model raises on some chunk's
      summary prompt: a failing chunk is not skipped. */
  lemma SummaryFailsIffChunkFails(text: string, complete: string -> Outcome<string>)
    ensures var chunks := ChunkText(text, ChunkSize, ChunkOverlap);
            Summarize(text, complete).Raised? <==>
            exists k :: 0 <= k < |chunks| && complete(SummaryPrompt(chunks[k])).Raised?
  {
    var chunks := ChunkText(text, ChunkSize, ChunkOverlap);
    if Summarize(text, complete).Raised? {
      var k :| 0 <= k < |chunks| && !SummarizeWithVertex(chunks[k], complete).Ok?;
      assert complete(SummaryPrompt(chunks[k])).Raised?;
    }
  }

  /** `summarize_query(urls)`. */
  method SummarizeQuery(urls: seq<string>, pdf: string -> Outcome<string>, html: string -> Outcome<string>,
                        complete: string -> Outcome<string>)
    returns (r: Outcome<string>)
    ensures r == Summarize(Evidence(ExtractAll(urls, pdf, html)), complete)
  {
    var text := "";
    var i := 0;
    while i < |urls|
      invariant 0 <= i <= |urls|
      invariant text == Evidence(ExtractAll(urls[..i], pdf, html))
    {
      var content := GetTextFromUrl(urls[i], pdf, html);
      if content != "" {
        text := text + "\n" + content;
      }
      ExtractAllStep(urls, i, pdf, html);
      EvidenceSnoc(ExtractAll(urls[..i], pdf, html), content);
      i := i + 1;
    }
    Whole(urls);
    var chunks := ChunkText(text, ChunkSize, ChunkOverlap);
    var summaries := SummarizeChunks(chunks, complete);
    if summaries.Raised? {
      return Raised;
    }
    return Ok(Join("\n\n", summaries.value));
  }

  /** When every source yields no text (each extraction failed or found
      nothing), the summary is empty and no summary is requested. */
  lemma NoEvidenceEmptySummary(urls: seq<string>, pdf: string -> Outcome<string>, html: string -> Outcome<string>,
                               complete: string -> Outcome<string>)
    requires forall k :: 0 <= k < |urls| ==> GetTextFromUrl(urls[k], pdf, html) == ""
    ensures Summarize(Evidence(ExtractAll(urls, pdf, html)), complete) == Ok("")
  {
    var contents := ExtractAll(urls, pdf, html);
    assert forall k :: 0 <= k < |contents| ==> contents[k] == "";
    assert Evidence(contents) == "";
    assert Split("") == [];
  }

  /** What the page shows after the button is pressed. */
  datatype Display = Warning(message: string) | Answer(text: string) | ErrorShown

  const EmptyQueryWarning: string := "Please enter a question."

  /** The final prompt: the question and the joined summaries. */
  function AnswerPrompt(query: string, summary: string): string {
    "answer user's question " + query + " in a clear and informative way based on the following sources: " +
    summary + " and cite IRS links where helpful."
  }

  /** What the button handler shows for a question: a warning for an empty
      question; an error when the search, a summary or the final answer
      raises; otherwise the stripped answer. */
  function Respond(query: string, search: (string, nat) -> Outcome<seq<SearchResult>>,
                   pdf: string -> Outcome<string>, html: string -> Outcome<string>,
                   complete: string -> Outcome<string>): (d: Display)
    ensures d.Warning? <==> query == ""
    ensures d.Warning? ==> d.message == EmptyQueryWarning
    ensures query != "" && search(query, DefaultTopK).Raised? ==> d == ErrorShown
    ensures d.Answer? ==> d.text == "" || (!IsSpace(d.text[0]) && !IsSpace(d.text[|d.text| - 1]))
  {
    if query == "" then Warning(EmptyQueryWarning)
    else
      match search(query, DefaultTopK)
      case Raised => ErrorShown
      case Ok(results) =>
        var top := TopLinks(results);
        var urls := top[..Min(MaxLinks, |top|)];
        match Summarize(Evidence(ExtractAll(urls, pdf, html)), complete)
        case Raised => ErrorShown
        case Ok(summary) =>
          match complete(AnswerPrompt(query, summary))
          case Raised => ErrorShown
          case Ok(t) => Answer(Strip(t))
  }

  /** The body of `if st.button("Generate Response")`. */
  method GenerateResponse(query: string, search: (string, nat) -> Outcome<seq<SearchResult>>,
                          pdf: string -> Outcome<string>, html: string -> Outcome<string>,
                          complete: string -> Outcome<string>)
    returns (d: Display)
    ensures d == Respond(query, search, pdf, html, complete)
  {
    if query == "" {
      return Warning(EmptyQueryWarning);
    }
    var topUrls := VertexSearchTopLinks(query, DefaultTopK, search);
    if topUrls.Raised? {
      return ErrorShown;
    }
    var urls := topUrls.value[..Min(MaxLinks, |topUrls.value|)];
    var summary := SummarizeQuery(urls, pdf, html, complete);
    if summary.Raised? {
      return ErrorShown;
    }
    var response := complete(AnswerPrompt(query, summary.value));
    if response.Raised? {
      return ErrorShown;
    }
    return Answer(Strip(response.value));
  }

  /** Finding no usable source does not stop the handler: the model is
      asked to answer from an empty summary. */
  lemma NoSourcesStillAnswers(query: string, search: (string, nat) -> Outcome<seq<SearchResult>>,
                              pdf: string -> Outcome<string>, html: string -> Outcome<string>,
                              complete: string -> Outcome<string>)
    requires query != "" && search(query, DefaultTopK).Ok?
    requires forall u :: u in TopLinks(search(query, DefaultTopK).value) ==> GetTextFromUrl(u, pdf, html) == ""
    requires complete(AnswerPrompt(query, "")).Ok?
    ensures Respond(query, search, pdf, html, complete) == Answer(Strip(complete(AnswerPrompt(query, "")).value))
  {
    var top := TopLinks(search(query, DefaultTopK).value);
    var urls := top[..Min(MaxLinks, |top|)];
    assert urls == top;
    NoEvidenceEmptySummary(urls, pdf, html, complete);
  }
}
