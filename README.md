# My Tax Advisor: the retrieval-to-answer pipeline

`VertexSt.py` answers a tax question in five steps:
1. Ask a search service for the top results and keep the `formattedUrl` of at most five of them.
2. Fetch each URL with a PDF or an HTML extractor. A failure becomes empty text.
3. Concatenate the non-empty texts and cut the words into overlapping windows of 1500 words, a new window every 1200 words.
4. Summarise each window with the language model.
5. Ask the model to answer the question from the summaries joined by blank lines.

This project models that path in Dafny. The search service, the two extractors and the language model are parameters of the model, each a function that either returns a value or raises (`Outcomes.Outcome`).

Modules:
- `Text`: Python's `str.split()`, `sep.join`, `str.strip()` and `pat in s`, over code points. Whitespace is exactly the set `str.isspace()` accepts.
- `Chunker`: `chunk_text`. Python's `range` is `Range`, each slice is `Window` and the result is `ChunkText`.
- `Extractor`: `get_text_from_url`, its routing and its fail-soft wrapper.
- `Retriever`: the URL-collection loop of `vertex_search_top_links`.
- `Pipeline`: the evidence loop and chunk summaries of `summarize_query`, and the "Generate Response" button handler. `GenerateResponse` is the handler itself; `Respond` is the function that specifies it.

## Model

| member | source | states |
|---|---|---|
| Text.SplitJoin | VertexSt.py:71-72 | joining words with single spaces and splitting again gives back exactly those words |
| Text.StripKeepsWords | VertexSt.py:77 | `strip()` removes only whitespace: the stripped text has the same words |
| Text.ContainsOccurs | VertexSt.py:65 | `pat in s` holds exactly when `pat` occurs at some index of `s` |
| Chunker.RangeAt | VertexSt.py:72 | element `k` of `range(start, stop, step)` is `start + k * step` |
| Chunker.RangeCount | VertexSt.py:72 | `range(0, n, step)` has `ceil(n / step)` elements |
| Chunker.Windows | VertexSt.py:72 | no words gives no windows; `overlap > chunk_size` gives none, because the range step is negative |
| Chunker.ChunkText | VertexSt.py:70-72 | one chunk per window; a text without words, including an empty or whitespace-only one, gives no chunk; `overlap > chunk_size` gives none |
| Chunker.ChunkCount | VertexSt.py:72 | with `n` words and `step = chunk_size - overlap > 0` there are `ceil(n / step)` chunks |
| Chunker.ChunkAt | VertexSt.py:72 | chunk `k` is `words[k*step : k*step + chunk_size]` (clipped) joined by single spaces; its start lies inside the text and it holds between 1 and `chunk_size` words |
| Chunker.WindowAt | VertexSt.py:72 | window `k` is the slice at the `k`-th range element and holds between 1 and `chunk_size` words |
| Chunker.WindowCount | VertexSt.py:72 | `n` words give `ceil(n / step)` windows |
| Chunker.ChunkWords | VertexSt.py:71-72 | splitting chunk `k` gives back exactly window `k` of the text's words |
| Chunker.TrailingWindowInsidePrevious | VertexSt.py:72 | when at most `overlap` words remain at a window's start, that window is a suffix of the one before: it adds no new word |
| Chunker.Reassemble | VertexSt.py:72 | the first window followed by every later window minus its first `min(overlap, len)` words is exactly the word sequence |
| Chunker.ChunkTextReassemble | VertexSt.py:71-72 | the same for the chunk strings: split each chunk, drop the overlaps, concatenate, and the result is the text's words, none lost, duplicated or reordered |
| Extractor.RouteIsSubstringTest | VertexSt.py:65 | the PDF extractor is chosen if and only if `.pdf` occurs anywhere in the URL; otherwise the HTML extractor is chosen |
| Extractor.PdfSuffixRoutesToPdf | VertexSt.py:65 | every URL ending in `.pdf` goes to the PDF extractor |
| Extractor.PdfInsideRoutesToPdf | VertexSt.py:65 | the URL `https://www.irs.gov/pub/irs.pdf/index.html`, which does not end in `.pdf` but contains it, goes to the PDF extractor |
| Extractor.GetTextFromUrlChoosesBySubstring | VertexSt.py:63-68 | the text is what the extractor chosen by the substring test (`.pdf` at some index) returns, and `""` when that extractor raises: no extraction failure escapes |
| Retriever.Urls | VertexSt.py:42-45 | one URL per result, in order; `""` where `formattedUrl` is missing |
| Retriever.TopLinks | VertexSt.py:35-47 | at most 5 URLs: exactly `min(5, len(results))`, the formatted URLs of the leading results in ranking order |
| Retriever.VertexSearchTopLinks | VertexSt.py:28-47 | the counter loop with its `break` returns `TopLinks` of the search results; a search exception propagates |
| Retriever.TopLinksIgnoresTail | VertexSt.py:38-40 | results after the fifth never affect the URLs |
| Retriever.TopLinksSliceRedundant | VertexSt.py:114 | the handler's `[0:5]` slice leaves the returned URLs unchanged, because `TopLinks` never returns more than five |
| Pipeline.Evidence | VertexSt.py:85-90 | the accumulated text is empty exactly when every content is empty, and otherwise starts with a newline |
| Pipeline.ExtractAll | VertexSt.py:86-88 | one extraction per URL, in URL order |
| Pipeline.EvidenceSnoc | VertexSt.py:89-90 | a further content appends `"\n" + content`, or nothing when it is empty |
| Pipeline.EvidenceAppend | VertexSt.py:86-90 | the text for two runs of contents is the text for each run, concatenated |
| Pipeline.EvidenceSkipsEmpty | VertexSt.py:89 | an empty content leaves the text as if it were not there |
| Pipeline.EvidenceWords | VertexSt.py:89-92 | the accumulated text holds exactly the words of each content, in URL order |
| Pipeline.ExtractAllAppend | VertexSt.py:86-88 | extracting two runs of URLs is extracting each run in turn |
| Pipeline.FailedSourceContributesNothing | VertexSt.py:63-68 | a URL whose chosen extractor raises leaves the accumulated text as if that URL had not been listed |
| Pipeline.SummarizeWithVertex | VertexSt.py:74-77 | a chunk's summary succeeds exactly when the model answers its summary prompt; it then has no whitespace at either end and has exactly the words of the model's response |
| Pipeline.Collect | VertexSt.py:96 | evaluating the calls in order succeeds if and only if every call succeeds, and then holds each call's value in order |
| Pipeline.SummaryCalls | VertexSt.py:96 | one summary call per chunk, in chunk order |
| Pipeline.SummarizeChunks | VertexSt.py:96 | succeeds if and only if every chunk's summary succeeds, and then holds one summary per chunk in chunk order |
| Pipeline.Summarize | VertexSt.py:92-97 | a text without words gives the empty summary, without any model call |
| Pipeline.SummaryFailsIffChunkFails | VertexSt.py:96 | the summary raises if and only if the model raises on some chunk's summary prompt; no chunk is skipped |
| Pipeline.SummarizeQuery | VertexSt.py:83-97 | the `+=` loop builds `Evidence` of the extracted contents; the result is that text's chunk summaries joined by `"\n\n"`, or the exception of a failing summary |
| Pipeline.NoEvidenceEmptySummary | VertexSt.py:85-97 | when every URL yields empty text, the summary is `""` |
| Pipeline.Respond | VertexSt.py:107-119 | the warning is shown if and only if the question is the empty string; a search exception shows an error; a shown answer has no leading or trailing whitespace |
| Pipeline.GenerateResponse | VertexSt.py:107-119 | the handler shows exactly `Respond` of the question: search with `top_k = 1`, slice `[0:5]`, summarise, then answer from the summary |
| Pipeline.NoSourcesStillAnswers | VertexSt.py:113-117 | when no source yields text, including when the search returns no result, the model is still asked to answer from an empty summary, and that answer is shown |

Behaviour of the code worth knowing:
- A failing chunk summary is not skipped. The exception leaves the list comprehension and the handler shows an error (`SummaryFailsIffChunkFails`).
- Finding no usable source does not stop the handler: the final model call is still made, with an empty summary (`NoSourcesStillAnswers`).
- PDF routing is a substring test, not a suffix test (`PdfInsideRoutesToPdf`).
- `chunk_size > overlap` is not validated:
  - `overlap > chunk_size` silently yields no chunk;
  - `chunk_size == overlap` makes `range` raise, and is a precondition here. The only caller uses the defaults 1500 and 300.
- The question check is `not query`, so a question made only of blanks is searched like any other (`Respond`'s first postcondition).

## Left out

- Fetching and parsing, `extract_text_from_pdf_url` and `extract_text_from_html_url` (VertexSt.py:49-61): network I/O and third-party parsers. They are the parameters `pdf` and `html`.
- The search client and request construction (VertexSt.py:10-18, 29-34): a cloud call. It is the parameter `search(query, pageSize)`. This parameter returns the whole result sequence the iterator would produce, so lazy paging is not modelled.
- Search result fields: `derived_struct_data` is a map from string to string here. Non-string field values are not modelled.
- Model set-up and calls (VertexSt.py:20-25, 76, 115): `generate_content(prompt).text` is the parameter `complete`. It is a function, so the same prompt always gives the same text; the model's nondeterminism is not captured.
- The commented-out PaLM alternative (VertexSt.py:79-81): not active code.
- The Streamlit page (VertexSt.py:99-106, 111, 116-119): layout, widgets and the spinner are not modelled. What the handler shows is the `Display` value. `ErrorShown` does not carry the exception's message.
- `print` logging (VertexSt.py:67, 84, 87, 93, 95): the output is not modelled. A `print` that itself raises is not modelled either. That happens with an encoding error on a console that cannot show the emoji. At line 67 such an error would escape `get_text_from_url`'s `except` clause. At lines 84-95 it would escape `summarize_query`. In both cases the handler would show an error.
- Pipeline.Respond: its own postconditions cover the warning, the search failure and the shape of a shown answer. The full behaviour is its definition, which `GenerateResponse` is proved equal to.
