# Surfer summarizer: a Dafny model of its data shaping

Surfer is a small web service. Given a URL, it fetches the page and extracts
the text of its `<p>` and `<div>` elements, joined by newlines. It cuts that
text into chunks of at most 2800 characters and asks a chat-completion API
for a bullet-point summary of each chunk, all requests at once. It joins the
summaries with newlines in chunk order. If the page has a non-empty
`og:description`, the service returns that description instead. It also
picks keywords from the text's named entities and content words, and it
serves files under `/.well-known/` from a `plugins/` directory.

This project models the deterministic part of that pipeline in Dafny and
proves what it promises:

- `builtins.dfy` (module `Builtins`): the Python built-ins the code relies on.
  These are slicing with clamped bounds, `range`, `sep.join`, truthiness and
  `x or y`. `str.split` is included too, only as the inverse of a join.
- `chunking.dfy` (module `Chunking`): the chunk comprehension of
  `generate_summary`.
- `keywords.dfy` (module `Keywords`): `extract_keywords` as a loop, proved
  equal to a closed-form reference selection.
- `surfer.dfy` (module `Surfer`): `extract_text` as a loop, the per-chunk
  summaries and their join, `generate_summary`, `summarize_url` and the
  `download` path and media-type rule.

The outside world enters as inputs:

- the texts of the page's block elements;
- the `og:description` value, as an `Option<string>`;
- the named entities and tokens of the text;
- the completion API, as a function `summarize: string -> string`;
- the media-type guesser, as a function `guessType: string -> Option<string>`.

Python strings are sequences of code points; they are modelled as Dafny
`string`, one `char` per code point, surrogates excepted (a Dafny `char` is
a Unicode scalar value, so the lone surrogates U+D800 to U+DFFF that a Python
`str` can hold have no counterpart).

Two behaviours of the code are worth knowing, and the model keeps both:

- A page with no extractable text gives an empty final summary after zero
  completion requests. There is no separate "nothing to summarize" result.
- Entity keywords are never capped, so the keyword list can be longer than
  `num_keywords`. Only content-word tokens are subject to the cap.

## Model

| member | source | states |
|---|---|---|
| `Builtins.Truthy` | main.py:139 | a `None`-or-string value is truthy exactly when it is neither `None` nor the empty string |
| `Builtins.OrElse` | main.py:154 | `o or fallback` is the value of `o` when `o` is truthy, and then it is non-empty. Otherwise it is the fallback |
| `Builtins.Slice` | main.py:117 | `s[i:j]` has length `min(j, len) - i` when `i < j` and `i < len`, and 0 otherwise; its k-th element is `s[i + k]` |
| `Builtins.Range` | main.py:117 | `range(start, stop, step)` is non-empty exactly when `start < stop`. It starts at `start` and goes up by `step`. Every element is below `stop`, and one more step from the last reaches `stop` or beyond |
| `Builtins.RangeAt` | main.py:117 | the k-th element of `range(0, n, step)` is `k * step` |
| `Builtins.Join` | main.py:59 | `sep.join(parts)`: no parts give the empty string, and the result is at least as long as the parts together |
| `Builtins.JoinStartsWith` | main.py:122 | a join of one or more parts starts with the first part |
| `Builtins.JoinEndsWith` | main.py:122 | a join of one or more parts ends with the last part |
| `Builtins.JoinContainsParts` | main.py:59 | every character of every part occurs in the join at least as often as in that part |
| `Builtins.JoinAppend` | main.py:59 | joining the concatenation of two non-empty part lists is the first join, one separator, then the second join |
| `Builtins.JoinCharSeparators` | main.py:59 | joining n >= 1 parts with a one-character separator adds exactly n - 1 characters, and each of them is the separator |
| `Builtins.SplitJoin` | main.py:122 | splitting a newline join of newline-free parts at newlines gives back the parts, in order |
| `Chunking.Chunks` | main.py:115-117 | the slices of at most 2800 characters taken at offsets 0, 2800, 5600, ... below the length. There are none exactly when the article is empty |
| `Chunking.ChunkAt` | main.py:115-117 | chunk k is the article from `k * 2800` up to `(k + 1) * 2800` or the end, and `k * 2800` lies inside the article |
| `Chunking.ChunkCount` | main.py:115-117 | there are `ceil(len(article) / 2800)` chunks, and none exactly when the article is empty |
| `Chunking.ChunkBounds` | main.py:115-117 | every chunk has 1 to 2800 characters, and every chunk but the last has exactly 2800 |
| `Chunking.ChunksPrefix` | main.py:117 | the first k chunks, concatenated, are the article's first `min(k * 2800, len)` characters |
| `Chunking.ChunksConcat` | main.py:117 | concatenating the chunks in order gives back exactly the article |
| `Keywords.ExtractKeywords` | main.py:62-75 | the two loops return the reference selection: all kept entity texts, then candidate token texts while the list is shorter than `num_keywords` |
| `Keywords.EntityTextsMembers` | main.py:66-68 | a text is an entity keyword exactly when some entity labelled ORG, PERSON, GPE or NORP has it |
| `Keywords.CandidateTextsMembers` | main.py:70-74 | a text is a candidate exactly when some token that is not a stop word, not punctuation and tagged NOUN, ADJ or VERB has it |
| `Keywords.EntitiesFirst` | main.py:66-68 | the entity keywords open the result in entity order, whatever `num_keywords` is. If there are at least `num_keywords` of them, they are the whole result |
| `Keywords.SelectionLength` | main.py:70-74 | with E entity keywords, the result has length E when E >= `num_keywords`, and otherwise `E + min(num_keywords - E, number of candidates)` |
| `Keywords.SelectionMembers` | main.py:62-75 | every keyword comes from a kept entity or a candidate token, and every kept entity's text is a keyword |
| `Surfer.ExtractText` | main.py:52-59 | the loop collects the element texts in order and returns them joined by newlines |
| `Surfer.ExtractedTextShape` | main.py:54-59 | zero parts give the empty text. n parts give their total length plus n - 1 characters, which are n - 1 added newlines |
| `Surfer.SummarizeChunks` | main.py:120 | there is one summary per chunk, and the i-th is the summary of the i-th chunk |
| `Surfer.Collected` | main.py:120 | the results collected so far are keyed by chunk position, and each is the summary of the chunk at its key |
| `Surfer.FinalSummary` | main.py:120-122 | the chunk summaries joined by newlines. It is empty for an empty article. Otherwise it starts with the first chunk's summary, ends with the last chunk's summary, and has at least one newline per chunk boundary |
| `Surfer.CollectedAt` | main.py:120 | a chunk position has a collected result exactly when its request has completed, and that result is the summary of that chunk |
| `Surfer.GatherAnyOrder` | main.py:120 | for every completion order that covers all chunks, the results read back by chunk position are the summaries in chunk order |
| `Surfer.FinalSummaryParts` | main.py:120-122 | when no summary contains a newline, splitting the final summary at newlines gives one summary per chunk, in chunk order |
| `Surfer.EmptyArticle` | main.py:117-122 | an empty article gives no chunks, so no completion requests, and an empty final summary |
| `Surfer.EchoTwoChunks` | main.py:115-122 | a 5600-character article gives two 2800-character chunks. With an echoing completion, the final summary is the two halves joined by a newline |
| `Surfer.GenerateSummary` | main.py:110-123 | the requests are the chunks of the extracted text. They concatenate back to that text, there are `ceil(len / 2800)` of them, and each has 1 to 2800 characters. The summary is their summaries joined by newlines, in order |
| `Surfer.SummarizeUrl` | main.py:132-141 | a present, non-empty `og:description` is returned with no completion request made. Otherwise the generated summary is returned, and exactly the chunks of the text are requested |
| `Surfer.Download` | main.py:150-154 | the path is `plugins/` followed by exactly the file name. The media type is the guess for that path when one is guessed, and `text/plain` otherwise, so it is never empty |

## Left out

- Fetching pages (`fetch_html`, and the fetch in `extract_opengraph_data`) is network I/O. Each fetch's result enters as an input: the element texts, or the `og:description` value.
- HTML parsing by BeautifulSoup (finding `<p>`/`<div>` elements and the `og:description` meta tag) is a foreign library. Its results are inputs.
- `generate_summary_chunk` is left out. It builds the chat messages, posts them to the completion API and reads `choices[0].message.content` with whitespace stripped. All of this is network I/O behind the uninterpreted `summarize` function.
- spaCy annotation is a foreign model. Its named entities and tokens are the inputs of `ExtractKeywords`.
- Failure of a completion request is not modelled: `summarize` is total. In the code, one failing request aborts the whole summary.
- `asyncio.gather` scheduling is not modelled as concurrency. Only its ordering guarantee is: `GatherAnyOrder` collects results in an arbitrary completion order.
- The keywords computed in `generate_summary` (main.py:113) and `summarize_url` (main.py:140) are never used, so the methods do not compute them. The same goes for the text extracted in `summarize_url` (main.py:137). `ExtractKeywords` takes the same default of 5 (`DefaultNumKeywords`) as those calls.
- `summarize_url` fetches the page twice, or three times when it falls back to `generate_summary`. The model treats each fetch as its own input and does not assume they return the same page.
- The completion is modelled as deterministic: `summarize` is a function, so two equal chunks get equal summaries in the model. The real API samples with temperature 0.9 (main.py:94), so equal chunks may get different summaries. A consequence that holds in the model but not of the service: for a 2800-character `x`, `FinalSummary(x + x, s)` is `s(x)`, a newline, then `s(x)` again. None of the lemmas here relies on this.
- FastAPI routing, the `read_root` and `display_summary` template pages, environment variables, the API key, `FileResponse` file serving and uvicorn startup are framework and I/O plumbing. `mimetypes.guess_type` is the `guessType` parameter.
- Lone surrogate code points (U+D800 to U+DFFF) in the page text, the summaries or a file name are not modelled, because Dafny's `char` excludes them.
- `Builtins.Slice` models only non-negative slice bounds, the only kind the chunk comprehension uses. Negative indices are not modelled.
