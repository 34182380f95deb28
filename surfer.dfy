/** The summarization pipeline of the service: text extraction from the
    page's block elements, chunking, one summary per chunk, the newline join
    of the summaries, the choice between the page's own description and the
    generated summary, and the file path and media type served under
    `/.well-known/`. Fetching, HTML parsing, the completion API and the file
    system are not modelled: their results are inputs, and the completion
    API is the function `summarize`. */
module Surfer {
  import opened Builtins
  import opened Chunking

  /** `extract_text`: the texts of the page's `<p>` and `<div>` elements, in
      document order, joined by newlines. */
  method ExtractText(elementTexts: seq<string>) returns (text: string)
    ensures text == Join(elementTexts, "\n")
  {
    var textParts: seq<string> := [];
    for i := 0 to |elementTexts|
      invariant textParts == elementTexts[..i]
    {
      textParts := textParts + [elementTexts[i]];
    }
    assert textParts == elementTexts;
    text := Join(textParts, "\n");
  }

  /** No element gives the empty text; otherwise the text is as long as the
      element texts together plus one newline between each two of them. */
  lemma {:induction false} ExtractedTextShape(elementTexts: seq<string>)
    ensures elementTexts == [] ==> Join(elementTexts, "\n") == ""
    ensures elementTexts != [] ==>
      |Join(elementTexts, "\n")| == TotalLength(elementTexts) + |elementTexts| - 1 &&
      multiset(Join(elementTexts, "\n"))['\n'] == CountAll(elementTexts, '\n') + |elementTexts| - 1
  {
    if elementTexts != [] {
      JoinCharSeparators(elementTexts, '\n');
    }
  }

  /** The summaries of the chunks, one per chunk, in chunk order: what
      `asyncio.gather` returns for the per-chunk requests. */
  function SummarizeChunks(chunks: seq<string>, summarize: string -> string): (summaries: seq<string>)
    ensures |summaries| == |chunks|
    ensures forall i :: 0 <= i < |chunks| ==> summaries[i] == summarize(chunks[i])
  {
    seq(|chunks|, i requires 0 <= i < |chunks| => summarize(chunks[i]))
  }

  /** The summaries collected by chunk position once the chunks listed in
      `completed` have finished, in that order of completion. */
  function Collected(chunks: seq<string>, summarize: string -> string, completed: seq<nat>): (results: map<nat, string>)
    requires forall j :: 0 <= j < |completed| ==> completed[j] < |chunks|
    ensures forall i :: i in results ==> i < |chunks| && results[i] == summarize(chunks[i])
  {
    if completed == [] then map[]
    else
      var last := completed[|completed| - 1];
      Collected(chunks, summarize, completed[..|completed| - 1])[last := summarize(chunks[last])]
  }

  /** A chunk position has a result once its chunk has completed, and that
      result is the summary of that very chunk. */
  lemma {:induction false} CollectedAt(chunks: seq<string>, summarize: string -> string, completed: seq<nat>, i: nat)
    requires forall j :: 0 <= j < |completed| ==> completed[j] < |chunks|
    ensures i in Collected(chunks, summarize, completed) <==> i in completed
    ensures i in completed ==> Collected(chunks, summarize, completed)[i] == summarize(chunks[i])
  {
    if completed != [] {
      var front := completed[..|completed| - 1];
      CollectedAt(chunks, summarize, front, i);
      assert completed == front + [completed[|completed| - 1]];
    }
  }

  /** Whatever order the chunk requests complete in, reading the collected
      results by chunk position gives the summaries in chunk order. */
  lemma GatherAnyOrder(chunks: seq<string>, summarize: string -> string, completed: seq<nat>)
    requires forall j :: 0 <= j < |completed| ==> completed[j] < |chunks|
    requires forall i :: 0 <= i < |chunks| ==> i in completed
    ensures forall i :: 0 <= i < |chunks| ==> i in Collected(chunks, summarize, completed)
    ensures forall i :: 0 <= i < |chunks| ==>
      Collected(chunks, summarize, completed)[i] == SummarizeChunks(chunks, summarize)[i]
  {
    forall i | 0 <= i < |chunks|
      ensures i in Collected(chunks, summarize, completed)
      ensures Collected(chunks, summarize, completed)[i] == summarize(chunks[i])
    {
      CollectedAt(chunks, summarize, completed, i);
    }
  }

  /** The final summary of an extracted article: the chunk summaries joined
      by newlines. It is empty for an empty article, and otherwise it starts
      with the first chunk's summary, ends with the last chunk's, and holds
      at least as many newlines as there are chunk boundaries. */
  function FinalSummary(article: string, summarize: string -> string): (r: string)
    ensures article == "" ==> r == ""
    ensures article != "" ==> |r| >= |summarize(Chunks(article)[0])| && r[..|summarize(Chunks(article)[0])|] == summarize(Chunks(article)[0])
    ensures article != "" ==> var last := summarize(Chunks(article)[|Chunks(article)| - 1]);
      |r| >= |last| && r[|r| - |last|..] == last
    ensures article != "" ==> multiset(r)['\n'] >= |Chunks(article)| - 1
  {
    var summaries := SummarizeChunks(Chunks(article), summarize);
    if summaries != [] then
      JoinCharSeparators(summaries, '\n');
      JoinStartsWith(summaries, "\n");
      JoinEndsWith(summaries, "\n");
      Join(summaries, "\n")
    else Join(summaries, "\n")
  }

  /** When no chunk summary contains a newline, splitting the final summary
      at newlines gives back exactly one summary per chunk, in chunk order.
      Bullet-point summaries usually do contain newlines, so in general the
      chunk boundaries cannot be recovered from the final summary; the
      ordering guarantee proper is `GenerateSummary`'s contract together
      with `GatherAnyOrder`. */
  lemma FinalSummaryParts(article: string, summarize: string -> string)
    requires article != ""
    requires forall c :: c in Chunks(article) ==> '\n' !in summarize(c)
    ensures Split(FinalSummary(article, summarize), '\n') == SummarizeChunks(Chunks(article), summarize)
    ensures |Split(FinalSummary(article, summarize), '\n')| == |Chunks(article)|
  {
    ChunkCount(article);
    var summaries := SummarizeChunks(Chunks(article), summarize);
    forall p | p in summaries
      ensures '\n' !in p
    {
      var i :| 0 <= i < |summaries| && summaries[i] == p;
      assert Chunks(article)[i] in Chunks(article);
    }
    SplitJoin(summaries, '\n');
  }

  /** An empty article is cut into no chunks, so no summary is requested and
      the final summary is empty. */
  lemma EmptyArticle(summarize: string -> string)
    ensures Chunks("") == []
    ensures FinalSummary("", summarize) == ""
  {
    ChunkCount("");
  }

  /** A 5600-character article is cut into two chunks of 2800 characters;
      with a completion that echoes its input the final summary is the two
      halves joined by a newline. */
  lemma EchoTwoChunks(article: string)
    requires |article| == 2 * ChunkSize
    ensures Chunks(article) == [article[..ChunkSize], article[ChunkSize..]]
    ensures FinalSummary(article, c => c) == article[..ChunkSize] + "\n" + article[ChunkSize..]
  {
    var chunks := Chunks(article);
    ChunkCount(article);
    assert |chunks| == 2;
    ChunkAt(article, 0);
    ChunkAt(article, 1);
    assert chunks[0] == article[..ChunkSize];
    assert chunks[1] == article[ChunkSize..];
    assert chunks == [chunks[0], chunks[1]];
    var summaries := SummarizeChunks(chunks, c => c);
    assert summaries == [chunks[0], chunks[1]];
    assert Join(summaries, "\n") == Join([chunks[0]], "\n") + "\n" + chunks[1];
  }

  /** `generate_summary`: extracts the text, cuts it into chunks, requests
      one summary per chunk and joins the summaries. `requests` lists the
      chunks sent to the completion API, in order. */
  method GenerateSummary(elementTexts: seq<string>, summarize: string -> string)
    returns (summary: string, requests: seq<string>)
    ensures Join(requests, "") == Join(elementTexts, "\n")
    ensures |requests| == (|Join(elementTexts, "\n")| + ChunkSize - 1) / ChunkSize
    ensures forall k :: 0 <= k < |requests| ==> 0 < |requests[k]| <= ChunkSize
    ensures requests == Chunks(Join(elementTexts, "\n"))
    ensures summary == Join(SummarizeChunks(requests, summarize), "\n")
  {
    var article := ExtractText(elementTexts);
    requests := Chunks(article);
    var summaries := SummarizeChunks(requests, summarize);
    summary := Join(summaries, "\n");
    ChunksConcat(article);
    ChunkCount(article);
    ChunkBounds(article);
  }

  /** `summarize_url`: the page's `og:description` when it is present and
      non-empty, and otherwise the generated summary; the generated summary,
      and with it every completion request, is only produced in the second case. */
  method SummarizeUrl(ogDescription: Option<string>, elementTexts: seq<string>, summarize: string -> string)
    returns (summary: string, requests: seq<string>)
    ensures Truthy(ogDescription) ==> summary == ogDescription.value && requests == []
    ensures !Truthy(ogDescription) ==>
      requests == Chunks(Join(elementTexts, "\n")) && summary == FinalSummary(Join(elementTexts, "\n"), summarize)
    ensures summary == OrElse(ogDescription, FinalSummary(Join(elementTexts, "\n"), summarize))
  {
    if Truthy(ogDescription) {
      summary := ogDescription.value;
      requests := [];
    } else {
      summary, requests := GenerateSummary(elementTexts, summarize);
    }
  }

  /** The directory that files under `/.well-known/` are served from. */
  const PluginDir: string := "plugins/"

  /** The media type used when none can be guessed from the file name. */
  const FallbackMediaType: string := "text/plain"

  /** What `download` serves: a file path and its media type. */
  datatype FileReply = FileReply(path: string, mediaType: string)

  /** `download`: the requested name under the plugin directory, with the
      media type guessed from that path or `text/plain` when nothing is
      guessed. The guess is the parameter `guessType`. */
  function Download(filename: string, guessType: string -> Option<string>): (r: FileReply)
    ensures |r.path| == |PluginDir| + |filename|
    ensures r.path[..|PluginDir|] == PluginDir && r.path[|PluginDir|..] == filename
    ensures Truthy(guessType(r.path)) ==> r.mediaType == guessType(r.path).value
    ensures !Truthy(guessType(r.path)) ==> r.mediaType == FallbackMediaType
    ensures r.mediaType != ""
  {
    var path := PluginDir + filename;
    FileReply(path, OrElse(guessType(path), FallbackMediaType))
  }
}
