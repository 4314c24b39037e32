/**
 The audit endpoint `POST`: check the request for a URL, scrape the page as
 markdown, split it into chunks, ask the language model for a summary of each
 chunk in turn, then ask it once more to combine the partial summaries,
 joined by blank lines, into the final email text.

 The scraping service and the language model are foreign services. They are
 parameters here: `scrape` gives what the scraper returns for a URL (or that
 it threw), and `complete` gives what a chat completion returns for a system
 prompt and a user message (the content of its first choice, possibly
 missing, or that it threw). The method also returns the trace of the calls
 it made into those services, in order.
 */
module Audit {
  import opened TextSplit
  import Chunker

  datatype Option<T> = None | Some(value: T)

  /** What a call into a foreign service did: returned a value, or threw. */
  datatype Outcome<T> = Returned(value: T) | Threw

  /** The scraper's result: with a `markdown` field, or without one. */
  datatype ScrapeResult = Markdown(markdown: string) | NoMarkdown

  /** A call into a foreign service. */
  datatype Call =
    | Scrape(url: string)
    | Complete(model: string, system: string, user: string)

  datatype Body =
    | ErrorBody(error: string)
    | AuditBody(summary: string, scraped: string)

  datatype Response = Response(status: int, body: Body)

  /** The parsed request body; `url` is `None` when the field is absent or null. */
  datatype Request = Request(url: Option<string>)

  const CompletionModel: string := "gpt-4"

  const SummarizePrompt: string :=
    "You are a professional marketing assistant. Summarize the following content briefly:"

  const CombinePrompt: string :=
    "You are a professional marketing assistant. Combine the following summaries into one polished, client-ready email. Be clear, concise, and professional."

  const MissingUrl: Response := Response(400, ErrorBody("Missing URL"))
  const ScrapeFailed: Response := Response(500, ErrorBody("Failed to scrape URL."))
  const AuditFailed: Response := Response(500, ErrorBody("Failed to generate audit."))

  /** The request carries a URL that is truthy, i.e. present and not the empty string. */
  predicate HasUrl(req: Request)
  {
    req.url.Some? && req.url.value != ""
  }

  /** `content || ""`: a missing reply becomes the empty string. */
  function ReplyText(content: Option<string>): string
  {
    if content.Some? then content.value else ""
  }

  /** The summary requests for `chunks`, one per chunk, in order. */
  function SummaryCalls(chunks: seq<string>): seq<Call>
  {
    seq(|chunks|, i requires 0 <= i < |chunks| => Complete(CompletionModel, SummarizePrompt, chunks[i]))
  }

  /** The index of the first chunk whose summary request throws, or the number of chunks if none does. */
  function FirstFailure(chunks: seq<string>, complete: (string, string, string) -> Outcome<Option<string>>): (k: nat)
    ensures k <= |chunks|
    ensures forall j :: 0 <= j < k ==> complete(CompletionModel, SummarizePrompt, chunks[j]).Returned?
    ensures k < |chunks| ==> complete(CompletionModel, SummarizePrompt, chunks[k]).Threw?
  {
    FailureFrom(chunks, complete, 0)
  }

  /** The index of the first chunk from `i` on whose summary request throws, or the number of chunks. */
  function FailureFrom(chunks: seq<string>, complete: (string, string, string) -> Outcome<Option<string>>, i: nat): (k: nat)
    requires i <= |chunks|
    ensures i <= k <= |chunks|
    ensures forall j :: i <= j < k ==> complete(CompletionModel, SummarizePrompt, chunks[j]).Returned?
    ensures k < |chunks| ==> complete(CompletionModel, SummarizePrompt, chunks[k]).Threw?
    decreases |chunks| - i
  {
    if i == |chunks| then i
    else if complete(CompletionModel, SummarizePrompt, chunks[i]).Threw? then i
    else FailureFrom(chunks, complete, i + 1)
  }

  /** The partial summaries: entry `i` is the reply text for chunk `i`. */
  function Partials(chunks: seq<string>, complete: (string, string, string) -> Outcome<Option<string>>): seq<string>
    requires forall j :: 0 <= j < |chunks| ==> complete(CompletionModel, SummarizePrompt, chunks[j]).Returned?
  {
    seq(|chunks|, i requires 0 <= i < |chunks| => ReplyText(complete(CompletionModel, SummarizePrompt, chunks[i]).value))
  }

  /** The user messages of the summary requests `calls`, in order. */
  function UserMessages(calls: seq<Call>): seq<string>
    requires forall i :: 0 <= i < |calls| ==> calls[i].Complete?
  {
    seq(|calls|, i requires 0 <= i < |calls| => calls[i].user)
  }

  /**
   The summary requests for a scraped page, taken together, send the whole
   page to the model exactly once and in order: their user messages,
   concatenated, are the markdown with one separator appended.
   */
  lemma SummariesCoverPage(markdown: string)
    ensures var calls := SummaryCalls(Chunker.Chunks(markdown, Chunker.MaxChunkTokens));
      (forall i :: 0 <= i < |calls| ==> calls[i].Complete?)
      && Chunker.Concat(UserMessages(calls)) == markdown + Sep
  {
    var cs := Chunker.Chunks(markdown, Chunker.MaxChunkTokens);
    assert UserMessages(SummaryCalls(cs)) == cs;
    Chunker.ChunksConcat(markdown, Chunker.MaxChunkTokens);
  }

  /**
   The loop of `POST` over the chunks: one summary request per chunk, in
   order, each reply (or "" for a missing one) appended to the partial
   summaries. A request that throws ends the loop, and the whole request,
   with no partial summaries; `calls` is the requests made, including it.
   */
  method SummarizeChunks(chunks: seq<string>, complete: (string, string, string) -> Outcome<Option<string>>)
    returns (partialSummaries: Option<seq<string>>, calls: seq<Call>)
    ensures var k := FirstFailure(chunks, complete);
      (k < |chunks| ==> partialSummaries == None && calls == SummaryCalls(chunks[..k + 1]))
      && (k == |chunks| ==> partialSummaries == Some(Partials(chunks, complete)) && calls == SummaryCalls(chunks))
  {
    var summaries: seq<string> := [];
    calls := [];
    for i := 0 to |chunks|
      invariant FirstFailure(chunks, complete) >= i
      invariant summaries == Partials(chunks[..i], complete)
      invariant calls == SummaryCalls(chunks[..i])
    {
      var completion := complete(CompletionModel, SummarizePrompt, chunks[i]);
      calls := calls + [Complete(CompletionModel, SummarizePrompt, chunks[i])];
      assert SummaryCalls(chunks[..i + 1]) == SummaryCalls(chunks[..i]) + [Complete(CompletionModel, SummarizePrompt, chunks[i])];
      if completion.Threw? {
        return None, calls;
      }
      var summary := ReplyText(completion.value);
      summaries := summaries + [summary];
      assert Partials(chunks[..i + 1], complete) == Partials(chunks[..i], complete) + [summary];
    }
    assert chunks[..|chunks|] == chunks;
    partialSummaries := Some(summaries);
  }

  /**
   `POST(req)`. Without a URL the answer is 400 and no service is called.
   A scrape that throws, or any summary or combine request that throws, gives
   the generic 500 and stops there; a scrape without markdown gives its own
   500. Otherwise the chunks of the markdown are summarised one by one, in
   order, and their summaries, joined by "\n\n", are combined into the
   summary of the 200 answer, which also carries the scraped markdown.
   */
  method Post(
    req: Request,
    scrape: string -> Outcome<ScrapeResult>,
    complete: (string, string, string) -> Outcome<Option<string>>
  ) returns (resp: Response, calls: seq<Call>)
    ensures !HasUrl(req) ==> resp == MissingUrl && calls == []
    ensures HasUrl(req) ==> |calls| >= 1 && calls[0] == Scrape(req.url.value)
    ensures HasUrl(req) && scrape(req.url.value).Threw? ==>
      resp == AuditFailed && calls == [Scrape(req.url.value)]
    ensures HasUrl(req) && scrape(req.url.value) == Returned(NoMarkdown) ==>
      resp == ScrapeFailed && calls == [Scrape(req.url.value)]
    ensures HasUrl(req) && scrape(req.url.value).Returned? && scrape(req.url.value).value.Markdown? ==>
      var markdown := scrape(req.url.value).value.markdown;
      var chunks := Chunker.Chunks(markdown, Chunker.MaxChunkTokens);
      var k := FirstFailure(chunks, complete);
      (k < |chunks| ==>
        resp == AuditFailed && calls == [Scrape(req.url.value)] + SummaryCalls(chunks[..k + 1]))
      && (k == |chunks| ==>
        var joined := Join(Partials(chunks, complete), Sep);
        calls == [Scrape(req.url.value)] + SummaryCalls(chunks) + [Complete(CompletionModel, CombinePrompt, joined)]
        && resp == match complete(CompletionModel, CombinePrompt, joined)
                   case Threw => AuditFailed
                   case Returned(content) => Response(200, AuditBody(ReplyText(content), markdown)))
  {
    if !HasUrl(req) {
      return MissingUrl, [];
    }
    var url := req.url.value;
    var scrapeResult := scrape(url);
    if scrapeResult.Threw? {
      return AuditFailed, [Scrape(url)];
    }
    if scrapeResult.value.NoMarkdown? {
      return ScrapeFailed, [Scrape(url)];
    }
    var fullContent := scrapeResult.value.markdown;
    var chunks := Chunker.SplitText(fullContent, Chunker.MaxChunkTokens);
    var partialSummaries, summaryCalls := SummarizeChunks(chunks, complete);
    calls := [Scrape(url)] + summaryCalls;
    if partialSummaries.None? {
      return AuditFailed, calls;
    }
    var joined := Join(partialSummaries.value, "\n\n");
    calls := calls + [Complete(CompletionModel, CombinePrompt, joined)];
    var finalSummaryResponse := complete(CompletionModel, CombinePrompt, joined);
    if finalSummaryResponse.Threw? {
      return AuditFailed, calls;
    }
    var finalSummary := ReplyText(finalSummaryResponse.value);
    resp := Response(200, AuditBody(finalSummary, fullContent));
  }
}
