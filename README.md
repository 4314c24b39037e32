# Audit endpoint: paragraph chunker and summary pipeline

This project models the audit endpoint of the email automation platform,
`POST /api/audit`, in `src/app/api/audit/route.ts`. The endpoint takes a
URL and scrapes the page as markdown. It cuts the markdown into chunks of
whole paragraphs with `splitText`, asks a language model for a summary of
each chunk in turn, and then asks the model once more to combine those
summaries into one email. The answer carries that email and the scraped
markdown.

- `text_split.dfy` (module `TextSplit`) models `text.split("\n\n")` and
  `join("\n\n")` from JavaScript. Splitting is leftmost and non-overlapping.
  The model proves the split round trip in both directions, and proves that
  the split result is the only well-formed list of pieces that joins back to
  the text.
- `chunker.dfy` (module `Chunker`) models `splitText`:
  - a specification `Fold` of its loop over paragraph groups;
  - an independent description `Greedy` of the grouping the loop produces,
    proved equivalent to `Fold` and unique;
  - the properties the chunks have (see the table);
  - the imperative `SplitText` method with the source's loop, proved equal
    to the specification.
- `audit.dfy` (module `Audit`) models `POST`. The scraper and the language
  model are function parameters. The method returns the response together
  with the trace of calls it made into the two services.

Three behaviours of `route.ts` worth noting:

- **Empty input.** For the empty string the code returns one chunk, `"\n\n"`,
  not an empty list. `"".split("\n\n")` is `[""]`, and the running chunk
  `"\n\n"` is non-empty, so it is flushed. See `ChunksEmptyText`.
- **Summary order.** The code awaits the summary requests one after another
  in a `for` loop; they do not run concurrently. An exception from any one
  of them ends the whole request with the generic 500. No later summary is
  requested and no batch result is produced.
- **No timing header.** The success response has no elapsed-time header. The
  timer in the code only writes to the log.

## Model

| member | source | states |
|---|---|---|
| TextSplit.Split | src/app/api/audit/route.ts:8 | `text.split("\n\n")`: scans from the left; a separator at the front gives an empty piece and the scan resumes after it; otherwise the first character starts the first piece. There is always at least one piece. |
| TextSplit.Join | src/app/api/audit/route.ts:98 | `partialSummaries.join("\n\n")`: "" for no pieces, the piece itself for one, otherwise the pieces with the separator between them. |
| Chunker.Render | src/app/api/audit/route.ts:16-18 | The running chunk holding a group of paragraphs: each paragraph followed by "\n\n", in order. |
| Chunker.Step | src/app/api/audit/route.ts:13-19 | One turn of the loop: when the running chunk plus the paragraph is longer than the limit, the running group is pushed and a new one holds the paragraph alone; otherwise the paragraph joins the running group. |
| Chunker.Fold | src/app/api/audit/route.ts:12-20 | The loop: `Step` applied to the paragraphs in order, from no pushed groups and an empty running group. |
| Chunker.Groups | src/app/api/audit/route.ts:12-24 | The groups pushed by the loop, followed by the running group when its chunk is non-empty (the final flush). |
| Chunker.Chunks | src/app/api/audit/route.ts:7-27 | `splitText(text, maxTokens)`: the groups of the paragraphs of `text`, with limit `maxTokens * 4`, rendered as chunks. |
| Audit.HasUrl | src/app/api/audit/route.ts:38 | The negation of `!url` for a string field: the URL is present and not "". |
| Audit.ReplyText | src/app/api/audit/route.ts:83 | The fallback to "" at the end of the reply expression: the reply content when present, "" when it is missing. |
| Audit.SummaryCalls | src/app/api/audit/route.ts:67-81 | One summary request per chunk, in order: model "gpt-4", the summarise prompt, the chunk as the user message. |
| Audit.Partials | src/app/api/audit/route.ts:83-84 | When every summary request returns, entry `i` is the reply text of chunk `i`. |
| TextSplit.JoinSplit | src/app/api/audit/route.ts:8 | Joining the paragraphs of `text.split("\n\n")` with "\n\n" gives back the text. |
| TextSplit.SplitWellFormed | src/app/api/audit/route.ts:8 | The split has at least one piece. No piece contains "\n\n". No piece but the last ends in a newline, because matches are leftmost. |
| TextSplit.SplitJoin | src/app/api/audit/route.ts:8 | For pieces of that shape, splitting their join returns exactly those pieces. Together with the two lemmas above, this makes the split unique. |
| TextSplit.SplitNoSep | src/app/api/audit/route.ts:8 | A text without a blank line splits into the text alone. |
| TextSplit.SplitPrefix | src/app/api/audit/route.ts:8 | A well-formed first paragraph followed by "\n\n" is split off unchanged before the rest is split. |
| Chunker.FoldOne | src/app/api/audit/route.ts:12-19 | After one paragraph, the loop has pushed an empty chunk exactly when that paragraph alone is longer than the limit. The resulting grouping is greedy. |
| Chunker.FoldGreedy | src/app/api/audit/route.ts:12-20 | After any non-empty list of paragraphs, the closed groups plus the running group form the greedy grouping, and the running group is non-empty. |
| Chunker.GroupsGreedy | src/app/api/audit/route.ts:12-24 | The groups pushed, including the final flush, are the greedy grouping: a partition of the paragraphs where every added paragraph fits and every group is closed only because the next paragraph does not fit. |
| Chunker.GreedyUnique | src/app/api/audit/route.ts:12-24 | Any grouping with the greedy properties is the one the chunker pushes. |
| Chunker.GreedyShape | src/app/api/audit/route.ts:12-24 | For any greedy grouping, the chunks are non-empty except possibly the first, each non-empty chunk ends in "\n\n", and there is at most one chunk more than there are paragraphs. |
| Chunker.GreedyFirstEmpty | src/app/api/audit/route.ts:13-15 | For a greedy grouping, the first chunk is empty exactly when the first paragraph is longer than the limit. |
| Chunker.GreedyBound | src/app/api/audit/route.ts:13-19 | For a greedy grouping, every chunk is empty, or at most the limit plus 2 characters long, or a single paragraph followed by "\n\n". |
| Chunker.ChunksArePartition | src/app/api/audit/route.ts:7-27 | Paragraphs are never split. The chunks render a greedy grouping whose groups, one after the other, are exactly the paragraphs of the text. |
| Chunker.ChunksConcat | src/app/api/audit/route.ts:7-27 | The chunks, concatenated, are the text followed by one "\n\n". Nothing is lost, duplicated or reordered. |
| Chunker.ChunksShape | src/app/api/audit/route.ts:7-27 | The chunks are `WellChunked`: there is at least one chunk, and the last one is non-empty. Only the first chunk may be "", and it is "" exactly when the first paragraph exceeds `maxTokens * 4` characters. Every non-empty chunk ends in "\n\n". There are at most as many chunks as paragraphs plus one. |
| Chunker.ChunksBound | src/app/api/audit/route.ts:13-19 | Every chunk is "", or at most `maxTokens * 4 + 2` characters long, or one oversized paragraph followed by "\n\n". |
| Chunker.ChunksSingleParagraph | src/app/api/audit/route.ts:7-27 | A text without a blank line and within the limit comes back as the single chunk `text + "\n\n"`. |
| Chunker.ChunksEmptyText | src/app/api/audit/route.ts:7-27 | The empty text gives `["\n\n"]`. |
| Chunker.ChunksOversizedFirst | src/app/api/audit/route.ts:13-16 | A first paragraph longer than the limit makes the first chunk "" and is followed by at least one more chunk. |
| Chunker.SplitText | src/app/api/audit/route.ts:7-27 | The loop over the paragraphs, with its final flush, returns exactly the specified chunks `Chunks(text, maxTokens)`, so the lemmas about `Chunks` hold of its result. |
| Audit.FirstFailure | src/app/api/audit/route.ts:67-85 | The index of the first chunk whose summary request throws: every earlier request returns and that one throws. It equals the number of chunks when none throws. |
| Audit.FailureFrom | src/app/api/audit/route.ts:67-85 | The same, from chunk `i` on: every request from `i` up to the result returns, and the one at the result throws unless it is the number of chunks. |
| Audit.SummariesCoverPage | src/app/api/audit/route.ts:63-85 | The user messages of the summary requests send the whole page once, in order. Concatenated, they are the markdown followed by "\n\n". |
| Audit.SummarizeChunks | src/app/api/audit/route.ts:65-85 | There is one summary request per chunk, in chunk order, with the fixed system prompt. A throwing request stops the loop after it, with no partial summaries. Otherwise partial summary `i` is the reply to chunk `i`, or "" if that reply is missing. |
| Audit.Post | src/app/api/audit/route.ts:36-117 | With no URL: 400 "Missing URL" and no service call. A throwing scrape: 500 "Failed to generate audit." after the scrape alone. No markdown: 500 "Failed to scrape URL.". Otherwise, the summary requests for the chunks of the markdown (up to the first that throws, which gives the generic 500), then one combine request for the partial summaries joined by "\n\n". That request gives the generic 500 if it throws, or 200 with the reply (or "") and the markdown. |

## Left out

- The scraping service and the language model are parameters. Each is a
  function from its request to a reply or an exception, so the model treats
  them as deterministic. It does not model their network behaviour, their
  API keys or client construction (route.ts:42-47), or the scrape options
  for markdown format and main content only.
- The one-second timer and every `console.log`/`console.error` call are
  left out (route.ts:30-34, 66, 105-106, 109-113). They only write to the
  log.
- The timer is cleared (route.ts:106) only on the 200 path. After each 400
  or 500 answer, its interval goes on logging for the life of the process.
- Parsing the request is reduced to an optional `url` string:
  - a body that is not JSON is not modelled;
  - a `url` that is truthy but not a string is not modelled;
  - `Request`'s `None` stands for an absent or null field.
  - a falsy `url` that is not a string (`0`, `false`) also gets the 400 at
    route.ts:38, which `Request` cannot express;
  - a JSON `null` body makes the destructuring at route.ts:36 throw outside
    the `try`, which is not modelled.
- `ScrapeResult` carries only a string `markdown`. A `markdown` key whose value
  is not a string passes the test at route.ts:55. `text.split` would then
  throw at route.ts:8 inside the `try`, which gives the generic 500. The model
  does not express that case.
- The HTTP plumbing of `NextResponse.json` is reduced to a status and a
  body value.
- Chunker.SplitText:
  - lengths are counted in Dafny characters, whereas JavaScript's `length`
    counts UTF-16 code units, so they match only for text inside the Basic
    Multilingual Plane;
  - `maxTokens` is an integer, whereas in the source it is a JavaScript
    number, and the endpoint always passes 3000.
- Audit.Post: the success path's reply is reduced to the content of the
  first choice, possibly missing. The response object's other fields are
  not modelled.
- `src/app/page.tsx`, `src/utils/sendEmail.ts` and
  `src/app/api/send-audit/route.ts` are callers of, or neighbours to, the
  endpoint and are not part of this model.
