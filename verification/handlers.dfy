/** The two request handlers: the Express route `GET /notion/:pageId` of
    `index.js` and the serverless handler of `api/notion.js`, which reads
    `pageId` from the query string. Both answer with a JSON body; any error
    thrown while fetching or rendering becomes the same generic 500 reply. */
module Handlers {
  import opened Wrappers
  import opened Blocks
  import opened Pagination

  datatype Body = HtmlBody(html: string) | ErrorBody(error: string)

  datatype HttpReply = HttpReply(status: nat, body: Body)

  const LoadFailedMessage: string := "Failed to load Notion content"
  const MissingPageIdMessage: string := "pageId query parameter is required"

  /** What can abort the fetch-and-render step: an upstream call that throws,
      or a block of a known type whose payload is missing, which makes
      `block[type].rich_text` throw. */
  datatype LoadError = UpstreamFailed(cause: UpstreamError) | MalformedBlock

  /** `getBlocksHtml(pageId)`: fetch every page, then render and join. It
      yields HTML only when every call succeeded and every block is well
      formed; there is never a partial page. */
  method GetBlocksHtml(v: Variant, pageId: string, replies: seq<Reply>)
      returns (calls: seq<Request>, outcome: Result<string, LoadError>)
    requires EventuallyStops(replies)
    ensures |calls| == FirstStop(replies) + 1
    ensures calls == ExpectedCalls(pageId, replies, |calls|)
    ensures replies[|calls| - 1].Failure? ==> outcome == Failure(UpstreamFailed(replies[|calls| - 1].error))
    ensures replies[|calls| - 1].Success? && !AllWellFormed(Collected(replies, |calls|)) ==>
      outcome == Failure(MalformedBlock)
    ensures outcome.Success? <==>
      replies[|calls| - 1].Success? && AllWellFormed(Collected(replies, |calls|))
    ensures outcome.Success? ==> outcome.value == Render(v, Collected(replies, |calls|))
  {
    var fetched;
    calls, fetched := FetchAllBlocks(pageId, replies);
    match fetched
    case Failure(e) =>
      outcome := Failure(UpstreamFailed(e));
    case Success(blocks) =>
      if AllWellFormed(blocks) {
        outcome := Success(Render(v, blocks));
      } else {
        outcome := Failure(MalformedBlock);
      }
  }

  /** The `res.json({ html })` / `res.status(500).json({ error })` pair
      shared by both handlers. */
  function ReplyFor(outcome: Result<string, LoadError>): (r: HttpReply)
    ensures r.status == 200 <==> outcome.Success?
    ensures outcome.Success? ==> r == HttpReply(200, HtmlBody(outcome.value))
    ensures outcome.Failure? ==> r == HttpReply(500, ErrorBody(LoadFailedMessage))
  {
    match outcome
    case Success(html) => HttpReply(200, HtmlBody(html))
    case Failure(_) => HttpReply(500, ErrorBody(LoadFailedMessage))
  }

  /** `GET /notion/:pageId` (`index.js`): the routing guarantees a page id,
      empty paragraphs render as `<p></p>`, and any failure answers 500 with
      the generic message. */
  method HandlePageRoute(pageId: string, replies: seq<Reply>)
      returns (calls: seq<Request>, reply: HttpReply)
    requires EventuallyStops(replies)
    ensures |calls| == FirstStop(replies) + 1
    ensures calls == ExpectedCalls(pageId, replies, |calls|)
    ensures reply.status == 200 || reply == HttpReply(500, ErrorBody(LoadFailedMessage))
    ensures reply.status == 200 <==>
      replies[|calls| - 1].Success? && AllWellFormed(Collected(replies, |calls|))
    ensures reply.status == 200 ==>
      reply.body == HtmlBody(Render(KeepEmptyParagraphs, Collected(replies, |calls|)))
  {
    var outcome;
    calls, outcome := GetBlocksHtml(KeepEmptyParagraphs, pageId, replies);
    reply := ReplyFor(outcome);
  }

  /** `!pageId`: the query parameter is absent or empty. */
  predicate MissingPageId(pageId: Option<string>) {
    pageId.None? || pageId.value == ""
  }

  /** The `api/notion.js` handler: a missing page id answers 400 without any
      upstream call; otherwise empty paragraphs are dropped and any failure
      answers 500 with the generic message. */
  method HandlePageQuery(pageId: Option<string>, replies: seq<Reply>)
      returns (calls: seq<Request>, reply: HttpReply)
    requires !MissingPageId(pageId) ==> EventuallyStops(replies)
    ensures MissingPageId(pageId) ==>
      calls == [] && reply == HttpReply(400, ErrorBody(MissingPageIdMessage))
    ensures !MissingPageId(pageId) ==>
      && |calls| == FirstStop(replies) + 1
      && calls == ExpectedCalls(pageId.value, replies, |calls|)
      && (reply.status == 200 || reply == HttpReply(500, ErrorBody(LoadFailedMessage)))
      && (reply.status == 200 <==>
            replies[|calls| - 1].Success? && AllWellFormed(Collected(replies, |calls|)))
      && (reply.status == 200 ==>
            reply.body == HtmlBody(Render(OmitEmptyParagraphs, Collected(replies, |calls|))))
  {
    if MissingPageId(pageId) {
      calls := [];
      reply := HttpReply(400, ErrorBody(MissingPageIdMessage));
      return;
    }
    var outcome;
    calls, outcome := GetBlocksHtml(OmitEmptyParagraphs, pageId.value, replies);
    reply := ReplyFor(outcome);
  }
}
