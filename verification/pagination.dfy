/** The cursor-pagination loop shared by both copies: call `blocks.children.list`
    with no cursor, append the page's results, and while `has_more` holds call
    again with the previous `next_cursor`.

    The upstream service is a script of replies: reply `k` answers call `k`,
    either with a page of results or with the error the call throws. The loop
    records every request it issues, so the cursor threading can be stated. */
module Pagination {
  import opened Wrappers
  import opened Blocks

  /** `page_size` of every list request. */
  const PageSize: nat := 50

  /** The arguments of one `blocks.children.list` call. */
  datatype Request = Request(blockId: string, startCursor: Option<string>, pageSize: nat)

  /** One page of children: `results`, `has_more`, `next_cursor`. */
  datatype ListResponse = ListResponse(results: seq<Block>, hasMore: bool, nextCursor: Option<string>)

  /** A failed call; the detail is only logged by the source. */
  datatype UpstreamError = UpstreamError(detail: string)

  type Reply = Result<ListResponse, UpstreamError>

  /** A reply after which the loop makes no further call. */
  predicate Stops(r: Reply) {
    r.Failure? || !r.value.hasMore
  }

  /** The source's loop has no bound of its own; it ends only because some
      reply stops it. */
  predicate EventuallyStops(replies: seq<Reply>) {
    exists k :: 0 <= k < |replies| && Stops(replies[k])
  }

  /** Index of the first reply that stops the loop. */
  function FirstStop(replies: seq<Reply>): (k: nat)
    requires EventuallyStops(replies)
    ensures k < |replies| && Stops(replies[k])
    ensures forall i :: 0 <= i < k ==> !Stops(replies[i])
  {
    if Stops(replies[0]) then 0
    else
      var j :| 0 <= j < |replies| && Stops(replies[j]);
      assert Stops(replies[1..][j - 1]);
      1 + FirstStop(replies[1..])
  }

  /** Every reply before index `n` is a page that asks for more. */
  predicate Continues(replies: seq<Reply>, n: nat) {
    n <= |replies| && forall i :: 0 <= i < n ==> !Stops(replies[i])
  }

  /** The requests the loop is meant to issue for its first `n` calls: the
      first without a cursor, each later one with the previous reply's
      `next_cursor`. */
  function ExpectedCalls(pageId: string, replies: seq<Reply>, n: nat): (r: seq<Request>)
    requires n <= |replies| && Continues(replies, if n == 0 then 0 else n - 1)
    ensures |r| == n
  {
    if n == 0 then []
    else
      var cursor := if n == 1 then None else replies[n - 2].value.nextCursor;
      ExpectedCalls(pageId, replies, n - 1) + [Request(pageId, cursor, PageSize)]
  }

  /** The blocks of the first `n` replies, in call order. */
  function Collected(replies: seq<Reply>, n: nat): seq<Block>
    requires n <= |replies|
    requires forall i :: 0 <= i < n ==> replies[i].Success?
  {
    if n == 0 then [] else Collected(replies, n - 1) + replies[n - 1].value.results
  }

  /** The cursor threading, stated request by request. */
  lemma {:induction false} ExpectedCallsThreadCursor(pageId: string, replies: seq<Reply>, n: nat)
    requires n <= |replies| && Continues(replies, if n == 0 then 0 else n - 1)
    ensures forall i :: 0 <= i < n ==>
      ExpectedCalls(pageId, replies, n)[i].blockId == pageId
      && ExpectedCalls(pageId, replies, n)[i].pageSize == PageSize
    ensures n > 0 ==> ExpectedCalls(pageId, replies, n)[0].startCursor == None
    ensures forall i :: 0 < i < n ==>
      ExpectedCalls(pageId, replies, n)[i].startCursor == replies[i - 1].value.nextCursor
  {
    if n > 0 {
      ExpectedCallsThreadCursor(pageId, replies, n - 1);
      var prefix := ExpectedCalls(pageId, replies, n - 1);
      assert forall i :: 0 <= i < n - 1 ==> ExpectedCalls(pageId, replies, n)[i] == prefix[i];
    }
  }

  /** `while (true) { ... }` of `getBlocksHtml` (and of the `index.js`
      route). It issues exactly the calls up to and including the first
      stopping reply; on success it yields every page's results in call
      order, and a failed call ends it with that call's error and no
      blocks. */
  method FetchAllBlocks(pageId: string, replies: seq<Reply>)
      returns (calls: seq<Request>, outcome: Result<seq<Block>, UpstreamError>)
    requires EventuallyStops(replies)
    ensures |calls| == FirstStop(replies) + 1
    ensures calls == ExpectedCalls(pageId, replies, |calls|)
    ensures outcome.Failure? <==> replies[|calls| - 1].Failure?
    ensures outcome.Failure? ==> outcome.error == replies[|calls| - 1].error
    ensures outcome.Success? ==> outcome.value == Collected(replies, |calls|)
  {
    ghost var stop := FirstStop(replies);
    var blocks: seq<Block> := [];
    var cursor: Option<string> := None;
    var k: nat := 0;
    calls := [];
    while true
      invariant k <= stop
      invariant |calls| == k
      invariant calls == ExpectedCalls(pageId, replies, k)
      invariant cursor == (if k == 0 then None else replies[k - 1].value.nextCursor)
      invariant blocks == Collected(replies, k)
      decreases stop - k
    {
      calls := calls + [Request(pageId, cursor, PageSize)];
      var reply := replies[k];
      if reply.Failure? {
        outcome := Failure(reply.error);
        return;
      }
      blocks := blocks + reply.value.results;
      if !reply.value.hasMore {
        break;
      }
      cursor := reply.value.nextCursor;
      k := k + 1;
    }
    outcome := Success(blocks);
  }

  /** Fetching pages in order and rendering the result is rendering each
      page and joining the pieces in call order. */
  lemma {:induction false} RenderCollected(v: Variant, replies: seq<Reply>, n: nat)
    requires n <= |replies|
    requires forall i :: 0 <= i < n ==> replies[i].Success? && AllWellFormed(replies[i].value.results)
    ensures AllWellFormed(Collected(replies, n))
    ensures Render(v, Collected(replies, n)) == RenderPages(v, replies, n)
  {
    if n > 0 {
      RenderCollected(v, replies, n - 1);
      RenderAppend(v, Collected(replies, n - 1), replies[n - 1].value.results);
    }
  }

  /** The pages rendered one at a time and joined in call order. */
  function RenderPages(v: Variant, replies: seq<Reply>, n: nat): string
    requires n <= |replies|
    requires forall i :: 0 <= i < n ==> replies[i].Success? && AllWellFormed(replies[i].value.results)
  {
    if n == 0 then [] else RenderPages(v, replies, n - 1) + Render(v, replies[n - 1].value.results)
  }
}
