# Notion page proxy: block renderer and pagination, modelled in Dafny

The system is a small proxy. Given a Notion page id, it lists the page's child
blocks through the Notion API, page by page. It then renders five block types
as HTML fragments and returns the joined HTML as `{ html }`. The logic exists
twice: once in the Express server `index.js` (route `GET /notion/:pageId`) and
once in the serverless handler `api/notion.js` (query `?pageId=`). The two
copies differ in one case. `index.js` renders a paragraph with empty text as
`<p></p>`, and `api/notion.js` drops it.

Modules:

- `RichText` (`rich_text.dfy`): `richTextToPlain` and its escaping. The
  source escapes with two global replacements, first `<` to `&lt;`, then `>`
  to `&gt;`. `JsEscape` models those two passes as written. It is proved
  equal to the per-character `Escape`, and every property is stated about
  `Escape`. An absent `rich_text` (the `= []` default) is `None`.
- `Html` (`html.dfy`): the template `<name>text</name>` and a reader for it.
  The reader is the inverse partner of rendering: a rendered page reads back
  as one element per rendered block. This is how the model states that
  escaped text can neither open nor close a tag.
- `Blocks` (`blocks.dfy`): `blockToHtml` as a chain of tag tests, and
  `blocks.map(blockToHtml).join("")`. The `Variant` flag selects the
  `index.js` behaviour (`KeepEmptyParagraphs`) or the `api/notion.js` one
  (`OmitEmptyParagraphs`). `ElementTable` is the tag → element table that
  the dispatch is proved to follow.
- `Pagination` (`pagination.dfy`): the `while (true)` cursor loop. The
  upstream is a script of replies, where reply `k` answers call `k`. It is
  either a page `(results, has_more, next_cursor)` or the error that call
  throws. The loop records every request it issues, so that the cursor
  threading can be stated.
- `Handlers` (`handlers.dfy`): `getBlocksHtml`, the `index.js` route body and
  the `api/notion.js` handler with its missing-`pageId` guard, with the HTTP
  status and JSON body of each reply.
- `Scenarios` (`scenarios.dfy`): small pages worked through the model: a
  heading with a bracketed word followed by a paragraph, an empty paragraph,
  and a page fetched in two calls.
- `Wrappers`, `Seqs`: `Option`/`Result`, and small sequence facts used by
  the proofs.

The two copies disagree only on the empty paragraph. The model keeps both
behaviours and proves that they differ on that case and on no other.

## Model

| member | source | states |
|---|---|---|
| RichText.ReplaceAll | index.js:83 | `replace(/c/g, rep)` leaves no `c` when `rep` has none, and every other character absent from `rep` occurs in the result exactly when it occurs in the input |
| RichText.JsEscape | index.js:83 | the two chained passes leave neither `<` nor `>` in the result; that they equal per-character escaping is stated by `RichText.JsEscapeIsEscape` |
| RichText.JsEscapeIsEscape | api/notion.js:10-12 | the two chained regex replacements (`<` first, then `>`) equal escaping character by character: the first pass introduces no `>` |
| RichText.Escape | index.js:83 | escaped text never contains `<` or `>`, and it grows by exactly three characters per bracket escaped |
| RichText.EscapeAt | index.js:83 | each input character appears, escaped, right after the escaped prefix, at offset `i + 3·(brackets before i)`; a character other than `<` or `>` is kept unchanged and in order |
| RichText.EscapeAppend | index.js:83 | escape(a + b) = escape(a) + escape(b) |
| RichText.EscapeFixedPoints | index.js:83 | escaping leaves a string unchanged if and only if the string has no angle bracket, so `&` and quotes pass through untouched |
| RichText.EscapeIdempotent | index.js:83 | escaping already escaped text changes nothing |
| RichText.UnescapeEscape | index.js:83 | on text without `&`, decoding `&lt;`/`&gt;` recovers the original text exactly |
| RichText.EscapeNotInjective | index.js:83 | because `&` is not escaped, the literal text `&lt;` and the character `<` produce the same output |
| RichText.JoinEscaped | index.js:82-84 | mapping each run to its escaped `plain_text` and joining with `""` is the escape of the runs' texts concatenated in order |
| RichText.RichTextToPlain | index.js:81-85 | an absent run list yields `""`; otherwise the result is the in-order escaped concatenation of the runs' `plain_text`, and it has no angle bracket |
| Html.Serialize | index.js:54 | no ensures of its own: the template `<name>${text}</name>`; `Html.ParseSerialize` states that it is read back exactly |
| Html.ParseElement | index.js:54 | anything read as an element is exactly that element's `<name>text</name>` followed by the remainder |
| Html.ParsePage | index.js:39 | anything read as a page serializes back, fragment by fragment, to the text that was read |
| Html.ParseSerialize | index.js:52-75 | a fragment whose element name has no `>` and whose text has no `<` is read back as exactly that element, whatever follows it |
| Html.ParsePageSerializeAll | index.js:39 | a joined sequence of such fragments is read back as exactly that sequence |
| Blocks.BlockToHtml | index.js:49-79 | no ensures of its own: the chain of tag tests, as in `index.js` under `KeepEmptyParagraphs` and as in api/notion.js:16-47 under `OmitEmptyParagraphs`; its behaviour is stated by `Blocks.BlockToHtmlFollowsTable` and `Blocks.VariantsDifferOnlyOnEmptyParagraphs` |
| Blocks.BlockToHtmlFollowsTable | index.js:49-79 | `paragraph`, `heading_1`, `heading_2`, `heading_3` and `bulleted_list_item` wrap the block's escaped text in `p`, `h1`, `h2`, `h3` and `li`; any other tag renders as `""`; in the `api/notion.js` variant an empty paragraph renders as `""` too, and nothing else does |
| Blocks.VariantsDifferOnlyOnEmptyParagraphs | api/notion.js:19-23 | the two copies of `blockToHtml` give different output if and only if the block is a paragraph with empty text; on such a block `index.js` (lines 52-54) gives `<p></p>` and `api/notion.js` gives `""` |
| Blocks.Render | index.js:39 | no ensures of its own: `blocks.map(blockToHtml).join("")` (also api/notion.js:66); stated by `Blocks.RenderAppend`, `Blocks.RenderSerializesElements` and `Blocks.RenderReadsBack` |
| Blocks.RenderAppend | index.js:39 | render(xs ++ ys) = render(xs) + render(ys) |
| Blocks.OmitIsKeepWithoutEmptyParagraphs | api/notion.js:66 | the `api/notion.js` page equals the `index.js` page of the same blocks with the empty paragraphs removed |
| Blocks.DropEmptyParagraphsMembers | api/notion.js:21 | the blocks kept by the filter used in `Blocks.OmitIsKeepWithoutEmptyParagraphs` are exactly the input blocks that are not empty paragraphs |
| Blocks.RenderVariantsGap | api/notion.js:21 | the `index.js` page is longer by exactly seven characters (`<p></p>`) per empty paragraph, and the two pages are equal if and only if there is no empty paragraph |
| Blocks.RenderedElements | api/notion.js:66 | a page has one element per block that is not dropped, so it never has more elements than there are blocks, and every element can be read back |
| Blocks.RenderSerializesElements | index.js:39 | the joined HTML is the in-order serialization of the per-block elements |
| Blocks.RenderReadsBack | index.js:39 | reading the rendered page back yields exactly one element per rendered block, in block order, whatever text the blocks hold: block text cannot inject or close tags |
| Pagination.FirstStop | index.js:34 | the loop stops at the first reply that fails or has `has_more` false; no earlier reply does either |
| Pagination.ExpectedCallsThreadCursor | index.js:22-35 | every request carries the page id and `page_size` 50; the first has no cursor, and request `i` carries reply `i-1`'s `next_cursor` |
| Pagination.FetchAllBlocks | index.js:21-36 | the loop issues exactly one call per reply up to and including the first stopping one, with cursors threaded as above; on success it yields every page's `results` concatenated in call order; a failed call ends it with that call's error |
| Pagination.RenderCollected | index.js:32-39 | rendering the accumulated blocks equals rendering each page in turn and joining the pieces in call order |
| Handlers.GetBlocksHtml | api/notion.js:49-67 | `getBlocksHtml` yields the rendered HTML of all fetched blocks exactly when every call succeeded and every block is well formed; otherwise it yields the upstream error or the malformed-block error, never a partial page |
| Handlers.ReplyFor | index.js:41-44 | a successful load answers status 200 with `{ html }` holding the page; any failure answers status 500 with `{ error: "Failed to load Notion content" }` (the same pair as api/notion.js:78-84) |
| Handlers.MissingPageId | api/notion.js:72 | no ensures of its own: `!pageId` holds for an absent or empty query parameter, and its effect (400, no upstream call) is stated by `Handlers.HandlePageQuery` |
| Handlers.HandlePageRoute | index.js:17-46 | the `index.js` route answers 200 with `{ html }` holding the page rendered with `<p></p>` for empty paragraphs, or 500 with `Failed to load Notion content` |
| Handlers.HandlePageQuery | api/notion.js:69-86 | an absent or empty `pageId` answers 400 with `pageId query parameter is required` and issues no upstream call; otherwise the handler answers 200 with the page rendered without empty paragraphs, or 500 with the generic message |
| Scenarios.StopsAfterLastPage | index.js:25-36 | against N pages, each asking for more except the last, the loop makes exactly N calls |
| Scenarios.TwoPages | index.js:25-36 | two pages of one block each take two calls; the second call carries the first reply's cursor, and the blocks come out in page order |
| Scenarios.HeadingAndParagraph | index.js:52-59 | a `heading_1` holding `a<c>` (for example `Hi <there>`) followed by the paragraph `body` renders as `<h1>a&lt;c&gt;</h1><p>body</p>` |
| Scenarios.EmptyParagraph | index.js:52-54 | a paragraph whose `rich_text` is undefined renders as `<p></p>` in `index.js` and as `""` in `api/notion.js` |

## Left out

- Express setup, CORS, `dotenv`, the listening port and `console` logging (index.js:1-11, 43, 87-90; api/notion.js:81). These are process plumbing. The logged error detail is not part of any reply.
- The `@notionhq/client` client and the real `blocks.children.list` call. The upstream is a script of replies indexed by call number. The content of a reply therefore does not depend on the cursor sent. The requests are recorded instead, and the cursor threading is stated about them.
- Pagination.FetchAllBlocks: requires that some reply stops the loop. An upstream that keeps answering `has_more: true` makes the source loop forever, and the model does not describe that run.
- The JSON serialization of `res.json`. A reply is a status code and a body, either `html` or `error`.
- `async`/`await`. The calls are strictly sequential, so nothing here is concurrent.
- JavaScript runtime failures other than a known tag whose payload is missing: `rich_text: null`, a run without `plain_text`, and a `pageId` query parameter that is an array. The types of the model cannot hold them.
- Blocks.BlockToHtml: requires that a block with a known tag carries its payload. The handlers check this for all blocks before rendering and answer the generic 500, which is what the thrown `TypeError` leads to in the source. The model does not say at which block the source would throw, because no partial output escapes either way.
- JavaScript strings are UTF-16 code units. The model uses Dafny `char` sequences, and neither the source nor the model interprets characters beyond `<` and `>`.
