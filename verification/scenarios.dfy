/** Small pages worked through the model: a heading with a bracketed word,
    an empty paragraph, and a page fetched in two calls. */
module Scenarios {
  import opened Wrappers
  import opened RichText
  import opened Html
  import opened Blocks
  import opened Pagination
  import opened Seqs

  function TextBlock(tag: string, text: string): Block {
    Block(tag, map[tag := Payload(Some([Run(text)]))])
  }

  /** A page whose calls all ask for more until call `n - 1` stops is fetched
      in exactly `n` calls. */
  lemma StopsAfterLastPage(replies: seq<Reply>, n: nat)
    requires 0 < n <= |replies|
    requires Continues(replies, n - 1) && Stops(replies[n - 1])
    ensures EventuallyStops(replies) && FirstStop(replies) + 1 == n
  {
    assert Stops(replies[n - 1]);
  }

  /** Text with one bracketed word, `a<c>` (such as `Hi <there>`): both
      brackets become entities and nothing else changes. */
  lemma EscapeBracketed(a: string, c: string)
    requires NoAngles(a) && NoAngles(c)
    ensures Escape(a + ("<" + (c + ">"))) == a + ("&lt;" + (c + "&gt;"))
  {
    EscapeAppend(c, ">");
    EscapeAppend("<", c + ">");
    EscapeAppend(a, "<" + (c + ">"));
    EscapeOfSafe(a);
    EscapeOfSafe(c);
    EscapeOne('<');
    EscapeOne('>');
  }

  /** A block holding one run renders that run's escaped text. */
  lemma SingleRunText(tag: string, text: string)
    ensures tag in TextBlock(tag, text).payloads
    ensures TextOf(TextBlock(tag, text), tag) == Escape(text)
  {
    var runs := [Run(text)];
    assert runs[1..] == [];
    assert ConcatPlain(runs) == text + ConcatPlain([]);
    AppendNil(text);
  }

  /** A level-1 heading with one bracketed word, `a<c>` (such as
      `Hi <there>`), followed by a paragraph holding `body` renders as
      `<h1>a&lt;c&gt;</h1><p>body</p>` on both copies. */
  lemma HeadingAndParagraph(v: Variant, a: string, c: string, body: string)
    requires NoAngles(a) && NoAngles(c) && NoAngles(body) && body != ""
    ensures var bs := [TextBlock("heading_1", a + ("<" + (c + ">"))), TextBlock("paragraph", body)];
      && AllWellFormed(bs)
      && Render(v, bs) == Serialize(Element("h1", a + ("&lt;" + (c + "&gt;")))) + Serialize(Element("p", body))
  {
    var h := TextBlock("heading_1", a + ("<" + (c + ">")));
    var p := TextBlock("paragraph", body);
    var bs := [h, p];
    EscapeBracketed(a, c);
    SingleRunText("heading_1", a + ("<" + (c + ">")));
    SingleRunText("paragraph", body);
    EscapeOfSafe(body);
    assert BlockToHtml(v, h) == Serialize(Element("h1", a + ("&lt;" + (c + "&gt;"))));
    assert BlockToHtml(v, p) == Serialize(Element("p", body));
    assert bs[1..] == [p];
    assert [p][1..] == [];
    assert AllWellFormed(bs);
    RenderCons(v, bs);
    RenderCons(v, [p]);
    AppendNil(BlockToHtml(v, p));
  }

  /** A paragraph without text is `<p></p>` on the Express route and nothing
      on the serverless handler. */
  lemma EmptyParagraph()
    ensures var b := Block("paragraph", map["paragraph" := Payload(None)]);
      WellFormed(b)
      && BlockToHtml(KeepEmptyParagraphs, b) == "<p></p>"
      && BlockToHtml(OmitEmptyParagraphs, b) == ""
  {
    var b := Block("paragraph", map["paragraph" := Payload(None)]);
    VariantsDifferOnlyOnEmptyParagraphs(b);
  }

  /** Two pages of one block each: two calls, the second with the first
      reply's cursor, and the blocks in page order. */
  lemma TwoPages(pageId: string, b1: Block, b2: Block)
    ensures var replies := [Success(ListResponse([b1], true, Some("c1"))),
                            Success(ListResponse([b2], false, None))];
      && EventuallyStops(replies)
      && FirstStop(replies) == 1
      && ExpectedCalls(pageId, replies, 2) ==
           [Request(pageId, None, PageSize), Request(pageId, Some("c1"), PageSize)]
      && Collected(replies, 2) == [b1, b2]
  {
    var replies: seq<Reply> := [Success(ListResponse([b1], true, Some("c1"))),
                                Success(ListResponse([b2], false, None))];
    StopsAfterLastPage(replies, 2);
    assert Collected(replies, 1) == [] + [b1];
    assert Collected(replies, 2) == Collected(replies, 1) + [b2];
  }
}
