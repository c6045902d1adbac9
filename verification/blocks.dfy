/** `blockToHtml` and `blocks.map(blockToHtml).join("")`.

    The two copies of the renderer (the Express server in `index.js` and the
    serverless handler in `api/notion.js`) differ only on a paragraph whose
    text is empty; `Variant` selects which copy is meant. */
module Blocks {
  import opened Wrappers
  import opened RichText
  import opened Html
  import opened Seqs

  /** The payload stored under a block's type tag; `richText` is `None` when
      the record leaves `rich_text` undefined. */
  datatype Payload = Payload(richText: Option<seq<Run>>)

  /** A block record: its `type` tag and its payloads keyed by tag
      (`block[type]`). */
  datatype Block = Block(tag: string, payloads: map<string, Payload>)

  datatype Variant =
    | KeepEmptyParagraphs   // index.js: an empty paragraph renders as <p></p>
    | OmitEmptyParagraphs   // api/notion.js: an empty paragraph renders as ""

  /** The closed set of rendered tags and the element each one becomes. */
  const ElementTable: map<string, string> := map[
    "paragraph" := "p",
    "heading_1" := "h1",
    "heading_2" := "h2",
    "heading_3" := "h3",
    "bulleted_list_item" := "li"
  ]

  /** A known tag comes with its payload, so `block[type].rich_text` can be
      read without a runtime error. */
  predicate WellFormed(b: Block) {
    b.tag in ElementTable ==> b.tag in b.payloads
  }

  predicate AllWellFormed(bs: seq<Block>) {
    bs == [] || (WellFormed(bs[0]) && AllWellFormed(bs[1..]))
  }

  /** `richTextToPlain(block[key].rich_text)`. */
  function TextOf(b: Block, key: string): string
    requires key in b.payloads
  {
    RichTextToPlain(b.payloads[key].richText)
  }

  predicate IsEmptyParagraph(b: Block) {
    b.tag == "paragraph" && "paragraph" in b.payloads && TextOf(b, "paragraph") == ""
  }

  /** The per-block dispatch, `blockToHtml`: a chain of tag tests. */
  function BlockToHtml(v: Variant, b: Block): string
    requires WellFormed(b)
  {
    if b.tag == "paragraph" then
      var text := TextOf(b, "paragraph");
      if v == OmitEmptyParagraphs && text == "" then ""
      else Serialize(Element("p", text))
    else if b.tag == "heading_1" then
      Serialize(Element("h1", TextOf(b, "heading_1")))
    else if b.tag == "heading_2" then
      Serialize(Element("h2", TextOf(b, "heading_2")))
    else if b.tag == "heading_3" then
      Serialize(Element("h3", TextOf(b, "heading_3")))
    else if b.tag == "bulleted_list_item" then
      Serialize(Element("li", TextOf(b, "bulleted_list_item")))
    else
      ""
  }

  /** Whether a block renders as nothing: its tag is outside the table, or
      it is an empty paragraph the variant omits. */
  predicate Omitted(v: Variant, b: Block) {
    b.tag !in ElementTable || (v == OmitEmptyParagraphs && IsEmptyParagraph(b))
  }

  /** The dispatch follows the table: a block renders as nothing exactly when
      it is omitted, and otherwise as its table element around its escaped
      text. */
  lemma BlockToHtmlFollowsTable(v: Variant, b: Block)
    requires WellFormed(b)
    ensures BlockToHtml(v, b) == "" <==> Omitted(v, b)
    ensures !Omitted(v, b) ==>
      BlockToHtml(v, b) == Serialize(Element(ElementTable[b.tag], TextOf(b, b.tag)))
  {
  }

  /** The two copies agree on every block except an empty paragraph, which
      `index.js` renders as `<p></p>` and `api/notion.js` drops. */
  lemma VariantsDifferOnlyOnEmptyParagraphs(b: Block)
    requires WellFormed(b)
    ensures BlockToHtml(KeepEmptyParagraphs, b) != BlockToHtml(OmitEmptyParagraphs, b)
        <==> IsEmptyParagraph(b)
    ensures IsEmptyParagraph(b) ==>
        BlockToHtml(KeepEmptyParagraphs, b) == "<p></p>" && BlockToHtml(OmitEmptyParagraphs, b) == ""
  {
    BlockToHtmlFollowsTable(KeepEmptyParagraphs, b);
    BlockToHtmlFollowsTable(OmitEmptyParagraphs, b);
    if IsEmptyParagraph(b) {
      assert BlockToHtml(KeepEmptyParagraphs, b) == Serialize(Element("p", ""));
    }
  }

  /** `blocks.map(blockToHtml).join("")`. */
  function Render(v: Variant, bs: seq<Block>): string
    requires AllWellFormed(bs)
  {
    if bs == [] then [] else BlockToHtml(v, bs[0]) + Render(v, bs[1..])
  }

  lemma {:induction false} AllWellFormedAppend(xs: seq<Block>, ys: seq<Block>)
    requires AllWellFormed(xs) && AllWellFormed(ys)
    ensures AllWellFormed(xs + ys)
  {
    if xs == [] {
      AppendEmpty(xs, ys);
    } else {
      AppendTail(xs, ys);
      AllWellFormedAppend(xs[1..], ys);
    }
  }

  lemma RenderCons(v: Variant, xs: seq<Block>)
    requires AllWellFormed(xs) && xs != []
    ensures Render(v, xs) == BlockToHtml(v, xs[0]) + Render(v, xs[1..])
  {
  }

  /** Rendering distributes over concatenation of block lists, so pages
      fetched in order render in order. */
  lemma {:induction false} RenderAppend(v: Variant, xs: seq<Block>, ys: seq<Block>)
    requires AllWellFormed(xs) && AllWellFormed(ys)
    ensures AllWellFormed(xs + ys)
    ensures Render(v, xs + ys) == Render(v, xs) + Render(v, ys)
  {
    AllWellFormedAppend(xs, ys);
    if xs == [] {
      AppendEmpty(xs, ys);
    } else {
      var zs := xs + ys;
      AppendTail(xs, ys);
      RenderAppend(v, xs[1..], ys);
      RenderCons(v, zs);
      RenderCons(v, xs);
      AppendAssoc(BlockToHtml(v, xs[0]), Render(v, xs[1..]), Render(v, ys));
    }
  }

  /** The blocks without their empty paragraphs. */
  function DropEmptyParagraphs(bs: seq<Block>): (r: seq<Block>)
    ensures |r| <= |bs|
    ensures forall i :: 0 <= i < |r| ==> !IsEmptyParagraph(r[i])
    ensures AllWellFormed(bs) ==> AllWellFormed(r)
  {
    if bs == [] then []
    else if IsEmptyParagraph(bs[0]) then DropEmptyParagraphs(bs[1..])
    else [bs[0]] + DropEmptyParagraphs(bs[1..])
  }

  /** Dropping keeps exactly the blocks that are not empty paragraphs. */
  lemma {:induction false} DropEmptyParagraphsMembers(bs: seq<Block>)
    ensures forall b :: b in DropEmptyParagraphs(bs) <==> b in bs && !IsEmptyParagraph(b)
  {
    if bs != [] {
      DropEmptyParagraphsMembers(bs[1..]);
      assert forall b :: b in bs <==> b == bs[0] || b in bs[1..] by {
        ConsTail(bs);
      }
    }
  }

  function EmptyParagraphCount(bs: seq<Block>): nat {
    if bs == [] then 0 else (if IsEmptyParagraph(bs[0]) then 1 else 0) + EmptyParagraphCount(bs[1..])
  }

  /** The `api/notion.js` page is the `index.js` page of the same blocks with
      the empty paragraphs removed. */
  lemma {:induction false} OmitIsKeepWithoutEmptyParagraphs(bs: seq<Block>)
    requires AllWellFormed(bs)
    ensures Render(OmitEmptyParagraphs, bs) == Render(KeepEmptyParagraphs, DropEmptyParagraphs(bs))
  {
    if bs != [] {
      VariantsDifferOnlyOnEmptyParagraphs(bs[0]);
      OmitIsKeepWithoutEmptyParagraphs(bs[1..]);
      if !IsEmptyParagraph(bs[0]) {
        var rest := DropEmptyParagraphs(bs[1..]);
        AppendTail([bs[0]], rest);
      }
    }
  }

  /** Each empty paragraph costs the `index.js` page exactly the seven
      characters of `<p></p>`; the pages are equal exactly when there is no
      empty paragraph. */
  lemma {:induction false} RenderVariantsGap(bs: seq<Block>)
    requires AllWellFormed(bs)
    ensures |Render(KeepEmptyParagraphs, bs)| == |Render(OmitEmptyParagraphs, bs)| + 7 * EmptyParagraphCount(bs)
    ensures Render(KeepEmptyParagraphs, bs) == Render(OmitEmptyParagraphs, bs) <==> EmptyParagraphCount(bs) == 0
  {
    if bs != [] {
      VariantsDifferOnlyOnEmptyParagraphs(bs[0]);
      RenderVariantsGap(bs[1..]);
    }
  }

  /** How many blocks render as nothing. */
  function OmittedCount(v: Variant, bs: seq<Block>): nat {
    if bs == [] then 0 else (if Omitted(v, bs[0]) then 1 else 0) + OmittedCount(v, bs[1..])
  }

  /** The elements a page is made of: one per block that is not omitted, in
      block order, so never more elements than blocks. */
  function RenderedElements(v: Variant, bs: seq<Block>): (r: seq<Element>)
    requires AllWellFormed(bs)
    ensures |r| == |bs| - OmittedCount(v, bs) <= |bs|
    ensures forall i :: 0 <= i < |r| ==> Readable(r[i])
  {
    if bs == [] then []
    else
      var b := bs[0];
      var here := if Omitted(v, b) then [] else [Element(ElementTable[b.tag], TextOf(b, b.tag))];
      assert forall i :: 0 <= i < |here| ==> Readable(here[i]) by {
        if here != [] {
          assert ElementTable[b.tag] in ElementTable.Values;
          assert forall n :: n in ElementTable.Values ==> '>' !in n;
        }
      }
      here + RenderedElements(v, bs[1..])
  }

  /** The rendered page is the serialization of its elements. */
  lemma {:induction false} RenderSerializesElements(v: Variant, bs: seq<Block>)
    requires AllWellFormed(bs)
    ensures Render(v, bs) == SerializeAll(RenderedElements(v, bs))
  {
    if bs != [] {
      RenderSerializesElements(v, bs[1..]);
      var b := bs[0];
      var here := if Omitted(v, b) then [] else [Element(ElementTable[b.tag], TextOf(b, b.tag))];
      BlockToHtmlFollowsTable(v, b);
      SerializeAllAppend(here, RenderedElements(v, bs[1..]));
      if here != [] {
        assert SerializeAll(here) == Serialize(here[0]) + SerializeAll([]);
      }
    }
  }

  /** Escaping keeps the page's structure intact: reading the rendered page
      back yields exactly one element per rendered block, in block order,
      whatever text the blocks hold. */
  lemma RenderReadsBack(v: Variant, bs: seq<Block>)
    requires AllWellFormed(bs)
    ensures ParsePage(Render(v, bs)) == Some(RenderedElements(v, bs))
  {
    RenderSerializesElements(v, bs);
    ParsePageSerializeAll(RenderedElements(v, bs));
  }
}
