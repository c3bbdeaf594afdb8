/**
 * The hover handler of client/src/features/hover.ts: the first `hover`
 * fragment `[start, end, typeInfo]` becomes a trusted markdown hover holding
 * one `lotus` code block.
 */
module Hover {
  import opened Wrappers
  import opened Js
  import opened Codec
  import opened Frames
  import opened Editor

  /** `provide-hover` at the cursor, without content. */
  function HoverRequest(document: Document, position: nat): (c: Call)
    ensures forall id ::
      (MakeRequest(id, c) == Request(id, CommandName.ProvideHover, document.path, position, "", ""))
  {
    Call(CommandName.ProvideHover, document, CommandParameters(Some(position), false, None))
  }

  /** One `appendCodeblock(code, language)` call. */
  datatype CodeBlock = CodeBlock(code: Option<string>, language: string)

  datatype MarkdownString = MarkdownString(supportHtml: bool, isTrusted: bool, blocks: seq<CodeBlock>)

  datatype HoverResult = HoverResult(contents: MarkdownString, range: Range)

  /** The hover of the first `hover` fragment; later fragments play no part,
      and without one the result is null.  The contents always allow HTML,
      are trusted, and hold exactly the type information as `lotus` code. */
  function ProvideHover(answer: seq<Frame>): (r: Option<HoverResult>)
    ensures r.None? <==> forall j | 0 <= j < |answer| :: answer[j].kind != "hover"
    ensures r.Some? ==> r.value.contents.supportHtml && r.value.contents.isTrusted
    ensures r.Some? ==> exists i | 0 <= i < |answer| ::
      && answer[i].kind == "hover"
      && (forall j | 0 <= j < i :: answer[j].kind != "hover")
      && r.value.range == MakeRange(Item(answer[i].items, 0), Item(answer[i].items, 1))
      && r.value.contents.blocks == [CodeBlock(Item(answer[i].items, 2), "lotus")]
  {
    match FirstOfKind(answer, "hover")
    case None => None
    case Some(i) =>
      var items := answer[i].items;
      var contents := MarkdownString(true, true, [CodeBlock(Item(items, 2), "lotus")]);
      Some(HoverResult(contents, MakeRange(Item(items, 0), Item(items, 1))))
  }
}
