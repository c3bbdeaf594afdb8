/**
 * The rename handlers of client/src/features/rename.ts: `prepareRename`
 * takes the range of the first `placeholder` fragment, and
 * `provideRenameEdits` turns every `replace` fragment into one replacement.
 * client/src/extension.ts runs the same two folds over the compiler's direct
 * output.
 */
module Rename {
  import opened Wrappers
  import opened Js
  import opened Codec
  import opened Frames
  import opened Editor

  /** `prepare-rename` at the cursor, without content or new name. */
  function PrepareRenameRequest(document: Document, position: nat): (c: Call)
    ensures forall id :: MakeRequest(id, c) == Request(id, CommandName.PrepareRename, document.path, position, "", "")
  {
    Call(CommandName.PrepareRename, document, CommandParameters(Some(position), false, None))
  }

  const CANNOT_RENAME: string := "You cannot rename this element."

  /** The range of the first `placeholder` fragment `[start, end]`; later
      fragments play no part.  Without a placeholder the handler throws. */
  function PrepareRename(answer: seq<Frame>): (r: Result<Range, string>)
    ensures r.Err? <==> forall j | 0 <= j < |answer| :: answer[j].kind != "placeholder"
    ensures r.Err? ==> r.error == CANNOT_RENAME
    ensures r.Ok? ==> exists i | 0 <= i < |answer| ::
      && answer[i].kind == "placeholder"
      && (forall j | 0 <= j < i :: answer[j].kind != "placeholder")
      && r.value == MakeRange(Item(answer[i].items, 0), Item(answer[i].items, 1))
  {
    match FirstOfKind(answer, "placeholder")
    case None => Err(CANNOT_RENAME)
    case Some(i) => Ok(MakeRange(Item(answer[i].items, 0), Item(answer[i].items, 1)))
  }

  /** `provide-rename-edits` at the cursor, with the new name passed through
      unchanged, and without content. */
  function ProvideRenameEditsRequest(document: Document, position: nat, newName: string): (c: Call)
    ensures forall id ::
      (MakeRequest(id, c) == Request(id, CommandName.ProvideRenameEdits, document.path, position, "", newName))
  {
    Call(CommandName.ProvideRenameEdits, document, CommandParameters(Some(position), false, Some(newName)))
  }

  /** The loop of `provideRenameEdits`: one replacement per `replace`
      fragment `[filePath, start, end, replacement]`, in order, every other
      fragment ignored; no `replace` fragment leaves the edit empty. */
  method ProvideRenameEdits(answer: seq<Frame>) returns (edits: seq<Replacement>)
    ensures edits == OfKind(answer, "replace", ReplacementOf)
  {
    edits := [];
    var i := 0;
    while i < |answer|
      invariant 0 <= i <= |answer|
      invariant edits == OfKind(answer[..i], "replace", ReplacementOf)
    {
      OfKindStep(answer, i, "replace", ReplacementOf);
      if answer[i].kind == "replace" {
        edits := edits + [ReplacementOf(answer[i].items)];
      }
      i := i + 1;
    }
    assert answer[..|answer|] == answer;
  }
}
