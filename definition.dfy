/**
 * The go-to-definition handler of client/src/features/definition.ts: the
 * first `definition` fragment `[filePath, offset]` names the target.
 */
module Definition {
  import opened Wrappers
  import opened Js
  import opened Codec
  import opened Frames

  /** `provide-definition` at the cursor, without content. */
  function DefinitionRequest(document: Document, position: nat): (c: Call)
    ensures forall id ::
      (MakeRequest(id, c) == Request(id, CommandName.ProvideDefinition, document.path, position, "", ""))
  {
    Call(CommandName.ProvideDefinition, document, CommandParameters(Some(position), false, None))
  }

  /** A target file and the offset `positionAt` turns into a position. */
  datatype Location = Location(path: Option<string>, offset: Num)

  const NO_DEFINITION: string := "No definition for this element."

  /** The location of the first `definition` fragment; later fragments play
      no part.  Without one the handler throws. */
  function ProvideDefinition(answer: seq<Frame>): (r: Result<Location, string>)
    ensures r.Err? <==> forall j | 0 <= j < |answer| :: answer[j].kind != "definition"
    ensures r.Err? ==> r.error == NO_DEFINITION
    ensures r.Ok? ==> exists i | 0 <= i < |answer| ::
      && answer[i].kind == "definition"
      && (forall j | 0 <= j < i :: answer[j].kind != "definition")
      && r.value == Location(Item(answer[i].items, 0), ParseIntOpt(Item(answer[i].items, 1)))
  {
    match FirstOfKind(answer, "definition")
    case None => Err(NO_DEFINITION)
    case Some(i) => Ok(Location(Item(answer[i].items, 0), ParseIntOpt(Item(answer[i].items, 1))))
  }

  /** A definition written as a path and a decimal offset reads back as
      exactly that location. */
  lemma DefinitionOfOffset(path: string, offset: int, rest: seq<Frame>)
    ensures ProvideDefinition([Frame("definition", [path, IntToString(offset)])] + rest)
            == Ok(Location(Some(path), Int(offset)))
  {
    var answer := [Frame("definition", [path, IntToString(offset)])] + rest;
    assert answer[0].kind == "definition";
    ParseIntToString(offset, "");
    assert IntToString(offset) + "" == IntToString(offset);
  }
}
