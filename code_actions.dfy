/**
 * The code-action handler of client/src/features/code-actions.ts: on an
 * explicit request it asks the compiler for actions and attaches every
 * `replace` fragment to the `action` fragment before it.
 */
module CodeActions {
  import opened Wrappers
  import opened Js
  import opened Codec
  import opened Frames
  import opened Editor

  datatype CodeActionKind =
    | Empty | QuickFix | Refactor | RefactorExtract | RefactorInline | RefactorRewrite
    | Source | SourceFixAll | SourceOrganizeImports

  /** The name the compiler uses for each kind. */
  function CodeActionKindName(k: CodeActionKind): string
  {
    match k
    case Empty => "empty"
    case QuickFix => "quick-fix"
    case Refactor => "refactor"
    case RefactorExtract => "refactor-extract"
    case RefactorInline => "refactor-inline"
    case RefactorRewrite => "refactor-rewrite"
    case Source => "source"
    case SourceFixAll => "source-fix-all"
    case SourceOrganizeImports => "source-organize-imports"
  }

  /** `stringToCodeActionKind`: exactly the nine names are recognised, each
      giving its own kind; anything else, a missing field included, gives
      null. */
  function StringToCodeActionKind(value: Option<string>): (r: Option<CodeActionKind>)
    ensures r.Some? ==> value == Some(CodeActionKindName(r.value))
    ensures forall k: CodeActionKind :: value == Some(CodeActionKindName(k)) ==> r == Some(k)
  {
    match value
    case None => None
    case Some(s) =>
      match s
      case "empty" => Some(Empty)
      case "quick-fix" => Some(QuickFix)
      case "refactor" => Some(Refactor)
      case "refactor-extract" => Some(RefactorExtract)
      case "refactor-inline" => Some(RefactorInline)
      case "refactor-rewrite" => Some(RefactorRewrite)
      case "source" => Some(Source)
      case "source-fix-all" => Some(SourceFixAll)
      case "source-organize-imports" => Some(SourceOrganizeImports)
      case _ => None
  }

  datatype TriggerKind = Invoke | Automatic

  /** The command a code-action request causes: none when the editor asked
      on its own, otherwise `provide-code-actions` at the selection's active
      position, with the document's content. */
  function CodeActionsRequest(document: Document, active: nat, trigger: TriggerKind): (r: Option<Call>)
    ensures r.None? <==> trigger == Automatic
    ensures r.Some? ==>
      forall id :: MakeRequest(id, r.value) == Request(id, CommandName.ProvideCodeActions, document.path, active, document.text, "")
  {
    if trigger == Automatic then None
    else Some(Call(CommandName.ProvideCodeActions, document, CommandParameters(Some(active), true, None)))
  }

  /** `new CodeAction(title, kind)` from an `action` fragment `[title, kind]`. */
  datatype ActionTitle = ActionTitle(title: Option<string>, kind: Option<CodeActionKind>)

  function ActionTitleOf(items: seq<string>): (a: ActionTitle)
    ensures a.title == Item(items, 0) && a.kind == StringToCodeActionKind(Item(items, 1))
  {
    ActionTitle(Item(items, 0), StringToCodeActionKind(Item(items, 1)))
  }

  /** A code action and the replacements of its workspace edit, in order. */
  type CodeAction = Segment<ActionTitle, Replacement>

  /** A `replace` fragment before any `action` fragment reads `edit` of an
      undefined action and throws. */
  datatype ActionError = NoCurrentAction

  /** The loop of `provideCodeActions`: one action per `action` fragment, in
      order, each starting with an empty edit; each `replace` fragment adds
      one replacement to the action created last.  A `replace` fragment
      before the first `action` fragment fails the whole request. */
  method ProvideCodeActions(answer: seq<Frame>) returns (r: Result<seq<CodeAction>, ActionError>)
    ensures Preamble(answer, "action", "replace", ReplacementOf) == []
            ==> r == Ok(Segments(answer, "action", "replace", ActionTitleOf, ReplacementOf))
    ensures Preamble(answer, "action", "replace", ReplacementOf) != [] ==> r == Err(NoCurrentAction)
  {
    var result: seq<CodeAction> := [];
    var i := 0;
    while i < |answer|
      invariant 0 <= i <= |answer|
      invariant result == Segments(answer[..i], "action", "replace", ActionTitleOf, ReplacementOf)
      invariant Preamble(answer[..i], "action", "replace", ReplacementOf) == []
    {
      var kind, items := answer[i].kind, answer[i].items;
      assert answer[..i + 1][..i] == answer[..i];
      SegmentsEmptyIff(answer[..i], "action", "replace", ActionTitleOf, ReplacementOf);
      if kind == "action" {
        result := result + [Segment(ActionTitleOf(items), [])];
      } else if kind == "replace" {
        if result == [] {
          PreamblePrefix(answer, i + 1, "action", "replace", ReplacementOf);
          return Err(NoCurrentAction);
        }
        var current := result[|result| - 1];
        result := result[..|result| - 1] + [Segment(current.header, current.members + [ReplacementOf(items)])];
      }
      i := i + 1;
    }
    assert answer[..|answer|] == answer;
    r := Ok(result);
  }
}
