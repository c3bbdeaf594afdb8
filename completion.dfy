/**
 * The completion handler of client/src/features/completion-item.ts: the
 * `:` trigger filter, the mapping of `item` fragments to completion items
 * with their sort key, and the completion-command lookup table.
 */
module Completion {
  import opened Wrappers
  import opened Js
  import opened Codec
  import opened Frames
  import opened Editor
  import opened Utils

  /** The command a completion request causes.  For a `:` trigger,
      `previousCharacter` is the editor's text one character before the
      trigger; a single `:` is not a `::` and asks for nothing. */
  function CompletionRequest(document: Document, position: nat, triggerCharacter: Option<string>,
                             previousCharacter: string): (r: Option<Call>)
    ensures r.None? <==> triggerCharacter == Some(":") && previousCharacter != ":"
    ensures r.Some? ==>
      forall id :: MakeRequest(id, r.value) == Request(id, CommandName.ProvideCompletionItems, document.path, position, document.text, "")
  {
    if triggerCharacter == Some(":") && previousCharacter != ":" then None
    else Some(Call(CommandName.ProvideCompletionItems, document, CommandParameters(Some(position), true, None)))
  }

  datatype CompletionCommand = TriggerSignatureHelp | TriggerCompletion

  /** The name the compiler uses for each follow-up command. */
  function CompletionCommandName(c: CompletionCommand): string
  {
    match c
    case TriggerSignatureHelp => "trigger-signature-help"
    case TriggerCompletion => "trigger-completion"
  }

  /** The `{ title, command }` object the editor receives. */
  function CommandTitle(c: CompletionCommand): string
  {
    match c
    case TriggerSignatureHelp => "trigger signature help"
    case TriggerCompletion => "trigger autocompletion"
  }

  function CommandId(c: CompletionCommand): string
  {
    match c
    case TriggerSignatureHelp => "editor.action.triggerParameterHints"
    case TriggerCompletion => "editor.action.triggerSuggest"
  }

  /** `stringToCompletionCommand`: only the two names are recognised, each
      giving its own command; anything else gives undefined. */
  function StringToCompletionCommand(value: string): (r: Option<CompletionCommand>)
    ensures r.Some? ==> CompletionCommandName(r.value) == value
    ensures forall c: CompletionCommand :: CompletionCommandName(c) == value ==> r == Some(c)
  {
    match value
    case "trigger-signature-help" => Some(TriggerSignatureHelp)
    case "trigger-completion" => Some(TriggerCompletion)
    case _ => None
  }

  /** The sort text of an item: its position padded on the left with `0` to
      two characters, then its sort label.  A position already two or more
      characters long is used as it is. */
  function SortKey(position: string, sortLabel: string): (key: string)
    ensures |position| >= 2 ==> key == position + sortLabel
    ensures |position| < 2 ==> key == seq(2 - |position|, _ => '0') + position + sortLabel
  {
    var prefix := PadStart(position, 2, '0');
    assert |position| < 2 ==> prefix == seq(2 - |position|, _ => '0') + position;
    prefix + sortLabel
  }

  /** The editor's order on sort texts: code unit by code unit. */
  predicate LexLess(a: string, b: string)
  {
    exists k | 0 <= k <= |a| && k <= |b| ::
      a[..k] == b[..k] && ((k == |a| && k < |b|) || (k < |a| && k < |b| && a[k] < b[k]))
  }

  /** The sort prefix of a position below 100 is its two decimal digits. */
  lemma TwoDigitPrefix(n: nat)
    requires n < 100
    ensures PadStart(NatToString(n), 2, '0') == [DigitChar(n / 10), DigitChar(n % 10)]
  {
    if n >= 10 {
      assert NatToString(n / 10) == [DigitChar(n / 10)];
    }
  }

  /** Two-character prefixes decide the order of whatever follows them. */
  lemma LexLessByPrefix(p: string, q: string, a: string, b: string)
    requires |p| == 2 && |q| == 2
    requires p[0] < q[0] || (p[0] == q[0] && p[1] < q[1])
    ensures LexLess(p + a, q + b)
  {
    var x, y := p + a, q + b;
    if p[0] < q[0] {
      assert x[..0] == y[..0] && x[0] < y[0];
    } else {
      assert x[..1] == [p[0]] == y[..1];
      assert x[1] < y[1];
    }
  }

  lemma DigitCharOrder(a: nat, b: nat)
    requires a < b < 10
    ensures DigitChar(a) < DigitChar(b)
  {
  }

  /** The padding makes items sort by position first: for positions below
      100, the lower position sorts first whatever the labels. */
  lemma SortKeyOrder(m: nat, n: nat, a: string, b: string)
    requires m < n < 100
    ensures LexLess(SortKey(NatToString(m), a), SortKey(NatToString(n), b))
  {
    TwoDigitPrefix(m);
    TwoDigitPrefix(n);
    var hm, lm, hn, ln := m / 10, m % 10, n / 10, n % 10;
    var p := [DigitChar(hm), DigitChar(lm)];
    var q := [DigitChar(hn), DigitChar(ln)];
    if hm < hn {
      DigitCharOrder(hm, hn);
    } else {
      assert hm == hn && lm < ln;
      DigitCharOrder(lm, ln);
    }
    assert SortKey(NatToString(m), a) == p + a;
    assert SortKey(NatToString(n), b) == q + b;
    LexLessByPrefix(p, q, a, b);
  }

  /** The `range` field `start;end` of an item. */
  function CompletionRange(range: string): (r: Range)
  {
    var bounds := Split(range, ";");
    MakeRange(Some(bounds[0]), Item(bounds, 1))
  }

  /** A range written as two decimal offsets reads back as those offsets. */
  lemma CompletionRangeOfOffsets(a: int, b: int)
    ensures CompletionRange(IntToString(a) + ";" + IntToString(b)) == Range(Int(a), Int(b))
  {
    IntToStringChars(a);
    IntToStringChars(b);
    SplitPair(IntToString(a), IntToString(b), ';');
    MakeRangeOfOffsets(a, b);
  }

  /** A completion item.  Fields the handler sets only for a non-empty
      string are `None` when left unset; `kind` and `command` may be set to
      null or undefined for an unrecognised name. */
  datatype CompletionItem = CompletionItem(
    labelText: Option<string>,
    description: Option<string>,
    sortText: Option<string>,
    kind: Option<Option<CompletionItemKind>>,
    range: Option<Range>,
    detail: Option<string>,
    documentation: Option<string>,
    insertText: Option<string>,
    filterText: Option<string>,
    command: Option<Option<CompletionCommand>>)

  /** A field kept only when its string is non-empty. */
  function IfNonEmpty(field: Option<string>): (r: Option<string>)
    ensures r.Some? <==> Truthy(field)
    ensures r.Some? ==> r == field
  {
    if Truthy(field) then field else None
  }

  /** The item of an `item` fragment `[label, position, kind, range,
      description, detail, documentation, insertText, filterText, sortText,
      command]`. */
  function MakeCompletionItem(items: seq<string>): (c: CompletionItem)
    ensures c.labelText == Item(items, 0) && c.description == Item(items, 4)
    ensures c.sortText.Some? <==> Truthy(Item(items, 1)) || Truthy(Item(items, 9))
    ensures c.sortText.Some? ==>
      c.sortText.value == SortKey(items[1], if Truthy(Item(items, 9)) then items[9] else ToStr(Item(items, 0)))
    ensures c.kind.Some? <==> Truthy(Item(items, 2))
    ensures c.kind.Some? ==> c.kind.value == StringToCompletionItemKind(items[2])
    ensures c.range.Some? <==> Truthy(Item(items, 3))
    ensures c.range.Some? ==> c.range.value == CompletionRange(items[3])
    ensures c.detail == IfNonEmpty(Item(items, 5)) && c.documentation == IfNonEmpty(Item(items, 6))
    ensures c.insertText == IfNonEmpty(Item(items, 7)) && c.filterText == IfNonEmpty(Item(items, 8))
    ensures c.command.Some? <==> Truthy(Item(items, 10))
    ensures c.command.Some? ==> c.command.value == StringToCompletionCommand(items[10])
  {
    var itemLabel, position, kind, range := Item(items, 0), Item(items, 1), Item(items, 2), Item(items, 3);
    var sortText, command := Item(items, 9), Item(items, 10);
    CompletionItem(
      itemLabel,
      Item(items, 4),
      if Truthy(position) || Truthy(sortText) then
        Some(SortKey(position.value, if Truthy(sortText) then sortText.value else ToStr(itemLabel)))
      else None,
      if Truthy(kind) then Some(StringToCompletionItemKind(kind.value)) else None,
      if Truthy(range) then Some(CompletionRange(range.value)) else None,
      IfNonEmpty(Item(items, 5)),
      IfNonEmpty(Item(items, 6)),
      IfNonEmpty(Item(items, 7)),
      IfNonEmpty(Item(items, 8)),
      if Truthy(command) then Some(StringToCompletionCommand(command.value)) else None)
  }

  /** The loop of `provideCompletionItems`: one item per `item` fragment, in
      order, other fragments ignored; no item at all gives null. */
  method ProvideCompletionItems(answer: seq<Frame>) returns (r: Option<seq<CompletionItem>>)
    ensures var items := OfKind(answer, "item", MakeCompletionItem);
      r == if items == [] then None else Some(items)
  {
    var result: seq<CompletionItem> := [];
    var i := 0;
    while i < |answer|
      invariant 0 <= i <= |answer|
      invariant result == OfKind(answer[..i], "item", MakeCompletionItem)
    {
      OfKindStep(answer, i, "item", MakeCompletionItem);
      if answer[i].kind == "item" {
        result := result + [MakeCompletionItem(answer[i].items)];
      }
      i := i + 1;
    }
    assert answer[..|answer|] == answer;
    if |result| == 0 {
      return None;
    }
    r := Some(result);
  }
}
