# lotus-vscode, modelled in Dafny

This project models the editor side of the Lotus language tooling for VS Code.

The extension drives the `lotus-compiler` executable in two ways:

- **Resident server.** The current client (client/src/language-server.ts) keeps one compiler process running in server mode. It writes each request as six `##`-separated fields, tagged with a command id, with no terminator after them. Each response is cut into pieces by the marker `\n#?!#`. The first piece carries the id. Every later piece is one `{type, items}` fragment.
- **Direct runs.** The older client (client/src/extension.ts) and the standalone language server (server/src/server.ts) run the compiler once per request. They cut its standard output into `;`-separated lines.

Each feature handler (validation, code actions, completion, rename, signature help, go-to-definition, hover) folds the ordered fragments of one answer into editor objects.

The model keeps the source's own form:

- **Stateful parts are classes with methods.**
  - The dispatcher state of `LanguageServer`: its command-id counter, pending-resolver table, process flag and modification-time snapshot.
  - The module slot that the hot-reload rule replaces.
  - The server's validation counter and its one-shot "validate on first open" flag.
- **Loops are methods with invariants.** This covers the grouping loops, the bounded `split`, and the collecting loops of the handlers. Each is proved against a specification function, and the properties the source promises are proved about that function.
- **Pure parts are functions and lemmas.** This covers the wire codec, the output parsers, the lookup tables and the first-match searches.

Editor objects become plain records:

- a range holds the two `parseInt` results;
- a diagnostic holds its range, message, severity and source;
- a workspace edit is the list of its replacements.

JavaScript's `undefined` is kept where the source can produce it:

- an array index past the end is `None`;
- `parseInt` yields `Undefined`, `NaN` or an integer.

The JavaScript string primitives the source relies on are defined once, in module `Js`: `indexOf`, `substring`, `split`, `join`, `padStart` and `parseInt`.

Modules, by file:

- `wrappers.dfy`, `js.dfy`: option/result types and the JavaScript primitives.
- `codec.dfy`, `client.dfy`: the request and response format and the dispatcher of client/src/language-server.ts.
- `frames.dfy`: the folds every handler runs over `{type, items}` fragments.
  - first and last fragment of a kind;
  - all fragments of a kind;
  - "member" fragments grouped under the latest "header" fragment.
- `editor.dfy`, `utils.dfy`: editor records, `makeRange`, and the completion-kind table.
- `validate.dfy`, `code_actions.dfy`, `completion.dfy`, `rename.dfy`, `signature_help.dfy`, `definition.dfy`, `hover.dfy`: one module per feature handler.
- `exec.dfy`, `extension.dfy`, `server.dfy`: command lines and output parsing when the compiler is run directly, the older extension, and the standalone language server.

Four facts about the code shape the model:

- **The cursor is a character offset.** The cursor sent to the compiler is the editor's character offset (`offsetAt`), with no translation to UTF-8 byte offsets.
- **Nothing is saved when the server dies.** The client keeps no snapshot of a crashed process and does not replay its pending requests.
- **The port is fixed.** The client connects to the constant port 9609.
- **A missing resolver throws.** An answer whose id has no pending resolver makes `_onData` call `undefined`, which throws. The request does not degrade to an empty result.

The request round trip needs a stronger side condition than "no field contains `##`". Suppose a path or content ends in `#`. Then the `##` that follows it is found one character early, and the split is off by one. `Codec.HashSeparable` states the exact condition for such a field:

- the field holds no `##`;
- the field does not end in `#`.

The new name is the last field, so no `##` follows it, and it only has to hold no `##`.

In server.ts, `Object.entries(uriToDiagnostics)` would list integer-like keys first. Every key there is a `file://` uri, though, so the model lists the keys in insertion order.

## Model

| member | source | states |
|---|---|---|
| Codec.NameText | client/src/language-server.ts:6-15 | each of the eight command names is non-empty and holds no `#` or newline, so it never breaks the request line |
| Codec.JoinFields | client/src/language-server.ts:90 | the request line is exactly id, name, path, cursor, content and new name joined by `##`, in that order |
| Codec.HashSeparable | client/src/language-server.ts:25 | a field is followed cleanly by `##` exactly when it holds no `##` and does not end in `#` |
| Codec.EncodeRequestRoundTrip | client/src/language-server.ts:84-90 | when path and content separate cleanly and the new name holds no `##`, splitting the line on `##` gives back the six fields, and `parseInt` reads back the id and the cursor |
| Codec.CallRoundTrip | client/src/language-server.ts:84-90 | what a handler's call puts on the wire: cursor -1 without a position, empty content without `sendContent`, empty last field without a new name |
| Codec.ToFragment | client/src/language-server.ts:106-112 | a fragment's content is the whole piece; type and items are the piece split at every `##`: the type is the text before the first `##` (the whole piece without one), the items are the rest split at `##`; type and items joined by `##` rebuild the piece |
| Codec.DecodeResponse | client/src/language-server.ts:103-112 | no non-empty piece gives id NaN and no fragments; otherwise the id is `parseInt` of the first piece and there is one fragment per later piece, in order, each the `ToFragment` of that piece |
| Codec.DecodeEncodedResponse | client/src/language-server.ts:103-112 | decoding a response framed with the marker gives back its id and one fragment per line, in order |
| Client.ReadModificationTime | client/src/language-server.ts:160-168 | an empty path has modification time 0; any other path has the time the file system reports |
| Client.LanguageServer.constructor | client/src/language-server.ts:40-52 | an empty path gives a disabled instance with no process and time 0; otherwise a running process, counter 1 and an empty pending table |
| Client.LanguageServer.Command | client/src/language-server.ts:77-99 | without a process: answer `[]` and change nothing. Otherwise: write the request under the current id, raise the counter by one, and register the resolver under an id that is fresh and larger than every id sent before |
| Client.LanguageServer.OnData | client/src/language-server.ts:101-118 | removes exactly the decoded id from the pending table and resolves its resolver with the fragments; an unknown or NaN id leaves the table unchanged and fails |
| Client.LanguageServer.Kill | client/src/language-server.ts:120-125 | the process is gone afterwards; a repeated kill changes nothing |
| Client.ActiveServer.Init | client/src/language-server.ts:131-133 | the module slot holds a fresh instance for the path |
| Client.ActiveServer.Command | client/src/language-server.ts:135-144 | a changed modification time kills the instance, leaving its pending resolvers behind, and dispatches on a fresh one for the same path (id 1, only that resolver pending); an equal time dispatches on the same instance, which stays running with the same snapshot, so the next call gets the next id |
| Client.ActiveServer.Kill | client/src/language-server.ts:146-148 | the current instance has no process afterwards |
| Frames.FirstOfKind | client/src/features/rename.ts:15-21 | the early-return search finds the first fragment of a kind, and none before it has that kind |
| Frames.FirstOfKindAppend | client/src/features/rename.ts:15-21 | fragments after the first match do not change what the search finds |
| Frames.LastOfKind | client/src/features/signature-help.ts:18-33 | the last fragment of a kind, with none of that kind after it |
| Frames.OfKindAppend | client/src/features/rename.ts:30-37 | collecting the fragments of a kind keeps each match once, in order, across concatenation |
| Frames.OfKindEmptyIff | client/src/features/completion-item.ts:69-71 | nothing is collected exactly when no fragment has the kind |
| Frames.SegmentHeaders | client/src/features/validate.ts:26-32 | one group per header fragment (`file`, `action`), in order, carrying that fragment's payload |
| Frames.LastSegment | client/src/features/validate.ts:33-57 | the group of the last header holds exactly the member fragments after it, in order |
| Frames.MembersPreserved | client/src/features/validate.ts:22-57 | no member fragment is lost or duplicated: the detached ones followed by those of every group are exactly the member fragments |
| Frames.PreambleBeforeFirstHeader | client/src/features/validate.ts:22-23 | the members that go to no group are exactly those before the first header fragment |
| Frames.SegmentsEmptyIff | client/src/features/code-actions.ts:17 | a current group exists exactly when a header fragment has been seen |
| Editor.MakeRange | client/src/extension.ts:26-28 | each bound is `parseInt` of its field when the field is present, and NaN when it is missing; neither is undefined |
| Editor.MakeRangeOfOffsets | client/src/extension.ts:26-28 | two decimal offsets read back as exactly those offsets |
| Editor.ReplacementOf | client/src/features/rename.ts:32-36 | a replacement takes its file from item 0, its range from `makeRange` of items 1 and 2 (present or not), and its text from item 3 |
| Utils.StringToCompletionItemKindName | client/src/utils.ts:3-35 | whenever the switch gives a kind, the string is exactly that kind's name, so any other string, a differently cased one included, gives null |
| Utils.StringToCompletionItemKindOfName | client/src/utils.ts:3-35 | each of the 27 names gives its own kind back, so distinct names give distinct kinds |
| Validate.ValidateRequest | client/src/features/validate.ts:15-20 | a document of another language sends nothing; otherwise `validate` is sent with cursor -1, no content and no new name |
| Validate.DiagnosticOf | client/src/features/validate.ts:34-36 | every diagnostic is an error; its message is item 2 and its range comes from items 0 and 1 |
| Validate.PublishDiagnostics | client/src/features/validate.ts:21-63 | the entries published are the groups of `error` fragments under each `file` fragment, one per `file` fragment, in order |
| CodeActions.StringToCodeActionKind | client/src/features/code-actions.ts:39-53 | exactly the nine names are recognised, each giving its own kind; anything else, a missing field included, gives null |
| CodeActions.CodeActionsRequest | client/src/features/code-actions.ts:11-16 | an automatic trigger sends nothing; otherwise `provide-code-actions` is sent at the active position with content |
| CodeActions.ActionTitleOf | client/src/features/code-actions.ts:22-24 | an action's title is item 0 and its kind is the lookup of item 1 |
| CodeActions.ProvideCodeActions | client/src/features/code-actions.ts:17-36 | one action per `action` fragment, in order, each starting with an empty edit, with every `replace` fragment added to the latest action; a `replace` before any action fails the request |
| Completion.CompletionRequest | client/src/features/completion-item.ts:12-20 | a `:` trigger not preceded by `:` sends nothing; otherwise `provide-completion-items` is sent at the position with content |
| Completion.StringToCompletionCommand | client/src/features/completion-item.ts:110-121 | only the two command names are recognised, each giving its own command; anything else gives undefined |
| Completion.SortKey | client/src/features/completion-item.ts:28-33 | the key is the position left-padded with `0` to two characters and then the sort label; a position of two or more characters is kept as it is |
| Completion.SortKeyOrder | client/src/features/completion-item.ts:28-33 | for positions below 100, the lower position sorts first whatever the labels |
| Completion.CompletionRangeOfOffsets | client/src/features/completion-item.ts:39-43 | a range field `start;end` of two decimal offsets reads back as those offsets |
| Completion.MakeCompletionItem | client/src/features/completion-item.ts:25-65 | label and description come from items 0 and 4; the sort key is set when position or sort text is non-empty; kind, range, detail, documentation, insert text, filter text and command are each set only when their field is non-empty |
| Completion.ProvideCompletionItems | client/src/features/completion-item.ts:21-73 | one item per `item` fragment, in order, other fragments ignored; no item gives null |
| Rename.PrepareRenameRequest | client/src/features/rename.ts:13 | `prepare-rename` is sent at the position without content or new name |
| Rename.PrepareRename | client/src/features/rename.ts:15-23 | the range of the first `placeholder` fragment, from items 0 and 1; with no placeholder it fails with "You cannot rename this element." |
| Rename.ProvideRenameEditsRequest | client/src/features/rename.ts:27 | the new name is passed through unchanged, without content |
| Rename.ProvideRenameEdits | client/src/features/rename.ts:28-40 | one replacement per `replace` fragment, in order, other fragments ignored; no `replace` fragment gives an empty edit |
| SignatureHelp.SignatureHelpRequest | client/src/features/signature-help.ts:13 | `provide-signature-help` is sent at the position with content |
| SignatureHelp.ParameterOf | client/src/features/signature-help.ts:25-27 | a parameter's start is never undefined |
| SignatureHelp.ParameterOfWithoutColon | client/src/features/signature-help.ts:25-27 | without a `:`, the start is `parseInt` of the whole range and the end is undefined |
| SignatureHelp.ParameterOfWithColon | client/src/features/signature-help.ts:25-27 | with a `:`, the start is `parseInt` of the text before the first `:` and the end is `parseInt` of the text after it up to the next `:` |
| SignatureHelp.ParameterOfOffsets | client/src/features/signature-help.ts:24-28 | a parameter `a:b` of two decimal offsets reads back as `[a, b]` |
| SignatureHelp.SignatureOf | client/src/features/signature-help.ts:20-28 | the label is item 0, the active parameter is `parseInt` of item 1, and there is one parameter per later item, so the count is items minus two |
| SignatureHelp.ProvideSignatureHelp | client/src/features/signature-help.ts:16-36 | null without a `signature` fragment; otherwise built from the last one, with exactly one signature and active signature 0 |
| Definition.DefinitionRequest | client/src/features/definition.ts:12 | `provide-definition` is sent at the position without content |
| Definition.ProvideDefinition | client/src/features/definition.ts:14-24 | the location of the first `definition` fragment: file from item 0, offset `parseInt` of item 1; with none it fails with "No definition for this element." |
| Definition.DefinitionOfOffset | client/src/features/definition.ts:16-20 | a definition written as a path and a decimal offset reads back as that location |
| Hover.HoverRequest | client/src/features/hover.ts:12 | `provide-hover` is sent at the position without content |
| Hover.ProvideHover | client/src/features/hover.ts:14-28 | from the first `hover` fragment only: range from items 0 and 1, one `lotus` code block holding item 2, HTML allowed and trusted; null with no `hover` fragment |
| Exec.ParseLines | client/src/extension.ts:112-116 | one entry per non-empty output line, in order, holding that line cut at every `;`; its fields joined by `;` rebuild the line |
| Exec.LineFrames | client/src/extension.ts:117-122 | each line's first field is its type and the remaining fields are its items |
| Exec.ParsePrint | server/src/server.ts:129 | output printed as `;`-separated lines (no field holding `;` or a newline) parses back into exactly those lines |
| Exec.WordsOfJoin | client/src/extension.ts:108 | words joined by single spaces reach the compiler as those words, empty ones dropped |
| Extension.Mode | client/src/extension.ts:5-6 | debugging off gives the `release` mode |
| Extension.ModeOption | client/src/extension.ts:127 | `--release` is added exactly for the `release` mode |
| Extension.BuildCommand | client/src/extension.ts:126-130 | with debugging off the build runs `cargo build --release` in the compiler root |
| Extension.CursorOption | client/src/extension.ts:107 | no option for a negative cursor (the default -1); otherwise `--cursor=` followed by decimal digits |
| Extension.CursorOptionValue | client/src/extension.ts:107 | the digits after `--cursor=` read back as the cursor |
| Extension.CompilerCommandWords | client/src/extension.ts:108 | the compiler receives the binary, the path, `--infer-root`, the option, the cursor option when there is one, and the extra options, in that order |
| Extension.ValidateCommandWords | client/src/extension.ts:60 | validation passes `--validate` and no cursor |
| Extension.ValidateCommandSplitsPath | client/src/extension.ts:106-112 | the command line is not quoted: a document path `dir file` reaches the compiler as the two words `dir` and `file`, so the word after the binary is not the path |
| Extension.PrepareRenameCommandWords | client/src/extension.ts:31 | rename preparation passes `--prepare-rename` and `--cursor=` with the offset |
| Extension.ProvideRenameEditsCommandWords | client/src/extension.ts:45 | rename edits pass the cursor and then `--new-name=` with the new name |
| Extension.RunCompiler | client/src/extension.ts:106-124 | one fragment per non-empty output line: the type is the first field, the items are the rest, and the content is the second field |
| Extension.RunCompilerOfPrint | client/src/extension.ts:112-123 | output printed line by line reads back as one fragment per line with that line's type and items |
| Extension.PrepareRename | client/src/extension.ts:30-42 | the range of the first `placeholder` line; with none it fails with "You cannot rename this element." |
| Extension.ProvideRenameEdits | client/src/extension.ts:44-57 | one replacement per `replace` line, in order, other lines ignored |
| Extension.ValidateTextDocument | client/src/extension.ts:59-104 | one entry per `file` line, holding the errors up to the next `file` line; errors before the first `file` line are dropped |
| Server.SplitFrom | server/src/server.ts:107-113 | `n` cuts give `n + 1` pieces |
| Server.SplitBounded | server/src/server.ts:103-116 | the loop returns `max(itemCount, 1)` items, cut at successive `indexOf` hits of the separator |
| Server.SplitFromFull | server/src/server.ts:107-113 | with enough separators, the first pieces are those of a full split and the last is the untouched rest |
| Server.SplitBoundedRoundTrip | server/src/server.ts:103-116 | with at least `itemCount - 1` separators, the items join back into the string, the first `itemCount - 1` hold no separator, and the last is the rest |
| Server.FilePathToUri | server/src/server.ts:120-122 | the uri is the path under `file://` |
| Server.DocumentPath | server/src/server.ts:127 | the stripped path turns back into the uri exactly when the uri starts with `file://` |
| Server.DocumentPathOfUri | server/src/server.ts:120-127 | stripping seven characters inverts `filePathToUri` |
| Server.ValidationCommandWords | server/src/server.ts:128 | the compiler receives the document path, `--validate` and `--infer-root` |
| Server.UriOf | server/src/server.ts:137-138 | the uri of a `file` line is its path under `file://`, and `file://undefined` without a path |
| Server.ServerDiagnosticOf | server/src/server.ts:143-156 | every diagnostic is an error from source `lotus`; its message is field 3 and its range comes from fields 1 and 2 |
| Server.Collapse | server/src/server.ts:130-142 | the keys of `uriToDiagnostics` are listed once each, and each holds a list |
| Server.CollapseKeys | server/src/server.ts:137-142 | a uri is in the table exactly when some `file` line carries it |
| Server.CollapseKeyOrder | server/src/server.ts:137-142 | the keys are listed in the order in which their uris first appear among the `file` lines, the insertion order `Object.entries` gives for these string keys |
| Server.CollapseLastWins | server/src/server.ts:137-142 | the list under a uri is the group of the last `file` line with that uri, so a repeated uri replaces the earlier list |
| Server.CollapseAddMember | server/src/server.ts:177 | an error is appended to the list under the current uri, after the ones already there |
| Server.Publications | server/src/server.ts:181-183 | one `sendDiagnostics` per key, in key order, with that key's list |
| Server.GroupDiagnostics | server/src/server.ts:129-179 | the loop builds exactly the table of the `file` groups of the output; errors before any `file` line and other line types are ignored |
| Server.LspServer.constructor | server/src/server.ts:84-118 | no validation has run: the flag is off, the counter is 0, nothing has been sent |
| Server.LspServer.ValidateTextDocument | server/src/server.ts:124-184 | the counter grows by one, the compiler is run on the document path, and the table's publications are sent in order |
| Server.LspServer.Publish | server/src/server.ts:181-183 | the publications sent are those of the table, in key order, and no other field changes |
| Server.LspServer.OnDidOpen | server/src/server.ts:84-91 | only the first open validates; every later open changes nothing |
| Server.LspServer.OnDidSave | server/src/server.ts:95-97 | every save validates the saved document |
| Server.CompletionResolve | server/src/server.ts:214-225 | data 1 and 2 get the TypeScript and JavaScript detail and documentation; every other item is returned unchanged, and label and data are never changed |

## Left out

- Process spawning, the socket connection (fixed port 9609), the stdout/stderr handlers and the `connectionOpen` promise. These are I/O. Writing to the socket is modelled as appending to `written`, and a running process as a flag.
- Byte-stream framing of requests: `_command` writes no terminator, and the content field may hold newlines. TCP may merge or split writes, so the compiler sees one byte stream. `written` keeps one entry per write, which the stream does not.
- JavaScript number precision: ids, offsets and cursors are exact unbounded integers. Above 2^53 a double can no longer count up by one, so `nextCommandId++` would stall and ids would repeat; the increasing ids of `Client.LanguageServer.Valid` assume this never happens. From 1e21 `String(n)` uses the exponent form, which `parseInt` reads back as its leading digits (`parseInt("1e+21")` is 1).
- Js.ParseIntOfIntToString: holds for every integer here, but in JavaScript only below 1e21 in magnitude, because of the exponent form above.
- Async and promise semantics. A resolver is an opaque token, and resolving removes it from the pending table. Nothing is claimed about interleaving.
- `displayMemoryUsage`: it runs `ps` and parses a float, and it only logs.
- `statSync`: the modification time is an input parameter.
- The `isReload` flag of the constructor: it only selects a log message.
- All logging (`log`, `console.log`, the output channel).
- Running `execSync` (the compiler, `cargo build`). The command string is modelled, and the compiler's output is a parameter.
  - The `?.` null case of `execSync` is left out: `execSync` returns a buffer or throws.
  - Shell word splitting is modelled only as splitting at spaces. Quoting is not modelled.
  - The command strings of client/src/extension.ts:108 and server/src/server.ts:128 put the document path, and the new name, into the command unquoted. The word lemmas therefore require them to hold no space, and `Extension.ValidateCommandSplitsPath` shows what happens otherwise. A quoting command builder is not modelled, because the shell's quoting rules are not.
- The `path.join` paths of the compiler root and binary: they are parameters.
- The vscode and LSP APIs are not modelled: `positionAt`, `offsetAt`, `openTextDocument`, `documents.get`, `Uri.file`, provider registration, `diagnosticCollection.set`, and the construction of Range, Diagnostic, WorkspaceEdit, MarkdownString and SnippetString objects.
  - Positions stay as the parsed offsets.
  - A document is its path, text and language id.
- Extension.ProvideRenameEdits and Server.GroupDiagnostics: the model keeps offsets as numbers and does not record which document resolves them. client/src/extension.ts:52 resolves every replacement against the document being renamed, even one for another file, while client/src/features/rename.ts:34-36 opens the target file first. server/src/server.ts:140 resolves a file's errors against `documents.get(fileUri) || textDocument`, so the errors of a file that is not open are resolved against the validated document.
- Keying of the validation tables in validate.ts and extension.ts. Their `uriToDiagnostics` is keyed by `Uri` objects, and each `file` fragment makes a fresh one. The model therefore keeps every `file` fragment as its own entry, including a repeated path. server.ts keys by string, and there `Server.Collapse` replaces the list and keeps the key's first position.
- Feature handlers take `makeRange` from client/src/utils.ts, but that file does not define it. It is modelled as the `makeRange` of client/src/extension.ts.
- The copy of `stringToCompletionItemKind` at client/src/features/completion-item.ts:76-108 is the same table as client/src/utils.ts. It is modelled once, by `Utils.StringToCompletionItemKind`.
- LSP capability negotiation and the fixed `onCompletion` list of server.ts: wiring and example data.
- `Server.CompletionResolve`: a `data` value other than a number is one value, `Other`.
- Client.LanguageServer.constructor: a disabled instance (empty path) sets the counter to 0 and the table to empty, where the source leaves them undefined. Nothing reads them while there is no process.
- Completion.SortKeyOrder: the order property is stated for positions below 100 only. Longer positions are not padded, so the order no longer follows the number.
- Client.LanguageServer.OnData: a TypeError from calling a missing resolver is modelled as an error result, not as an exception.
- The `split` helper of server.ts is never called in that file. It is modelled for its own contract.
