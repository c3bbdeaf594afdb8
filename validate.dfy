/**
 * The save-time validation of client/src/features/validate.ts: documents of
 * the registered language are sent as a `validate` command, and the answer's
 * `error` fragments are grouped under the `file` fragment before them.  The
 * same grouping loop appears in client/src/extension.ts over the compiler's
 * direct output.
 */
module Validate {
  import opened Wrappers
  import opened Js
  import opened Codec
  import opened Frames
  import opened Editor

  /** The command a saved document causes: none for another language,
      otherwise `validate` for that document, sent with cursor -1, no
      content and no new name. */
  function ValidateRequest(document: Document, languageId: string): (r: Option<Call>)
    ensures r.None? <==> document.languageId != languageId
    ensures r.Some? ==> forall id :: MakeRequest(id, r.value) == Request(id, Validate, document.path, -1, "", "")
  {
    if document.languageId != languageId then None
    else Some(Call(Validate, document, CommandParameters(None, false, None)))
  }

  /** `let [filePath] = items` of a `file` fragment. */
  function FilePathOf(items: seq<string>): Option<string>
  {
    Item(items, 0)
  }

  /** The diagnostic of an `error` fragment `[start, end, message]`. */
  function DiagnosticOf(items: seq<string>): (d: Diagnostic)
    ensures d.severity == Error && d.source.None? && d.message == Item(items, 2)
    ensures d.range == MakeRange(Item(items, 0), Item(items, 1))
  {
    Diagnostic(MakeRange(Item(items, 0), Item(items, 1)), Item(items, 2), Error, None)
  }

  /** One entry of `uriToDiagnostics`: a file and the diagnostics pushed to
      its list. */
  type FileDiagnostics = Segment<Option<string>, Diagnostic>

  /** The grouping loop of `validateTextDocument`, returning the entries of
      `uriToDiagnostics` in insertion order.  Each `file` fragment makes a
      new entry, even for a path seen before (every `Uri.file` call is a new
      key); each `error` fragment is pushed to the current list, which before
      the first `file` fragment is a list no entry holds. */
  method PublishDiagnostics(answer: seq<Frame>) returns (published: seq<FileDiagnostics>)
    ensures published == Segments(answer, "file", "error", FilePathOf, DiagnosticOf)
  {
    published := [];
    var detached: seq<Diagnostic> := [];
    var i := 0;
    while i < |answer|
      invariant 0 <= i <= |answer|
      invariant published == Segments(answer[..i], "file", "error", FilePathOf, DiagnosticOf)
      invariant detached == Preamble(answer[..i], "file", "error", DiagnosticOf)
    {
      var kind, items := answer[i].kind, answer[i].items;
      assert answer[..i + 1][..i] == answer[..i];
      SegmentsEmptyIff(answer[..i], "file", "error", FilePathOf, DiagnosticOf);
      if kind == "file" {
        published := published + [Segment(FilePathOf(items), [])];
      } else if kind == "error" {
        var diagnostic := DiagnosticOf(items);
        if published == [] {
          detached := detached + [diagnostic];
        } else {
          var current := published[|published| - 1];
          published := published[..|published| - 1] + [Segment(current.header, current.members + [diagnostic])];
        }
      }
      i := i + 1;
    }
    assert answer[..|answer|] == answer;
  }
}
