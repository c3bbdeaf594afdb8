/**
 * client/src/extension.ts, the older client that runs the compiler directly
 * for every request instead of talking to a resident server: how the command
 * line is built, how the standard output becomes fragments, and the three
 * handlers (rename preparation, rename edits, validation on save) that fold
 * those fragments with the same grouping and search as the feature handlers.
 * Offsets stay numbers here; which document the source resolves them
 * against is not part of this model.
 */
module Extension {
  import opened Wrappers
  import opened Js
  import opened Exec
  import opened Frames
  import opened Editor
  import Rename
  import Validate

  // ---------------------------------------------------------------------------
  // build mode

  /** The extension is built with debugging off. */
  const DEBUG: bool := false

  /** `MODE`: the cargo profile the compiler binary is taken from. */
  function Mode(debug: bool): (mode: string)
    ensures debug ==> mode == "debug"
    ensures !debug ==> mode == "release"
  {
    if debug then "debug" else "release"
  }

  /** `modeOption` of `compileCompiler`: the release profile, and only it,
      asks cargo for `--release`. */
  function ModeOption(mode: string): (option: string)
    ensures option == "--release" <==> mode == "release"
    ensures option != "--release" ==> option == ""
  {
    if mode == "release" then "--release" else ""
  }

  /** The build command of `compileCompiler`; with `DEBUG` off it builds the
      release profile. */
  function BuildCommand(root: string, debug: bool): (command: string)
    ensures !debug ==> command == "cd " + root + " && cargo build --release"
    ensures debug ==> command == "cd " + root + " && cargo build "
  {
    "cd " + root + " && cargo build " + ModeOption(Mode(debug))
  }

  // ---------------------------------------------------------------------------
  // command line

  /** `cursorOption`: `--cursor=` and the decimal digits of the cursor for
      a cursor at an offset, nothing for the default cursor -1 (or any
      negative one). */
  function CursorOption(cursor: int): (option: string)
    ensures option == "" <==> cursor < 0
    ensures cursor >= 0 ==> |option| > 9 && option[..9] == "--cursor="
    ensures forall i | 9 <= i < |option| :: IsDigit(option[i], 10)
    ensures NoSpace(option)
  {
    if cursor >= 0 then
      PrefixedText("--cursor=", NatToString(cursor));
      "--cursor=" + NatToString(cursor)
    else ""
  }

  /** The number after `--cursor=` reads back as the cursor. */
  lemma CursorOptionValue(cursor: nat)
    ensures ParseInt(CursorOption(cursor)[9..]) == Int(cursor)
  {
    PrefixedText("--cursor=", NatToString(cursor));
    ParseIntOfIntToString(cursor);
  }

  /** Digits are not spaces. */
  lemma NoSpaceDigits(s: string)
    requires forall i | 0 <= i < |s| :: IsDigit(s[i], 10)
    ensures NoSpace(s)
  {
  }

  /** A prefix followed by decimal digits, e.g. an option and its number. */
  lemma PrefixedText(prefix: string, digits: string)
    requires forall i | 0 <= i < |digits| :: IsDigit(digits[i], 10)
    requires NoSpace(prefix)
    ensures var text := prefix + digits;
      && text[..|prefix|] == prefix && text[|prefix|..] == digits
      && (forall i | |prefix| <= i < |text| :: IsDigit(text[i], 10))
      && NoSpace(text)
  {
    NoSpaceDigits(digits);
    NoSpaceConcat(prefix, digits);
    var text := prefix + digits;
    forall i | |prefix| <= i < |text| ensures IsDigit(text[i], 10) {
      assert text[i] == digits[i - |prefix|];
    }
  }

  /** The command line of `runCompiler`: the template
      `binary path --infer-root option cursorOption otherOptions`, whose
      pieces are separated by single spaces. */
  function CompilerCommand(binary: string, path: string, option: string, cursor: int, others: seq<string>): string
  {
    Join([binary, path, "--infer-root", option, CursorOption(cursor), Join(others, " ")], " ")
  }

  /** With no spaces inside the binary path, the document path, the option
      and the extra options, the compiler receives exactly: the document
      path, `--infer-root`, the option, the cursor option when the cursor is
      not negative, and the extra options, in that order. */
  lemma {:induction false} CompilerCommandWords(binary: string, path: string, option: string, cursor: int, others: seq<string>)
    requires NoSpace(binary) && NoSpace(path) && NoSpace(option)
    requires forall i | 0 <= i < |others| :: NoSpace(others[i])
    ensures Words(CompilerCommand(binary, path, option, cursor, others))
         == FilterNonEmpty([binary, path, "--infer-root", option, CursorOption(cursor)] + others)
  {
    var head := [binary, path, "--infer-root", option, CursorOption(cursor)];
    assert NoSpace("--infer-root");
    assert [binary, path, "--infer-root", option, CursorOption(cursor), Join(others, " ")] == head + [Join(others, " ")];
    if others == [] {
      WordsOfJoin(head + [""]);
      FilterNonEmptyDropsLast(head);
      assert head + others == head;
    } else {
      JoinAppend(head, [Join(others, " ")], " ");
      JoinAppend(head, others, " ");
      WordsOfJoin(head + others);
    }
  }

  /** `validateTextDocument`'s command: `--validate` with the default
      cursor -1. */
  function ValidateCommand(binary: string, path: string): string
  {
    CompilerCommand(binary, path, "--validate", -1, [])
  }

  /** Validation passes no cursor option and nothing after the option. */
  lemma ValidateCommandWords(binary: string, path: string)
    requires NoSpace(binary) && binary != "" && NoSpace(path) && path != ""
    ensures Words(ValidateCommand(binary, path)) == [binary, path, "--infer-root", "--validate"]
  {
    CompilerCommandWords(binary, path, "--validate", -1, []);
    var words := [binary, path, "--infer-root", "--validate"];
    assert [binary, path, "--infer-root", "--validate", CursorOption(-1)] + [] == words + [""];
    FilterNonEmptyDropsLast(words);
  }

  /** Spelling the validation command with a path `dir file` gives the same
      text as joining the path's two halves as separate words. */
  lemma ValidateCommandOfSpacedPath(binary: string, dir: string, file: string)
    ensures ValidateCommand(binary, dir + " " + file)
         == Join([binary, dir, file, "--infer-root", "--validate", "", ""], " ")
  {
    var path := dir + " " + file;
    var tail := ["--infer-root", "--validate", "", ""];
    var rest := Join(tail, " ");
    calc {
      ValidateCommand(binary, path);
      { assert CursorOption(-1) == "";
        assert [binary, path, "--infer-root", "--validate", "", Join([], " ")] == [binary] + ([path] + tail); }
      Join([binary] + ([path] + tail), " ");
      { JoinCons(binary, [path] + tail, " "); JoinCons(path, tail, " "); }
      binary + " " + (path + " " + rest);
      binary + " " + (dir + " " + (file + " " + rest));
      { JoinCons(file, tail, " "); JoinCons(dir, [file] + tail, " "); }
      binary + " " + Join([dir] + ([file] + tail), " ");
      { JoinCons(binary, [dir] + ([file] + tail), " "); }
      Join([binary] + ([dir] + ([file] + tail)), " ");
      { assert [binary] + ([dir] + ([file] + tail)) == [binary, dir, file, "--infer-root", "--validate", "", ""]; }
      Join([binary, dir, file, "--infer-root", "--validate", "", ""], " ");
    }
  }

  /** The command line is not quoted: a document path holding a space
      reaches the compiler as two words, so the word after the binary is
      not the document path. */
  lemma ValidateCommandSplitsPath(binary: string, dir: string, file: string)
    requires NoSpace(binary) && binary != "" && NoSpace(dir) && dir != "" && NoSpace(file) && file != ""
    ensures Words(ValidateCommand(binary, dir + " " + file)) == [binary, dir, file, "--infer-root", "--validate"]
    ensures Words(ValidateCommand(binary, dir + " " + file))[1] != dir + " " + file
  {
    var words := [binary, dir, file, "--infer-root", "--validate"];
    var parts := words + ["", ""];
    ValidateCommandOfSpacedPath(binary, dir, file);
    assert parts == [binary, dir, file, "--infer-root", "--validate", "", ""];
    assert NoSpace("--infer-root");
    assert NoSpace("--validate");
    forall i | 0 <= i < |parts| ensures NoSpace(parts[i]) {
    }
    WordsOfJoin(parts);
    assert parts == (words + [""]) + [""];
    FilterNonEmptyDropsLast(words + [""]);
    FilterNonEmptyDropsLast(words);
    assert |dir + " " + file| > |dir|;
  }

  /** `prepareRename`'s command: `--prepare-rename` at the cursor offset. */
  function PrepareRenameCommand(binary: string, path: string, offset: nat): string
  {
    CompilerCommand(binary, path, "--prepare-rename", offset, [])
  }

  /** Rename preparation passes the cursor offset as `--cursor=N`. */
  lemma PrepareRenameCommandWords(binary: string, path: string, offset: nat)
    requires NoSpace(binary) && binary != "" && NoSpace(path) && path != ""
    ensures Words(PrepareRenameCommand(binary, path, offset))
         == [binary, path, "--infer-root", "--prepare-rename", "--cursor=" + NatToString(offset)]
  {
    CompilerCommandWords(binary, path, "--prepare-rename", offset, []);
    var words := [binary, path, "--infer-root", "--prepare-rename", CursorOption(offset)];
    assert words + [] == words;
  }

  /** `provideRenameEdits`'s command: `--provide-rename-edits` at the cursor
      offset, with `--new-name=` and the new name as the extra option. */
  function ProvideRenameEditsCommand(binary: string, path: string, offset: nat, newName: string): string
  {
    CompilerCommand(binary, path, "--provide-rename-edits", offset, ["--new-name=" + newName])
  }

  /** Rename edits pass the cursor offset and then the new name. */
  lemma ProvideRenameEditsCommandWords(binary: string, path: string, offset: nat, newName: string)
    requires NoSpace(binary) && binary != "" && NoSpace(path) && path != "" && NoSpace(newName)
    ensures Words(ProvideRenameEditsCommand(binary, path, offset, newName))
         == [binary, path, "--infer-root", "--provide-rename-edits", "--cursor=" + NatToString(offset), "--new-name=" + newName]
  {
    var extra := "--new-name=" + newName;
    assert NoSpace("--new-name=");
    NoSpaceConcat("--new-name=", newName);
    CompilerCommandWords(binary, path, "--provide-rename-edits", offset, [extra]);
  }

  // ---------------------------------------------------------------------------
  // output

  /** One element of `runCompiler`'s result: the first field is the type,
      the others are the items, and `content` is only the second field. */
  datatype ExecFragment = ExecFragment(kind: string, items: seq<string>, content: Option<string>)

  /** The parse of `runCompiler`: one fragment per non-empty output line. */
  function RunCompiler(output: string): (fragments: seq<ExecFragment>)
    ensures |fragments| == |ParseLines(output)|
    ensures forall i | 0 <= i < |fragments| ::
      && [fragments[i].kind] + fragments[i].items == ParseLines(output)[i]
      && fragments[i].content == Item(fragments[i].items, 0)
  {
    var frames := LineFrames(output);
    seq(|frames|, i requires 0 <= i < |frames| =>
      ExecFragment(frames[i].kind, frames[i].items, Item(frames[i].items, 0)))
  }

  /** Output the compiler printed line by line reads back as one fragment per
      line, whose type is the line's first field and whose items are the
      fields after it. */
  lemma RunCompilerOfPrint(rows: seq<seq<string>>)
    requires forall i | 0 <= i < |rows| :: Printable(rows[i])
    ensures |RunCompiler(Print(rows))| == |rows|
    ensures forall i | 0 <= i < |rows| ::
      [RunCompiler(Print(rows))[i].kind] + RunCompiler(Print(rows))[i].items == rows[i]
  {
    ParsePrint(rows);
  }

  // ---------------------------------------------------------------------------
  // handlers

  /** `prepareRename`: the range of the first line of type `placeholder`,
      read from its first two items; later lines play no part, and without
      such a line the handler throws. */
  function PrepareRename(output: string): (r: Result<Range, string>)
    ensures var frames := LineFrames(output);
      && (r.Err? <==> forall j | 0 <= j < |frames| :: frames[j].kind != "placeholder")
      && (r.Err? ==> r.error == Rename.CANNOT_RENAME)
      && (r.Ok? ==> exists i | 0 <= i < |frames| ::
        && frames[i].kind == "placeholder"
        && (forall j | 0 <= j < i :: frames[j].kind != "placeholder")
        && r.value == MakeRange(Item(frames[i].items, 0), Item(frames[i].items, 1)))
  {
    Rename.PrepareRename(LineFrames(output))
  }

  /** `provideRenameEdits`: one replacement per line of type `replace`, in
      order, all other lines ignored. */
  method ProvideRenameEdits(output: string) returns (edits: seq<Replacement>)
    ensures edits == OfKind(LineFrames(output), "replace", ReplacementOf)
  {
    edits := Rename.ProvideRenameEdits(LineFrames(output));
  }

  /** `validateTextDocument`: one entry per line of type `file`, each
      holding the diagnostics of the `error` lines up to the next `file`
      line; `error` lines before the first `file` line are dropped. */
  method ValidateTextDocument(output: string) returns (published: seq<Validate.FileDiagnostics>)
    ensures published == Segments(LineFrames(output), "file", "error", Validate.FilePathOf, Validate.DiagnosticOf)
  {
    published := Validate.PublishDiagnostics(LineFrames(output));
  }
}
