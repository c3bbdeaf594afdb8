/**
 * The editor objects the handlers build, as plain records.  A position is
 * kept as the character offset handed to `positionAt`; conversion to line and
 * column belongs to the editor and is not modelled.
 */
module Editor {
  import opened Wrappers
  import opened Js

  /** A range between two offsets, each the result of `parseInt` on a field. */
  datatype Range = Range(start: Num, end: Num)

  /** `makeRange` of client/src/extension.ts (and of the utilities the
      feature handlers import): both bounds go through `parseInt`, so a
      missing field gives NaN. */
  function MakeRange(start: Option<string>, end: Option<string>): (r: Range)
    ensures r.start != Undefined && r.end != Undefined
    ensures start.None? ==> r.start == NaN
    ensures end.None? ==> r.end == NaN
    ensures start.Some? ==> r.start == ParseInt(start.value)
    ensures end.Some? ==> r.end == ParseInt(end.value)
  {
    Range(ParseIntOpt(start), ParseIntOpt(end))
  }

  /** A range written by the compiler as two decimal offsets reads back as
      exactly those offsets. */
  lemma MakeRangeOfOffsets(a: int, b: int)
    ensures MakeRange(Some(IntToString(a)), Some(IntToString(b))) == Range(Int(a), Int(b))
  {
    ParseIntToString(a, "");
    ParseIntToString(b, "");
    assert IntToString(a) + "" == IntToString(a);
    assert IntToString(b) + "" == IntToString(b);
  }

  datatype Severity = Error | Warning | Information | Hint

  /** A diagnostic; `source` is set only by the standalone language server. */
  datatype Diagnostic = Diagnostic(range: Range, message: Option<string>, severity: Severity, source: Option<string>)

  /** One `edit.replace(uri, range, text)` call of a workspace edit. */
  datatype Replacement = Replacement(path: Option<string>, range: Range, text: Option<string>)

  /** A `replace` fragment carries `[filePath, start, end, replacement]`. */
  function ReplacementOf(items: seq<string>): (r: Replacement)
    ensures r.path == Item(items, 0) && r.text == Item(items, 3)
    ensures r.range == MakeRange(Item(items, 1), Item(items, 2))
  {
    Replacement(Item(items, 0), MakeRange(Item(items, 1), Item(items, 2)), Item(items, 3))
  }
}
