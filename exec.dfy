/**
 * Running the compiler directly, as client/src/extension.ts and
 * server/src/server.ts both do: the command line is words separated by
 * single spaces, and the standard output is cut at newlines, empty lines
 * are dropped, and every remaining line is cut at `;`, its first field
 * naming the line's type.
 */
module Exec {
  import opened Js
  import opened Frames

  /** `output.split('\n').filter(str => str).map(str => str.split(';'))`:
      one entry per non-empty line, in order, holding that line cut at every
      `;`, so that its fields joined by `;` rebuild the line. */
  function ParseLines(output: string): (lines: seq<seq<string>>)
    ensures |lines| == |FilterNonEmpty(Split(output, "\n"))|
    ensures forall i | 0 <= i < |lines| :: lines[i] == Split(FilterNonEmpty(Split(output, "\n"))[i], ";")
    ensures forall i | 0 <= i < |lines| ::
      lines[i] != [] && Join(lines[i], ";") == FilterNonEmpty(Split(output, "\n"))[i]
  {
    var texts := FilterNonEmpty(Split(output, "\n"));
    JoinSplitEach(texts, ";");
    seq(|texts|, i requires 0 <= i < |texts| => Split(texts[i], ";"))
  }

  /** The `{type, items}` view of the output lines: the first field is the
      type and the others are the items. */
  function LineFrames(output: string): (frames: seq<Frame>)
    ensures |frames| == |ParseLines(output)|
    ensures forall i | 0 <= i < |frames| :: [frames[i].kind] + frames[i].items == ParseLines(output)[i]
  {
    var lines := ParseLines(output);
    seq(|lines|, i requires 0 <= i < |lines| =>
      assert lines[i] == [lines[i][0]] + lines[i][1..];
      Frame(lines[i][0], lines[i][1..]))
  }

  /** Field `k + 1` of a line is item `k` of its frame. */
  lemma LineItem(line: seq<string>, frame: Frame, k: nat)
    requires [frame.kind] + frame.items == line
    ensures Item(line, k + 1) == Item(frame.items, k)
  {
  }

  lemma JoinSplitEach(texts: seq<string>, sep: string)
    requires sep != []
    ensures forall i | 0 <= i < |texts| :: Join(Split(texts[i], sep), sep) == texts[i]
  {
    forall i | 0 <= i < |texts| ensures Join(Split(texts[i], sep), sep) == texts[i] {
      JoinSplit(texts[i], sep);
    }
  }

  /** A line the compiler can print so that it reads back unchanged: at
      least one field, not the empty line, and no field holding `;` or a
      newline. */
  predicate Printable(row: seq<string>)
  {
    && row != []
    && (|row| > 1 || row[0] != "")
    && forall j, k | 0 <= j < |row| && 0 <= k < |row[j]| :: row[j][k] != ';' && row[j][k] != '\n'
  }

  /** The compiler's side of the format: every row printed as its fields
      joined by `;` and ended by a newline. */
  function Print(rows: seq<seq<string>>): (out: string)
    ensures rows == [] <==> out == ""
    decreases |rows|
  {
    if rows == [] then "" else Join(rows[0], ";") + "\n" + Print(rows[1..])
  }

  function Texts(rows: seq<seq<string>>): (texts: seq<string>)
    ensures |texts| == |rows|
  {
    seq(|rows|, i requires 0 <= i < |rows| => Join(rows[i], ";"))
  }

  lemma {:induction false} PrintIsJoin(rows: seq<seq<string>>)
    ensures Print(rows) == Join(Texts(rows) + [""], "\n")
    decreases |rows|
  {
    if rows != [] {
      PrintIsJoin(rows[1..]);
      assert Texts(rows) + [""] == [Join(rows[0], ";")] + (Texts(rows[1..]) + [""]);
      JoinCons(Join(rows[0], ";"), Texts(rows[1..]) + [""], "\n");
    }
  }

  lemma JoinNonEmpty(row: seq<string>, sep: string)
    requires row != [] && (|row| > 1 || row[0] != "") && sep != []
    ensures Join(row, sep) != ""
  {
    if |row| > 1 {
      assert |Join(row, sep)| >= |sep|;
    }
  }

  /** Parsing what the compiler prints gives back exactly the printed rows:
      one entry per line, with its fields, in order. */
  lemma {:induction false} ParsePrint(rows: seq<seq<string>>)
    requires forall i | 0 <= i < |rows| :: Printable(rows[i])
    ensures ParseLines(Print(rows)) == rows
  {
    var texts := Texts(rows);
    PrintIsJoin(rows);
    forall i | 0 <= i < |texts + [""]| ensures Separable((texts + [""])[i], "\n") {
      SeparableChar((texts + [""])[i], '\n');
      if i < |texts| {
        assert (texts + [""])[i] == Join(rows[i], ";");
        JoinAvoids(rows[i], ";", '\n');
      }
    }
    SeparableFree((texts + [""])[|texts|], "\n");
    SplitJoin(texts + [""], "\n");
    FilterNonEmptyDropsLast(texts);
    forall i | 0 <= i < |texts| ensures texts[i] != "" {
      JoinNonEmpty(rows[i], ";");
    }
    assert FilterNonEmpty(Split(Print(rows), "\n")) == texts;
    forall i | 0 <= i < |texts| ensures Split(texts[i], ";") == rows[i] {
      forall j | 0 <= j < |rows[i]| ensures Separable(rows[i][j], ";") {
        SeparableChar(rows[i][j], ';');
      }
      SeparableFree(rows[i][|rows[i]| - 1], ";");
      SplitJoin(rows[i], ";");
    }
  }

  // ---------------------------------------------------------------------------
  // command lines

  predicate NoSpace(s: string)
  {
    forall i | 0 <= i < |s| :: s[i] != ' '
  }

  /** The arguments a shell passes on for a command line without quoting:
      the words between spaces, empty ones dropped. */
  function Words(command: string): seq<string>
  {
    FilterNonEmpty(Split(command, " "))
  }

  lemma NoSpaceConcat(a: string, b: string)
    requires NoSpace(a) && NoSpace(b)
    ensures NoSpace(a + b)
  {
    forall i | 0 <= i < |a + b| ensures (a + b)[i] != ' ' {
      if i >= |a| {
        assert (a + b)[i] == b[i - |a|];
      }
    }
  }

  /** Words joined by single spaces split back into those words, less the
      empty ones. */
  lemma WordsOfJoin(parts: seq<string>)
    requires parts != []
    requires forall i | 0 <= i < |parts| :: NoSpace(parts[i])
    ensures Words(Join(parts, " ")) == FilterNonEmpty(parts)
  {
    forall i | 0 <= i < |parts| ensures Separable(parts[i], " ") {
      SeparableChar(parts[i], ' ');
    }
    SeparableFree(parts[|parts| - 1], " ");
    SplitJoin(parts, " ");
  }
}
