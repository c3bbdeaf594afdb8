/**
 * The text protocol between the editor client and the `lotus-compiler`
 * server (client/src/language-server.ts): one request line of six fields
 * joined by `##`, and a response buffer cut into pieces by the `\n#?!#`
 * marker, the first piece carrying the command id and every later piece one
 * `{ content, type, items }` fragment.
 */
module Codec {
  import opened Wrappers
  import opened Js

  const LINE_START_MARKER: string := "\n#?!#"
  const SEPARATOR: string := "##"

  /** The closed set of commands the client sends. */
  datatype CommandName =
    | Validate
    | PrepareRename
    | ProvideRenameEdits
    | ProvideDefinition
    | ProvideHover
    | ProvideCompletionItems
    | ProvideSignatureHelp
    | ProvideCodeActions

  /** The name of a command as it travels on the wire. */
  function NameText(name: CommandName): (s: string)
    ensures s != []
    ensures '#' !in s && '\n' !in s
  {
    match name
    case Validate => "validate"
    case PrepareRename => "prepare-rename"
    case ProvideRenameEdits => "provide-rename-edits"
    case ProvideDefinition => "provide-definition"
    case ProvideHover => "provide-hover"
    case ProvideCompletionItems => "provide-completion-items"
    case ProvideSignatureHelp => "provide-signature-help"
    case ProvideCodeActions => "provide-code-actions"
  }

  /** The document a command is about: its `uri.fsPath`, its `getText()` and
      its `languageId`. */
  datatype Document = Document(path: string, text: string, languageId: string)

  /** `CommandParameters` without the document.  The position is already the
      editor's `offsetAt(position)`; an absent `sendContent` is `false`. */
  datatype CommandParameters = CommandParameters(position: Option<nat>, sendContent: bool, newName: Option<string>)

  /** What a feature handler asks of `LanguageServer.command`. */
  datatype Call = Call(name: CommandName, document: Document, parameters: CommandParameters)

  /** The six fields of one request line. */
  datatype Request = Request(id: int, name: CommandName, path: string, cursor: int, content: string, newName: string)

  /** The request `_command` sends for `call` under command id `id`: cursor -1
      without a position, empty content unless `sendContent`, empty new name
      unless one is given. */
  function MakeRequest(id: int, call: Call): Request
  {
    var p := call.parameters;
    Request(
      id,
      call.name,
      call.document.path,
      if p.position.Some? then p.position.value else -1,
      if p.sendContent then call.document.text else "",
      if Truthy(p.newName) then p.newName.value else "")
  }

  /** The request line, written as the template literal of `_command` writes it. */
  function EncodeRequest(r: Request): string
  {
    IntToString(r.id) + SEPARATOR + NameText(r.name) + SEPARATOR + r.path + SEPARATOR
    + IntToString(r.cursor) + SEPARATOR + r.content + SEPARATOR + r.newName
  }

  /** The fields of a request, in wire order. */
  function Fields(r: Request): seq<string>
  {
    [IntToString(r.id), NameText(r.name), r.path, IntToString(r.cursor), r.content, r.newName]
  }

  /** A field separates cleanly from a following `##` exactly when it does not
      contain `##` and does not end with `#`. */
  lemma HashSeparable(p: string)
    ensures Separable(p, SEPARATOR) <==> IndexOf(p, SEPARATOR, 0) == -1 && (p == [] || p[|p| - 1] != '#')
  {
    if Separable(p, SEPARATOR) {
      SeparableFree(p, SEPARATOR);
      if p != [] && p[|p| - 1] == '#' {
        SeparableNoTrailingHash(p);
      }
    } else if IndexOf(p, SEPARATOR, 0) == -1 && (p == [] || p[|p| - 1] != '#') {
      SeparableWithoutHash(p);
    }
  }

  /** A piece ending in `#` runs into the separator after it. */
  lemma SeparableNoTrailingHash(p: string)
    requires p != [] && p[|p| - 1] == '#'
    ensures !Separable(p, SEPARATOR)
  {
    var s := p + SEPARATOR;
    assert s[|p| - 1..|p| + 1] == SEPARATOR;
    assert OccursAt(s, SEPARATOR, |p| - 1);
    IndexOfFirst(s, SEPARATOR, 0);
  }

  /** A piece free of `##` that does not end in `#` is separable. */
  lemma SeparableWithoutHash(p: string)
    requires IndexOf(p, SEPARATOR, 0) == -1 && (p == [] || p[|p| - 1] != '#')
    ensures Separable(p, SEPARATOR)
  {
    var s := p + SEPARATOR;
    assert s[|p|..] == SEPARATOR;
    forall k | 0 <= k < |p| ensures !OccursAt(s, SEPARATOR, k) {
      NoSeparatorAt(p, k);
    }
    IndexOfIsFirst(s, SEPARATOR, 0, |p|);
  }

  lemma NoSeparatorAt(p: string, k: nat)
    requires IndexOf(p, SEPARATOR, 0) == -1 && p != [] && p[|p| - 1] != '#'
    requires k < |p|
    ensures !OccursAt(p + SEPARATOR, SEPARATOR, k)
  {
    if k + 2 <= |p| {
      IndexOfFirst(p, SEPARATOR, 0);
      OccursInPrefix(p, SEPARATOR, SEPARATOR, k);
    } else {
      var s := p + SEPARATOR;
      assert s[k..k + 2][0] == p[|p| - 1];
    }
  }

  /** A piece that does not contain the first character of the separator
      always separates cleanly. */
  lemma SeparableWithoutLead(p: string, sep: string)
    requires sep != []
    requires forall i | 0 <= i < |p| :: p[i] != sep[0]
    ensures Separable(p, sep)
  {
    var s := p + sep;
    assert s[|p|..] == sep;
    assert OccursAt(s, sep, |p|);
    forall k | 0 <= k < |p| ensures !OccursAt(s, sep, k) {
      assert s[k] == p[k];
    }
    IndexOfIsFirst(s, sep, 0, |p|);
  }

  lemma IntToStringHasNoHash(n: int)
    ensures forall i | 0 <= i < |IntToString(n)| :: IntToString(n)[i] != '#' && IntToString(n)[i] != '\n'
  {
    var d := NatToString(if n < 0 then -n else n);
    forall i | 0 <= i < |d| ensures d[i] != '#' && d[i] != '\n' {
      assert IsDigit(d[i], 10);
    }
  }

  /** Six strings joined by a separator, written out. */
  lemma JoinSix(a: string, b: string, c: string, d: string, e: string, f: string, sep: string)
    ensures Join([a, b, c, d, e, f], sep) == a + sep + b + sep + c + sep + d + sep + e + sep + f
  {
    var xs := [a, b, c, d, e, f];
    assert xs[5..] == [f];
    assert xs[4..] == [e] + xs[5..];
    JoinCons(e, xs[5..], sep);
    assert xs[3..] == [d] + xs[4..];
    JoinCons(d, xs[4..], sep);
    assert xs[2..] == [c] + xs[3..];
    JoinCons(c, xs[3..], sep);
    assert xs[1..] == [b] + xs[2..];
    JoinCons(b, xs[2..], sep);
    assert xs == [a] + xs[1..];
    JoinCons(a, xs[1..], sep);
  }

  /** The template literal of `_command` is the six fields joined by `##`. */
  lemma JoinFields(r: Request)
    ensures EncodeRequest(r) == Join(Fields(r), SEPARATOR)
  {
    JoinSix(IntToString(r.id), NameText(r.name), r.path, IntToString(r.cursor), r.content, r.newName, SEPARATOR);
  }

  /** The request line is the six fields joined by `##`, and when the path
      and the content each separate cleanly from a following `##` and the new
      name, the last field, holds no `##`, splitting the line on `##` gives
      back exactly those six fields, with the id and the cursor readable by
      `parseInt`. */
  lemma EncodeRequestRoundTrip(r: Request)
    requires Separable(r.path, SEPARATOR) && Separable(r.content, SEPARATOR)
    requires IndexOf(r.newName, SEPARATOR, 0) == -1
    ensures EncodeRequest(r) == Join(Fields(r), SEPARATOR)
    ensures Split(EncodeRequest(r), SEPARATOR) == Fields(r)
    ensures ParseInt(Split(EncodeRequest(r), SEPARATOR)[0]) == Int(r.id)
    ensures ParseInt(Split(EncodeRequest(r), SEPARATOR)[3]) == Int(r.cursor)
  {
    var f := Fields(r);
    JoinFields(r);
    IntToStringHasNoHash(r.id);
    IntToStringHasNoHash(r.cursor);
    SeparableWithoutLead(f[0], SEPARATOR);
    SeparableWithoutLead(f[1], SEPARATOR);
    SeparableWithoutLead(f[3], SEPARATOR);
    SplitJoin(f, SEPARATOR);
    ParseIntToString(r.id, []);
    ParseIntToString(r.cursor, []);
    assert IntToString(r.id) + [] == IntToString(r.id);
    assert IntToString(r.cursor) + [] == IntToString(r.cursor);
  }

  /** What a call puts on the wire: the id and the command name first, a
      cursor of -1 without a position, empty content without `sendContent`,
      and an empty last field without a new name. */
  lemma CallRoundTrip(id: int, call: Call)
    requires Separable(call.document.path, SEPARATOR)
    requires call.parameters.sendContent ==> Separable(call.document.text, SEPARATOR)
    requires call.parameters.newName.Some? ==> IndexOf(call.parameters.newName.value, SEPARATOR, 0) == -1
    ensures var f := Split(EncodeRequest(MakeRequest(id, call)), SEPARATOR);
      && |f| == 6
      && ParseInt(f[0]) == Int(id)
      && f[1] == NameText(call.name)
      && f[2] == call.document.path
      && ParseInt(f[3]) == (if call.parameters.position.Some? then Int(call.parameters.position.value) else Int(-1))
      && f[4] == (if call.parameters.sendContent then call.document.text else "")
      && f[5] == (if call.parameters.newName.Some? then call.parameters.newName.value else "")
  {
    var r := MakeRequest(id, call);
    HashSeparable("");
    EncodeRequestRoundTrip(r);
  }

  // ---------------------------------------------------------------------------
  // Responses

  /** One decoded piece of a response: the whole piece, the text before its
      first `##`, and the remaining `##`-separated fields. */
  datatype Fragment = Fragment(content: string, kind: string, items: seq<string>)

  /** The fragment `_onData` builds from one piece: the piece split at
      every `##`, whose first field is the type and whose other fields are
      the items. */
  function ToFragment(line: string): (f: Fragment)
    ensures f.content == line
    ensures [f.kind] + f.items == Split(line, SEPARATOR)
    ensures Join([f.kind] + f.items, SEPARATOR) == line
    ensures IndexOf(f.kind, SEPARATOR, 0) == -1
    ensures IndexOf(line, SEPARATOR, 0) == -1 ==> f.kind == line && f.items == []
    ensures var k := IndexOf(line, SEPARATOR, 0);
      k != -1 ==> f.kind == line[..k] && f.items == Split(line[k + |SEPARATOR|..], SEPARATOR)
  {
    var parts := Split(line, SEPARATOR);
    JoinSplit(line, SEPARATOR);
    SplitPiecesFree(line, SEPARATOR);
    assert parts == [parts[0]] + parts[1..];
    Fragment(line, parts[0], parts[1..])
  }

  /** A decoded response: the id read from the header piece (NaN when there
      is no piece at all) and the fragments of the later pieces. */
  datatype Response = Response(id: Num, fragments: seq<Fragment>)

  /** The non-empty pieces of a buffer cut at every marker. */
  function Pieces(data: string): seq<string>
  {
    FilterNonEmpty(Split(data, LINE_START_MARKER))
  }

  function DecodeResponse(data: string): (r: Response)
    ensures Pieces(data) == [] ==> r == Response(NaN, [])
    ensures Pieces(data) != [] ==> r.id == ParseInt(Pieces(data)[0]) && |r.fragments| == |Pieces(data)| - 1
    ensures forall i | 0 <= i < |r.fragments| :: r.fragments[i] == ToFragment(Pieces(data)[i + 1])
  {
    var pieces := Pieces(data);
    if pieces == [] then Response(NaN, [])
    else Response(ParseInt(pieces[0]), Fragments(pieces[1..]))
  }

  /** One fragment per piece, in order. */
  function Fragments(pieces: seq<string>): (fs: seq<Fragment>)
    ensures |fs| == |pieces|
    ensures forall i | 0 <= i < |fs| :: fs[i] == ToFragment(pieces[i])
  {
    seq(|pieces|, i requires 0 <= i < |pieces| => ToFragment(pieces[i]))
  }

  /** A response as the server frames it: a marker before the header
      `<id><message>` and before every fragment line. */
  function EncodeResponse(id: nat, message: string, lines: seq<string>): string
  {
    Join(["", IntToString(id) + message] + lines, LINE_START_MARKER)
  }

  /** Decoding a response the server framed gives back its id and one
      fragment per line, in order, provided no line is empty, the message
      does not continue the number, and no piece runs into a following
      marker. */
  lemma DecodeEncodedResponse(id: nat, message: string, lines: seq<string>)
    requires EndsNumber(message)
    requires Separable(IntToString(id) + message, LINE_START_MARKER)
    requires forall i | 0 <= i < |lines| :: lines[i] != "" && Separable(lines[i], LINE_START_MARKER)
    ensures DecodeResponse(EncodeResponse(id, message, lines))
         == Response(Int(id), Fragments(lines))
  {
    PiecesOfEncoded(id, message, lines);
    var pieces := Pieces(EncodeResponse(id, message, lines));
    assert pieces[1..] == lines;
    ParseIntToString(id, message);
    assert IntToString(id) + message == pieces[0];
  }

  /** The pieces of a framed response: the header, then every line. */
  lemma PiecesOfEncoded(id: nat, message: string, lines: seq<string>)
    requires Separable(IntToString(id) + message, LINE_START_MARKER)
    requires forall i | 0 <= i < |lines| :: lines[i] != "" && Separable(lines[i], LINE_START_MARKER)
    ensures Pieces(EncodeResponse(id, message, lines)) == [IntToString(id) + message] + lines
  {
    var header := IntToString(id) + message;
    var pieces := ["", header] + lines;
    assert Separable("", LINE_START_MARKER) by {
      assert OccursAt("" + LINE_START_MARKER, LINE_START_MARKER, 0);
      IndexOfIsFirst("" + LINE_START_MARKER, LINE_START_MARKER, 0, 0);
    }
    SeparableFree(pieces[|pieces| - 1], LINE_START_MARKER);
    SplitJoin(pieces, LINE_START_MARKER);
    assert pieces[1..] == [header] + lines;
    assert FilterNonEmpty(pieces) == FilterNonEmpty(pieces[1..]);
    assert header != "" by { assert |IntToString(id)| > 0; }
    assert FilterNonEmpty(pieces[1..]) == [header] + lines;
  }
}
