/**
 * server/src/server.ts, the language server that validates lotus files by
 * running the compiler directly: its bounded `split` helper, the mapping
 * between file paths and `file://` uris, the validation run with its
 * uri-keyed grouping of diagnostics, the one-shot validation on the first
 * opened document, and the resolution of completion items.
 */
module Server {
  import opened Wrappers
  import opened Js
  import opened Exec
  import opened Frames
  import opened Editor

  // ---------------------------------------------------------------------------
  // split

  /** What `split` yields from position `start` on with `n` more cuts to
      make: each cut ends where the separator is next found (`indexOf`) and
      the next piece starts after it; the last piece is the rest. */
  function SplitFrom(s: string, sep: string, start: int, n: nat): (r: seq<string>)
    ensures |r| == n + 1
    decreases n
  {
    if n == 0 then [Substring(s, start, |s|)]
    else
      var end := JsIndexOf(s, sep, start);
      [Substring(s, start, end)] + SplitFrom(s, sep, end + |sep|, n - 1)
  }

  /** The number of cuts `split` makes: `itemCount - 1`, none when that is
      not positive. */
  function Cuts(itemCount: int): nat
  {
    if itemCount > 1 then itemCount - 1 else 0
  }

  /** `split(string, separator, itemCount)`: always `max(itemCount, 1)`
      items, cut as `SplitFrom` describes. */
  method SplitBounded(s: string, separator: string, itemCount: int) returns (items: seq<string>)
    ensures items == SplitFrom(s, separator, 0, Cuts(itemCount))
    ensures |items| == if itemCount > 1 then itemCount else 1
  {
    items := [];
    var start := 0;
    ghost var left := Cuts(itemCount);
    while |items| < itemCount - 1
      invariant |items| <= Cuts(itemCount) && left == Cuts(itemCount) - |items|
      invariant items + SplitFrom(s, separator, start, left) == SplitFrom(s, separator, 0, Cuts(itemCount))
      decreases left
    {
      var end := JsIndexOf(s, separator, start);
      var next := end + |separator|;
      SplitFromStep(s, separator, start, left, end, next);
      var piece := Substring(s, start, end);
      AppendAssoc(items, [piece], SplitFrom(s, separator, next, left - 1));
      items := items + [piece];
      start := next;
      left := left - 1;
    }
    assert SplitFrom(s, separator, start, 0) == [Substring(s, start, |s|)];
    items := items + [Substring(s, start, |s|)];
  }

  lemma AppendAssoc<T>(a: seq<T>, b: seq<T>, c: seq<T>)
    ensures (a + b) + c == a + (b + c)
  {
  }

  /** One cut of `SplitFrom`, at the next occurrence `end` of the separator. */
  lemma SplitFromStep(s: string, sep: string, start: int, n: nat, end: int, next: int)
    requires n > 0 && end == JsIndexOf(s, sep, start) && next == end + |sep|
    ensures SplitFrom(s, sep, start, n) == [Substring(s, start, end)] + SplitFrom(s, sep, next, n - 1)
  {
  }

  /** With at least `n` separators in `s[start..]`, the first `n` pieces are
      those of a full split and the last is the untouched rest. */
  lemma {:induction false} SplitFromFull(s: string, sep: string, start: nat, n: nat)
    requires sep != [] && start <= |s|
    requires n < |Split(s[start..], sep)|
    ensures var pieces := Split(s[start..], sep);
      SplitFrom(s, sep, start, n) == pieces[..n] + [Join(pieces[n..], sep)]
    decreases n
  {
    var pieces := Split(s[start..], sep);
    if n == 0 {
      JoinSplit(s[start..], sep);
      assert s[start..|s|] == s[start..];
      assert pieces[0..] == pieces;
    } else {
      var k, next := CutAt(s, sep, start);
      SplitFromCut(s, sep, start, n, k, next);
      SplitFromFull(s, sep, next, n - 1);
      ConsPieces(s[start..][..k], Split(s[next..], sep), n, sep);
    }
  }

  /** A cut of `SplitFrom` where the separator is found `k` characters on;
      the next piece starts at `next`. */
  lemma SplitFromCut(s: string, sep: string, start: nat, n: nat, k: nat, next: nat)
    requires n > 0 && start + k <= |s| && next == start + k + |sep|
    requires JsIndexOf(s, sep, start) == start + k
    ensures SplitFrom(s, sep, start, n) == [s[start..][..k]] + SplitFrom(s, sep, next, n - 1)
  {
    SplitFromStep(s, sep, start, n, start + k, next);
    SubstringAtCut(s, sep, start, k);
  }

  lemma SubstringAtCut(s: string, sep: string, start: nat, k: nat)
    requires start + k <= |s|
    ensures Substring(s, start, start + k) == s[start..][..k]
  {
  }


  /** The pieces after a first one, cut after `n - 1` of them, extend to the
      same cut of all the pieces after `n`. */
  lemma ConsPieces(head: string, rest: seq<string>, n: nat, sep: string)
    requires 0 < n <= |rest|
    ensures [head] + (rest[..n - 1] + [Join(rest[n - 1..], sep)])
         == ([head] + rest)[..n] + [Join(([head] + rest)[n..], sep)]
  {
    ConsSlices(head, rest, n);
  }

  /** Taking and dropping after a leading element. */
  lemma ConsSlices<T>(x: T, r: seq<T>, n: nat)
    requires 0 < n <= |r| + 1
    ensures ([x] + r)[..n] == [x] + r[..n - 1]
    ensures ([x] + r)[n..] == r[n - 1..]
  {
  }

  /** One cut of `split` where a full split also cuts: the separator is found
      `k` characters after `start`, and the piece before it is the first
      piece of the full split of `s[start..]`. */
  lemma CutAt(s: string, sep: string, start: nat) returns (k: nat, next: nat)
    requires sep != [] && start <= |s|
    requires |Split(s[start..], sep)| > 1
    ensures next == start + k + |sep| <= |s|
    ensures JsIndexOf(s, sep, start) == start + k
    ensures Split(s[start..], sep) == [s[start..][..k]] + Split(s[next..], sep)
  {
    var t := s[start..];
    var after;
    k, after := FirstCut(t, sep);
    next := start + k + |sep|;
    IndexOfSuffix(s, sep, start);
    assert IndexOf(s, sep, start) == start + k;
    SliceOfSlice(s, start, after, next);
    assert Clamp(start, |s|) == start;
  }

  /** A split into more than one piece cuts at the first separator. */
  lemma FirstCut(t: string, sep: string) returns (k: nat, after: nat)
    requires sep != [] && |Split(t, sep)| > 1
    ensures after == k + |sep| <= |t| && IndexOf(t, sep, 0) == k
    ensures Split(t, sep) == [t[..k]] + Split(t[after..], sep)
  {
    k := IndexOf(t, sep, 0);
    after := k + |sep|;
  }

  lemma SliceOfSlice(s: string, a: nat, b: nat, c: nat)
    requires c == a + b <= |s|
    ensures s[a..][b..] == s[c..]
  {
  }

  /** `split` on a string with at least `itemCount - 1` separators: the
      items join back into the string, the first `itemCount - 1` items hold
      no separator, and the last one is the rest of the string. */
  lemma SplitBoundedRoundTrip(s: string, sep: string, itemCount: int)
    requires sep != []
    requires Cuts(itemCount) < |Split(s, sep)|
    ensures var items := SplitFrom(s, sep, 0, Cuts(itemCount));
      && Join(items, sep) == s
      && (forall i | 0 <= i < |items| - 1 :: IndexOf(items[i], sep, 0) == -1)
      && items[|items| - 1] == Join(Split(s, sep)[Cuts(itemCount)..], sep)
  {
    var n := Cuts(itemCount);
    var pieces := Split(s, sep);
    assert s[0..] == s;
    SplitFromFull(s, sep, 0, n);
    var items := SplitFrom(s, sep, 0, n);
    assert items == pieces[..n] + [Join(pieces[n..], sep)];
    JoinItems(pieces, n, sep);
    JoinSplit(s, sep);
    SplitPiecesFree(s, sep);
    forall i | 0 <= i < |items| - 1 ensures IndexOf(items[i], sep, 0) == -1 {
      assert items[i] == pieces[i];
    }
  }

  /** Joining the first `n` pieces and the joined rest gives the join of all. */
  lemma JoinItems(pieces: seq<string>, n: nat, sep: string)
    requires n < |pieces|
    ensures Join(pieces[..n] + [Join(pieces[n..], sep)], sep) == Join(pieces, sep)
  {
    if n > 0 {
      JoinAppend(pieces[..n], [Join(pieces[n..], sep)], sep);
      JoinAppend(pieces[..n], pieces[n..], sep);
      assert pieces[..n] + pieces[n..] == pieces;
    } else {
      assert pieces[..n] + [Join(pieces[n..], sep)] == [Join(pieces, sep)];
      assert pieces[n..] == pieces;
    }
  }

  // ---------------------------------------------------------------------------
  // uris

  /** `filePathToUri`: the path under the `file://` scheme. */
  function FilePathToUri(path: string): (uri: string)
    ensures |uri| == |path| + 7 && uri[..7] == "file://" && uri[7..] == path
  {
    "file://" + path
  }

  /** The path `validateTextDocument` hands to the compiler: the uri less its
      first seven characters, the length of `file://`.  It turns back into
      the same uri exactly when the uri is a `file://` uri. */
  function DocumentPath(uri: string): (path: string)
    ensures FilePathToUri(path) == uri <==> |uri| >= 7 && uri[..7] == "file://"
  {
    if |uri| >= 7 then
      assert uri == uri[..7] + uri[7..];
      Substring(uri, 7, |uri|)
    else
      Substring(uri, 7, |uri|)
  }

  /** Stripping the scheme inverts `filePathToUri`. */
  lemma DocumentPathOfUri(path: string)
    ensures DocumentPath(FilePathToUri(path)) == path
  {
    var uri := FilePathToUri(path);
    var p := DocumentPath(uri);
    assert FilePathToUri(p) == uri;
    assert p == FilePathToUri(p)[7..];
  }

  // ---------------------------------------------------------------------------
  // validation

  /** The command line of `validateTextDocument`: the compiler, the document
      path, `--validate` and `--infer-root`, separated by single spaces. */
  function ValidationCommand(compilerPath: string, documentPath: string): string
  {
    Join([compilerPath, documentPath, "--validate", "--infer-root"], " ")
  }

  /** The compiler receives the document path, then `--validate` and
      `--infer-root`. */
  lemma ValidationCommandWords(compilerPath: string, documentPath: string)
    requires NoSpace(compilerPath) && compilerPath != "" && NoSpace(documentPath) && documentPath != ""
    ensures Words(ValidationCommand(compilerPath, documentPath))
         == [compilerPath, documentPath, "--validate", "--infer-root"]
  {
    assert NoSpace("--validate") && NoSpace("--infer-root");
    WordsOfJoin([compilerPath, documentPath, "--validate", "--infer-root"]);
  }

  /** The uri of a `file` line: its path under `file://`; a line without a
      path gives `file://undefined`. */
  function UriOf(items: seq<string>): (uri: string)
    ensures |items| > 0 ==> uri == FilePathToUri(items[0])
    ensures |items| == 0 ==> uri == FilePathToUri("undefined")
  {
    FilePathToUri(ToStr(Item(items, 0)))
  }

  /** The diagnostic of an `error` line `error;start;end;message`, always an
      error and always from the `lotus` source. */
  function ServerDiagnosticOf(items: seq<string>): (d: Diagnostic)
    ensures d.severity == Error && d.source == Some("lotus") && d.message == Item(items, 2)
    ensures d.range == MakeRange(Item(items, 0), Item(items, 1))
  {
    Diagnostic(MakeRange(Item(items, 0), Item(items, 1)), Item(items, 2), Error, Some("lotus"))
  }

  type UriDiagnostics = Segment<string, Diagnostic>

  /** `uriToDiagnostics`: its keys in insertion order and the list under
      each key. */
  datatype UriTable = UriTable(keys: seq<string>, lists: map<string, seq<Diagnostic>>)

  /** The table a sequence of groups leaves behind when every group is
      stored under its uri: a uri seen again keeps its place and its list is
      replaced by the new group's.  The keys are exactly the uris that hold a
      list, each listed once. */
  function Collapse(segs: seq<UriDiagnostics>): (t: UriTable)
    ensures forall i | 0 <= i < |t.keys| :: t.keys[i] in t.lists
    ensures forall i, j | 0 <= i < j < |t.keys| :: t.keys[i] != t.keys[j]
    ensures |t.keys| == |t.lists|
  {
    if segs == [] then UriTable([], map[])
    else
      var prev := Collapse(segs[..|segs| - 1]);
      var last := segs[|segs| - 1];
      var keys := if last.header in prev.lists then prev.keys else prev.keys + [last.header];
      UriTable(keys, prev.lists[last.header := last.members])
  }

  /** A uri is in the table exactly when some group carries it. */
  lemma {:induction false} CollapseKeys(segs: seq<UriDiagnostics>)
    ensures forall k :: k in Collapse(segs).lists <==> exists i | 0 <= i < |segs| :: segs[i].header == k
  {
    if segs != [] {
      var prefix := segs[..|segs| - 1];
      CollapseKeys(prefix);
      forall k ensures k in Collapse(segs).lists <==> exists i | 0 <= i < |segs| :: segs[i].header == k {
        if k in Collapse(prefix).lists {
          var i :| 0 <= i < |prefix| && prefix[i].header == k;
          assert segs[i].header == k;
        }
        if exists i | 0 <= i < |segs| :: segs[i].header == k {
          var i :| 0 <= i < |segs| && segs[i].header == k;
          if i < |prefix| {
            assert prefix[i].header == k;
          }
        }
      }
    }
  }

  /** Index of the first group carrying `uri`, or the number of groups when
      none does. */
  function FirstCarrier(segs: seq<UriDiagnostics>, uri: string): (n: nat)
    ensures n <= |segs|
    ensures n < |segs| ==> segs[n].header == uri
    ensures forall j | 0 <= j < n :: segs[j].header != uri
  {
    if segs == [] then 0
    else if segs[0].header == uri then 0
    else 1 + FirstCarrier(segs[1..], uri)
  }

  /** Adding a group at the end leaves the first carrier of a uri already
      carried where it was, and makes the new group the first carrier of a
      uri not carried before. */
  lemma FirstCarrierSnoc(segs: seq<UriDiagnostics>, uri: string)
    requires segs != []
    ensures var prefix := segs[..|segs| - 1];
      && (FirstCarrier(prefix, uri) < |prefix| ==> FirstCarrier(segs, uri) == FirstCarrier(prefix, uri))
      && (FirstCarrier(prefix, uri) == |prefix| && segs[|prefix|].header == uri ==> FirstCarrier(segs, uri) == |prefix|)
  {
    var prefix := segs[..|segs| - 1];
    assert forall j | 0 <= j < |prefix| :: prefix[j] == segs[j];
  }

  /** `Object.entries` order for the table's string keys: every key has a
      carrier, and the keys are listed in the order in which their uris first
      appear among the groups. */
  lemma {:induction false} CollapseKeyOrder(segs: seq<UriDiagnostics>)
    ensures forall a | 0 <= a < |Collapse(segs).keys| :: FirstCarrier(segs, Collapse(segs).keys[a]) < |segs|
    ensures forall a, b | 0 <= a < b < |Collapse(segs).keys| ::
      FirstCarrier(segs, Collapse(segs).keys[a]) < FirstCarrier(segs, Collapse(segs).keys[b])
  {
    if segs != [] {
      var prefix := segs[..|segs| - 1];
      var prev := Collapse(prefix);
      var keys := Collapse(segs).keys;
      var h := segs[|prefix|].header;
      CollapseKeyOrder(prefix);
      forall a | 0 <= a < |prev.keys| ensures FirstCarrier(segs, prev.keys[a]) == FirstCarrier(prefix, prev.keys[a]) {
        FirstCarrierSnoc(segs, prev.keys[a]);
      }
      if h !in prev.lists {
        assert keys == prev.keys + [h];
        CollapseKeys(prefix);
        assert FirstCarrier(prefix, h) == |prefix|;
        FirstCarrierSnoc(segs, h);
        assert keys[|prev.keys|] == h;
      } else {
        assert keys == prev.keys;
      }
    }
  }

  /** The list under a uri is the one of the last group carrying it: a
      repeated uri replaces the earlier list. */
  lemma {:induction false} CollapseLastWins(segs: seq<UriDiagnostics>, i: nat)
    requires i < |segs|
    requires forall j | i < j < |segs| :: segs[j].header != segs[i].header
    ensures segs[i].header in Collapse(segs).lists
    ensures Collapse(segs).lists[segs[i].header] == segs[i].members
  {
    if i < |segs| - 1 {
      var prefix := segs[..|segs| - 1];
      CollapseLastWins(prefix, i);
    }
  }

  /** An error pushed to the current list lands in the table under the
      current uri, after the diagnostics already there. */
  lemma CollapseAddMember(segs: seq<UriDiagnostics>, d: Diagnostic)
    requires segs != []
    ensures var t := Collapse(segs);
      var h := segs[|segs| - 1].header;
      && h in t.lists
      && Collapse(AddMember(segs, d)) == UriTable(t.keys, t.lists[h := t.lists[h] + [d]])
  {
    var n := |segs|;
    var last := segs[n - 1];
    var r := AddMember(segs, d);
    assert r[..n - 1] == segs[..n - 1];
    CollapseUnfold(segs);
    CollapseUnfold(r);
    var prev := Collapse(segs[..n - 1]);
    UpdateTwice(prev.lists, last.header, last.members, last.members + [d]);
  }

  lemma UpdateTwice<K, V>(m: map<K, V>, k: K, a: V, b: V)
    ensures m[k := a][k := b] == m[k := b]
  {
  }

  /** One step of `Collapse`, stated without its quantified facts. */
  lemma CollapseUnfold(segs: seq<UriDiagnostics>)
    requires segs != []
    ensures var prev := Collapse(segs[..|segs| - 1]);
      var last := segs[|segs| - 1];
      && Collapse(segs).keys == (if last.header in prev.lists then prev.keys else prev.keys + [last.header])
      && Collapse(segs).lists == prev.lists[last.header := last.members]
  {
  }

  /** The table `validateTextDocument` fills from the compiler output. */
  function ValidationTable(output: string): UriTable
  {
    Collapse(Segments(LineFrames(output), "file", "error", UriOf, ServerDiagnosticOf))
  }

  /** One `sendDiagnostics` call. */
  datatype Publication = Publication(uri: string, diagnostics: seq<Diagnostic>)

  /** The publications of a table, one per key, in key order. */
  function Publications(t: UriTable): (ps: seq<Publication>)
    requires forall k | k in t.keys :: k in t.lists
    ensures |ps| == |t.keys|
    ensures forall i | 0 <= i < |ps| :: ps[i] == Publication(t.keys[i], t.lists[t.keys[i]])
  {
    seq(|t.keys|, i requires 0 <= i < |t.keys| => Publication(t.keys[i], t.lists[t.keys[i]]))
  }

  /** The loop of `validateTextDocument` over the output lines: a `file`
      line stores a new empty list under its uri (a repeated uri keeps its
      place and loses its earlier list) and makes it current; an `error`
      line appends to the current list, and is dropped while there is none;
      other lines are ignored.  The result is `uriToDiagnostics`. */
  method GroupDiagnostics(output: string) returns (keys: seq<string>, lists: map<string, seq<Diagnostic>>)
    ensures UriTable(keys, lists) == ValidationTable(output)
  {
    var lines := ParseLines(output);
    ghost var frames := LineFrames(output);
    keys, lists := [], map[];
    var current: Option<string> := None;
    var i := 0;
    while i < |lines|
      invariant 0 <= i <= |lines|
      invariant Grouped(frames, i, keys, lists, current)
    {
      var line := lines[i];
      var kind := line[0];
      LineFields(line, frames[i]);
      if kind == "file" {
        var fileUri := FilePathToUri(ToStr(Item(line, 1)));
        GroupFile(frames, i, keys, lists, current);
        if fileUri !in lists {
          keys := keys + [fileUri];
        }
        lists := lists[fileUri := []];
        current := Some(fileUri);
      } else if kind == "error" {
        var diagnostic := Diagnostic(MakeRange(Item(line, 1), Item(line, 2)), Item(line, 3), Error, Some("lotus"));
        GroupError(frames, i, keys, lists, current);
        if current.Some? {
          lists := lists[current.value := lists[current.value] + [diagnostic]];
        }
      } else {
        GroupOther(frames, i, keys, lists, current);
      }
      i := i + 1;
    }
    assert frames[..|lines|] == frames;
  }

  /** A `file` line stores an empty list under its uri, which is appended
      to the keys only when new. */
  lemma CollapseAddGroup(segs: seq<UriDiagnostics>, uri: string)
    ensures var t := Collapse(segs);
      Collapse(segs + [Segment(uri, [])])
        == UriTable(if uri in t.lists then t.keys else t.keys + [uri], t.lists[uri := []])
  {
    assert (segs + [Segment(uri, [])])[..|segs|] == segs;
    CollapseUnfold(segs + [Segment(uri, [])]);
  }

  /** The state of the grouping loop after `i` lines: the table of the
      groups so far, and the uri of the last group as the current list. */
  ghost predicate Grouped(frames: seq<Frame>, i: nat, keys: seq<string>, lists: map<string, seq<Diagnostic>>,
                          current: Option<string>)
  {
    && i <= |frames|
    && var segs := Segments(frames[..i], "file", "error", UriOf, ServerDiagnosticOf);
      && UriTable(keys, lists) == Collapse(segs)
      && current == if segs == [] then None else Some(segs[|segs| - 1].header)
  }

  /** The fields of an output line seen through its frame. */
  lemma LineFields(line: seq<string>, frame: Frame)
    requires [frame.kind] + frame.items == line
    ensures line[0] == frame.kind
    ensures UriOf(frame.items) == FilePathToUri(ToStr(Item(line, 1)))
    ensures ServerDiagnosticOf(frame.items)
         == Diagnostic(MakeRange(Item(line, 1), Item(line, 2)), Item(line, 3), Error, Some("lotus"))
  {
    LineItem(line, frame, 0);
    LineItem(line, frame, 1);
    LineItem(line, frame, 2);
  }

  lemma GroupFile(frames: seq<Frame>, i: nat, keys: seq<string>, lists: map<string, seq<Diagnostic>>,
                  current: Option<string>)
    requires i < |frames| && Grouped(frames, i, keys, lists, current)
    requires frames[i].kind == "file"
    ensures var uri := UriOf(frames[i].items);
      Grouped(frames, i + 1, if uri in lists then keys else keys + [uri], lists[uri := []], Some(uri))
  {
    var segs := Segments(frames[..i], "file", "error", UriOf, ServerDiagnosticOf);
    SegmentsStep(frames, i, "file", "error", UriOf, ServerDiagnosticOf);
    CollapseAddGroup(segs, UriOf(frames[i].items));
  }

  lemma GroupError(frames: seq<Frame>, i: nat, keys: seq<string>, lists: map<string, seq<Diagnostic>>,
                   current: Option<string>)
    requires i < |frames| && Grouped(frames, i, keys, lists, current)
    requires frames[i].kind == "error"
    ensures current.Some? ==> current.value in lists
    ensures var d := ServerDiagnosticOf(frames[i].items);
      Grouped(frames, i + 1, keys, if current.Some? then lists[current.value := lists[current.value] + [d]] else lists, current)
  {
    var segs := Segments(frames[..i], "file", "error", UriOf, ServerDiagnosticOf);
    SegmentsStep(frames, i, "file", "error", UriOf, ServerDiagnosticOf);
    if segs != [] {
      CollapseAddMember(segs, ServerDiagnosticOf(frames[i].items));
    }
  }

  lemma GroupOther(frames: seq<Frame>, i: nat, keys: seq<string>, lists: map<string, seq<Diagnostic>>,
                   current: Option<string>)
    requires i < |frames| && Grouped(frames, i, keys, lists, current)
    requires frames[i].kind != "file" && frames[i].kind != "error"
    ensures Grouped(frames, i + 1, keys, lists, current)
  {
    SegmentsStep(frames, i, "file", "error", UriOf, ServerDiagnosticOf);
  }

  /** The module state of the server: the compiler it runs, the one-shot
      flag for the first opened document, the validation counter, and, in
      place of the process and the connection, the commands it has run and
      the diagnostics it has sent. */
  class LspServer {
    const compilerPath: string
    var validationOnOpenRan: bool
    var validationCount: nat
    var commands: seq<string>
    var published: seq<Publication>

    /** Every validation runs the compiler once. */
    ghost predicate Valid()
      reads this
    {
      validationCount == |commands|
    }

    constructor (compilerPath: string)
      ensures Valid()
      ensures this.compilerPath == compilerPath
      ensures !validationOnOpenRan && validationCount == 0 && commands == [] && published == []
    {
      this.compilerPath := compilerPath;
      validationOnOpenRan := false;
      validationCount := 0;
      commands := [];
      published := [];
    }

    /** `validateTextDocument` with the compiler's answer `output`: the run
        is counted, the compiler is run on the document path, and one
        publication is sent per uri of a `file` line, in order of first
        appearance, holding the errors that followed the last `file` line
        with that uri.  Errors before any `file` line and lines of other
        types are not sent. */
    method ValidateTextDocument(uri: string, output: string)
      requires Valid()
      modifies this
      ensures Valid()
      ensures validationOnOpenRan == old(validationOnOpenRan)
      ensures validationCount == old(validationCount) + 1
      ensures commands == old(commands) + [ValidationCommand(compilerPath, DocumentPath(uri))]
      ensures published == old(published) + Publications(ValidationTable(output))
    {
      validationCount := validationCount + 1;
      var documentPath := DocumentPath(uri);
      commands := commands + [ValidationCommand(compilerPath, documentPath)];
      var keys, lists := GroupDiagnostics(output);
      Publish(UriTable(keys, lists));
    }

    /** The loop over `uriToDiagnostics`: one `sendDiagnostics` per entry, in
        key order; nothing else changes. */
    method Publish(t: UriTable)
      requires forall k | k in t.keys :: k in t.lists
      modifies this
      ensures published == old(published) + Publications(t)
      ensures validationOnOpenRan == old(validationOnOpenRan)
      ensures validationCount == old(validationCount) && commands == old(commands)
    {
      var j := 0;
      while j < |t.keys|
        invariant validationOnOpenRan == old(validationOnOpenRan)
        invariant validationCount == old(validationCount) && commands == old(commands)
        invariant 0 <= j <= |t.keys|
        invariant published == old(published) + Publications(t)[..j]
      {
        assert Publications(t)[..j + 1] == Publications(t)[..j] + [Publication(t.keys[j], t.lists[t.keys[j]])];
        published := published + [Publication(t.keys[j], t.lists[t.keys[j]])];
        j := j + 1;
      }
    }

    /** `onDidOpen`: only the first opened document is validated; every
        later open changes nothing. */
    method OnDidOpen(uri: string, output: string)
      requires Valid()
      modifies this
      ensures Valid()
      ensures validationOnOpenRan
      ensures old(validationOnOpenRan) ==>
        && validationCount == old(validationCount)
        && commands == old(commands)
        && published == old(published)
      ensures !old(validationOnOpenRan) ==>
        && validationCount == old(validationCount) + 1
        && commands == old(commands) + [ValidationCommand(compilerPath, DocumentPath(uri))]
        && published == old(published) + Publications(ValidationTable(output))
    {
      if !validationOnOpenRan {
        validationOnOpenRan := true;
        ValidateTextDocument(uri, output);
      }
    }

    /** `onDidSave`: every save validates the saved document. */
    method OnDidSave(uri: string, output: string)
      requires Valid()
      modifies this
      ensures Valid()
      ensures validationOnOpenRan == old(validationOnOpenRan)
      ensures validationCount == old(validationCount) + 1
      ensures commands == old(commands) + [ValidationCommand(compilerPath, DocumentPath(uri))]
      ensures published == old(published) + Publications(ValidationTable(output))
    {
      ValidateTextDocument(uri, output);
    }
  }

  // ---------------------------------------------------------------------------
  // completion

  /** The `data` of a completion item: a number, or any other value. */
  datatype ItemData = Number(value: int) | Other

  /** The fields of a completion item the resolver reads or writes. */
  datatype ServerCompletionItem = ServerCompletionItem(
    labelText: string, data: ItemData, detail: Option<string>, documentation: Option<string>)

  /** `onCompletionResolve`: the items with `data` 1 and 2 get their
      TypeScript and JavaScript detail and documentation; every other item is
      returned unchanged.  The label and data are never touched. */
  function CompletionResolve(item: ServerCompletionItem): (r: ServerCompletionItem)
    ensures r.labelText == item.labelText && r.data == item.data
    ensures item.data == Number(1) ==>
      r.detail == Some("TypeScript details") && r.documentation == Some("TypeScript documentation")
    ensures item.data == Number(2) ==>
      r.detail == Some("JavaScript details") && r.documentation == Some("JavaScript documentation")
    ensures item.data != Number(1) && item.data != Number(2) ==> r == item
  {
    if item.data == Number(1) then
      item.(detail := Some("TypeScript details"), documentation := Some("TypeScript documentation"))
    else if item.data == Number(2) then
      item.(detail := Some("JavaScript details"), documentation := Some("JavaScript documentation"))
    else item
  }
}
