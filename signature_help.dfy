/**
 * The signature-help handler of client/src/features/signature-help.ts: the
 * loop overwrites its result at every `signature` fragment, so the last one
 * decides the single signature shown.
 */
module SignatureHelp {
  import opened Wrappers
  import opened Js
  import opened Codec
  import opened Frames

  /** `provide-signature-help` at the cursor, with the document's content. */
  function SignatureHelpRequest(document: Document, position: nat): (c: Call)
    ensures forall id ::
      (MakeRequest(id, c) == Request(id, CommandName.ProvideSignatureHelp, document.path, position, document.text, ""))
  {
    Call(CommandName.ProvideSignatureHelp, document, CommandParameters(Some(position), true, None))
  }

  /** `new ParameterInformation([start, end])`; a range without `:` leaves
      `end` undefined. */
  datatype ParameterInformation = ParameterInformation(start: Num, end: Num)

  datatype SignatureInformation = SignatureInformation(
    labelText: Option<string>, activeParameter: Num, parameters: seq<ParameterInformation>)

  datatype Help = Help(activeSignature: nat, signatures: seq<SignatureInformation>)

  /** A parameter range `start:end`, each bound read by `parseInt`. */
  function ParameterOf(range: string): (p: ParameterInformation)
    ensures p.start != Undefined
  {
    var bounds := Split(range, ":");
    ParameterInformation(ParseInt(bounds[0]), if |bounds| > 1 then ParseInt(bounds[1]) else Undefined)
  }

  /** Without a `:`, the whole range is the start and the end is undefined. */
  lemma ParameterOfWithoutColon(range: string)
    requires IndexOf(range, ":", 0) == -1
    ensures ParameterOf(range).start == ParseInt(range)
    ensures ParameterOf(range).end == Undefined
  {
    assert Split(range, ":") == [range];
  }

  /** With a `:`, the start is the text before the first one and the end the
      text after it up to the next `:` (or to the end). */
  lemma ParameterOfWithColon(range: string)
    requires IndexOf(range, ":", 0) != -1
    ensures var k := IndexOf(range, ":", 0);
      && ParameterOf(range).start == ParseInt(range[..k])
      && ParameterOf(range).end == ParseInt(Split(range[k + 1..], ":")[0])
  {
    var k := IndexOf(range, ":", 0);
    var bounds := Split(range, ":");
    var rest := Split(range[k + 1..], ":");
    assert bounds == [range[..k]] + rest;
    assert |bounds| > 1 && bounds[0] == range[..k] && bounds[1] == rest[0];
  }

  /** A parameter range written as two decimal offsets reads back as them. */
  lemma ParameterOfOffsets(a: int, b: int)
    ensures ParameterOf(IntToString(a) + ":" + IntToString(b)) == ParameterInformation(Int(a), Int(b))
  {
    IntToStringChars(a);
    IntToStringChars(b);
    SplitPair(IntToString(a), IntToString(b), ':');
    ParseIntToString(a, "");
    ParseIntToString(b, "");
    assert IntToString(a) + "" == IntToString(a);
    assert IntToString(b) + "" == IntToString(b);
  }

  /** The signature of a `signature` fragment `[label, activeParameter,
      ...parameters]`: one parameter per item after the first two. */
  function SignatureOf(items: seq<string>): (s: SignatureInformation)
    ensures s.labelText == Item(items, 0) && s.activeParameter == ParseIntOpt(Item(items, 1))
    ensures |s.parameters| == if |items| > 2 then |items| - 2 else 0
    ensures forall k | 0 <= k < |s.parameters| :: s.parameters[k] == ParameterOf(items[k + 2])
  {
    var rest := if |items| > 2 then items[2..] else [];
    SignatureInformation(Item(items, 0), ParseIntOpt(Item(items, 1)),
      seq(|rest|, k requires 0 <= k < |rest| => ParameterOf(rest[k])))
  }

  /** What the handler returns after reading the frames: null without a
      `signature` frame, otherwise one signature, from the frame at `i`,
      shown as the active one. */
  function HelpAt(frames: seq<Frame>, last: Option<nat>): Option<Help>
    requires last.Some? ==> last.value < |frames|
  {
    match last
    case None => None
    case Some(i) => Some(Help(0, [SignatureOf(frames[i].items)]))
  }

  /** The loop of `provideSignatureHelp`: the result is null when no
      `signature` fragment arrives, and otherwise built from the last one;
      it always holds exactly one signature, the active one. */
  method ProvideSignatureHelp(answer: seq<Frame>) returns (r: Option<Help>)
    ensures r == HelpAt(answer, LastOfKind(answer, "signature"))
    ensures r.Some? ==> r.value.activeSignature == 0 && |r.value.signatures| == 1
  {
    r := None;
    var i := 0;
    while i < |answer|
      invariant 0 <= i <= |answer|
      invariant r == HelpAt(answer, LastOfKind(answer[..i], "signature"))
    {
      assert answer[..i + 1][..i] == answer[..i];
      if answer[i].kind == "signature" {
        var items := answer[i].items;
        var signature := SignatureOf(items);
        r := Some(Help(0, [signature]));
      }
      i := i + 1;
    }
    assert answer[..|answer|] == answer;
  }
}
