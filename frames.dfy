/**
 * The folds the feature handlers run over the ordered `{type, items}`
 * fragments of one answer: the first or last fragment of a kind, all
 * fragments of a kind in order, and the grouping of "member" fragments under
 * the most recent "header" fragment (errors under files, replacements under
 * code actions).  Header and member payloads go through caller-supplied
 * conversions, so every handler states its result through these functions.
 */
module Frames {
  import opened Wrappers

  /** The part of a fragment the handlers look at: `for ({ type, items } of output)`. */
  datatype Frame = Frame(kind: string, items: seq<string>)

  /** Index of the first frame of `kind` at or after `from`. */
  function FindKind(frames: seq<Frame>, kind: string, from: nat): (r: Option<nat>)
    requires from <= |frames|
    decreases |frames| - from
    ensures r.Some? ==> from <= r.value < |frames| && frames[r.value].kind == kind
    ensures forall j | from <= j < |frames| && (r.None? || j < r.value) :: frames[j].kind != kind
  {
    if from == |frames| then None
    else if frames[from].kind == kind then Some(from)
    else FindKind(frames, kind, from + 1)
  }

  /** The early-return search of the handlers that stop at the first match. */
  function FirstOfKind(frames: seq<Frame>, kind: string): (r: Option<nat>)
    ensures r.Some? ==> r.value < |frames| && frames[r.value].kind == kind
    ensures forall j | 0 <= j < |frames| && (r.None? || j < r.value) :: frames[j].kind != kind
  {
    FindKind(frames, kind, 0)
  }

  /** Frames after the first match cannot change what the search finds. */
  lemma FirstOfKindAppend(xs: seq<Frame>, ys: seq<Frame>, kind: string)
    requires FirstOfKind(xs, kind).Some?
    ensures FirstOfKind(xs + ys, kind) == FirstOfKind(xs, kind)
  {
    var i := FirstOfKind(xs, kind).value;
    assert (xs + ys)[i] == xs[i];
    forall j | 0 <= j < i
      ensures (xs + ys)[j].kind != kind
    {
      assert (xs + ys)[j] == xs[j];
    }
  }

  /** Index of the last frame of `kind`: a loop that overwrites its result on
      every match ends with this. */
  function LastOfKind(frames: seq<Frame>, kind: string): (r: Option<nat>)
    ensures r.Some? ==> r.value < |frames| && frames[r.value].kind == kind
    ensures forall j | 0 <= j < |frames| && (r.None? || r.value < j) :: frames[j].kind != kind
  {
    if |frames| == 0 then None
    else if frames[|frames| - 1].kind == kind then Some(|frames| - 1)
    else LastOfKind(frames[..|frames| - 1], kind)
  }

  /** The converted payloads of the frames of `kind`, in order. */
  function OfKind<T>(frames: seq<Frame>, kind: string, f: seq<string> -> T): (r: seq<T>)
    ensures |r| <= |frames|
  {
    if |frames| == 0 then []
    else
      OfKind(frames[..|frames| - 1], kind, f)
      + (if frames[|frames| - 1].kind == kind then [f(frames[|frames| - 1].items)] else [])
  }

  /** One more frame: kept when it has the kind, skipped otherwise. */
  lemma OfKindStep<T>(frames: seq<Frame>, i: nat, kind: string, f: seq<string> -> T)
    requires i < |frames|
    ensures OfKind(frames[..i + 1], kind, f)
         == OfKind(frames[..i], kind, f) + (if frames[i].kind == kind then [f(frames[i].items)] else [])
  {
    assert frames[..i + 1][..i] == frames[..i];
  }

  /** `OfKind` distributes over concatenation: it keeps each matching frame
      exactly once, in place, and drops the rest. */
  lemma {:induction false} OfKindAppend<T>(xs: seq<Frame>, ys: seq<Frame>, kind: string, f: seq<string> -> T)
    ensures OfKind(xs + ys, kind, f) == OfKind(xs, kind, f) + OfKind(ys, kind, f)
    decreases |ys|
  {
    if |ys| == 0 {
      assert xs + ys == xs;
    } else {
      var ys' := ys[..|ys| - 1];
      assert (xs + ys)[..|xs + ys| - 1] == xs + ys';
      OfKindAppend(xs, ys', kind, f);
    }
  }

  /** A frame list without `kind` contributes nothing. */
  lemma {:induction false} OfKindNone<T>(frames: seq<Frame>, kind: string, f: seq<string> -> T)
    requires forall j | 0 <= j < |frames| :: frames[j].kind != kind
    ensures OfKind(frames, kind, f) == []
  {
    if |frames| > 0 {
      OfKindNone(frames[..|frames| - 1], kind, f);
    }
  }

  /** No match for the first search exactly when nothing is collected. */
  lemma {:induction false} OfKindEmptyIff<T>(frames: seq<Frame>, kind: string, f: seq<string> -> T)
    ensures OfKind(frames, kind, f) == [] <==> FirstOfKind(frames, kind).None?
  {
    if FirstOfKind(frames, kind).None? {
      OfKindNone(frames, kind, f);
    } else {
      var i := FirstOfKind(frames, kind).value;
      assert frames == frames[..i] + [frames[i]] + frames[i + 1..];
      OfKindAppend(frames[..i] + [frames[i]], frames[i + 1..], kind, f);
      assert (frames[..i] + [frames[i]])[..i] == frames[..i];
    }
  }

  /** One header with the members that follow it. */
  datatype Segment<H, M> = Segment(header: H, members: seq<M>)

  /** Append a member to the last (current) segment. */
  function AddMember<H, M>(segs: seq<Segment<H, M>>, m: M): (r: seq<Segment<H, M>>)
    requires segs != []
    ensures |r| == |segs| && r[..|r| - 1] == segs[..|segs| - 1]
    ensures r[|r| - 1] == Segment(segs[|segs| - 1].header, segs[|segs| - 1].members + [m])
  {
    var last := segs[|segs| - 1];
    segs[..|segs| - 1] + [Segment(last.header, last.members + [m])]
  }

  /** Every `header` frame opens a new, empty segment; every `member` frame
      joins the segment opened last; members before the first header and
      frames of any other kind are not kept. */
  function Segments<H, M>(frames: seq<Frame>, header: string, member: string,
                          hf: seq<string> -> H, mf: seq<string> -> M): seq<Segment<H, M>>
  {
    if |frames| == 0 then []
    else
      var prev := Segments(frames[..|frames| - 1], header, member, hf, mf);
      var f := frames[|frames| - 1];
      if f.kind == header then prev + [Segment(hf(f.items), [])]
      else if f.kind == member && prev != [] then AddMember(prev, mf(f.items))
      else prev
  }

  /** `Segments` of a prefix one frame longer: the step a loop over the
      frames takes. */
  lemma SegmentsStep<H, M>(frames: seq<Frame>, i: nat, header: string, member: string,
                           hf: seq<string> -> H, mf: seq<string> -> M)
    requires i < |frames|
    ensures var segs := Segments(frames[..i], header, member, hf, mf);
      var f := frames[i];
      Segments(frames[..i + 1], header, member, hf, mf)
        == if f.kind == header then segs + [Segment(hf(f.items), [])]
           else if f.kind == member && segs != [] then AddMember(segs, mf(f.items))
           else segs
  {
    assert frames[..i + 1][..i] == frames[..i];
  }

  /** The members that arrive while no header has been seen yet. */
  function Preamble<M>(frames: seq<Frame>, header: string, member: string, mf: seq<string> -> M): seq<M>
  {
    if |frames| == 0 then []
    else
      var prefix := frames[..|frames| - 1];
      var f := frames[|frames| - 1];
      Preamble(prefix, header, member, mf)
      + (if f.kind != header && f.kind == member && FirstOfKind(prefix, header).None? then [mf(f.items)] else [])
  }

  /** All member payloads of all segments, in order. */
  function Flatten<H, M>(segs: seq<Segment<H, M>>): seq<M>
  {
    if |segs| == 0 then [] else Flatten(segs[..|segs| - 1]) + segs[|segs| - 1].members
  }

  /** One segment per header frame, in order, carrying that frame's payload. */
  lemma {:induction false} SegmentHeaders<H, M>(frames: seq<Frame>, header: string, member: string,
                                               hf: seq<string> -> H, mf: seq<string> -> M)
    ensures var segs := Segments(frames, header, member, hf, mf);
      && |segs| == |OfKind(frames, header, hf)|
      && forall i | 0 <= i < |segs| :: segs[i].header == OfKind(frames, header, hf)[i]
  {
    if |frames| > 0 {
      SegmentHeaders(frames[..|frames| - 1], header, member, hf, mf);
    }
  }

  /** The current segment exists exactly when some header has been seen. */
  lemma SegmentsEmptyIff<H, M>(frames: seq<Frame>, header: string, member: string,
                              hf: seq<string> -> H, mf: seq<string> -> M)
    ensures Segments(frames, header, member, hf, mf) == [] <==> FirstOfKind(frames, header).None?
  {
    SegmentHeaders(frames, header, member, hf, mf);
    OfKindEmptyIff(frames, header, hf);
  }

  lemma FlattenAddMember<H, M>(segs: seq<Segment<H, M>>, m: M)
    requires segs != []
    ensures Flatten(AddMember(segs, m)) == Flatten(segs) + [m]
  {
    var r := AddMember(segs, m);
    assert r[..|r| - 1] == segs[..|segs| - 1];
  }

  /** No member is lost or duplicated: the preamble followed by the members
      of every segment is exactly the member frames, in order. */
  lemma {:induction false} MembersPreserved<H, M>(frames: seq<Frame>, header: string, member: string,
                                                 hf: seq<string> -> H, mf: seq<string> -> M)
    requires header != member
    ensures Preamble(frames, header, member, mf) + Flatten(Segments(frames, header, member, hf, mf))
            == OfKind(frames, member, mf)
  {
    if |frames| > 0 {
      var prefix := frames[..|frames| - 1];
      var f := frames[|frames| - 1];
      var prev := Segments(prefix, header, member, hf, mf);
      MembersPreserved(prefix, header, member, hf, mf);
      SegmentsEmptyIff(prefix, header, member, hf, mf);
      if f.kind == header {
        assert Flatten(prev + [Segment(hf(f.items), [])]) == Flatten(prev);
      } else if f.kind == member && prev != [] {
        FlattenAddMember(prev, mf(f.items));
      }
    }
  }

  /** The segment of the last header holds exactly the members after it. */
  lemma {:induction false} LastSegment<H, M>(xs: seq<Frame>, h: seq<string>, ys: seq<Frame>, header: string,
                                            member: string, hf: seq<string> -> H, mf: seq<string> -> M)
    requires forall j | 0 <= j < |ys| :: ys[j].kind != header
    ensures Segments(xs + [Frame(header, h)] + ys, header, member, hf, mf)
            == Segments(xs, header, member, hf, mf) + [Segment(hf(h), OfKind(ys, member, mf))]
    decreases |ys|
  {
    var frames := xs + [Frame(header, h)] + ys;
    if |ys| == 0 {
      assert frames[..|frames| - 1] == xs;
    } else {
      var ys' := ys[..|ys| - 1];
      var g := ys[|ys| - 1];
      assert frames[..|frames| - 1] == xs + [Frame(header, h)] + ys';
      assert frames[|frames| - 1] == g;
      LastSegment(xs, h, ys', header, member, hf, mf);
      var prev := Segments(xs, header, member, hf, mf) + [Segment(hf(h), OfKind(ys', member, mf))];
      assert Segments(frames[..|frames| - 1], header, member, hf, mf) == prev;
      assert g.kind != header;
      if g.kind == member {
        assert OfKind(ys, member, mf) == OfKind(ys', member, mf) + [mf(g.items)];
        assert AddMember(prev, mf(g.items))
          == Segments(xs, header, member, hf, mf) + [Segment(hf(h), OfKind(ys', member, mf) + [mf(g.items)])];
      } else {
        assert OfKind(ys, member, mf) == OfKind(ys', member, mf);
      }
    }
  }

  /** The preamble is the members strictly before the first header. */
  lemma {:induction false} PreambleBeforeFirstHeader<M>(frames: seq<Frame>, header: string, member: string,
                                                       mf: seq<string> -> M)
    ensures var cut := match FirstOfKind(frames, header) case Some(i) => i case None => |frames|;
      Preamble(frames, header, member, mf) == OfKind(frames[..cut], member, mf)
  {
    if |frames| > 0 {
      var prefix := frames[..|frames| - 1];
      var f := frames[|frames| - 1];
      PreambleBeforeFirstHeader(prefix, header, member, mf);
      assert frames == prefix + [f];
      match FirstOfKind(prefix, header)
      case Some(i) =>
        FirstOfKindAppend(prefix, [f], header);
        assert frames[..i] == prefix[..i];
      case None =>
        if f.kind == header {
          assert FirstOfKind(frames, header) == Some(|frames| - 1);
          assert frames[..|frames| - 1] == prefix;
          assert prefix[..|prefix|] == prefix;
        } else {
          assert FirstOfKind(frames, header).None?;
          assert frames[..|frames|] == frames;
          assert prefix[..|prefix|] == prefix;
        }
    }
  }

  /** What the preamble holds after a prefix stays at the front of the
      preamble of the whole list. */
  lemma {:induction false} PreamblePrefix<M>(frames: seq<Frame>, n: nat, header: string, member: string,
                                            mf: seq<string> -> M)
    requires n <= |frames|
    ensures Preamble(frames[..n], header, member, mf) <= Preamble(frames, header, member, mf)
    decreases |frames| - n
  {
    if n < |frames| {
      PreamblePrefix(frames, n + 1, header, member, mf);
      assert frames[..n + 1][..n] == frames[..n];
    } else {
      assert frames[..n] == frames;
    }
  }
}
