/** `positionSidenotes`: one greedy pass over the asides in document order
    that aligns each with its anchor and pushes it down to clear the one
    before it. Rectangles are integers supplied by the layout. */
module Geometry {
  import opened Options
  import opened Dom

  /** Least vertical gap between two consecutive asides, in pixels. */
  const NoteGap := 10

  /** What the browser's layout reports during one pass. `anchorTop` holds
      the top of every anchor that `getElementById` finds; the other three
      are indexed by the position of an aside in document order: the top of
      its wrapper, its height, and the offset it sits at while it has no
      inline top. */
  datatype Layout = Layout(anchorTop: map<string, int>,
                           containerTop: nat -> int,
                           height: nat -> nat,
                           staticOffset: nat -> int)

  /** `document.getElementById(anchorId)` finds the anchor; it never finds
      anything for the empty id. */
  predicate Found(layout: Layout, anchorId: string)
  {
    anchorId != "" && anchorId in layout.anchorTop
  }

  function Max(a: int, b: int): int
  {
    if a < b then b else a
  }

  /** The offset of an aside from the top of its wrapper, given the top of
      its anchor, the top of the wrapper and, for every aside but the first,
      the bottom of the aside before it. */
  function ResolveOffset(anchorTop: int, containerTop: int, prevBottom: Option<int>): (offset: int)
    ensures prevBottom.None? ==> offset == anchorTop - containerTop
    ensures prevBottom.Some? ==> containerTop + offset == Max(anchorTop, prevBottom.value + NoteGap)
    ensures containerTop + offset >= anchorTop
    ensures prevBottom.Some? ==> containerTop + offset >= prevBottom.value + NoteGap
    ensures offset == anchorTop - containerTop <==>
              prevBottom.None? || anchorTop >= prevBottom.value + NoteGap
  {
    var topOffset := anchorTop - containerTop;
    match prevBottom
    case None => topOffset
    case Some(bottom) =>
      var desiredTop := containerTop + topOffset;
      var minTop := bottom + NoteGap;
      if desiredTop < minTop then topOffset + (minTop - desiredTop) else topOffset
  }

  /** The offset the layout places aside `k` at. */
  function OffsetOf(layout: Layout, k: nat, a: Aside): int
  {
    match a.top
    case Some(t) => t
    case None => layout.staticOffset(k)
  }

  /** The bottom edge of aside `k`. */
  function Bottom(layout: Layout, k: nat, a: Aside): int
  {
    layout.containerTop(k) + OffsetOf(layout, k, a) + layout.height(k)
  }

  /** Handling aside `k`: skipped when its anchor is not found, otherwise
      given the offset computed from the asides as they stand. */
  function Step(notes: seq<Aside>, layout: Layout, k: nat): seq<Aside>
    requires k < |notes|
  {
    var note := notes[k];
    if !Found(layout, note.anchorId) then notes
    else
      var prev := if k == 0 then None else Some(Bottom(layout, k - 1, notes[k - 1]));
      notes[k := note.(top := Some(ResolveOffset(layout.anchorTop[note.anchorId], layout.containerTop(k), prev)))]
  }

  /** The asides after the first `k` steps of the pass. */
  function Pass(notes: seq<Aside>, layout: Layout, k: nat): (r: seq<Aside>)
    requires k <= |notes|
    ensures |r| == |notes|
  {
    if k == 0 then notes else Step(Pass(notes, layout, k - 1), layout, k - 1)
  }

  /** The asides after the whole pass. */
  function Positioned(notes: seq<Aside>, layout: Layout): (r: seq<Aside>)
    ensures |r| == |notes|
  {
    Pass(notes, layout, |notes|)
  }

  /** Once step `j` is done no later step touches aside `j`; asides not yet
      reached are as they were; and only tops ever change. */
  lemma {:induction false} PassFrozen(notes: seq<Aside>, layout: Layout, k: nat, j: nat)
    requires k <= |notes| && j < |notes|
    ensures j < k ==> Pass(notes, layout, k)[j] == Pass(notes, layout, j + 1)[j]
    ensures j >= k ==> Pass(notes, layout, k)[j] == notes[j]
    ensures EraseTop(Pass(notes, layout, k)[j]) == EraseTop(notes[j])
  {
    if k > 0 {
      PassFrozen(notes, layout, k - 1, j);
    }
  }

  /** What the pass does to aside `k`, stated against the final positions:
      an aside whose anchor is missing keeps its old top; the first aside is
      aligned with its anchor; any later one sits at the lower of its anchor
      and the bottom of the aside before it plus the gap, so it never
      overlaps that aside and is exactly aligned with its anchor whenever no
      push is needed. */
  lemma PositionedAt(notes: seq<Aside>, layout: Layout, k: nat)
    requires k < |notes|
    ensures var r := Positioned(notes, layout);
      && EraseTop(r[k]) == EraseTop(notes[k])
      && (!Found(layout, notes[k].anchorId) ==> r[k] == notes[k])
      && (Found(layout, notes[k].anchorId) && k == 0 ==>
            r[k].top == Some(layout.anchorTop[notes[k].anchorId] - layout.containerTop(k)))
      && (Found(layout, notes[k].anchorId) && k > 0 ==>
            var anchorTop := layout.anchorTop[notes[k].anchorId];
            var prevBottom := Bottom(layout, k - 1, r[k - 1]);
            && r[k].top.Some?
            && layout.containerTop(k) + r[k].top.value == Max(anchorTop, prevBottom + NoteGap)
            && layout.containerTop(k) + r[k].top.value >= prevBottom + NoteGap
            && (r[k].top.value == anchorTop - layout.containerTop(k) <==> anchorTop >= prevBottom + NoteGap))
  {
    var n := |notes|;
    PassFrozen(notes, layout, n, k);
    PassFrozen(notes, layout, k, k);
    if k > 0 {
      PassFrozen(notes, layout, n, k - 1);
      PassFrozen(notes, layout, k, k - 1);
    }
  }

  /** The pass as the source runs it: a loop in document order over the
      snapshot of asides, writing each one's top before the next one reads
      the bottom of its predecessor. */
  method PositionPass(notes: seq<Aside>, layout: Layout) returns (placed: seq<Aside>)
    ensures placed == Positioned(notes, layout)
  {
    placed := notes;
    var i := 0;
    while i < |placed|
      invariant 0 <= i <= |notes| && |placed| == |notes|
      invariant placed == Pass(notes, layout, i)
    {
      var sidenote := placed[i];
      if sidenote.anchorId == "" || sidenote.anchorId !in layout.anchorTop {
        i := i + 1;
        continue;
      }
      var anchorTop := layout.anchorTop[sidenote.anchorId];
      var containerTop := layout.containerTop(i);
      var topOffset := anchorTop - containerTop;
      if i > 0 {
        var prevBottom := Bottom(layout, i - 1, placed[i - 1]);
        var desiredTop := containerTop + topOffset;
        var minTop := prevBottom + NoteGap;
        if desiredTop < minTop {
          topOffset := topOffset + (minTop - desiredTop);
        }
      }
      placed := placed[i := sidenote.(top := Some(topOffset))];
      i := i + 1;
    }
  }

  /** The pass changes nothing but inline tops. */
  lemma PositionedKeepsShape(notes: seq<Aside>, layout: Layout)
    ensures EraseNotes(Positioned(notes, layout)) == EraseNotes(notes)
  {
    forall k | 0 <= k < |notes|
      ensures EraseNotes(Positioned(notes, layout))[k] == EraseNotes(notes)[k]
    {
      PassFrozen(notes, layout, |notes|, k);
    }
  }

  /** The pass applied to the asides of a document, written back in place. */
  function PositionBlocks(bs: seq<Child>, layout: Layout): (r: seq<Child>)
    ensures Shape(r) == Shape(bs)
    ensures AllNotes(r) == Positioned(AllNotes(bs), layout)
  {
    var placed := Positioned(AllNotes(bs), layout);
    PositionedKeepsShape(AllNotes(bs), layout);
    ShapeOfWithNotes(bs, placed);
    AllNotesOfWithNotes(bs, placed);
    WithNotes(bs, placed)
  }
}
