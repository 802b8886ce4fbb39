/** What one `insertSidenotes` call does to the children of the post root,
    as functions on values, and what it guarantees: one wrapper after each
    block with references, one aside per resolvable marker in marker order,
    and idempotence. */
module Insertion {
  import opened Dom

  /** `document.getElementById(contentId)`: the note content of every
      footnote the page has, keyed by content id. */
  type Footnotes = map<string, seq<Node>>

  /** The marker's note content is found. `getElementById("")` finds
      nothing, so a bare `#` never resolves. */
  predicate Resolves(m: Marker, fns: Footnotes)
  {
    ContentId(m.href) != "" && ContentId(m.href) in fns
  }

  /** The asides built for `markers`: one per marker whose content exists,
      in marker order; the others are skipped. */
  function NotesFor(markers: seq<Marker>, fns: Footnotes): seq<Aside>
  {
    if markers == [] then []
    else (if Resolves(markers[0], fns) then [MakeAside(markers[0], fns[ContentId(markers[0].href)])] else [])
         + NotesFor(markers[1..], fns)
  }

  /** The number of markers among the first `k` whose content exists. */
  function ResolvedBefore(markers: seq<Marker>, k: nat, fns: Footnotes): nat
    requires k <= |markers|
  {
    if k == 0 then 0
    else ResolvedBefore(markers, k - 1, fns) + (if Resolves(markers[k - 1], fns) then 1 else 0)
  }

  lemma {:induction false} NotesForAppend(markers: seq<Marker>, m: Marker, fns: Footnotes)
    ensures NotesFor(markers + [m], fns)
         == NotesFor(markers, fns) + (if Resolves(m, fns) then [MakeAside(m, fns[ContentId(m.href)])] else [])
  {
    if markers != [] {
      assert (markers + [m])[1..] == markers[1..] + [m];
      NotesForAppend(markers[1..], m, fns);
    }
  }

  lemma {:induction false} NotesForSplit(xs: seq<Marker>, ys: seq<Marker>, fns: Footnotes)
    ensures NotesFor(xs + ys, fns) == NotesFor(xs, fns) + NotesFor(ys, fns)
  {
    if xs == [] {
      assert xs + ys == ys;
    } else {
      assert (xs + ys)[0] == xs[0];
      assert (xs + ys)[1..] == xs[1..] + ys;
      NotesForSplit(xs[1..], ys, fns);
    }
  }

  /** The k-th marker, when it resolves, yields the aside at position
      ResolvedBefore(k): asides appear in marker order, one per resolvable
      marker, and there are no others. */
  lemma NotesForIndex(markers: seq<Marker>, k: nat, fns: Footnotes)
    requires k <= |markers|
    ensures k == |markers| ==> |NotesFor(markers, fns)| == ResolvedBefore(markers, k, fns)
    ensures k < |markers| && Resolves(markers[k], fns) ==>
              (ResolvedBefore(markers, k, fns) < |NotesFor(markers, fns)| &&
               NotesFor(markers, fns)[ResolvedBefore(markers, k, fns)]
                 == MakeAside(markers[k], fns[ContentId(markers[k].href)]))
  {
    PrefixCount(markers, k, fns);
    assert markers == markers[..k] + markers[k..];
    NotesForSplit(markers[..k], markers[k..], fns);
  }

  lemma {:induction false} PrefixCount(markers: seq<Marker>, k: nat, fns: Footnotes)
    requires k <= |markers|
    ensures |NotesFor(markers[..k], fns)| == ResolvedBefore(markers, k, fns)
  {
    if k > 0 {
      PrefixCount(markers, k - 1, fns);
      assert markers[..k] == markers[..k - 1] + [markers[k - 1]];
      NotesForAppend(markers[..k - 1], markers[k - 1], fns);
    }
  }

  /** Builds the asides of one wrapper, marker by marker. */
  method BuildNotes(markers: seq<Marker>, fns: Footnotes) returns (notes: seq<Aside>)
    ensures notes == NotesFor(markers, fns)
  {
    notes := [];
    var j := 0;
    while j < |markers|
      invariant 0 <= j <= |markers|
      invariant notes == NotesFor(markers[..j], fns)
    {
      var m := markers[j];
      var contentId := ContentId(m.href);
      NotesForAppend(markers[..j], m, fns);
      assert markers[..j + 1] == markers[..j] + [m];
      j := j + 1;
      if contentId == "" || contentId !in fns {
        continue;
      }
      notes := notes + [MakeAside(m, fns[contentId])];
    }
    assert markers[..j] == markers;
  }

  // ---------------------------------------------------------------------
  // The whole pass over the children of the post root

  /** Child `i` is a block with references that no wrapper follows yet. */
  predicate NeedsWrapper(bs: seq<Child>, i: nat)
    requires i < |bs|
  {
    bs[i].Block? && |bs[i].markers| > 0 && !(i + 1 < |bs| && bs[i + 1].Wrapper?)
  }

  /** The children after one `insertSidenotes`: wrappers and blocks already
      followed by a wrapper are skipped; any other block with references
      gets a new wrapper right after it. */
  function InsertAll(bs: seq<Child>, fns: Footnotes): (r: seq<Child>)
  {
    if bs == [] then []
    else if NeedsWrapper(bs, 0) then [bs[0], Wrapper(NotesFor(bs[0].markers, fns))] + InsertAll(bs[1..], fns)
    else [bs[0]] + InsertAll(bs[1..], fns)
  }

  /** A child that needs no wrapper is passed over. */
  lemma WalkSkips(children: seq<Child>, i: nat, fns: Footnotes)
    requires i < |children| && !NeedsWrapper(children, i)
    ensures children[..i] + InsertAll(children[i..], fns)
         == children[..i + 1] + InsertAll(children[i + 1..], fns)
  {
    var rest := children[i..];
    assert rest[0] == children[i] && rest[1..] == children[i + 1..];
    assert NeedsWrapper(rest, 0) == NeedsWrapper(children, i);
    assert children[..i + 1] == children[..i] + [children[i]];
  }

  /** A child that needs a wrapper gets it as its next sibling, which the
      walk reaches next. */
  lemma WalkInserts(children: seq<Child>, i: nat, fns: Footnotes)
    requires i < |children| && NeedsWrapper(children, i)
    ensures var next := children[..i + 1] + [Wrapper(NotesFor(children[i].markers, fns))] + children[i + 1..];
      children[..i] + InsertAll(children[i..], fns) == next[..i + 1] + InsertAll(next[i + 1..], fns)
  {
    var w := Wrapper(NotesFor(children[i].markers, fns));
    var next := children[..i + 1] + [w] + children[i + 1..];
    var rest := children[i..];
    assert rest[0] == children[i] && rest[1..] == children[i + 1..];
    assert NeedsWrapper(rest, 0);
    assert next[..i + 1] == children[..i] + [children[i]];
    var tail := next[i + 1..];
    assert tail == [w] + children[i + 1..];
    assert tail[0] == w && tail[1..] == children[i + 1..];
    assert !NeedsWrapper(tail, 0);
  }

  /** The walk over the live list of children: a wrapper inserted after
      child `i` becomes child `i + 1`, which the walk visits next and skips
      as a wrapper. */
  method InsertIntoChildren(bs: seq<Child>, fns: Footnotes) returns (children: seq<Child>)
    ensures children == InsertAll(bs, fns)
  {
    children := bs;
    ghost var result := InsertAll(bs, fns);
    var i := 0;
    while i < |children|
      invariant 0 <= i <= |children|
      invariant children[..i] + InsertAll(children[i..], fns) == result
      decreases |result| - i
    {
      var child := children[i];
      if child.Wrapper? {
        WalkSkips(children, i, fns);
        i := i + 1;
        continue;
      }
      if i + 1 < |children| && children[i + 1].Wrapper? {
        WalkSkips(children, i, fns);
        i := i + 1;
        continue;
      }
      if |child.markers| > 0 {
        var notes := BuildNotes(child.markers, fns);
        WalkInserts(children, i, fns);
        children := children[..i + 1] + [Wrapper(notes)] + children[i + 1..];
      } else {
        WalkSkips(children, i, fns);
      }
      i := i + 1;
    }
    assert children[..i] == children;
  }

  /** Every block with references is immediately followed by a wrapper. */
  predicate Settled(bs: seq<Child>)
  {
    forall i :: 0 <= i < |bs| ==> !NeedsWrapper(bs, i)
  }

  lemma {:induction false} InsertAllHead(bs: seq<Child>, fns: Footnotes)
    requires bs != []
    ensures InsertAll(bs, fns) != [] && InsertAll(bs, fns)[0] == bs[0]
  {
  }

  /** After one call, every block with references has its wrapper. */
  lemma {:induction false} InsertAllSettles(bs: seq<Child>, fns: Footnotes)
    ensures Settled(InsertAll(bs, fns))
  {
    if bs != [] {
      var r := InsertAll(bs, fns);
      var tail := InsertAll(bs[1..], fns);
      InsertAllSettles(bs[1..], fns);
      if bs[1..] != [] {
        InsertAllHead(bs[1..], fns);
      }
      var p := if NeedsWrapper(bs, 0) then 2 else 1;
      assert r[p..] == tail;
      forall i | 0 <= i < |r| ensures !NeedsWrapper(r, i) {
        if i >= p {
          assert !NeedsWrapper(tail, i - p);
        }
      }
    }
  }

  /** A settled document is left as it is. */
  lemma {:induction false} SettledUnchanged(bs: seq<Child>, fns: Footnotes)
    requires Settled(bs)
    ensures InsertAll(bs, fns) == bs
  {
    if bs != [] {
      assert !NeedsWrapper(bs, 0);
      forall i | 0 <= i < |bs| - 1 ensures !NeedsWrapper(bs[1..], i) {
        assert !NeedsWrapper(bs, i + 1);
      }
      SettledUnchanged(bs[1..], fns);
      assert bs == [bs[0]] + bs[1..];
    }
  }

  /** Calling `insertSidenotes` twice is calling it once. */
  lemma InsertAllIdempotent(bs: seq<Child>, fns: Footnotes)
    ensures InsertAll(InsertAll(bs, fns), fns) == InsertAll(bs, fns)
  {
    InsertAllSettles(bs, fns);
    SettledUnchanged(InsertAll(bs, fns), fns);
  }

  /** A call changes nothing exactly when every block with references
      already has its wrapper. */
  lemma InsertAllFixedIffSettled(bs: seq<Child>, fns: Footnotes)
    ensures InsertAll(bs, fns) == bs <==> Settled(bs)
  {
    InsertAllSettles(bs, fns);
    if Settled(bs) {
      SettledUnchanged(bs, fns);
    }
  }

  /** The number of children before child `i` that need a wrapper. */
  function NeedsBefore(bs: seq<Child>, i: nat): nat
    requires i <= |bs|
  {
    if i == 0 then 0
    else (if NeedsWrapper(bs, 0) then 1 else 0) + NeedsBefore(bs[1..], i - 1)
  }

  lemma {:induction false} NeedsWrapperShift(bs: seq<Child>, i: nat)
    requires 0 < i < |bs|
    ensures NeedsWrapper(bs, i) == NeedsWrapper(bs[1..], i - 1)
  {
  }

  /** What the pass emits for the first child: the child, then its new
      wrapper if it needs one. */
  function Emitted(bs: seq<Child>, fns: Footnotes): (r: seq<Child>)
    requires bs != []
  {
    if NeedsWrapper(bs, 0) then [bs[0], Wrapper(NotesFor(bs[0].markers, fns))] else [bs[0]]
  }

  lemma {:induction false} InsertAllUnfold(bs: seq<Child>, fns: Footnotes)
    requires bs != []
    ensures InsertAll(bs, fns) == Emitted(bs, fns) + InsertAll(bs[1..], fns)
    ensures NeedsBefore(bs, |bs|) == |Emitted(bs, fns)| - 1 + NeedsBefore(bs[1..], |bs| - 1)
  {
  }

  lemma {:induction false} InsertAllLength(bs: seq<Child>, fns: Footnotes)
    ensures |InsertAll(bs, fns)| == |bs| + NeedsBefore(bs, |bs|)
  {
    if bs != [] {
      InsertAllUnfold(bs, fns);
      InsertAllLength(bs[1..], fns);
    }
  }

  /** Where each input child lands: child `i` moves to position
      `i + NeedsBefore(bs, i)`, unchanged; when it needed a wrapper, the new
      wrapper with the asides of its markers comes right after it. With
      InsertAllLength (one extra child per block that needed a wrapper),
      this says that blocks without references, blocks already followed by
      a wrapper, and existing wrappers are kept as they are and in order. */
  lemma {:induction false} InsertAllPlacement(bs: seq<Child>, i: nat, fns: Footnotes)
    requires i < |bs|
    ensures i + NeedsBefore(bs, i) < |InsertAll(bs, fns)|
    ensures InsertAll(bs, fns)[i + NeedsBefore(bs, i)] == bs[i]
    ensures NeedsWrapper(bs, i) ==>
              (i + NeedsBefore(bs, i) + 1 < |InsertAll(bs, fns)| &&
               InsertAll(bs, fns)[i + NeedsBefore(bs, i) + 1] == Wrapper(NotesFor(bs[i].markers, fns)))
  {
    InsertAllUnfold(bs, fns);
    if i > 0 {
      var tail := InsertAll(bs[1..], fns);
      var p := |Emitted(bs, fns)|;
      InsertAllPlacement(bs[1..], i - 1, fns);
      NeedsWrapperShift(bs, i);
      var k := i - 1 + NeedsBefore(bs[1..], i - 1);
      assert i + NeedsBefore(bs, i) == p + k;
    }
  }

  /** The id that a click on a reference looks up is the id of an aside that
      the pass built, when the reference's block received a new wrapper and
      its content exists. */
  lemma InsertedNoteFindable(bs: seq<Child>, i: nat, j: nat, fns: Footnotes)
    requires i < |bs| && NeedsWrapper(bs, i)
    requires j < |bs[i].markers| && Resolves(bs[i].markers[j], fns)
    ensures exists a :: a in AllNotes(InsertAll(bs, fns)) &&
              a.id == SidenoteId(ContentId(bs[i].markers[j].href)) &&
              a.anchorId == bs[i].markers[j].id
    ensures SidenoteId(ContentId(bs[i].markers[j].href)) in NoteIds(AllNotes(InsertAll(bs, fns)))
  {
    var ms := bs[i].markers;
    InsertAllPlacement(bs, i, fns);
    NotesForIndex(ms, j, fns);
    var a := NotesFor(ms, fns)[ResolvedBefore(ms, j, fns)];
    AllNotesContains(InsertAll(bs, fns), i + NeedsBefore(bs, i) + 1, a);
  }

  // ---------------------------------------------------------------------
  // Inline tops play no part in insertion

  lemma {:induction false} ShapeOfNotesFor(markers: seq<Marker>, fns: Footnotes)
    ensures EraseNotes(NotesFor(markers, fns)) == NotesFor(markers, fns)
  {
    var ns := NotesFor(markers, fns);
    if markers != [] {
      ShapeOfNotesFor(markers[1..], fns);
    }
    forall k | 0 <= k < |ns| ensures EraseNotes(ns)[k] == ns[k] {
      if markers != [] {
        var h := if Resolves(markers[0], fns) then [MakeAside(markers[0], fns[ContentId(markers[0].href)])] else [];
        assert ns == h + NotesFor(markers[1..], fns);
        if k >= |h| {
          assert EraseNotes(NotesFor(markers[1..], fns))[k - |h|] == ns[k];
        }
      }
    }
  }

  /** Insertion commutes with forgetting the inline tops. */
  lemma {:induction false} ShapeOfInsertAll(bs: seq<Child>, fns: Footnotes)
    ensures Shape(InsertAll(bs, fns)) == InsertAll(Shape(bs), fns)
  {
    if bs != [] {
      var sb := Shape(bs);
      assert sb[1..] == Shape(bs[1..]);
      assert NeedsWrapper(sb, 0) == NeedsWrapper(bs, 0);
      ShapeOfInsertAll(bs[1..], fns);
      var r := InsertAll(bs, fns);
      var p := if NeedsWrapper(bs, 0) then 2 else 1;
      assert r[p..] == InsertAll(bs[1..], fns);
      assert InsertAll(sb, fns)[p..] == InsertAll(sb[1..], fns);
      if NeedsWrapper(bs, 0) {
        ShapeOfNotesFor(bs[0].markers, fns);
      }
      forall k | 0 <= k < |r| ensures Shape(r)[k] == InsertAll(sb, fns)[k] {
        if k >= p {
          assert Shape(r[p..])[k - p] == Shape(r)[k];
        }
      }
    }
  }
}
