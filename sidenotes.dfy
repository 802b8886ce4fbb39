/** The sidenote engine on one page: the post root (`.gh-content`) with its
    children and class list, and the set of highlighted asides. Its methods
    are the source's functions; the media query becomes the input `wide`
    and the measured rectangles become a `Layout`. */
module Sidenotes {
  import opened Options
  import opened Dom
  import opened Insertion
  import opened Geometry

  const HideSidenotesClass := "hide-sidenotes"
  const HideEndnotesClass := "hide-endnotes"
  const FootnoteRefClass := "footnote-ref"

  // ---------------------------------------------------------------------
  // The resize controller on values

  /** Wrappers are inserted only when none exists anywhere on the page. */
  function Materialize(bs: seq<Child>, fns: Footnotes): seq<Child>
  {
    if HasWrapper(bs) then bs else InsertAll(bs, fns)
  }

  /** The children after one `onResize`: a wide layout materializes and then
      positions; a narrow one leaves the children alone. */
  function Resized(bs: seq<Child>, wide: bool, layout: Layout, fns: Footnotes): seq<Child>
  {
    if wide then PositionBlocks(Materialize(bs, fns), layout) else bs
  }

  /** The children after the page-ready sequence `insertAndPositionSidenotes`:
      a wide layout inserts unconditionally and then positions; a narrow one
      does nothing. */
  function Ready(bs: seq<Child>, wide: bool, layout: Layout, fns: Footnotes): seq<Child>
  {
    if wide then PositionBlocks(InsertAll(bs, fns), layout) else bs
  }

  /** The sequence runs once right away and again on `load`: the second run
      adds no wrapper, whatever the two layouts were. */
  lemma ReadyTwiceAddsNoWrappers(bs: seq<Child>, w1: bool, l1: Layout, w2: bool, l2: Layout, fns: Footnotes)
    ensures Shape(Ready(Ready(bs, w1, l1, fns), w2, l2, fns))
         == if w1 || w2 then Shape(InsertAll(bs, fns)) else Shape(bs)
  {
    var once := Ready(bs, w1, l1, fns);
    if w2 {
      ShapeOfInsertAll(once, fns);
      if w1 {
        ShapeOfInsertAll(bs, fns);
        InsertAllIdempotent(Shape(bs), fns);
      }
    }
  }

  lemma MaterializeIdempotent(bs: seq<Child>, fns: Footnotes)
    ensures Materialize(Materialize(bs, fns), fns) == Materialize(bs, fns)
  {
    if !HasWrapper(bs) && !HasWrapper(InsertAll(bs, fns)) {
      InsertAllIdempotent(bs, fns);
    }
  }

  /** Whether and what gets materialized does not depend on inline tops. */
  lemma MaterializeRespectsShape(x: seq<Child>, y: seq<Child>, fns: Footnotes)
    requires Shape(x) == Shape(y)
    ensures Shape(Materialize(x, fns)) == Shape(Materialize(y, fns))
  {
    SameShapeSameWrappers(x, y);
    ShapeOfInsertAll(x, fns);
    ShapeOfInsertAll(y, fns);
  }

  datatype ResizeEvent = ResizeEvent(wide: bool, layout: Layout)

  function ResizeAll(bs: seq<Child>, events: seq<ResizeEvent>, fns: Footnotes): seq<Child>
    decreases events
  {
    if events == [] then bs
    else ResizeAll(Resized(bs, events[0].wide, events[0].layout, fns), events[1..], fns)
  }

  predicate SomeWide(events: seq<ResizeEvent>)
  {
    exists i :: 0 <= i < |events| && events[i].wide
  }

  /** Any run of resizes, wide and narrow in any order, leaves the page with
      the wrappers of a single materialization (or none, if no resize was
      wide): wrappers are never removed and never added twice. */
  lemma {:induction false} ResizeCyclesAddNoWrappers(bs: seq<Child>, events: seq<ResizeEvent>, fns: Footnotes)
    ensures Shape(ResizeAll(bs, events, fns))
         == if SomeWide(events) then Shape(Materialize(bs, fns)) else Shape(bs)
    decreases events
  {
    if events != [] {
      var e := events[0];
      var b1 := Resized(bs, e.wide, e.layout, fns);
      ResizeCyclesAddNoWrappers(b1, events[1..], fns);
      assert SomeWide(events) <==> e.wide || SomeWide(events[1..]) by {
        if SomeWide(events[1..]) {
          var i :| 0 <= i < |events[1..]| && events[1..][i].wide;
          assert events[i + 1].wide;
        }
        if SomeWide(events) && !e.wide {
          var i :| 0 <= i < |events| && events[i].wide;
          assert events[1..][i - 1].wide;
        }
      }
      if e.wide {
        assert Shape(b1) == Shape(Materialize(bs, fns));
        if SomeWide(events[1..]) {
          MaterializeRespectsShape(b1, Materialize(bs, fns), fns);
          MaterializeIdempotent(bs, fns);
        }
      }
    }
  }

  /** Positioning changes no aside's id, so it changes nothing that a click
      can find. */
  lemma PositionBlocksKeepsIds(bs: seq<Child>, layout: Layout)
    ensures NoteIds(AllNotes(PositionBlocks(bs, layout))) == NoteIds(AllNotes(bs))
  {
    var before := AllNotes(bs);
    var after := AllNotes(PositionBlocks(bs, layout));
    PositionedKeepsShape(before, layout);
    assert forall k :: 0 <= k < |before| ==> after[k].id == EraseNotes(after)[k].id == EraseNotes(before)[k].id == before[k].id;
    forall x | x in NoteIds(after) ensures x in NoteIds(before) {
      var a :| a in after && a.id == x;
      var k :| 0 <= k < |after| && after[k] == a;
      assert before[k].id == x;
    }
    forall x | x in NoteIds(before) ensures x in NoteIds(after) {
      var a :| a in before && a.id == x;
      var k :| 0 <= k < |before| && before[k] == a;
      assert after[k].id == x;
    }
  }

  // ---------------------------------------------------------------------
  // Outside clicks

  /** `element.closest('.' + cls)` over the chain of the click target and
      its ancestors (each given by its class list): the nearest one that has
      the class. */
  function Closest(chain: seq<set<string>>, cls: string): (r: Option<nat>)
    ensures r.Some? ==> r.value < |chain| && cls in chain[r.value] &&
                        forall j :: 0 <= j < r.value ==> cls !in chain[j]
    ensures r.None? ==> forall j :: 0 <= j < |chain| ==> cls !in chain[j]
  {
    if chain == [] then None
    else if cls in chain[0] then Some(0)
    else match Closest(chain[1..], cls)
      case None => None
      case Some(k) => Some(k + 1)
  }

  /** The document click handler's test: the target is inside neither an
      aside nor a reference. */
  predicate OutsideNotes(chain: seq<set<string>>)
  {
    Closest(chain, NoteClass).None? && Closest(chain, FootnoteRefClass).None?
  }

  lemma OutsideNotesIff(chain: seq<set<string>>)
    ensures OutsideNotes(chain) <==>
              forall j :: 0 <= j < |chain| ==> NoteClass !in chain[j] && FootnoteRefClass !in chain[j]
  {
    if !OutsideNotes(chain) {
      var c := if Closest(chain, NoteClass).Some? then NoteClass else FootnoteRefClass;
      assert c in chain[Closest(chain, c).value];
    }
  }

  // ---------------------------------------------------------------------
  // The page

  class Page {
    /** Whether the page has a `.gh-content` root at all. */
    const hasPost: bool
    /** The note content of every footnote, by content id. */
    const footnotes: Footnotes
    /** The children of the post root, in order. */
    var blocks: seq<Child>
    /** The class list of the post root. */
    var classes: set<string>
    /** The ids of the asides that carry `active-sidenote`. */
    var active: set<string>

    ghost predicate Valid()
      reads this
    {
      !hasPost ==> blocks == [] && classes == {}
    }

    constructor (hasPost: bool, footnotes: Footnotes, blocks: seq<Child>, classes: set<string>)
      requires !hasPost ==> blocks == [] && classes == {}
      ensures Valid()
      ensures this.hasPost == hasPost && this.footnotes == footnotes
      ensures this.blocks == blocks && this.classes == classes && active == {}
    {
      this.hasPost := hasPost;
      this.footnotes := footnotes;
      this.blocks := blocks;
      this.classes := classes;
      active := {};
    }

    method ShowSidenotes()
      requires Valid()
      modifies this`classes
      ensures Valid()
      ensures classes == if hasPost then old(classes) - {HideSidenotesClass} else old(classes)
    {
      if hasPost {
        classes := classes - {HideSidenotesClass};
      }
    }

    method HideSidenotes()
      requires Valid()
      modifies this`classes
      ensures Valid()
      ensures classes == if hasPost then old(classes) + {HideSidenotesClass} else old(classes)
    {
      if hasPost {
        classes := classes + {HideSidenotesClass};
      }
    }

    method ShowEndnotes()
      requires Valid()
      modifies this`classes
      ensures Valid()
      ensures classes == if hasPost then old(classes) - {HideEndnotesClass} else old(classes)
    {
      if hasPost {
        classes := classes - {HideEndnotesClass};
      }
    }

    method HideEndnotes()
      requires Valid()
      modifies this`classes
      ensures Valid()
      ensures classes == if hasPost then old(classes) + {HideEndnotesClass} else old(classes)
    {
      if hasPost {
        classes := classes + {HideEndnotesClass};
      }
    }

    /** The walk over the live list of children: a wrapper inserted after
        child `i` is the next child visited, and is skipped as a wrapper. */
    method InsertSidenotes()
      requires Valid()
      modifies this`blocks
      ensures Valid()
      ensures blocks == if hasPost then InsertAll(old(blocks), footnotes) else old(blocks)
    {
      if !hasPost {
        return;
      }
      blocks := InsertIntoChildren(blocks, footnotes);
    }

    /** `positionSidenotes`: the pass over a snapshot of all asides, whose
        tops are then the asides' own. */
    method PositionSidenotes(layout: Layout)
      requires Valid()
      modifies this`blocks
      ensures Valid()
      ensures blocks == if hasPost then PositionBlocks(old(blocks), layout) else old(blocks)
    {
      if !hasPost {
        return;
      }
      var placed := PositionPass(AllNotes(blocks), layout);
      blocks := WithNotes(blocks, placed);
    }

    /** The page-ready step sequence: in a wide layout, insert, position and
        hide the endnotes, and ask for one more positioning pass later
        (`deferred`), which the caller runs with the layout of that time. */
    method InsertAndPositionSidenotes(wide: bool, layout: Layout) returns (deferred: bool)
      requires Valid()
      modifies this`blocks, this`classes
      ensures Valid()
      ensures blocks == if hasPost then Ready(old(blocks), wide, layout, footnotes) else old(blocks)
      ensures classes == if wide && hasPost then old(classes) + {HideEndnotesClass} else old(classes)
      ensures deferred == wide
    {
      deferred := false;
      if wide {
        InsertSidenotes();
        PositionSidenotes(layout);
        HideEndnotes();
        deferred := true;
      }
    }

    /** `onResize`: the mode controller. */
    method OnResize(wide: bool, layout: Layout)
      requires Valid()
      modifies this`blocks, this`classes
      ensures Valid()
      ensures blocks == Resized(old(blocks), wide, layout, footnotes)
      ensures wide && hasPost ==>
                classes == old(classes) - {HideSidenotesClass} + {HideEndnotesClass}
      ensures !wide && HasWrapper(old(blocks)) ==>
                classes == old(classes) + {HideSidenotesClass} - {HideEndnotesClass}
      ensures !wide && !HasWrapper(old(blocks)) ==> classes == old(classes)
    {
      var sidenotesInDom := HasWrapper(blocks);
      if wide {
        if !sidenotesInDom {
          InsertSidenotes();
        }
        ShowSidenotes();
        HideEndnotes();
        PositionSidenotes(layout);
        if !hasPost {
          assert InsertAll([], footnotes) == [];
          assert WithNotes([], []) == [];
        }
      } else {
        if sidenotesInDom {
          HideSidenotes();
          ShowEndnotes();
        }
      }
    }

    /** `dehilightNotes`: takes the highlight off every highlighted aside. */
    method DehilightNotes()
      modifies this`active
      ensures active == {}
    {
      var highlighted := active;
      while highlighted != {}
        invariant active == highlighted
        decreases highlighted
      {
        var h :| h in highlighted;
        active := active - {h};
        highlighted := highlighted - {h};
      }
    }

    /** `onAnchorClick` on the reference link whose `href` is given. Returns
        whether the default navigation is prevented. */
    method OnAnchorClick(wide: bool, href: string) returns (prevented: bool)
      modifies this`active
      ensures prevented <==> wide && SidenoteId(ContentId(href)) in NoteIds(AllNotes(blocks))
      ensures active == if prevented then {SidenoteId(ContentId(href))} else {}
    {
      DehilightNotes();
      prevented := false;
      if wide {
        var contentId := ContentId(href);
        var id := SidenoteId(contentId);
        if id in NoteIds(AllNotes(blocks)) {
          prevented := true;
          active := active + {id};
        }
      }
    }

    /** The document click handler; `target` is the class lists of the
        click target and its ancestors. */
    method OnDocumentClick(target: seq<set<string>>)
      modifies this`active
      ensures active == if OutsideNotes(target) then {} else old(active)
    {
      if Closest(target, NoteClass).None? && Closest(target, FootnoteRefClass).None? {
        DehilightNotes();
      }
    }
  }

  /** The click scenario on two references in a wide layout whose asides
      both exist: a click on the first highlights its aside only, a click on
      plain text clears it, and a click on the second highlights the second
      without any clearing click in between. */
  method ClickScenario(page: Page, href1: string, href2: string, text: seq<set<string>>)
      returns (prevented1: bool, active1: set<string>, active2: set<string>, prevented3: bool)
    requires SidenoteId(ContentId(href1)) in NoteIds(AllNotes(page.blocks))
    requires SidenoteId(ContentId(href2)) in NoteIds(AllNotes(page.blocks))
    requires ContentId(href1) != ContentId(href2)
    requires forall j :: 0 <= j < |text| ==> NoteClass !in text[j] && FootnoteRefClass !in text[j]
    modifies page
    ensures prevented1 && active1 == {SidenoteId(ContentId(href1))}
    ensures SidenoteId(ContentId(href2)) !in active1
    ensures active2 == {}
    ensures prevented3 && page.active == {SidenoteId(ContentId(href2))}
  {
    SidenoteIdInjective(ContentId(href1), ContentId(href2));
    OutsideNotesIff(text);
    prevented1 := page.OnAnchorClick(true, href1);
    active1 := page.active;
    page.OnDocumentClick(text);
    active2 := page.active;
    prevented3 := page.OnAnchorClick(true, href2);
  }
}
