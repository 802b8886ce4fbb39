/** The abstract document the sidenote engine works on: note content as
    node trees, footnote reference markers, the asides built from them, and
    the direct children of the post root (blocks and notes wrappers). */
module Dom {
  import opened Options

  /** A node of rendered note content: a text node, or an element with its
      tag name, its class list and its children. */
  datatype Node = Text(text: string) | Element(tag: string, classes: set<string>, children: seq<Node>)

  /** A `.footnote-ref` marker inside a block: the `id` and `href` of its
      first child (the link) and its visible text. */
  datatype Marker = Marker(id: string, href: string, text: string)

  /** An `aside` built for one marker. `top` is its inline `style.top` offset,
      None while no pass has set one. */
  datatype Aside = Aside(id: string, cls: string, role: string, anchorId: string,
                         children: seq<Node>, top: Option<int>)

  /** A direct child of the post root: an ordinary block with the markers it
      contains, in document order, or a `notes-wrapper` holding asides. */
  datatype Child = Block(markers: seq<Marker>) | Wrapper(notes: seq<Aside>)

  // ---------------------------------------------------------------------
  // Id derivations

  /** `href.replace('#', '')`: a string pattern, so only the first `#` goes. */
  function ContentId(href: string): (id: string)
    ensures '#' !in href ==> id == href
    ensures '#' in href ==> |id| == |href| - 1
  {
    if href == [] then []
    else if href[0] == '#' then href[1..]
    else [href[0]] + ContentId(href[1..])
  }

  /** Only the first `#` is removed: whatever precedes it is kept, and so is
      everything after it, later `#`s included. */
  lemma {:induction false} ContentIdRemovesFirstHash(pre: string, post: string)
    requires '#' !in pre
    ensures ContentId(pre + "#" + post) == pre + post
  {
    var s := pre + "#" + post;
    if pre == [] {
      assert s == "#" + post;
      assert s[0] == '#' && s[1..] == post;
    } else {
      var c, rest := pre[0], pre[1..];
      assert c in pre;
      assert s == [c] + (rest + "#" + post);
      ContentIdRemovesFirstHash(rest, post);
      assert pre + post == [c] + (rest + post);
    }
  }

  function SidenoteId(contentId: string): (r: string)
  {
    "sidenote-" + contentId
  }

  /** Different content ids never share a sidenote id. */
  lemma SidenoteIdInjective(a: string, b: string)
    ensures SidenoteId(a) == SidenoteId(b) ==> a == b
  {
    if SidenoteId(a) == SidenoteId(b) {
      assert a == SidenoteId(a)[9..];
      assert b == SidenoteId(b)[9..];
    }
  }

  // ---------------------------------------------------------------------
  // Removing `a.footnote-backref` links

  predicate IsBackref(n: Node)
  {
    n.Element? && n.tag == "a" && "footnote-backref" in n.classes
  }

  /** No `a.footnote-backref` anywhere in `ns`, at any depth. */
  predicate NoBackrefs(ns: seq<Node>)
    decreases ns
  {
    ns == [] || (!IsBackref(ns[0]) && CleanNode(ns[0]) && NoBackrefs(ns[1..]))
  }

  predicate CleanNode(n: Node)
    decreases n
  {
    match n
    case Text(_) => true
    case Element(_, _, ch) => NoBackrefs(ch)
  }

  /** Every backref link at any depth is removed with its subtree; every
      other node is kept, in order. */
  function StripBackrefs(ns: seq<Node>): seq<Node>
    decreases ns
  {
    if ns == [] then []
    else if IsBackref(ns[0]) then StripBackrefs(ns[1..])
    else [StripNode(ns[0])] + StripBackrefs(ns[1..])
  }

  function StripNode(n: Node): Node
    decreases n
  {
    match n
    case Text(_) => n
    case Element(t, c, ch) => Element(t, c, StripBackrefs(ch))
  }

  lemma {:induction false} StripLeavesNoBackrefs(ns: seq<Node>)
    ensures NoBackrefs(StripBackrefs(ns))
    decreases ns
  {
    if ns != [] {
      StripLeavesNoBackrefs(ns[1..]);
      if !IsBackref(ns[0]) {
        StripNodeIsClean(ns[0]);
        var r := StripBackrefs(ns);
        assert r[1..] == StripBackrefs(ns[1..]);
      }
    }
  }

  lemma {:induction false} StripNodeIsClean(n: Node)
    ensures CleanNode(StripNode(n))
    decreases n
  {
    match n
    case Text(_) =>
    case Element(_, _, ch) => StripLeavesNoBackrefs(ch);
  }

  lemma {:induction false} StripKeepsClean(ns: seq<Node>)
    requires NoBackrefs(ns)
    ensures StripBackrefs(ns) == ns
    decreases ns
  {
    if ns != [] {
      StripKeepsClean(ns[1..]);
      StripNodeKeepsClean(ns[0]);
      assert ns == [ns[0]] + ns[1..];
    }
  }

  lemma {:induction false} StripNodeKeepsClean(n: Node)
    requires CleanNode(n)
    ensures StripNode(n) == n
    decreases n
  {
    match n
    case Text(_) =>
    case Element(_, _, ch) => StripKeepsClean(ch);
  }

  /** Removal works piecewise: stripping a concatenation strips each part. */
  lemma {:induction false} StripConcat(xs: seq<Node>, ys: seq<Node>)
    ensures StripBackrefs(xs + ys) == StripBackrefs(xs) + StripBackrefs(ys)
    decreases xs
  {
    if xs == [] {
      assert xs + ys == ys;
    } else {
      assert (xs + ys)[0] == xs[0];
      assert (xs + ys)[1..] == xs[1..] + ys;
      StripConcat(xs[1..], ys);
    }
  }

  /** A node that is not a backref link and holds none is kept, verbatim and
      in its place between what is kept before and after it. */
  lemma StripKeepsOthers(xs: seq<Node>, n: Node, ys: seq<Node>)
    requires !IsBackref(n) && CleanNode(n)
    ensures StripBackrefs(xs + [n] + ys) == StripBackrefs(xs) + [n] + StripBackrefs(ys)
  {
    StripConcat(xs + [n], ys);
    StripConcat(xs, [n]);
    StripNodeKeepsClean(n);
    assert StripBackrefs([n]) == [StripNode(n)] + StripBackrefs([]);
  }

  /** An element that is not a backref link keeps its place, tag and
      classes; only its children are stripped, recursively. */
  lemma StripKeepsElement(xs: seq<Node>, n: Node, ys: seq<Node>)
    requires n.Element? && !IsBackref(n)
    ensures StripBackrefs(xs + [n] + ys)
         == StripBackrefs(xs) + [Element(n.tag, n.classes, StripBackrefs(n.children))] + StripBackrefs(ys)
  {
    StripConcat(xs + [n], ys);
    StripConcat(xs, [n]);
    assert StripBackrefs([n]) == [StripNode(n)] + StripBackrefs([]);
  }

  /** A backref link goes with its whole subtree; nothing takes its place. */
  lemma StripDropsBackref(xs: seq<Node>, b: Node, ys: seq<Node>)
    requires IsBackref(b)
    ensures StripBackrefs(xs + [b] + ys) == StripBackrefs(xs) + StripBackrefs(ys)
  {
    StripConcat(xs + [b], ys);
    StripConcat(xs, [b]);
    assert StripBackrefs([b]) == StripBackrefs([]);
  }

  /** Stripping twice is stripping once. */
  lemma StripIdempotent(ns: seq<Node>)
    ensures StripBackrefs(StripBackrefs(ns)) == StripBackrefs(ns)
  {
    StripLeavesNoBackrefs(ns);
    StripKeepsClean(StripBackrefs(ns));
  }

  // ---------------------------------------------------------------------
  // Building an aside

  const NoteClass := "note"

  /** `<div class='note-identifier'>text</div>` */
  function NoteLabel(text: string): Node
  {
    Element("div", {"note-identifier"}, [Text(text)])
  }

  /** The aside made for marker `m` whose note content is `content`. */
  function MakeAside(m: Marker, content: seq<Node>): (a: Aside)
    ensures a.cls == NoteClass && a.role == NoteClass
    ensures a.id == SidenoteId(ContentId(m.href)) && a.anchorId == m.id
    ensures |a.children| >= 1 && a.children[0] == NoteLabel(m.text)
    ensures a.children[1..] == StripBackrefs(content) && NoBackrefs(a.children[1..])
    ensures a.top == None
  {
    StripLeavesNoBackrefs(content);
    var body := [NoteLabel(m.text)] + StripBackrefs(content);
    assert body[1..] == StripBackrefs(content);
    Aside(SidenoteId(ContentId(m.href)), NoteClass, NoteClass, m.id, body, None)
  }

  // ---------------------------------------------------------------------
  // The asides of a document, in document order

  /** `document.querySelectorAll("aside.note")`: the asides of every wrapper,
      wrappers in child order. */
  function AllNotes(bs: seq<Child>): seq<Aside>
  {
    if bs == [] then []
    else (if bs[0].Wrapper? then bs[0].notes else []) + AllNotes(bs[1..])
  }

  lemma {:induction false} AllNotesContains(bs: seq<Child>, k: nat, a: Aside)
    requires k < |bs| && bs[k].Wrapper? && a in bs[k].notes
    ensures a in AllNotes(bs)
  {
    if k > 0 {
      AllNotesContains(bs[1..], k - 1, a);
    }
  }

  function NoteIds(notes: seq<Aside>): set<string>
  {
    set a | a in notes :: a.id
  }

  predicate HasWrapper(bs: seq<Child>)
  {
    exists i :: 0 <= i < |bs| && bs[i].Wrapper?
  }

  /** Replaces the asides of `bs`, in document order, by `ns`. */
  function WithNotes(bs: seq<Child>, ns: seq<Aside>): (r: seq<Child>)
    requires |ns| == |AllNotes(bs)|
    ensures |r| == |bs|
  {
    if bs == [] then []
    else if bs[0].Wrapper? then
      var k := |bs[0].notes|;
      [Wrapper(ns[..k])] + WithNotes(bs[1..], ns[k..])
    else [bs[0]] + WithNotes(bs[1..], ns)
  }

  lemma {:induction false} AllNotesOfWithNotes(bs: seq<Child>, ns: seq<Aside>)
    requires |ns| == |AllNotes(bs)|
    ensures AllNotes(WithNotes(bs, ns)) == ns
  {
    if bs != [] {
      var r := WithNotes(bs, ns);
      if bs[0].Wrapper? {
        var k := |bs[0].notes|;
        AllNotesOfWithNotes(bs[1..], ns[k..]);
        assert r[1..] == WithNotes(bs[1..], ns[k..]);
        assert ns == ns[..k] + ns[k..];
      } else {
        AllNotesOfWithNotes(bs[1..], ns);
        assert r[1..] == WithNotes(bs[1..], ns);
      }
    }
  }

  // ---------------------------------------------------------------------
  // Shape: the document with every inline top forgotten

  function EraseTop(a: Aside): Aside
  {
    a.(top := None)
  }

  function EraseNotes(ns: seq<Aside>): (r: seq<Aside>)
    ensures |r| == |ns|
  {
    seq(|ns|, i requires 0 <= i < |ns| => EraseTop(ns[i]))
  }

  function EraseChild(c: Child): Child
  {
    match c
    case Block(_) => c
    case Wrapper(ns) => Wrapper(EraseNotes(ns))
  }

  function Shape(bs: seq<Child>): (r: seq<Child>)
    ensures |r| == |bs|
  {
    seq(|bs|, i requires 0 <= i < |bs| => EraseChild(bs[i]))
  }

  /** Replacing the asides by ones that differ only in their tops leaves the
      shape unchanged. */
  lemma {:induction false} ShapeOfWithNotes(bs: seq<Child>, ns: seq<Aside>)
    requires |ns| == |AllNotes(bs)|
    requires EraseNotes(ns) == EraseNotes(AllNotes(bs))
    ensures Shape(WithNotes(bs, ns)) == Shape(bs)
  {
    if bs != [] {
      var r := WithNotes(bs, ns);
      var all := AllNotes(bs);
      if bs[0].Wrapper? {
        var k := |bs[0].notes|;
        assert all[..k] == bs[0].notes;
        assert all[k..] == AllNotes(bs[1..]);
        assert EraseNotes(ns[k..]) == EraseNotes(all[k..]) by {
          forall i | 0 <= i < |ns| - k ensures EraseNotes(ns[k..])[i] == EraseNotes(all[k..])[i] {
            assert EraseNotes(ns)[k + i] == EraseNotes(all)[k + i];
          }
        }
        assert EraseNotes(ns[..k]) == EraseNotes(bs[0].notes) by {
          forall i | 0 <= i < k ensures EraseNotes(ns[..k])[i] == EraseNotes(bs[0].notes)[i] {
            assert EraseNotes(ns)[i] == EraseNotes(all)[i];
          }
        }
        ShapeOfWithNotes(bs[1..], ns[k..]);
        assert r[1..] == WithNotes(bs[1..], ns[k..]);
        assert Shape(r)[0] == Shape(bs)[0];
        forall i | 1 <= i < |bs| ensures Shape(r)[i] == Shape(bs)[i] {
          assert Shape(r[1..])[i - 1] == Shape(bs[1..])[i - 1];
        }
      } else {
        ShapeOfWithNotes(bs[1..], ns);
        assert r[1..] == WithNotes(bs[1..], ns);
        forall i | 1 <= i < |bs| ensures Shape(r)[i] == Shape(bs)[i] {
          assert Shape(r[1..])[i - 1] == Shape(bs[1..])[i - 1];
        }
      }
    }
  }

  /** Two documents of the same shape either both hold a wrapper or neither. */
  lemma SameShapeSameWrappers(x: seq<Child>, y: seq<Child>)
    requires Shape(x) == Shape(y)
    ensures HasWrapper(x) == HasWrapper(y)
  {
    if HasWrapper(x) {
      var i :| 0 <= i < |x| && x[i].Wrapper?;
      assert Shape(y)[i].Wrapper?;
    }
    if HasWrapper(y) {
      var i :| 0 <= i < |y| && y[i].Wrapper?;
      assert Shape(x)[i].Wrapper?;
    }
  }
}
