/** On `DOMContentLoaded`: every `h1`–`h6` of the post gets an id (its own,
    or one generated from its text) and a `header-anchor` link to itself
    prepended. */
module Headers {
  import opened Dom
  import opened Slugs

  /** A child node of a header: text, or a link with its `href`, class,
      `aria-hidden` value and text. */
  datatype HeaderNode =
    | TextNode(text: string)
    | Link(href: string, className: string, ariaHidden: string, text: string)

  /** A header element: its id (`""` when it has none) and its children. */
  datatype Header = Header(id: string, children: seq<HeaderNode>)

  const AnchorClass := "header-anchor"

  /** The anchor's text exactly as the page writes it: the two characters
      U+00C2 U+00B6, a pilcrow mis-encoded as Latin-1. */
  const AnchorGlyph := "\U{C2}\U{B6}"

  function NodeText(n: HeaderNode): string
  {
    match n
    case TextNode(t) => t
    case Link(_, _, _, t) => t
  }

  /** `textContent`: the text of the children, in order. */
  function TextContent(ns: seq<HeaderNode>): string
  {
    if ns == [] then [] else NodeText(ns[0]) + TextContent(ns[1..])
  }

  /** The link prepended to a header whose id is `id`. */
  function HeaderAnchor(id: string): HeaderNode
  {
    Link("#" + id, AnchorClass, "true", AnchorGlyph)
  }

  /** What the page does to one header. */
  function Decorate(h: Header): Header
  {
    var id := if h.id == "" then Slug(TextContent(h.children)) else h.id;
    Header(id, [HeaderAnchor(id)] + h.children)
  }

  /** A header with an id keeps it; one without gets the slug of its text,
      a well-formed slug. Either way it gains exactly one new first child,
      a hidden `header-anchor` link whose target is `#` followed by the
      header's id, so that removing the `#` gives the id back; its other children are kept in order. */
  lemma DecorateSpec(h: Header)
    ensures var r := Decorate(h);
      && (h.id != "" ==> r.id == h.id)
      && (h.id == "" ==> r.id == Join(Words(Lower(TextContent(h.children)))) && IsSlug(r.id))
      && |r.children| == |h.children| + 1
      && r.children[1..] == h.children
      && r.children[0].Link?
      && r.children[0].className == AnchorClass
      && r.children[0].ariaHidden == "true"
      && r.children[0].href == "#" + r.id
      && ContentId(r.children[0].href) == r.id
  {
    var r := Decorate(h);
    if h.id == "" {
      SlugIsJoinedWords(TextContent(h.children));
      SlugIsSlug(TextContent(h.children));
    }
    ContentIdRemovesFirstHash("", r.id);
    assert "" + "#" + r.id == r.children[0].href;
  }

  /** The header's visible text gains the glyph in front. */
  lemma {:induction false} DecorateText(h: Header)
    ensures TextContent(Decorate(h).children) == AnchorGlyph + TextContent(h.children)
  {
    var r := Decorate(h);
    assert r.children[1..] == h.children;
  }

  /** A header whose generated id is then re-derived from that id keeps it:
      generated ids are fixed points of the generator. */
  lemma GeneratedIdStable(h: Header)
    requires h.id == ""
    ensures Slug(Decorate(h).id) == Decorate(h).id
  {
    SlugIdempotent(TextContent(h.children));
  }

  /** Every header of a list, decorated, in order. */
  function DecorateAll(hs: seq<Header>): (r: seq<Header>)
    ensures |r| == |hs|
  {
    seq(|hs|, i requires 0 <= i < |hs| => Decorate(hs[i]))
  }

  /** `headers.forEach(...)` over the headers of the post, in document
      order; each header is changed in place. */
  method DecorateHeaders(headers: array<Header>)
    modifies headers
    ensures headers[..] == DecorateAll(old(headers[..]))
  {
    var i := 0;
    while i < headers.Length
      invariant 0 <= i <= headers.Length
      invariant forall k :: 0 <= k < i ==> headers[k] == Decorate(old(headers[k]))
      invariant forall k :: i <= k < headers.Length ==> headers[k] == old(headers[k])
    {
      var header := headers[i];
      var id := header.id;
      if id == "" {
        id := Slug(TextContent(header.children));
      }
      var anchor := Link("#" + id, AnchorClass, "true", AnchorGlyph);
      headers[i] := Header(id, [anchor] + header.children);
      i := i + 1;
    }
  }

  /** The `DOMContentLoaded` handler: nothing happens when the page has no
      post root; otherwise its headers are decorated. */
  method OnDomContentLoaded(headers: array?<Header>)
    modifies headers
    ensures headers != null ==> headers[..] == DecorateAll(old(headers[..]))
  {
    if headers == null {
      return;
    }
    DecorateHeaders(headers);
  }
}
