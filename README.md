# Sidenotes and header anchors of a Ghost theme, in Dafny

This project models two scripts of a Ghost blog theme.

`assets/js/sidenotes.js` turns the footnotes of a post into margin notes. It covers:
- the ids that link a reference to its note;
- `insertSidenotes`, which puts one `notes-wrapper` of `aside.note` elements after every paragraph with references;
- `positionSidenotes`, the greedy pass that aligns each aside with its reference and pushes it below the one before;
- the wide/narrow controller (`onResize`, `insertAndPositionSidenotes`) and the `hide-sidenotes` / `hide-endnotes` classes;
- highlighting on reference clicks, and clearing it on outside clicks;
- the `debounce` wrapper used for resize events.

`assets/js/post-utils.js` gives every header of the post an id, generating a slug from its text when it has none, and prepends a `header-anchor` link to it.

The document is modelled as values. The post root is a sequence of children (`Dom.Child`). Each child is either an ordinary block, carrying its footnote reference markers in document order, or a notes wrapper holding asides. Note content is a tree of nodes. The media query becomes a boolean `wide`. The rectangles the browser measures become an integer `Geometry.Layout`.

The page itself is the class `Sidenotes.Page`. Its fields are the children and the class list of the post root, and the set of highlighted asides. Its methods are the script's functions. Each method is proved against a specification function (`InsertAll`, `PositionBlocks`, `Ready`, `Resized`) or an explicit expression of the old state, and the lemmas state the properties of those functions.

The modules are:
- `Dom`: values, id derivations and backref removal;
- `Insertion`: `insertSidenotes`;
- `Geometry`: `positionSidenotes`;
- `Sidenotes`: the page, the controller and clicks;
- `Debounce`;
- `Slugs`: the header-id expression;
- `Headers`: the `DOMContentLoaded` loop.

## Model

| member | source | states |
|---|---|---|
| Dom.ContentId | assets/js/sidenotes.js:77 | an `href` without `#` is its own content id; otherwise exactly one character is removed |
| Dom.ContentIdRemovesFirstHash | assets/js/sidenotes.js:77 | only the first `#` is removed; what precedes it and everything after it, later `#`s included, is kept |
| Dom.SidenoteIdInjective | assets/js/sidenotes.js:84 | two different content ids never give the same `sidenote-` id |
| Dom.StripLeavesNoBackrefs | assets/js/sidenotes.js:100-103 | after removal no `a.footnote-backref` remains at any depth |
| Dom.StripKeepsClean | assets/js/sidenotes.js:100-103 | content without backref links is left exactly as it was |
| Dom.StripIdempotent | assets/js/sidenotes.js:100-103 | removing backrefs twice is removing them once |
| Dom.StripConcat | assets/js/sidenotes.js:100-103 | removal works piecewise: stripping two pieces of content one after the other is stripping their concatenation |
| Dom.StripKeepsOthers | assets/js/sidenotes.js:100-103 | every node that is not a backref link and holds none is kept verbatim, in its place between what is kept before and after it |
| Dom.StripKeepsElement | assets/js/sidenotes.js:100-103 | an element that is not a backref link keeps its place, tag and classes, and its children are stripped in turn, so a note paragraph keeps its text when the link inside it goes |
| Dom.StripDropsBackref | assets/js/sidenotes.js:100-103 | a backref link is removed with its whole subtree, and nothing takes its place |
| Dom.MakeAside | assets/js/sidenotes.js:82-105 | the aside's id is `sidenote-` plus the content id; class and role are `note`; `data-anchor-id` is the marker link's id; the first child is the `note-identifier` label with the marker's text; the rest is the note content with every backref link removed; no inline top is set |
| Dom.AllNotesOfWithNotes | assets/js/sidenotes.js:115-170 | writing tops back into the document puts exactly the given asides, in order, where `querySelectorAll("aside.note")` finds them |
| Dom.ShapeOfWithNotes | assets/js/sidenotes.js:170 | writing back asides that differ only in their tops changes nothing else in the document |
| Dom.SameShapeSameWrappers | assets/js/sidenotes.js:186 | whether a wrapper exists does not depend on inline tops |
| Insertion.NotesForIndex | assets/js/sidenotes.js:71-106 | a wrapper holds one aside per marker whose content exists, in marker order; the aside of the k-th resolvable marker is at position k; markers whose content is missing, or whose content id is empty (`getElementById("")` finds nothing), are skipped |
| Insertion.BuildNotes | assets/js/sidenotes.js:71-107 | the inner loop over the markers of a block builds exactly those asides |
| Insertion.InsertIntoChildren | assets/js/sidenotes.js:55-111 | the walk over the live list of children, which visits each inserted wrapper and skips it, gives exactly `InsertAll` |
| Insertion.InsertAllLength | assets/js/sidenotes.js:65-109 | the result has one extra child for every block with references that no wrapper followed, and no other |
| Insertion.InsertAllPlacement | assets/js/sidenotes.js:55-109 | every child keeps its order and value; a block needing a wrapper is immediately followed by a new wrapper holding its markers' asides, even an empty one when none resolves |
| Insertion.InsertAllSettles | assets/js/sidenotes.js:60-109 | afterwards every block with references is immediately followed by a wrapper |
| Insertion.SettledUnchanged | assets/js/sidenotes.js:56-63 | a document where every block with references already has its wrapper is left unchanged |
| Insertion.InsertAllIdempotent | assets/js/sidenotes.js:55-63 | calling `insertSidenotes` twice gives the same children as calling it once |
| Insertion.InsertAllFixedIffSettled | assets/js/sidenotes.js:55-63 | insertion changes nothing if and only if every block with references already has its wrapper |
| Insertion.InsertedNoteFindable | assets/js/sidenotes.js:213-215 | for every resolvable marker of a block that gets a wrapper, an aside is on the page with the marker's anchor id and with the id the click handler looks up: the one assigned at line 84, `sidenote-` plus the href without its first `#` |
| Insertion.ShapeOfInsertAll | assets/js/sidenotes.js:55-111 | insertion does not look at or change inline tops |
| Geometry.ResolveOffset | assets/js/sidenotes.js:147-167 | the first note gets offset anchorTop − containerTop; a later note's top is max(anchorTop, prevBottom + 10), so it is never above its anchor and never within 10px below the previous note; the offset is exactly anchorTop − containerTop if and only if no push is needed |
| Geometry.PassFrozen | assets/js/sidenotes.js:119-125 | once note `j` is handled no later step changes it; notes not yet reached are untouched; only tops ever change |
| Geometry.PositionedAt | assets/js/sidenotes.js:119-170 | in the final positions, a note whose anchor is missing, or whose anchor id is empty, keeps its old top; the first note is aligned with its anchor; any later note sits at max(anchorTop, bottom of note i−1 + 10) even when note i−1 was skipped, and is exactly aligned when no push is needed |
| Geometry.PositionPass | assets/js/sidenotes.js:119-171 | the loop, which writes each top before the next note reads its predecessor's bottom, computes exactly `Positioned` |
| Geometry.PositionedKeepsShape | assets/js/sidenotes.js:170 | the pass changes nothing but inline tops |
| Geometry.PositionBlocks | assets/js/sidenotes.js:114-172 | positioning keeps the document's shape, and the asides become the positioned ones |
| Sidenotes.MaterializeIdempotent | assets/js/sidenotes.js:186-192 | inserting only when no wrapper exists twice is doing it once |
| Sidenotes.MaterializeRespectsShape | assets/js/sidenotes.js:186-192 | whether and what gets inserted does not depend on inline tops |
| Sidenotes.ResizeCyclesAddNoWrappers | assets/js/sidenotes.js:185-203 | after any sequence of wide and narrow resizes the document has the wrappers of a single insertion, or is unchanged if none was wide: wrappers are never removed and never added twice |
| Sidenotes.ReadyTwiceAddsNoWrappers | assets/js/sidenotes.js:254-258 | running the page-ready sequence eagerly and again on `load`, in any two layouts, leaves the wrappers of one insertion, or the document unchanged if neither was wide |
| Sidenotes.PositionBlocksKeepsIds | assets/js/sidenotes.js:170 | positioning changes no aside id, so every note a click can find stays findable |
| Sidenotes.Closest | assets/js/sidenotes.js:249 | `closest` returns the nearest element of the chain with the class, or nothing when no element has it |
| Sidenotes.OutsideNotesIff | assets/js/sidenotes.js:247-251 | a click counts as outside exactly when neither the target nor an ancestor has class `note` or `footnote-ref` |
| Sidenotes.Page.ShowSidenotes | assets/js/sidenotes.js:31-34 | removes `hide-sidenotes` from the post root, if there is one |
| Sidenotes.Page.HideSidenotes | assets/js/sidenotes.js:36-39 | adds `hide-sidenotes` to the post root, if there is one |
| Sidenotes.Page.ShowEndnotes | assets/js/sidenotes.js:41-44 | removes `hide-endnotes` from the post root, if there is one |
| Sidenotes.Page.HideEndnotes | assets/js/sidenotes.js:46-49 | adds `hide-endnotes` to the post root, if there is one |
| Sidenotes.Page.InsertSidenotes | assets/js/sidenotes.js:51-112 | with a post root, the children become `InsertAll` of the old children; without one, nothing changes |
| Sidenotes.Page.PositionSidenotes | assets/js/sidenotes.js:114-172 | with a post root, the asides take the positions of the pass; without one, nothing changes |
| Sidenotes.Page.InsertAndPositionSidenotes | assets/js/sidenotes.js:174-183 | on a post page the children become `Ready` of the old ones (when wide: inserted then positioned; when narrow: unchanged); when wide it also adds `hide-endnotes` and requests one deferred re-positioning |
| Sidenotes.Page.OnResize | assets/js/sidenotes.js:185-203 | when wide, inserts only if no wrapper exists, positions, and leaves the root without `hide-sidenotes` and with `hide-endnotes`; when narrow with wrappers, adds `hide-sidenotes` and removes `hide-endnotes`; when narrow without wrappers, nothing changes |
| Sidenotes.Page.DehilightNotes | assets/js/sidenotes.js:228-233 | afterwards no aside is highlighted |
| Sidenotes.Page.OnAnchorClick | assets/js/sidenotes.js:205-226 | the default is prevented exactly when the layout is wide and an aside with id `sidenote-` plus the content id exists; the highlighted set is then exactly that aside, and otherwise empty |
| Sidenotes.Page.OnDocumentClick | assets/js/sidenotes.js:247-251 | a click outside every note and reference clears the highlight; any other click leaves it as it was |
| Sidenotes.ClickScenario | assets/js/sidenotes.js:205-251 | clicking one reference highlights only its note; a plain-text click clears it; clicking a second reference highlights only the second note |
| Debounce.RunsAppend | assets/js/sidenotes.js:10-29 | the wrapper's behaviour over two event sequences is the behaviour over the first, then over the second from where the first left it |
| Debounce.BurstLeavesLastPending | assets/js/sidenotes.js:22-27 | each call replaces the pending timer, so a burst leaves one timer with the last call's arguments; during the burst the function runs only in immediate mode with no timer pending, once, with the first call's arguments |
| Debounce.TrailingBurstRunsOnceWithLast | assets/js/sidenotes.js:17-25 | in trailing mode a burst followed by the timer firing runs the function exactly once, with the last call's arguments, and clears the slot |
| Debounce.LeadingBurstRunsOnceWithFirst | assets/js/sidenotes.js:17-27 | in immediate mode a burst starting with no timer pending runs the function exactly once, with the first call's arguments; the firing runs nothing and clears the slot |
| Debounce.LeadingBurstWhilePendingRunsNothing | assets/js/sidenotes.js:22-27 | in immediate mode calls made while a timer is pending never run the function |
| Debounce.TrailingRunsOnlyOnExpiry | assets/js/sidenotes.js:17-27 | in trailing mode the function runs at most once per timer firing |
| Debounce.LeadingRunsOnlyOnCalls | assets/js/sidenotes.js:19-27 | in immediate mode the function runs at most once per call, and never when the timer fires |
| Debounce.RunsUseCallArguments | assets/js/sidenotes.js:13-28 | the function only ever runs with the arguments of some call |
| Debounce.Debouncer.Invoke | assets/js/sidenotes.js:13-28 | a call cancels the pending timer, starts one holding its arguments, and runs the function at once only in immediate mode with no timer pending |
| Debounce.Debouncer.Expire | assets/js/sidenotes.js:17-20 | the timer firing clears the slot and, in trailing mode only, runs the function with the arguments the timer holds |
| Slugs.DashRunsFacts | assets/js/post-utils.js:12 | the result holds only `[a-z0-9]` and single dashes, starts with `-` exactly when the text starts with a separator, and keeps the letters and digits in order; for a text that starts with a slug character it is the text's words joined by single dashes, with one more `-` when the text ends in a separator, so each run of separators between words becomes exactly one `-`; a text that starts with separators gets one `-` for that whole run, followed by the result for the rest |
| Slugs.TrimDashFacts | assets/js/post-utils.js:13 | on dash runs, trimming leaves a well-formed slug with no dash at either end, keeps every letter and digit, and removes at most one `-` at the start and one at the end and nothing else |
| Slugs.SlugIsSlug | assets/js/post-utils.js:10-13 | a generated id has only `a-z`, `0-9` and `-`, no dash at either end and never two dashes in a row |
| Slugs.SlugKeepsAlnum | assets/js/post-utils.js:10-13 | a generated id keeps every ASCII letter and digit of the lower-cased text, in order |
| Slugs.SlugEmptyIff | assets/js/post-utils.js:10-13 | the id is empty exactly when the text has no ASCII letter or digit |
| Slugs.SlugFixesSlugs | assets/js/post-utils.js:10-13 | a string that is already a well-formed slug is its own slug |
| Slugs.SlugIdempotent | assets/js/post-utils.js:10-13 | generating an id from a generated id gives that id back |
| Slugs.SlugIsJoinedWords | assets/js/post-utils.js:10-13 | the id is the maximal `[a-z0-9]` runs of the lower-cased text joined by single dashes |
| Headers.DecorateSpec | assets/js/post-utils.js:8-23 | a header with an id keeps it; one without gets the slug of its text; exactly one `header-anchor` link with `aria-hidden="true"` is prepended, whose href is `#` plus the id; the other children are kept in order |
| Headers.DecorateText | assets/js/post-utils.js:17-23 | the header's text gains the anchor glyph in front and is otherwise unchanged |
| Headers.GeneratedIdStable | assets/js/post-utils.js:8-15 | re-deriving a generated id from itself gives the same id |
| Headers.DecorateHeaders | assets/js/post-utils.js:7-24 | every header of the post is decorated in place, in order |
| Headers.OnDomContentLoaded | assets/js/post-utils.js:1-25 | without a post root nothing is modified; otherwise every header is decorated |

## Left out

- `window.matchMedia("(min-width: 65rem)")` is the boolean `wide`; CSS and the viewport are not modelled.
- `getBoundingClientRect` values are integers supplied by `Geometry.Layout`, not floats. The layout gives each aside a container top and height by position, and these are assumed not to change during one pass.
- Geometry.Bottom: places an aside with an inline top at its wrapper's top plus that offset, which assumes the asides are absolutely positioned inside their wrapper. The stylesheet is not part of this model, so the spacing bound describes the page only under that assumption.
- Geometry.PositionPass: assumes the style string `${topOffset}px` reads back as the same number, so `style.top` is kept as an integer.
- A reference whose first child is not a link, or whose link has no `href`, makes `getAttribute('href').replace` throw. The throw aborts `insertSidenotes`, and with it the rest of the page-ready sequence and the `load` listener registration; in `onAnchorClick` it aborts the click. `Dom.Marker` always carries a link id and an `href`, so this failure is not modelled.
- HTML parsing and serialisation are not modelled. Note content is a node tree whose `innerHTML` copy is taken to be exact. The label text is stored as text, although the page inserts it with `insertAdjacentHTML`, which would parse any markup in it.
- `scrollIntoView` and `stopPropagation` in `onAnchorClick` have no effect in the model, which records only the prevented default.
- `querySelectorAll("aside.note")` and `querySelector(".notes-wrapper")` search the whole document, while the model sees only wrappers that are direct children of the post root. It assumes that no `aside.note` and no `.notes-wrapper` exists anywhere else, neither inside a block nor outside `.gh-content`.
- Sidenotes.Page.OnAnchorClick: looks the id up among the asides only. `getElementById` would also find any other element with that id, and the model conflates several asides that share an id.
- Listener registration, the `load` event and the 200 ms `setTimeout` of `insertAndPositionSidenotes` are not modelled. The deferred pass is the `deferred` result, which the caller answers with a `PositionSidenotes` call under the layout of that time. `initSidenotes` itself is not modelled beyond its outside-click test.
- Debounce: the `wait` delay and `this` are not modelled. Time is a sequence of call and timer-firing events, and a firing happens only while a timer is pending.
- Slugs.Lower: only ASCII letters are lower-cased. `toLowerCase` lower-cases all of Unicode, and a few non-ASCII letters (such as U+0130 and the Kelvin sign U+212A) lower-case to ASCII letters, which the page would keep in the id.
- The header selection `h1, h2, h3, h4, h5, h6` is not modelled: the model receives the headers of the post root, in document order, as an array.
- Backref links are recognised only by element `a` with class `footnote-backref`. A link that merely shows a return glyph is kept. Ids are not paired by stripping a suffix: only the reference's `href` is used.
- The preview build script `test-theme.js`, the bundling tasks in `gulpfile.js` and the menu wiring in `assets/js/system-bar.js` are not part of this model.
