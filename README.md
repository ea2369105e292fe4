# metamorph.js — a Dafny model of the bounded-region patch engine

metamorph.js lets a template engine own a region of an HTML document. The region
is delimited by two marker nodes, `metamorph-N-start` and `metamorph-N-end`, and
holds a stored `innerHTML` string. A region renders its outer markup
(start tag, content, end tag). Once that markup is in the document, the region
can do several things:

- replace its content (`html`);
- replace its content together with its end marker (`replaceWith`);
- delete itself with both markers (`remove`);
- insert markup after a marker (`after`, `prepend`);
- append itself to a node (`appendTo`);
- report whether a marker is gone (`isRemoved`).

The engine has two branches, chosen once from the host's capabilities:

- **Legacy branch (no ranges).** Markers are found by id. A marker that is not
  found by id may be a text node directly under a `select`. The id lookup climbs
  out of nameless wrapper elements. If the two markers have different parents,
  the start marker is moved first. The siblings between the markers are then
  removed one by one. New markup becomes nodes through a parsing container that
  wraps the markup for restrictive parents (`wrapMap`) and can add and remove a
  soft-hyphen placeholder.
- **Range branch.** Markers are comments, found through a cache from comment
  text to node. The cache is filled by one walk over the body's comments on a
  miss. The content is deleted and inserted as a range.

`lib/main.js` is an earlier revision. It uses script placeholders found by id
and edits through a range. It has no fallback for hosts without
`createContextualFragment`. It keeps a `removed` flag.

The model has these parts:

- **Document.** The host document is a value tree held in a mutable field.
  - Each node is `Node(uid, kind, children)`; the uid is its identity.
  - Positions are index paths.
  - The document records the next fresh identity. Nodes the host creates are
    renumbered from it.
  - Well formedness (`DocValid`): the body is a named element, and identities
    are unique and below the fresh counter. Every edit is proved to keep it.
- **Host.** The parsers (`div.innerHTML =` and the native contextual parser)
  are function parameters of a `Host` value. So are the capability flags
  (`Config`).
- **Failures.** Each way an operation can fail is an `Outcome`:
  - `NotFound` is the engine's own "not in the DOM" error;
  - `TypeError` is a host null dereference or a missing method;
  - `HierarchyRequest` is the host refusing an insertion.

  Edits made before a throw are kept, as in the source.

The files, in dependency order:

| file | module | what it models |
|---|---|---|
| outcomes.dfy | Outcomes | `Option`, `Result`, the three errors |
| text.dfy | Text | decimal rendering of the counter, ASCII lower-casing of tag names |
| markers.dfy | Markers | marker ids, the three marker spellings, `outerHTML` |
| dom.dfy | Dom | the node tree, paths, identity entries, searches in document order |
| fragments.dfy | Fragments | `wrapMap` and `fragmentFor` |
| locators.dfy | Locators | both `getMarker`s, `realNode`, the comment cache, `fixParentage` |
| edits.dfy | Edits | child-list edits and their preservation of well formedness |
| regions.dfy | Regions | every region operation of both branches as a function of the document (and cache) |
| metamorph.dfy | Engine | the library state and region objects as classes whose methods are proved equal to those functions |
| main_revision.dfy | MainRevision | `lib/main.js` |

Two properties of the range lookup's cache matter:

- **Stale entries are not evicted.** `getMarker` (lib/metamorph.js:183-203)
  never removes an entry whose node has left the body. Such an entry is just
  reported as not found.
- **Clearing the cache is not harmless.** While the stale entry stays, a live
  comment with the same text is never found, because the walk only runs on a
  miss (`Locators.StaleEntryHides`). So clearing the cache can change what a
  lookup returns.

## Model

| member | source | states |
|---|---|---|
| Text.Decimal | lib/metamorph.js:53 | the counter's decimal rendering is a non-empty digit string without a leading zero |
| Text.DecimalRoundTrip | lib/metamorph.js:53 | parsing the rendering gives the counter back |
| Text.DecimalInjective | lib/metamorph.js:53 | different counters render differently |
| Text.ToLower | lib/metamorph.js:101 | lower-casing keeps the length and maps each character |
| Markers.GuidDecimal | lib/metamorph.js:53-55 | the counter is recovered from an id with a known suffix |
| Markers.MarkerIdsDistinct | lib/metamorph.js:43-58 | different counter values never give the same start or end id, and no start id equals an end id |
| Markers.StrategyFor | lib/metamorph.js:139-335 | comment markers exactly when ranges and comments in `select` are supported; comment elements exactly without ranges when the host has them; placeholders otherwise |
| Markers.OuterHTML | lib/metamorph.js:64-66 | the outer markup is the start tag, then the content, then the end tag, piece by piece |
| Markers.OuterHTMLRoundTrip | lib/metamorph.js:64-66 | dropping both tags from the outer markup gives the content back |
| Markers.OuterHTMLInjective | lib/metamorph.js:64-66 | different contents give different outer markup |
| Markers.CommentTags | lib/metamorph.js:141-148 | with comment markers the tags are exactly `<!--` id `-->` |
| Markers.MainOuterHTML | lib/main.js:30-34 | the earlier revision renders with placeholder scripts, the same as the placeholder strategy |
| Fragments.WrapFor | lib/metamorph.js:76-84 | a parent gets a wrapping rule exactly when its lower-cased tag is one of the seven listed |
| Fragments.Unstripped | lib/metamorph.js:92-113 | a non-element parent is a type error; an unlisted tag parses the (placeholder-prefixed) markup unwrapped |
| Fragments.StripShy | lib/metamorph.js:117-130 | the strip keeps the node's identity |
| Fragments.StripShyText | lib/metamorph.js:117-130 | the strip removes exactly one leading U+00AD from the text, or changes nothing |
| Fragments.StripShyShape | lib/metamorph.js:117-130 | the strip changes no node's kind other than that text, and no structure |
| Fragments.FragmentShyInvisible | lib/metamorph.js:92-136 | without the placeholder the fragment is the parser's output; with it, only the first node may differ, by at most one leading U+00AD of text, shape kept; failure exactly when parsing fails or yields nothing to strip |
| Fragments.FragmentFor | lib/metamorph.js:92-136 | the loops (wrapper descent, placeholder search, moving children) compute the fragment function |
| Fragments.DescendWrappers | lib/metamorph.js:109-111 | the wrapper loop reaches the node `depth` first-child steps down, or nothing when a step finds no child |
| Fragments.StripLeadingShy | lib/metamorph.js:118-129 | the nameless-element walk and the text edit produce the strip: the first node with one leading U+00AD removed from the text the walk arrives at |
| Fragments.MoveChildren | lib/metamorph.js:132-134 | every child moves into the fragment, in order, none lost or duplicated |
| Dom.AllWhereSorted | lib/metamorph.js:189-193 | a tree search lists what it finds in document order |
| Dom.FindInBody | lib/metamorph.js:391 | the body search finds a node satisfying the test, and none earlier in document order does |
| Dom.UidFixesPath | lib/metamorph.js:200-201 | in a well-formed document an identity sits at one place only |
| Dom.PathOfUid | lib/metamorph.js:200-201 | a node is found exactly when the body contains its identity, and what is found has that identity |
| Dom.Renumber | lib/metamorph.js:134-135 | created nodes equal the parsed ones apart from their identities, and the fresh counter never goes back |
| Dom.RenumberFresh | lib/metamorph.js:134-135 | created nodes have pairwise distinct identities in the allotted range |
| Locators.ById | lib/metamorph.js:391 | the lookup by id finds an element carrying the id, the first in document order, and fails only when no element of the body carries it |
| Locators.RealNode | lib/metamorph.js:348-354 | the climb stops at a node whose parent is named, passing only nameless ancestors |
| Locators.ClimbToRealNode | lib/metamorph.js:348-354 | the climbing loop computes the climb function |
| Locators.SelectMarker | lib/metamorph.js:399-409 | the fallback finds only a text child holding the id, under a `select`; that it is the first such text is `SelectMarkerFirst` |
| Locators.SelectsInOrder | lib/metamorph.js:398 | the `select` list holds every `select` of the body, in document order |
| Locators.SelectMarkerFirst | lib/metamorph.js:399-409 | the fallback's text child is the first holding the id in its `select`, and no `select` earlier in document order has one |
| Locators.SelectMarkerComplete | lib/metamorph.js:399-409 | the fallback fails exactly when no `select` of the body has such a text child |
| Locators.ScanSelectsForText | lib/metamorph.js:399-409 | the two nested loops compute the fallback |
| Locators.LegacyMarker | lib/metamorph.js:390-410 | a found marker is strictly inside the body |
| Locators.LegacyMarkerMissing | lib/metamorph.js:390-410 | the lookup fails exactly when no element carries the id and the fallback finds nothing |
| Locators.LegacyMarkerById | lib/metamorph.js:391-395 | the id lookup wins, and the result is the element lifted out of nameless wrappers |
| Locators.GetLegacyMarker | lib/metamorph.js:390-410 | the lookup's loops compute the lookup function |
| Locators.CommentPaths | lib/metamorph.js:189-191 | the walk visits only comments strictly inside the body |
| Locators.CommentPathsInOrder | lib/metamorph.js:189-193 | the walk lists every comment of the body, in document order |
| Locators.RecordHas | lib/metamorph.js:192-194 | after the walk a text is cached exactly when it was before or a walked comment holds it; a text no walked comment holds keeps its entry |
| Locators.RecordLast | lib/metamorph.js:192-194 | a text some walked comment holds maps to the last such comment |
| Locators.RangeMarker | lib/metamorph.js:183-203 | the cache is filled on a miss only; a hit counts only while the body contains the cached node |
| Locators.RangeMarkerMiss | lib/metamorph.js:187-201 | on a miss a node is found exactly when the body has a comment with that text, and it is such a comment; that it is the last one is `RangeMarkerMissLast` |
| Locators.RangeMarkerMissLast | lib/metamorph.js:187-196 | on a miss the comment found is the last one in document order holding the text: no later comment holds it |
| Locators.SameUidSameKind | lib/metamorph.js:200-201 | in a well-formed document one identity means one node kind |
| Locators.StaleEntryHides | lib/metamorph.js:187-201 | a cached entry whose node has left the body makes the lookup fail and leaves the cache as it was |
| Locators.FixParentage | lib/metamorph.js:384-388 | nothing changes when the parents match; otherwise start moves to the front of end's parent, or the host refuses when start contains that parent; afterwards both share a parent, start is the same node and end keeps its identity; the rest of the tree is `FixParentageFront`, `FixParentageElsewhere` and `Edits.FixParentageEntries` |
| Locators.FixParentageFront | lib/metamorph.js:384-388 | when the parents differ, start's new parent is end's parent (shifted by start's removal), whose children are start followed by its old children |
| Locators.FixParentageElsewhere | lib/metamorph.js:384-388 | every node off start's and end's parent's ancestor chains is the same node after reparenting, at its shifted path |
| Edits.FixParentageEntries | lib/metamorph.js:384-388 | reparenting changes the tree's contents only in the moved node's recorded parent kind, which becomes that of end's parent |
| Edits.Splice | lib/metamorph.js:455-457 | inserting a fragment puts renumbered copies of its nodes at the insertion point |
| Edits.SpliceValid | lib/metamorph.js:455-457 | insertion keeps the document well formed |
| Edits.DeleteRunValid | lib/metamorph.js:233 | deleting siblings keeps the document well formed |
| Edits.DeletedGone | lib/metamorph.js:251 | a deleted node's identity is nowhere in the document any more |
| Edits.SpliceKeepsAbsent | lib/metamorph.js:457 | inserting fresh nodes brings back no identity the document had lost |
| Edits.Remove | lib/metamorph.js:445 | `removeChild` takes exactly that child out of its parent's list |
| Edits.RemoveValid | lib/metamorph.js:445 | `removeChild` keeps the document well formed and takes the node out |
| Edits.FixParentageValid | lib/metamorph.js:384-388 | reparenting keeps the document well formed |
| Edits.RemoveGone | lib/metamorph.js:470-472 | after `removeChild`, no entry of the tree has the removed node's identity and none is new |
| Regions.LegacyCut | lib/metamorph.js:424-457 | the legacy loop deletes from after the start marker up to the end marker (or past it when `outerToo`), or to the end of the list when the end marker is not after the start |
| Regions.RangeCut | lib/metamorph.js:213-219 | the range spans from after start to before end, or from before start to after end; a backwards range collapses onto its end |
| Regions.Patch | lib/metamorph.js:232-238 | the deletion happens, then the fragment's nodes go in at the cut, in order; a fragment that fails leaves the deletion done |
| Regions.PatchValid | lib/metamorph.js:232-238 | a patch keeps the document well formed |
| Regions.PatchElsewhere | lib/metamorph.js:232-238 | a patch changes nothing outside the edited child list |
| Regions.InsertAt | lib/metamorph.js:486-499 | an insertion puts the fragment at the index; a failed fragment changes nothing |
| Regions.SiblingHtml | lib/metamorph.js:418-457 | on sibling markers the legacy edit either finishes or throws a type error |
| Regions.LegacyHtml | lib/metamorph.js:412-458 | throws not found exactly when a marker is unresolved, and then changes nothing |
| Regions.SiblingHtmlBetween | lib/metamorph.js:424-457 | on siblings, start first: the start marker and all before it stay, the fragment's nodes follow in order, then the end marker and the rest (`html`) or just the rest (`replaceWith`) |
| Regions.LegacyHtmlFixed | lib/metamorph.js:412-422 | after both markers resolve, the edit works on the positions `fixParentage` leaves, and moved markers put start before end |
| Regions.LegacyHtmlSiblings | lib/metamorph.js:412-458 | the legacy `html` and `replaceWith` contract on sibling markers |
| Regions.LegacyReplaceWithDropsEnd | lib/metamorph.js:424-451 | the legacy `replaceWith` keeps the start marker in place and removes the end marker's node |
| Regions.LegacyHtmlValid | lib/metamorph.js:412-458 | the legacy `html` keeps the document well formed, finished or thrown |
| Regions.RemoveMarkerNodes | lib/metamorph.js:471-472 | both marker removals either finish or throw a type error |
| Regions.RemoveMarkerNodesGone | lib/metamorph.js:471-472 | when both removals happen, neither marker node is left |
| Regions.LegacyRemove | lib/metamorph.js:463-473 | throws not found exactly when a marker is unresolved, changing nothing; when it finishes the stored content is empty |
| Regions.LegacyRemoveGone | lib/metamorph.js:463-473 | a finished legacy `remove` leaves neither marker node in the document |
| Regions.LegacyRemoveValid | lib/metamorph.js:463-473 | the legacy `remove` keeps the document well formed |
| Regions.LegacyInsertAfter | lib/metamorph.js:480-500 | throws not found exactly when the marker is unresolved; any throw changes nothing |
| Regions.LegacyInsertAfterPlaces | lib/metamorph.js:480-500 | the fragment's nodes go right after the marker, every other child kept in place |
| Regions.LegacyAppendTo | lib/metamorph.js:475-478 | a non-element target is a type error with no change; otherwise the fragment is appended after the target's children |
| Regions.LegacyIsRemovedIffNotFound | lib/metamorph.js:502-507 | `isRemoved()` is true exactly when `html`, `replaceWith` and `remove` throw not found |
| Regions.ContextFragment | lib/metamorph.js:175-179 | a native contextual parser always succeeds; the fallback fails only with a type error |
| Regions.RangeFor | lib/metamorph.js:207-222 | a range exists only when both markers resolve, and then both are cached |
| Regions.RangeHtmlAt | lib/metamorph.js:232-238 | the range edit finishes or throws a type error |
| Regions.RangeHtml | lib/metamorph.js:224-239 | throws not found exactly when the range fails to resolve, changing nothing but the cache |
| Regions.RangeHtmlBetween | lib/metamorph.js:224-239 | on siblings, start first: the start marker and all before it, the fragment's nodes, then the end marker and all after it |
| Regions.RangeReplaceWithOuter | lib/metamorph.js:213-215 | the range `replaceWith` replaces both markers and everything between them |
| Regions.RangeHtmlValid | lib/metamorph.js:224-239 | the range `html` keeps the document well formed |
| Regions.RangeRemove | lib/metamorph.js:242-251 | throws not found exactly when the range fails to resolve, changing nothing |
| Regions.RangeIsRemoved | lib/metamorph.js:290-292 | `isRemoved()` leaves the cache as the lookups do |
| Regions.RangeIsRemovedIffNotFound | lib/metamorph.js:290-292 | `isRemoved()` is true exactly when `html`, `replaceWith` and `remove` throw not found |
| Regions.RangeRemoveAtGone | lib/metamorph.js:242-251 | both markers and everything between them leave their parent's list; the end marker's node leaves the document |
| Regions.RangeRemoveRemoves | lib/metamorph.js:242-251 | after a range `remove`, `isRemoved()` is true without touching the cache, and `html` throws not found |
| Regions.RangeRemoveReversed | lib/metamorph.js:213-215 | with the end marker first, the range collapses and `remove` deletes nothing |
| Regions.RangeInsertAfter | lib/metamorph.js:262-288 | throws not found exactly when the marker is unresolved; any throw changes nothing |
| Regions.RangeInsertAfterPlaces | lib/metamorph.js:262-288 | the fragment's nodes go right after the marker, every other child kept in place |
| Regions.RangeAppendTo | lib/metamorph.js:254-260 | the fragment is appended to an element target; a non-element target throws, changing nothing |
| Regions.LegacyInsertAfterValid | lib/metamorph.js:480-500 | `after` and `prepend` keep the document well formed |
| Regions.RangeInsertAfterValid | lib/metamorph.js:262-288 | `after` and `prepend` keep the document well formed |
| Regions.AppendToValid | lib/metamorph.js:254-260 | `appendTo` keeps the document well formed |
| Regions.RangeRemoveValid | lib/metamorph.js:242-251 | the range `remove` keeps the document well formed |
| Engine.CreateContextualFragment | lib/metamorph.js:175-179 | `createContextualFragment` is the native parser or the polyfill |
| Engine.Library.constructor | lib/metamorph.js:8-9 | the counter starts at zero and the cache empty |
| Engine.Library.GetRangeMarker | lib/metamorph.js:183-203 | the tree-walk loop fills the cache as the lookup function says, and nothing else changes |
| Engine.Library.SiblingHtmlFunc | lib/metamorph.js:418-457 | the legacy edit on sibling markers equals its function |
| Engine.Library.RemoveSiblings | lib/metamorph.js:424-451 | the removal loop deletes exactly the legacy cut and returns its insertion index |
| Engine.Library.RangeHtmlAtFunc | lib/metamorph.js:232-238 | `deleteContents` then `insertNode` equal the range edit function |
| Engine.Library.RemoveMarkerNodesFunc | lib/metamorph.js:471-472 | the two `removeChild` calls equal their function |
| Engine.Library.InsertFragment | lib/metamorph.js:486-499 | `insertBefore` with a built fragment equals the insertion function |
| Engine.Metamorph.constructor | lib/metamorph.js:43-58 | the content is stored, the ids come from the counter's old value, and the counter goes up by one |
| Engine.Metamorph.GetHtml | lib/metamorph.js:511 | `html()` returns the stored content and changes nothing |
| Engine.Metamorph.SetHtml | lib/metamorph.js:510-516 | `html(s)` edits as the branch's function says, and stores `s` only when the edit finishes |
| Engine.Metamorph.ReplaceWith | lib/metamorph.js:518-520 | `replaceWith(s)` edits as the branch's function says, and keeps the stored content |
| Engine.Metamorph.HtmlFunc | lib/metamorph.js:224-239 | dispatches to the branch, and keeps the document well formed |
| Engine.Metamorph.LegacyHtmlFunc | lib/metamorph.js:412-458 | the legacy `htmlFunc` equals its function |
| Engine.Metamorph.RangeHtmlFunc | lib/metamorph.js:224-239 | the range `htmlFunc` equals its function |
| Engine.Metamorph.Remove | lib/metamorph.js:463-473 | `remove()` edits as the branch's function says, and keeps the document well formed |
| Engine.Metamorph.RangeRemoveFunc | lib/metamorph.js:242-251 | the range `removeFunc` equals its function |
| Engine.Metamorph.LegacyRemoveFunc | lib/metamorph.js:463-473 | the legacy `removeFunc`, through `html('')`, equals its function |
| Engine.Metamorph.AppendTo | lib/metamorph.js:475-478 | `appendTo` equals the branch's function on the region's outer markup |
| Engine.Metamorph.After | lib/metamorph.js:480-489 | `after` inserts after the end marker, as the branch's function says |
| Engine.Metamorph.Prepend | lib/metamorph.js:491-500 | `prepend` inserts after the start marker, as the branch's function says |
| Engine.Metamorph.InsertAfterMarker | lib/metamorph.js:480-500 | dispatches to the branch, and keeps the document well formed |
| Engine.Metamorph.LegacyInsertAfterFunc | lib/metamorph.js:480-500 | the legacy `afterFunc` and `prependFunc` equal their function |
| Engine.Metamorph.RangeInsertAfterFunc | lib/metamorph.js:262-288 | the range `afterFunc` and `prependFunc` equal their function |
| Engine.Metamorph.IsRemoved | lib/metamorph.js:502-507 | `isRemoved()` equals the branch's function, changing no document |
| MainRevision.MainRange | lib/main.js:53-67 | the range fails with a type error exactly when a placeholder is missing |
| MainRevision.MainFragment | lib/main.js:42 | the contextual fragment exists exactly when the host has the native method |
| MainRevision.MainHtml | lib/main.js:36-44 | throws not found exactly when `checkRemoved` does, with no edit; finishes exactly when both placeholders exist and the host can parse in context |
| MainRevision.MainRemove | lib/main.js:46-51 | finishes exactly when both placeholders exist; otherwise a type error with no edit |
| MainRevision.MainHtmlBetween | lib/main.js:36-44 | the start placeholder and all before it, the new nodes, then the end placeholder and all after it |
| MainRevision.MainHtmlWithoutParser | lib/main.js:41-42 | without a contextual parser the content is deleted before the type error |
| MainRevision.MainRemoveRemoves | lib/main.js:46-51 | both placeholders and what lies between them go, the rest of the parent's children stay in order, and the end id no longer resolves |
| MainRevision.GoneEndThrows | lib/main.js:36-76 | once the end id no longer resolves, `checkRemoved` throws, `remove` is a type error and `html` throws without changing the document |
| MainRevision.NoCarrierLeft | lib/main.js:69-76 | once the only carrier of an id is deleted, the id lookup fails |
| MainRevision.MainHtmlValid | lib/main.js:36-44 | `html(s)` keeps the document well formed, whatever the outcome |
| MainRevision.MainRemoveValid | lib/main.js:46-51 | `remove()` keeps the document well formed |
| MainRevision.Metamorph.ReplaceRange | lib/main.js:41-43 | deleting the range's contents and inserting the contextual fragment is the patch of that cut, a type error after the deletion on a host without the method |
| MainRevision.Page.constructor | lib/main.js:8-9 | the counter starts at zero |
| MainRevision.Metamorph.constructor | lib/main.js:11-26 | the content is stored, the ids come from the counter's old value, and the counter goes up by one |
| MainRevision.Metamorph.CheckRemoved | lib/main.js:69-76 | throws not found exactly when a placeholder is missing |
| MainRevision.Metamorph.Html | lib/main.js:36-44 | equals its function, and never changes the stored content |
| MainRevision.Metamorph.Remove | lib/main.js:46-51 | equals its function, and sets `removed` once it finishes, never clearing it |

## Left out

- Capability detection (lib/metamorph.js:13-32, 296) runs the host's parser. The model takes its results as the fixed `Config` flags of the host.
- The `DOMNodeInserted` listener (lib/metamorph.js:157-163) swaps inserted placeholder scripts for comments. Host events are not modelled. A host with this listener is a `Host` whose parser already yields comments.
- The host's parsers are uninterpreted function parameters. Neither the HTML parsing rules nor `innerHTML` serialisation is modelled.
- `toLowerCase` is modelled on ASCII letters only.
- Both `getElementById` and the tree walk search the body only, not the whole document.
- Node identity is a `uid` in a value tree. Nodes that have left the document are not kept, so two references to one detached node cannot be told apart from two nodes.
- Regions.RangeHtml, Regions.RangeRemove, Engine.Metamorph.RangeHtmlFunc and the other range operations require that markers which resolve share a parent. A range whose boundaries lie under different parents is not modelled.
- MainRevision.MainRange and the main.js edits have the same requirement for the placeholders.
- Regions.LegacyRemoveGone: states that the legacy `remove` takes both marker nodes out of the document, not that a later `isRemoved()` is true. Another element, for example one created from the `html('')` markup, may carry the same id, and a `select` may hold a text node with the id.
- Regions.LegacyReplaceWithDropsEnd: states that the end marker's node is gone, not that a later `isRemoved()` is true, for the same reason.
- MainRevision.MainRemoveRemoves: requires the end placeholder to be the only element with its id.
- Fragments.WrapFor: the object lookup `wrapMap[tag]` also matches inherited `Object.prototype` keys such as `constructor`. Only the seven listed tags are modelled.
- The jQuery `$("#" + id)` lookups of lib/main.js are modelled as the id lookup `Locators.ById`.
- The `K` constructor trick (calling `Metamorph` without `new`) does not change behaviour, so it is not modelled.
- The maintained invariant is well formedness. A `Library` keeps no link to the regions built on it.
- `startTag()` and `endTag()` are exposed on the prototype (lib/metamorph.js:527-528). They are modelled only inside `Markers.OuterHTML`.
