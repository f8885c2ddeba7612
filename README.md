# GhostBlock element blocker, modelled in Dafny

GhostBlock is a browser extension that hides page elements. In blocking mode
the content script highlights the element under the pointer. A left click
builds a stable CSS selector for that element and hides everything the
selector matches. It saves the selector under the page's host name and
re-applies the saved selectors whenever the page changes. A few
"quick options" hide fixed parts of YouTube pages. The management page
lists the saved selectors per site. There a single entry can be restored,
and one site or every site can be cleared. It also keeps the theme
preference.

This project models the content script (`content.js`) and the management
page's store operations and helpers (`manage.js`), and proves what they
promise.

- `wrappers.dfy`, `util.dfy`: the Option type and models of the JavaScript
  built-ins the scripts rely on:
  - `includes`, `startsWith`, `indexOf`, `join`;
  - number printing;
  - the default string `sort`.
- `dom.dfy`: the page as a finite tree of element records, and
  `querySelectorAll` as an oracle. For a tree and a selector the oracle
  returns None when the selector throws, otherwise a set of elements of the
  tree. "Hidden" and "highlighted" mean carrying the
  `element-blocker-hidden` / `element-blocker-highlight` class.
- `escape.dfy`: `escapeSelector` without `CSS.escape`.
- `synth.dfy`: `buildStableSelector` as functions, tier by tier. The tiers
  are `#id`, `data-*`, `a[href]`, an ancestor path of at most six
  `tag.class:nth-of-type(k)` segments joined by the child combinator
  (sections 6.6.5.4 and 8.2 of W3C Selectors Level 3), and a last-resort
  token attribute.
- `store.dfy`: the persisted map host → selectors, the storage area as a
  class whose reads and writes can each report an error, and the content
  script's read-modify-write steps on the map.
- `session.dfy`: every state change of the content script, as a pure
  function over a snapshot of (page, cached selector list, persisted map).
  The snapshot covers saving, applying, re-applying, clearing, highlighting,
  blocking and quick options.
- `content.dfy`: the content script's globals as the class `Page`. Its
  handlers update the fields in place, with loops where the script loops.
  Each handler is proved to leave exactly the state the matching `Session`
  function describes. Each also keeps the invariant `Valid`: exactly the
  hovered element carries the highlight class, a pending animation frame has
  a pending target, and nothing is hovered outside blocking mode. The last
  part holds because the modelled frame callback re-checks blocking mode.
  The script as written does not re-check it, and can leave an element
  hovered after blocking mode ends (see Findings).
- `manage.dfy`: the management page.
  - Pure parts: the theme cycle, the preference merge, the `splice`/`delete`
    edits and the counts they report, selector truncation, the site display,
    and `getElementDescription` with an equivalent rule table.
  - The class `Manager`, whose methods read and write the storage area.
    `LoadBlockedElements` is proved to produce the listing of the stored map.
    That listing is one card per site with a non-empty list, in strictly
    ascending site order, and it is unique.

## Model

| member | source | states |
|---|---|---|
| Escape.EscapeLength | content.js:28 | the escaped text is as long as the input plus one per reserved character |
| Escape.EscapeAppend | content.js:28 | escaping works character by character: escaping a concatenation concatenates the escapes |
| Escape.UnescapeEscape | content.js:28 | dropping the added backslashes gives back the input, so no character is lost or altered |
| Escape.EscapeWellEscaped | content.js:28 | read left to right, the output is made of backslash pairs and unreserved characters, so every reserved character stands right after the backslash that escapes it |
| Escape.EscapePlain | content.js:28 | text without reserved characters is left unchanged |
| Dom.AddClass | content.js:206 | `classList.add`: the class is present afterwards, other classes are kept, and a present class changes nothing |
| Dom.RemoveClass | content.js:188 | `classList.remove`: exactly that class is gone, and an absent class changes nothing |
| Dom.SetAttr | content.js:117 | `setAttribute`: the attribute reads back the new value, every other attribute reads as before |
| Synth.IdSelector | content.js:46-47 | an id selector is non-empty and starts with `#` |
| Synth.DataTier | content.js:52-59 | only `data-` attributes with a non-empty value count; the first one in attribute order whose selector is unique wins; none means no attribute qualified; a result is unique |
| Synth.HrefTier | content.js:62-71 | an anchor's path selector is returned only when it is unique |
| Synth.PathTier | content.js:110-111 | (corrected) the joined path is returned only when non-empty and unique |
| Synth.ChosenClass | content.js:88-97 | the chosen class is the first class in list order that is longer than one UTF-16 code unit, not all digits and not one of the script's own marker classes; none exactly when no class qualifies |
| Synth.ChosenClassAsWritten | content.js:91-93 | the class choice as written: the first class that is longer than one UTF-16 code unit and not all digits, markers included |
| Synth.MeaningfulByLength | content.js:92 | the class test is exactly `c.length > 1` on UTF-16 code units, so a single astral character passes, and not all digits |
| Synth.FirstWord | content.js:95 | `split(' ')[0]` has no space and leaves a one-word class unchanged |
| Synth.SameTag | content.js:100-101 | the same-tag filter keeps exactly the siblings in the tree with the node's tag |
| Synth.PathPartsStep | content.js:77-108 | (corrected) one step of the walk: a node with an id ends the path as `#id`, any other node puts its segment below its parent's path |
| Synth.PathNodesShape | content.js:74-108 | the walk visits between 1 and 6 nodes, each the parent of the next and ending at the element; only the topmost may have an id; it stops at an id, at depth 6 or at the root |
| Synth.PathPartsOfNodes | content.js:77-108 | (corrected) the parts are the visited nodes' parts, one each, top-down: `#id` for the node with an id, the segment for every other |
| Synth.PathSelectorShape | content.js:73-110 | (corrected) at most six segments; an element with an id gets exactly `#id`; otherwise its own segment comes last |
| Synth.NthOfTypePosition | content.js:100-105 | `:nth-of-type(k)` appears exactly when more than one sibling has the tag, and k is the 1-based position among them |
| Synth.Candidate | content.js:42-112 | (corrected) any selector from tiers 1 to 4 is non-empty and unique per the oracle; a unique `#id` wins outright |
| Synth.Synthesize | content.js:42-122 | (corrected) synthesis never adds or removes elements and never changes a class list |
| Synth.SynthesizeOutcome | content.js:42-122 | (corrected) null only for a non-element, or when tiers 1 to 4 fail and `setAttribute` fails; a tier 1 to 4 result leaves the page alone; otherwise the token is written on the element itself, nothing else changes and the token selector is returned |
| Synth.SynthesizeUniqueId | content.js:46-49 | an element with a unique non-empty id gets exactly `'#' + escape(id)` |
| Synth.LastResortUnique | content.js:114-118 | with a fresh token, the last-resort selector finds exactly the element |
| Synth.ChosenClassUnmarked | content.js:88-97 | the corrected class choice ignores marker classes |
| Synth.PathIgnoresMarks | content.js:74-110 | (corrected) hiding or highlighting elements never changes any element's ancestor path |
| Synth.UnmarkedAddMarker | content.js:206 | adding a marker class leaves the non-marker classes as they were |
| Synth.UnmarkedRemoveMarker | content.js:188 | removing a marker class leaves the non-marker classes as they were |
| Synth.HighlightCapturedAsWritten | content.js:91-93 | as written, a highlighted `div` whose only class is the highlight marker gets the segment `div.element-blocker-highlight`, a class it loses once unhighlighted; the corrected segment is `div` |
| Synth.RootUnpositioned | content.js:100-105 | a root element has no parent, hence no same-tag siblings and no `:nth-of-type` position |
| Store.Storage.Get | content.js:125-134 | a read yields nothing when it reports an error, otherwise the stored map |
| Store.Storage.Set | content.js:136-145 | a write replaces the map unless it reports an error |
| Store.Storage.GetPrefs | manage.js:31-32 | a preference read yields nothing when it reports an error, otherwise the stored preferences |
| Store.Storage.SetPrefs | manage.js:50 | a preference write replaces them unless it reports an error |
| Store.AddSelector | content.js:164-168 | the host's list gets the selector appended unless it is already there; a new host gets a one-element list; other hosts are unchanged |
| Store.AddSelectorOnce | content.js:166-167 | after the add, the host's list holds the selector exactly once and stays duplicate-free |
| Store.AddSelectorWellStored | content.js:164-168 | adding keeps every stored list non-empty and duplicate-free |
| Store.PersistSave | content.js:164-169 | (corrected) a save with a failed read or write leaves the map alone; a successful one leaves the selector under the host; other hosts untouched |
| Store.SaveAfterReadErrorAsWritten | content.js:127-131 | as written, a save after a failed read writes a map holding only the current host: another host's selectors are dropped |
| Store.PersistClear | content.js:178-184 | (corrected) only the host's key is removed, and nothing when the read or write fails |
| Store.ClearAfterReadErrorAsWritten | content.js:127-131 | as written, clearing after a failed read writes the empty map, dropping every other host |
| Session.MarkAll | content.js:204-210 | adding a class to a set of elements: those elements carry it, the others and those that already had it are unchanged |
| Session.UnmarkAll | content.js:187-192 | removing a class from a set: those elements lack it, the others are unchanged |
| Session.WithClassMarking | content.js:187-210 | the set of elements carrying a class grows by the set marked, or shrinks by the set unmarked; other classes are unaffected |
| Session.MarkingSameButMarks | content.js:187-210 | marking and unmarking with the script's classes change nothing else on the page |
| Session.Save | content.js:158-170 | (corrected) an empty or already cached selector changes nothing; otherwise the selector is appended to the cache; the page and other hosts are untouched; a storage error leaves the stored map alone, and with working storage a newly cached selector ends up stored under the host |
| Session.SaveOnce | content.js:160-162 | the cache holds a saved selector exactly once and stays duplicate-free |
| Session.SaveConverges | content.js:158-170 | with working storage, a save keeps the cache and the host's stored list equal |
| Session.SaveRepeated | content.js:158-170 | saving the same selector n times is saving it once; it occurs once in the cache and, with working storage, once in the stored list |
| Session.SaveFixed | content.js:159-160 | saves of an empty or cached selector, any number of them, change nothing |
| Session.Matched | content.js:199-203 | the matched set lies in the page and is non-empty exactly for a non-empty selector the oracle matches |
| Session.HideMatches | content.js:204-210 | every match is hidden, already hidden elements and non-matches are untouched, nothing but marks changes |
| Session.Apply | content.js:198-219 | (corrected) found iff a non-empty selector matches something; a selector that throws yields false and no change; saves only when `save` holds and something matched |
| Session.ApplyIdempotent | content.js:198-219 | a second application on the resulting state changes nothing and returns the same result (for selectors whose matches do not depend on marker classes, `MarkInsensitive`) |
| Session.Reapply | content.js:222-225 | re-applying changes nothing but marks and never un-hides |
| Session.ReapplyCovers | content.js:222-225 | after re-applying, everything any cached selector matches is hidden (for selectors whose matches do not depend on marker classes, `MarkInsensitive`) |
| Session.ReapplyFixed | content.js:222-225 | when every match is already hidden (an empty cache in particular), re-applying changes nothing |
| Session.ReapplyIdempotent | content.js:222-225 | re-applying twice is re-applying once (for selectors whose matches do not depend on marker classes, `MarkInsensitive`) |
| Session.LoadCache | content.js:148-155 | the loaded cache equals the host's stored list, empty when there is none; a failed read gives the empty list |
| Session.ClearHost | content.js:173-195 | (corrected) the cache is emptied, no element stays hidden, nothing else on the page changes, other hosts are untouched, and with working storage the host's key is gone |
| Session.DropHighlight | content.js:257-262 | `removeHighlight` unhighlights exactly the hovered element and leaves the hidden set alone |
| Session.MoveHighlight | content.js:448-453 | the previous hovered element loses the highlight unless it is the target, the target gains it, the hidden set is unchanged |
| Session.SingleHighlight | content.js:448-453 | if only the hovered element was highlighted, after a move only the target is, and after removal none is |
| Session.StaleFrameAsWritten | content.js:440-457 | as written, a frame that runs after Escape leaves an element highlighted and hovered outside blocking mode |
| Session.Block | content.js:265-278 | (corrected) a non-element, a hidden element or one without a selector changes nothing; otherwise the highlight is dropped; hidden elements stay hidden |
| Session.BlockWith | content.js:271-277 | (corrected) the hidden set grows by exactly the selector's matches, the selector is cached when it matched, the highlight goes |
| Session.BlockCandidate | content.js:265-278 | (corrected) a tier 1 to 4 selector is cached and hides exactly the one element it matches |
| Session.BlockLastResort | content.js:265-278 | (corrected) with a fresh token the token selector is cached and exactly the element is newly hidden |
| Session.QuickChoice | content.js:341-379 | the primary selector when it matches, else the fallback when it matches, else none |
| Session.QuickStep | content.js:341-384 | (corrected) a disabled option, or one neither selector matches, changes nothing; otherwise the chosen selector's matches are hidden and it is cached; only catalogued selectors are added; other hosts untouched |
| Session.QuickFoldMarks | content.js:341-384 | quick options change nothing on the page but marks |
| Session.QuickFoldPrefix | content.js:341-384 | quick options only append to the cache |
| Session.QuickFoldCatalogued | content.js:341-384 | every selector quick options add is one of the two tables' |
| Session.QuickFoldOtherHosts | content.js:341-384 | (corrected) quick options leave other hosts' stored lists alone |
| Session.QuickFoldStores | content.js:341-384 | (corrected) with working storage, every selector a batch adds to the cache is stored under the host, and nothing already stored under it is lost |
| Session.BatchLosesWriteAsWritten | content.js:341-384 | as written, two options that pick new selectors from an empty store leave both cached but only the second stored |
| Session.BatchKeepsWrites | content.js:341-384 | (corrected) the same two options leave both selectors cached and both stored |
| Session.QuickOffYoutube | content.js:335-338 | on a host not containing `youtube.com`, nothing changes |
| Content.Page.constructor | content.js:6-12 | script load: not blocking, nothing hovered, cache loaded from storage, cached selectors applied, storage unchanged and only its selector map in the frame, invariant established |
| Content.Page.LoadBlockedSelectorsFromStorage | content.js:148-155 | the cache becomes the host's stored list and is applied to the page; storage is only read |
| Content.Page.CandidateSelector | content.js:42-112 | (corrected) the imperative tier chain returns exactly the tier 1 to 4 result |
| Content.Page.DataAttributeSelector | content.js:52-59 | the attribute loop returns exactly tier 2's result |
| Content.Page.AncestorParts | content.js:73-108 | (corrected) the `unshift` loop builds exactly the ancestor path parts |
| Content.Page.SegmentOf | content.js:78-105 | (corrected) the segment built step by step is the node's segment |
| Content.Page.ChooseClass | content.js:88-97 | the class loop returns the corrected class choice |
| Content.Page.BuildStableSelector | content.js:42-122 | (corrected) the result and the page afterwards are those of the synthesis; the invariant is kept |
| Content.Page.SaveSelectorForHost | content.js:158-170 | (corrected) the cache and stored map become those of `Session.Save` |
| Content.Page.HideAllIn | content.js:204-210 | the `forEach` loop adds the hide class to exactly the given elements |
| Content.Page.ShowAllIn | content.js:187-192 | the `forEach` loop removes the hide class from exactly the given elements |
| Content.Page.ApplySelector | content.js:198-219 | (corrected) the result and state are those of `Session.Apply` |
| Content.Page.ReapplyAllBlockedSelectors | content.js:222-225 | the page becomes the re-application of the cache; the cache and storage stay as they were |
| Content.Page.ClearAllBlocks | content.js:173-195 | (corrected) the state becomes that of `Session.ClearHost` with the highlight dropped; nothing is hovered |
| Content.Page.RemoveHighlight | content.js:257-262 | the hovered element loses the highlight, nothing is hovered, no element is highlighted |
| Content.Page.BlockElement | content.js:265-278 | (corrected) the state becomes that of `Session.Block`; the hover is cleared exactly when it acted |
| Content.Page.HideAndSave | content.js:347-359 | (corrected) a matching quick selector hides its matches and is saved; one that matches nothing or throws changes nothing |
| Content.Page.ApplyQuickOption | content.js:341-384 | (corrected) one option's effect is `Session.QuickStep` |
| Content.Page.ApplyQuickOptions | content.js:334-384 | (corrected) the state becomes that of `Session.QuickAll` |
| Content.Page.ToggleBlocking | content.js:287-291 | the mode becomes the flag; turning it off drops the highlight and clears the hover, turning it on changes nothing else |
| Content.Page.ClearAndLeave | content.js:292-297 | (corrected) the state becomes that of `Session.ClearHost` with the highlight dropped, blocking mode off and nothing hovered |
| Content.Page.HandleMessage | content.js:281-310 | (corrected) toggle sets the mode to the flag and drops the highlight when disabling; clear empties cache, host entry and hidden marks and leaves blocking mode; getState reports the mode; quick options apply; anything else answers failure and changes nothing |
| Content.Page.OnMouseMove | content.js:238-245 | idle, or with a frame already pending, nothing changes; otherwise one frame is scheduled for the target |
| Content.Page.OnAnimationFrame | content.js:440-457 | (corrected) the frame moves the highlight to the element target only while still blocking; afterwards at most the hovered element is highlighted and no frame is pending |
| Content.Page.OnClick | content.js:461-477 | (corrected) only a left click while blocking is suppressed, and it blocks the target; anything else changes nothing |
| Content.Page.OnKeyDown | content.js:480-485 | Escape while blocking leaves blocking mode and drops the highlight; any other key, or Escape while idle, changes nothing |
| Manage.NextTheme | manage.js:61-63 | the next theme is one of the three; an unrecognised theme goes to auto |
| Manage.ThemeCycle | manage.js:61-63 | auto → light → dark → auto |
| Manage.ThemePeriod | manage.js:61-63 | from a known theme, three presses come back and one press always changes it |
| Manage.ThemeFromPrefs | manage.js:32-33 | a non-empty stored text theme is returned as it is; an absent, empty or `false` theme gives auto; never empty |
| Manage.MergePrefs | manage.js:47-48 | the merge keeps every existing key and overwrites exactly the supplied ones |
| Manage.ThemeRoundTrip | manage.js:45-54 | a non-empty theme merged into the preferences reads back as the theme |
| Manage.SavePrefs | manage.js:45-54 | a read or write error keeps the stored preferences, otherwise they become the merge |
| Manage.SpliceStart | manage.js:240 | `splice`'s start is within the list; it counts from the end for a negative index |
| Manage.RemoveAt | manage.js:240 | for a valid index exactly that entry goes: the others keep their order and the multiset loses only it; an index past the end changes nothing |
| Manage.RemoveAtFromEnd | manage.js:240 | a negative index removes the entry that many places from the end |
| Manage.RemoveAtNoDup | manage.js:240 | removing an entry keeps a duplicate-free list duplicate-free |
| Manage.Unblock | manage.js:238-244 | an absent site changes nothing; other sites are unchanged; the site keeps its spliced list, and its key goes when the list becomes empty |
| Manage.UnblockWellStored | manage.js:238-244 | restoring keeps the map's lists non-empty and duplicate-free |
| Manage.UnblockTotal | manage.js:238-244 | restoring one valid entry lowers the total count by one |
| Manage.TotalRemove | manage.js:295 | the total is the site's count plus the total of the other sites, whatever order the sites are summed in |
| Manage.ClearSiteCount | manage.js:273 | an absent site reports 0 |
| Manage.ClearSiteAccount | manage.js:272-274 | removing the site's key removes exactly the reported number of entries |
| Manage.CountLabel | manage.js:139 | the label starts with the number and ends in `s` exactly when the number is not 1 |
| Manage.SelectorDisplay | manage.js:149-150 | at most 60 characters; unchanged up to 60; otherwise the first 57 characters and `...` |
| Manage.StripScheme | manage.js:129 | text without an http or https scheme is left alone; otherwise the result is what follows the scheme (and a `www.`), a strictly shorter suffix |
| Manage.UpToSlash | manage.js:129 | the result is the prefix before the first slash, and has no slash |
| Manage.SiteDisplay | manage.js:129 | the displayed site is the scheme-stripped text up to, and without, its first slash |
| Manage.SchemeDisplay | manage.js:129 | an `http://` or `https://` URL, with or without `www.`, is displayed as its host name |
| Manage.BareHostDisplay | manage.js:129 | a bare host name, the way the content script stores it, is displayed as it is |
| Manage.Upper | manage.js:128 | lower-case ASCII letters become upper-case, anything else is kept |
| Manage.Icon | manage.js:128 | the icon is the site's first character upper-cased, or empty for an empty site |
| Manage.Describe | manage.js:204-227 | the description is never empty |
| Manage.FirstLabelPicks | manage.js:204-227 | the first rule with a keyword in the selector gives the label |
| Manage.FirstLabelDefault | manage.js:224-225 | when no rule fires the label is `Page element` |
| Manage.DescribeByRules | manage.js:204-227 | the chain of tests equals the rule table read in order: ads/advertisement, popup/modal, nav/menu, sidebar, header, footer, comment, social, btn/button |
| Manage.RenderCard | manage.js:128-166 | a card is built from the site's list, one item per selector with its position, in list order |
| Manage.RenderCards | manage.js:124-172 | over the sorted keys, the cards are exactly the sites with non-empty lists, in strictly ascending order |
| Manage.SiteKeys | manage.js:122 | `Object.keys` lists every key of the map once |
| Util.Sort | manage.js:122 | `sort()` returns an ascending permutation of the keys, still free of duplicates |
| Util.InsertNoDup | manage.js:122 | inserting a new key into a duplicate-free sorted list keeps it duplicate-free |
| Manage.ListingUnique | manage.js:122-126 | a map has exactly one listing |
| Manage.SiteOrderUnique | manage.js:122 | two strictly ascending card lists over the same sites list them in the same order |
| Manage.Manager.constructor | manage.js:2 | the page starts with theme auto |
| Manage.Manager.InitTheme | manage.js:30-34 | the theme becomes the stored one, or stays as it was after a failed read |
| Manage.Manager.SaveUserPreferences | manage.js:45-54 | the stored preferences become `SavePrefs` of the old ones |
| Manage.Manager.ToggleTheme | manage.js:60-68 | the theme advances one step in the cycle and is saved into the preferences |
| Manage.Manager.UnblockElement | manage.js:229-257 | the stored map becomes `Unblock` of the old one when the read and write succeed and the site exists, otherwise it stays; the notice names the outcome |
| Manage.Manager.ClearSite | manage.js:259-286 | when confirmed and storage works, the site's key goes and the notice reports the prior count; otherwise nothing is written |
| Manage.Manager.ClearAll | manage.js:288-307 | when confirmed and storage works, the empty map is written and the notice reports the total over all sites, counted by a loop |
| Manage.Manager.LoadBlockedElements | manage.js:93-179 | a failed read is a load error; an empty map is the empty state; otherwise the cards are the listing of the stored map |

## Left out

- `CSS.escape` (content.js:27) is not modelled; only the manual escaping branch is.
- The CSS selector engine is an abstract oracle. "A synthesized selector matches its element" can only be stated for the token tier, and only under the oracle assumption `TokenSound`. Tiers 1 to 4 are proved unique, not proved to match the clicked element.
- URL resolution in the anchor tier (`new URL`, content.js:64-65) is not modelled. Each element carries the resulting path, query and fragment as a given string, or none.
- `Date.now` and `Math.random` token generation (content.js:115) is a `token` parameter. Whether `setAttribute` throws is a `writable` parameter.
- Timers are not modelled:
  - the 300 ms debounced MutationObserver (content.js:229-235, 248-254);
  - the 1800 ms re-check (content.js:392-395);
  - the `disableAutoplayReliable` retry loop and its button clicks (content.js:386-435).
- `requestAnimationFrame` itself is not modelled. Only the `rafScheduled` gate and the frame callback are, as `OnMouseMove` and `OnAnimationFrame`.
- Style injection and inline style properties (content.js:15-23, 189-191, 208) are not modelled. "Hidden" is the hide class alone.
- Chrome messaging is modelled as `HandleMessage`, a call with a request and a response. A request of any other action answers `success: false`. That includes `clearAllSiteData`, which popup.js sends but the content script does not handle. popup.js is not part of this model.
- Asynchronous storage callbacks are collapsed into synchronous steps: each read-modify-write completes before the next one starts. Interleavings of callbacks from different events are not modelled. Within one event, the only place the script starts several read-modify-writes at once is a quick-options batch (next line).
- Content.Page.ApplyQuickOptions, Content.Page.HandleMessage, Session.QuickAll, Session.QuickFold: these model the corrected batch, where each save reads the map the previous one wrote. As written, every `saveSelectorForHost` in the `forEach` at content.js:341-384 issues its read (content.js:164) before any callback runs. All of them copy the same map, and each write replaces the whole map. Only the last newly cached selector of a batch is added to storage, while the cache holds them all. The as-written batch is `Session.QuickAllAsWritten`.
- Session.Save, Session.ClearHost, Session.Apply, Session.BlockWith, Session.QuickStep, Session.QuickFoldOtherHosts, Content.Page.SaveSelectorForHost, Content.Page.ClearAllBlocks, Content.Page.ClearAndLeave, Content.Page.HandleMessage, Content.Page.ApplySelector, Content.Page.HideAndSave, Content.Page.ApplyQuickOption, Content.Page.ApplyQuickOptions, Content.Page.OnClick: these model the corrected storage path of the finding on content.js:127-131, directly or through `Session.Save`. After a failed read they write nothing. As written, content.js:129 hands the callback `{}`, and content.js:164-169 and 178-184 write it back as the whole map. The as-written behaviour is `Store.PersistSaveAsWritten` and `Store.PersistClearAsWritten`.
- Synth.PathPartsStep, Synth.PathPartsOfNodes, Synth.PathSelectorShape, Synth.PathTier, Synth.Candidate, Synth.Synthesize, Synth.SynthesizeOutcome, Session.Block, Session.BlockCandidate, Session.BlockLastResort, Content.Page.SegmentOf, Content.Page.CandidateSelector, Content.Page.AncestorParts, Content.Page.BuildStableSelector, Content.Page.BlockElement, Content.Page.OnClick, Synth.PathIgnoresMarks: these use the corrected class choice of the finding on content.js:91-93, which skips the script's own marker classes. As written, content.js:91-93 may choose a marker; that choice is `Synth.ChosenClassAsWritten`.
- Session.ApplyIdempotent, Session.ReapplyCovers, Session.ReapplyIdempotent hold only for selectors whose matches do not depend on the marker classes (`MarkInsensitive`). The hypothesis is necessary. `div:not(.element-blocker-hidden)` matches nothing once applied, so a second application returns a different result. A selector built on the highlight marker, such as the as-written `div.element-blocker-highlight` of the finding on content.js:91-93, breaks it too.
- Manage.SelectorDisplay counts characters, where `selector.length` and `substring(0, 57)` (manage.js:149-150) count UTF-16 code units. A selector with characters outside the Basic Multilingual Plane is cut at a different place, and JavaScript can split a surrogate pair there.
- Content.Page.OnAnimationFrame, Content.Page.Valid and every Page method that requires `Valid()`: the frame callback re-checks blocking mode, which content.js:440-457 does not. `Valid` therefore includes "nothing is hovered outside blocking mode", a state the corrected callback keeps. The script as written can reach blocking mode off with an element hovered and highlighted (`Session.StaleFrameAsWritten`). The handlers are not proved for that state.
- Manage.Icon takes the whole first character. `charAt(0)` (manage.js:128) takes the first UTF-16 code unit, which is half a surrogate pair for a site starting with an astral character. A lone surrogate is not a Dafny `char`.
- Content.Page.ClearAllBlocks and Session.ClearHost take `querySelectorAll('.element-blocker-hidden')` (content.js:186) to be exactly the elements whose class list holds the hide class (`WithClass`). They do not ask the selector oracle. This assumes the engine answers a plain class selector from the class lists.
- Content.Page.constructor requires that no element carries the highlight class when the script starts. A page that uses the class name `element-blocker-highlight` itself is not modelled.
- Content.Page.HideAllIn, Content.Page.ShowAllIn: elements are visited in an arbitrary order, not in NodeList document order. The order does not affect the result.
- Manage.SiteKeys: keys are taken in arbitrary order, not insertion order. The listing sorts them, so the order does not matter.
- Util.LexLe orders strings by `char` code. JavaScript's `sort` compares UTF-16 code units, which can differ for characters outside the Basic Multilingual Plane.
- Manage.Upper upper-cases ASCII letters only. `toUpperCase` covers all of Unicode.
- HTML generation, `escapeHtml`, toasts, `confirm` dialogs (a `confirmed` parameter), `applyTheme` and `matchMedia` styling, keyboard shortcuts and event wiring in manage.js (5-28, 56-91, 181-202, 310-376) are not modelled. The listing is a value, not HTML.
- manage.js does not check `chrome.runtime.lastError` after the reads in `initTheme`, `saveUserPreferences` and `clearAll`. The model takes a failed read there to leave the callback without a result, so it writes nothing and changes nothing.
- The preference bag's values are strings or booleans only (`PrefValue`). A stored boolean `true` as theme reads as the text `"true"`, which the theme cycle treats as unrecognised.
- A stored list that is not an array (`Array.isArray`, content.js:151, 164) cannot occur in the model, because the map's values are sequences.

## Findings

| source | as written | input that shows it | evidently intended | confidence | as-written member | corrected member |
|---|---|---|---|---|---|---|
| content.js:341-384 | Every save in one quick-options batch reads the map before any of the batch's writes lands (content.js:164). Each write then replaces the whole map, so the last one wins. | host `www.youtube.com`, empty store and cache, options `hideComments` and `hideSidebar` both on, both primary selectors matching: both selectors are cached, but only the sidebar selector is stored | every selector the batch caches is also stored, so the blocks survive a reload | high (not executed) | Session.BatchLosesWriteAsWritten | Session.QuickFoldStores |
| content.js:127-131 | A failed storage read calls back with `{}`. `saveSelectorForHost` and `clearAllBlocks` then write that object back as the whole map. | stored `{"news.example": ["#ad"]}`, a save of `#promo` on `video.example` whose read fails: the map written is `{"video.example": ["#promo"]}` | a failed read should not overwrite the map; other hosts keep their selectors | high (not executed) | Store.SaveAfterReadErrorAsWritten | Store.PersistSave |
| content.js:91-93 | The class heuristic accepts the script's own `element-blocker-highlight` class, which the clicked element carries while blocking whenever the hover highlight has reached it. | a `div` whose only class is the highlight marker: its segment is `div.element-blocker-highlight`, and the class is removed right after | the script's marker classes are not chosen, so the path does not depend on hover or hide state | medium (not executed) | Synth.HighlightCapturedAsWritten | Synth.PathIgnoresMarks |
| content.js:440-457 | The animation-frame callback does not re-check `isBlocking`. | mousemove while blocking, then Escape, then the frame: the target is highlighted and hovered with blocking mode off | highlight only while blocking mode is on | medium (not executed) | Session.StaleFrameAsWritten | Content.Page.OnAnimationFrame |
