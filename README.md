# Storefront theme scripts, modelled in Dafny

This project models four browser scripts of a storefront theme and proves
properties about them:

- **Menu portal** (`assets/menu-portal.js`). A submenu panel is not shown
  in place. The script shows a copy of it (a "clone") in the document body,
  under the trigger that opened it. The model covers:
  - how a trigger finds its panel;
  - how the clone is built (nested panels removed, ids stripped, and it is
    rejected when nothing clickable is left);
  - where it is placed;
  - the session state machine: one active clone; hover, click and focus
    opening; the close delays; fading out and removal; repositioning on
    scroll and resize.

  Module `MenuDom` is the element tree and the DOM queries the script uses.
  `MenuPortal` holds the pure steps and their invariant. `PortalSession`
  is the module-level state as an object, whose methods do the same steps
  in place.
- **Product hotspots** (`assets/product-hotspot.js`). `ProductHotspot`
  covers:
  - the shared registry of hotspot elements;
  - the active index and its bounds check;
  - the active marks on hotspots and cards;
  - the arrow buttons and their labels;
  - the track shift;
  - the hover and start timers;
  - the page-init sort by `data-index`.
- **Collection reveal** (`assets/collection-reveal.js`). `CollectionReveal`
  covers:
  - hiding the products after the first `initial`;
  - the "Showing n/total" counter;
  - the "Load more" batches, with a fetch of the next page when nothing hidden is left;
  - the "Show less" collapse to two rows;
  - the button's mode, label and disabled state.
- **Collection grid banner** (`assets/collection-grid-banner.js`).
  `CollectionGridBanner` places the promotional banner at the start of the
  grid's second row, at its left or right end. It also models the debounced
  re-placement.

`GridColumns` is the column count both collection scripts read from the
computed `grid-template-columns`.

Each handler that changes state is a method of a class. Its `ensures` ties
the new state to a pure function of the old state, and the properties are
proved about those functions. The hotspot loops (`updateActiveStates`) and
the reveal loops (hiding, showing the first items, revealing a batch) are
`while` loops with invariants. Three in-place `forEach` loops are modelled
as recursive functions over values instead: removing the panels from a
clone (menu-portal.js:59-62) is `MenuPortal.Prune`, stripping the
descendant ids (menu-portal.js:70) is `MenuPortal.StripIds`, and appending
the fetched items (collection-reveal.js:78-81) is one sequence update in
`CollectionReveal.Reveal.FetchNextPage`.

## Model

| member | source | states |
|---|---|---|
| MenuDom.QuerySelectorAll | assets/menu-portal.js:59-62 | Only strict descendants that match the selector are listed. |
| MenuDom.QuerySelectorAllComplete | assets/menu-portal.js:59-62 | Every matching strict descendant is in the list. |
| MenuDom.QuerySelectorAllFirst | assets/menu-portal.js:67-68 | The first listed match is not later in document order than any other match. |
| MenuDom.QuerySelector | assets/menu-portal.js:67-68 | The result is the first match in document order, or nothing when no descendant matches. |
| MenuDom.Closest | assets/menu-portal.js:37-41 | The result is the nearest ancestor-or-self that matches; nothing is returned only when none does. |
| MenuDom.NextSibling | assets/menu-portal.js:47-48 | The result is the element right after this one under the same parent. Nothing is returned exactly when the element is the root or its parent's last child. |
| MenuDom.InContext | assets/menu-portal.js:12-20 | An element matches the panel selectors exactly when it carries one of the five context-free panel classes, or carries `sub-menu`/`dropdown` below a `.header` of the same tree; every other attribute is kept. |
| MenuDom.ElementById | assets/menu-portal.js:42-46 | The result is the first element with that id, root included; nothing is returned only when no element has it. |
| MenuPortal.Detach | assets/menu-portal.js:54 | The copy made by `cloneNode` has nothing above its root, so its root is a panel only through a context-free panel class; its other attributes are kept. |
| MenuPortal.Prune | assets/menu-portal.js:59-62 | The copy keeps the root's own attributes, and no descendant of it is a panel. |
| MenuPortal.PruneKeepsSurvivors | assets/menu-portal.js:59-62 | The elements left after the removal loop are exactly, in document order and with their attributes, the descendants with no panel on the way from the root, the element itself included. |
| MenuPortal.PruneNothing | assets/menu-portal.js:59-62 | A tree with no panel below its root is left as it is. |
| MenuPortal.StripIds | assets/menu-portal.js:70 | The root keeps its id, every descendant loses its id, and the tree's shape is unchanged. |
| MenuPortal.CloneRootId | assets/menu-portal.js:56 | The clone root always gets an id: the panel's own when it has one, or else one with the clone prefix. |
| MenuPortal.BuildClone | assets/menu-portal.js:52-80 | Panels are matched in the detached copy. A copy is rejected exactly when no `a[href]` or `button[role="menuitem"]` survives pruning there. An accepted copy has the expected root id, has the pruned copy's shape, contains no nested panel and no descendant id, and still contains an action. A copy whose children are all panels gives nothing. |
| MenuPortal.BuildCloneRejects | assets/menu-portal.js:59-67 | The copy is rejected exactly when no element reached from the root without crossing a panel of the detached copy is an `a[href]` or `button[role="menuitem"]`. |
| MenuPortal.HeaderSubMenuKeepsNestedLinks | assets/menu-portal.js:18-19 | A `.header .sub-menu` panel whose only link sits in a nested `.sub-menu` loses that link when pruned in the page, yet gives a clone, because out of the document the nested `.sub-menu` is no panel. |
| MenuPortal.CloneFacts | assets/menu-portal.js:59-70 | Stripping ids from a pruned copy removes every descendant id, adds no panel, and keeps every action. |
| MenuPortal.Place | assets/menu-portal.js:82-93 | The clone's top edge is at the trigger's bottom. It is left-aligned with the trigger but never left of the minimum offset. Its stacking layer is the CSS variable's value when set, and never empty. |
| MenuPortal.ClosestTarget | assets/menu-portal.js:37 | In the page or inside a clone, the result is the nearest matching ancestor-or-self within the same tree; nothing is returned only when no ancestor matches. |
| MenuPortal.ItemPanel | assets/menu-portal.js:37-41 | Returns the first panel inside the trigger's nearest menu-item container. There is none when no container exists or it holds no panel. |
| MenuPortal.ControlsPanel | assets/menu-portal.js:42-46 | Returns the page element whose id equals `aria-controls`. There is none when the attribute is empty or no page element carries that id. |
| MenuPortal.SiblingPanel | assets/menu-portal.js:47-48 | Returns the next element sibling when it is a panel, and nothing otherwise. |
| MenuPortal.FindPanel | assets/menu-portal.js:35-50 | The result exists and is a panel, or it is a page element whose id equals the trigger's `aria-controls`, panel or not. Nothing is returned exactly when all three rules fail. |
| MenuPortal.FindPanelOrder | assets/menu-portal.js:35-50 | The menu-item rule wins over `aria-controls`, which wins over the sibling rule. |
| MenuPortal.CloneTriggerResolvesToPage | assets/menu-portal.js:35-50 | A trigger inside a clone can only resolve to a panel of the page. |
| MenuPortal.Init | assets/menu-portal.js:1-30 | On a page whose panel flags are those of the document, the script starts with no clone and no session, and the invariant holds. |
| MenuPortal.LiveIsActive | assets/menu-portal.js:104-111 | Whatever the steps, at most one clone is in the document and not fading out, and it is the active clone of the active panel. |
| MenuPortal.SmoothClose | assets/menu-portal.js:190-259 | The clone starts fading out and waits for its removal; every other clone and the session slot stay as they were. A clone already closing is ignored. |
| MenuPortal.SmoothCloseIdempotent | assets/menu-portal.js:191-194 | Closing a clone twice is the same as closing it once. |
| MenuPortal.CloseActive | assets/menu-portal.js:282-296 | After the step no clone is live, the active one is fading out, and with no session nothing changes. |
| MenuPortal.RemoveNode | assets/menu-portal.js:241-244 | The clone leaves the document. The session ends only when this was the active clone; other clones are unchanged. |
| MenuPortal.TransitionEnd | assets/menu-portal.js:246-250 | A clone waiting for its transition is removed and stops waiting; any other event changes nothing. |
| MenuPortal.FireRemoveTimer | assets/menu-portal.js:255-258 | When the 160 ms fallback is pending, the clone is removed and its fallback cleared; otherwise nothing changes. |
| MenuPortal.CloseAllImmediate | assets/menu-portal.js:261-267 | The session ends at once; every clone still in the document is fading out; only the active clone is detached. |
| MenuPortal.RequestReposition | assets/menu-portal.js:178-182 | One frame is queued for the clone, and a clone with a request already pending is left as it is. |
| MenuPortal.RepositionCoalesces | assets/menu-portal.js:178-182 | Requesting a reposition twice queues a single frame. |
| MenuPortal.Reposition | assets/menu-portal.js:173-177 | The active clone is placed under the trigger and the request is cleared; other clones keep their records. |
| MenuPortal.RepositionEffect | assets/menu-portal.js:173-177 | A reposition changes exactly the active clone's position and the requesting clone's pending flag. |
| MenuPortal.RepositionIdempotent | assets/menu-portal.js:173-177 | Repositioning twice with the same geometry is the same as repositioning once. |
| MenuPortal.FireRepositionFrame | assets/menu-portal.js:173-177 | The frame is used up. An open session places the active clone and clears the request. After the clone has closed, the request stays pending. |
| MenuPortal.StuckReposition | assets/menu-portal.js:173-182 | Once a closed clone's frame has run, its request stays pending, so later requests queue nothing. |
| MenuPortal.Attach | assets/menu-portal.js:106-186 | The new clone enters the document with a fresh id, under its trigger, listening, with its opening frame queued; it becomes the active clone of the panel; every older clone is unchanged. |
| MenuPortal.Open | assets/menu-portal.js:95-187 | Reopening the active panel only requests a reposition. Any other panel is opened as `OpenNew` describes. The invariant holds. |
| MenuPortal.OpenNew | assets/menu-portal.js:95-111 | The previous active clone starts fading out. A panel whose copy is rejected leaves no live clone. A usable copy becomes the one live clone. |
| MenuPortal.OpenAsWritten | assets/menu-portal.js:104 | The published script throws at line 104, so the session and the clones stay as they were. |
| MenuPortal.OpenAsWrittenNeverShows | assets/menu-portal.js:104 | From the initial page the published script shows nothing, while the intended `openCloneFor` shows the panel as live clone 0. |
| MenuPortal.ReopenDuringFadeShowsNothing | assets/menu-portal.js:97-101 | Reopening a panel whose clone is fading out shows no live clone. |
| MenuPortal.CloneEnter | assets/menu-portal.js:122-137 | Entering a listening clone cancels its close timers and marks its trigger expanded; a clone that is not listening ignores the event. |
| MenuPortal.Leave | assets/menu-portal.js:122-147 | Leaving a listening clone or its trigger schedules both close timers, the trigger's now for this clone, and marks the trigger collapsed. |
| MenuPortal.ReentryCancelsClose | assets/menu-portal.js:134-138 | Leaving and then re-entering before the delay ends is the same as only entering. |
| MenuPortal.ToggleEnter | assets/menu-portal.js:146 | Entering the trigger cancels both close timers, reopens its panel, and marks the trigger expanded. |
| MenuPortal.OutsidePointer | assets/menu-portal.js:157-161 | A press outside every clone and every trigger closes the listening clone; any other press changes nothing. |
| MenuPortal.KeyDown | assets/menu-portal.js:162 | Escape closes a listening clone, and any other key changes nothing. |
| MenuPortal.Scroll | assets/menu-portal.js:178-184 | A scroll or resize requests a reposition of a listening clone only. |
| MenuPortal.FireOpenFrame | assets/menu-portal.js:117-119 | The opening frame adds `is-open` and is used up; without a queued frame nothing changes. |
| MenuPortal.CloseBeforeFirstFrame | assets/menu-portal.js:117-119 | A clone closed before its first frame ends up with `is-open` while it fades out. |
| MenuPortal.FireCloseTimer | assets/menu-portal.js:134-135 | The clone's close timer smooth-closes it. |
| MenuPortal.FireToggleTimer | assets/menu-portal.js:134-135 | The trigger's close timer closes the clone that set it last. |
| MenuPortal.HoverOver | assets/menu-portal.js:272-280 | On narrow viewports nothing happens. Otherwise hovering a trigger with a panel restarts the open timer for that pair, and nothing but the timer changes. |
| MenuPortal.FireHoverOpen | assets/menu-portal.js:276-279 | The pending pair is opened and the timer cleared. |
| MenuPortal.HoverShowsPanel | assets/menu-portal.js:272-280 | Hovering a trigger on a wide viewport and letting the timer fire shows its panel, under the trigger, as the one live clone. |
| MenuPortal.Click | assets/menu-portal.js:282-296 | A click outside triggers and panels closes the active clone. A click on the trigger of the active panel closes it. A click on any other trigger with a panel opens that panel. A trigger without a panel changes nothing. |
| MenuPortal.ClickInsideClone | assets/menu-portal.js:282-296 | A click inside a clone but not on a trigger closes the active clone unless the clone's root matches the panel selectors in the body (the clone holds no nested panel). A root that was a panel only through `.header .sub-menu` matches none there, so such a click closes it. |
| MenuPortal.FocusIn | assets/menu-portal.js:298-304 | Focus inside a trigger with a panel opens it, and any other focus changes nothing. |
| MenuPortal.SwitchSessions | assets/menu-portal.js:104-111 | Moving to another item keeps the previous clone fading in the document while the new clone is the only live one. |
| MenuPortal.LateRemovalKeepsNewSession | assets/menu-portal.js:241-244 | A late removal of the previous clone does not end the new session. |
| PortalSession.Portal.constructor | assets/menu-portal.js:1-30 | The object starts in the initial state. |
| PortalSession.Portal.Element | assets/menu-portal.js:35-50 | Reads the element that a target names in the live state. |
| PortalSession.Portal.SmoothCloseClone | assets/menu-portal.js:190-259 | The new state is `SmoothClose` of the old one, and the invariant is kept. |
| PortalSession.Portal.CloseAllClones | assets/menu-portal.js:310 | The new state is `CloseActive` of the old one, and the invariant is kept. |
| PortalSession.Portal.RemoveNodeOf | assets/menu-portal.js:241-244 | The new state is `RemoveNode` of the old one. |
| PortalSession.Portal.OnTransitionEnd | assets/menu-portal.js:246-250 | The new state is `TransitionEnd` of the old one. |
| PortalSession.Portal.OnRemoveTimer | assets/menu-portal.js:255-258 | The new state is `FireRemoveTimer` of the old one. |
| PortalSession.Portal.CloseAllClonesImmediate | assets/menu-portal.js:261-267 | The new state is `CloseAllImmediate` of the old one. |
| PortalSession.Portal.RequestRepositionOf | assets/menu-portal.js:178-182 | The new state is `RequestReposition` of the old one. |
| PortalSession.Portal.OnRepositionFrame | assets/menu-portal.js:173-177 | The new state is `FireRepositionFrame` of the old one. |
| PortalSession.Portal.OpenCloneFor | assets/menu-portal.js:95-187 | The new state is `Open` of the old one. |
| PortalSession.Portal.AppendClone | assets/menu-portal.js:106-186 | The new state is `Attach` of the old one. |
| PortalSession.Portal.OnOpenFrame | assets/menu-portal.js:117-119 | The new state is `FireOpenFrame` of the old one. |
| PortalSession.Portal.CloneEnter | assets/menu-portal.js:137 | The new state is `CloneEnter` of the old one. |
| PortalSession.Portal.CloneLeave | assets/menu-portal.js:138 | The new state is `Leave` of the old one. |
| PortalSession.Portal.ToggleLeave | assets/menu-portal.js:147 | The new state is `Leave` of the old one. |
| PortalSession.Portal.ToggleEnter | assets/menu-portal.js:146 | The new state is `ToggleEnter` of the old one. |
| PortalSession.Portal.OutsideHandler | assets/menu-portal.js:157-161 | The new state is `OutsidePointer` of the old one. |
| PortalSession.Portal.EscHandler | assets/menu-portal.js:162 | The new state is `KeyDown` of the old one. |
| PortalSession.Portal.OnScroll | assets/menu-portal.js:178-184 | The new state is `Scroll` of the old one. |
| PortalSession.Portal.OnCloseTimer | assets/menu-portal.js:134-135 | The new state is `FireCloseTimer` of the old one. |
| PortalSession.Portal.OnToggleTimer | assets/menu-portal.js:134-135 | The new state is `FireToggleTimer` of the old one. |
| PortalSession.Portal.OnMouseOver | assets/menu-portal.js:272-280 | The new state is `HoverOver` of the old one. |
| PortalSession.Portal.OnHoverTimer | assets/menu-portal.js:276-279 | The new state is `FireHoverOpen` of the old one. |
| PortalSession.Portal.OnClick | assets/menu-portal.js:282-296 | The new state is `Click` of the old one. |
| PortalSession.Portal.OnFocusIn | assets/menu-portal.js:298-304 | The new state is `FocusIn` of the old one. |
| ProductHotspot.GuardsDifferOnlyAtNaN | assets/product-hotspot.js:85-91 | For every number the published guard and the intended one agree; with at least one hotspot, NaN passes the published guard and fails the intended one. |
| ProductHotspot.GoToIdempotent | assets/product-hotspot.js:82-107 | Going to the same index twice is the same as going there once. |
| ProductHotspot.Marked | assets/product-hotspot.js:110-115 | Each hotspot is active exactly when its position equals the index, and nothing else about it changes. |
| ProductHotspot.MarkedCards | assets/product-hotspot.js:116-121 | Each card is active exactly when its position equals the index. |
| ProductHotspot.NaNPassesGuard | assets/product-hotspot.js:85-91 | A NaN index passes the published guard, although the intended guard rejects it. After it, no hotspot and no card is active. |
| ProductHotspot.AcceptedMarksOne | assets/product-hotspot.js:82-122 | An accepted index marks its own hotspot and card, and no other. |
| ProductHotspot.ArrowRules | assets/product-hotspot.js:124-160 | With at most one product both arrows are disabled. Otherwise prev is disabled exactly at the first item and next exactly at the last, each with its matching label. |
| ProductHotspot.ArrowsAgreeWithHandlers | assets/product-hotspot.js:124-208 | An arrow is disabled exactly when its click handler would not move, and a move always lands inside the list. |
| ProductHotspot.IndexOf | assets/product-hotspot.js:224 | Returns the first position holding the element, or -1 exactly when it is absent. |
| ProductHotspot.RegisterFacts | assets/product-hotspot.js:20-27 | A hotspot is appended exactly when no registered hotspot has its block id; otherwise the registry is unchanged. |
| ProductHotspot.UnregisterFacts | assets/product-hotspot.js:219-229 | The element's first entry is removed, every other entry keeps its order, and an absent element changes nothing. |
| ProductHotspot.UnregisterRemoves | assets/product-hotspot.js:219-229 | In a registry without repeats, the element is gone afterwards. |
| ProductHotspot.SortByIndex | assets/product-hotspot.js:242-244 | The sorted list is a permutation of the found hotspots. |
| ProductHotspot.InsertKeepsTies | assets/product-hotspot.js:242-244 | Inserting a hotspot puts it after every hotspot with the same `data-index`, and leaves their order alone. |
| ProductHotspot.SortStable | assets/product-hotspot.js:242-244 | The sort is stable: hotspots with the same `data-index`, NaN included, keep the order in which they were found. |
| ProductHotspot.Insert | assets/product-hotspot.js:242-244 | Insertion adds exactly the one element. |
| ProductHotspot.InsertAscending | assets/product-hotspot.js:242-244 | Inserting into an ascending list of numeric indexes keeps it ascending. |
| ProductHotspot.SortAscending | assets/product-hotspot.js:242-244 | With numeric indexes the page-init order ascends by `data-index` and is a permutation. |
| ProductHotspot.Registry.constructor | assets/product-hotspot.js:6-10 | Starts with an empty registry, index 0, no buttons, no pending timers, and no listener on the arrows or on any trigger. |
| ProductHotspot.Registry.UpdateActiveStates | assets/product-hotspot.js:109-122 | Both loops leave the hotspots and the cards marked by the index, and change nothing else. |
| ProductHotspot.Registry.UpdateArrows | assets/product-hotspot.js:124-160 | Without both buttons nothing changes; with both they follow `ArrowRules`. |
| ProductHotspot.Registry.GoToIndex | assets/product-hotspot.js:82-107 | A rejected index changes nothing. An accepted one becomes the active index, marks the hotspots and cards, updates the arrows and shifts the track to `index * 100` percent. |
| ProductHotspot.Registry.Connect | assets/product-hotspot.js:12-57 | The registry follows `Register`. The trigger gets click and, on wide screens, hover listeners. When the registry then holds exactly one hotspot, one more `initializeSlider` timer is pending; earlier ones stay pending. |
| ProductHotspot.Registry.Disconnect | assets/product-hotspot.js:219-229 | The hover timer is cleared and the registry follows `Unregister`; the active index stays. |
| ProductHotspot.Registry.HandleClick | assets/product-hotspot.js:59-63 | A click on a listening trigger goes to its index; otherwise nothing changes. |
| ProductHotspot.Registry.HandleHover | assets/product-hotspot.js:65-76 | A hover (re)starts only that component's timer, and only on wide screens with a listener. |
| ProductHotspot.Registry.FireHoverTimer | assets/product-hotspot.js:70-75 | The timer is cleared; its index is applied when accepted. |
| ProductHotspot.Registry.InitializeSlider | assets/product-hotspot.js:162-217 | The card's arrows are taken and wired, and one more `goToIndex(0)` timer is pending beside any already pending. |
| ProductHotspot.Registry.FireSliderTimer | assets/product-hotspot.js:33-37 | One pending slider timer initialises the slider and is used up, adding one start timer; with none pending nothing changes. |
| ProductHotspot.Registry.FireStartTimer | assets/product-hotspot.js:212-216 | One pending start timer is used up and goes to index 0 when there are hotspots at that moment; with none pending nothing changes. |
| ProductHotspot.Registry.PrevClick | assets/product-hotspot.js:132-188 | Only a wired prev arrow that is not `disabled` delivers the click (`Clickable`); it then moves one step back unless at the first item, and otherwise nothing changes. |
| ProductHotspot.Registry.NextClick | assets/product-hotspot.js:132-207 | Only a wired next arrow that is not `disabled` delivers the click (`Clickable`); it then moves one step on unless at the last item, and otherwise nothing changes. |
| ProductHotspot.Registry.PageInit | assets/product-hotspot.js:233-255 | When hotspots are found, the registry becomes them sorted by index, the slider is initialised and one more start timer is pending; when none are found, nothing changes. |
| GridColumns.Split | assets/collection-reveal.js:15 | Gives at least one piece, and no piece contains a space. |
| GridColumns.SplitJoin | assets/collection-reveal.js:15 | Joining the pieces with spaces gives back the template. |
| GridColumns.ColsCountsWords | assets/collection-grid-banner.js:13 | The column count is the number of space-separated words, whatever the spacing. |
| GridColumns.ColsExamples | assets/collection-reveal.js:14-15 | An empty template has no columns, `none` counts as one, and `1fr 1fr` as two. |
| CollectionReveal.HiddenPositions | assets/collection-reveal.js:43 | Lists exactly the hidden items, in increasing order. |
| CollectionReveal.ShownAndHidden | assets/collection-reveal.js:98 | Every item is counted once, either as shown or as hidden. |
| CollectionReveal.AnyHiddenCount | assets/collection-reveal.js:155 | `some(hidden)` holds exactly when the hidden count is positive. |
| CollectionReveal.HiddenFromShows | assets/collection-reveal.js:24-39 | Exactly the first `k` items show, clamped to `[0, n]`. |
| CollectionReveal.SliceEnd | assets/collection-reveal.js:44 | The end of `slice(0, end)` is within the list. |
| CollectionReveal.UnhideHidden | assets/collection-reveal.js:47-49 | Unhiding removes exactly the given positions from the hidden ones. |
| CollectionReveal.RevealInOrder | assets/collection-reveal.js:41-49 | Items are revealed from the front: a later hidden item is never shown before an earlier one. |
| CollectionReveal.RevealCount | assets/collection-reveal.js:41-52 | Revealing a batch of `m` items shows exactly `m` more. |
| CollectionReveal.RevealBatchFacts | assets/collection-reveal.js:41-52 | Exactly the first `m` hidden items are unhidden, and the rest stay hidden. |
| CollectionReveal.AppendedCounts | assets/collection-reveal.js:78-81 | Appending fetched items adds exactly that many hidden items and shows no new one. |
| CollectionReveal.LoadStepFacts | assets/collection-reveal.js:137-149 | For a batch of at least one, a load never shrinks the list or the shown count. With hidden items it shows `min(batch, hidden)` more. With none, a successful fetch shows `min(batch, fetched)` more and takes the next URL. The settle timer is skipped exactly when the fetch threw. |
| CollectionReveal.Appended | assets/collection-reveal.js:74-81 | The fetched items go in hidden right after the last item of the first `.product-grid`, before the `trailing` items that follow that grid in the document; every other item keeps its flag and its order. |
| CollectionReveal.RevealProgress | assets/collection-reveal.js:137-145 | A positive batch with hidden items always shows more. |
| CollectionReveal.ModeAgreesWithCount | assets/collection-reveal.js:93-108 | The button offers "less" exactly when the counter reads total/total with a positive total, and the counter never exceeds the total. |
| CollectionReveal.CollapseCount | assets/collection-reveal.js:122 | At least one item stays after a collapse. |
| CollectionReveal.CollapseShows | assets/collection-reveal.js:119-127 | Show less leaves `min(max(2*cols-2, 1), n)` items visible, and at least one on a non-empty page. |
| CollectionReveal.Reveal.constructor | assets/collection-reveal.js:94-96 | Missing attributes take the defaults 0, 5 and 12 and the labels "Load more" and "Show less". |
| CollectionReveal.Reveal.GetCols | assets/collection-reveal.js:11-16 | There are no columns without a grid; otherwise the word count of the template. |
| CollectionReveal.Reveal.HideAfterInitial | assets/collection-reveal.js:24-30 | The loop leaves item j hidden exactly when j >= k, and nothing else changes. |
| CollectionReveal.Reveal.ShowOnlyFirstN | assets/collection-reveal.js:33-39 | The loop leaves item j shown exactly when j < n, and nothing else changes. |
| CollectionReveal.Reveal.RevealBatch | assets/collection-reveal.js:41-52 | Unhides exactly the selected batch and returns its size. |
| CollectionReveal.Reveal.SetCount | assets/collection-reveal.js:18-21 | The counter shows `min(shown, total)/total` when it exists. |
| CollectionReveal.Reveal.UpdateButtonState | assets/collection-reveal.js:93-108 | The mode follows `ModeFor` and the label matches it. |
| CollectionReveal.Reveal.Init | assets/collection-reveal.js:165-189 | Hides past `initial`, sets the counter, and enables and wires the button in the right mode when it exists. |
| CollectionReveal.Reveal.FetchNextPage | assets/collection-reveal.js:54-91 | With no next URL or section id, nothing is fetched and the result is false. A failed request throws and changes nothing. An empty page clears the URL and gives false. Without a grid the result is false. Otherwise the new items are appended hidden at the end of the first grid (`Appended`), the next URL is taken from the response, and the result is true. |
| CollectionReveal.Reveal.ShowLess | assets/collection-reveal.js:119-134 | Collapses to `CollapseCount(cols)` items, updates the counter, and resets the button to an enabled "Load more". |
| CollectionReveal.Reveal.LoadMore | assets/collection-reveal.js:137-149 | Disables the button and reveals a batch. Only when nothing was revealed does it fetch and reveal again. The settle timer is then pending. |
| CollectionReveal.Reveal.OnClick | assets/collection-reveal.js:110-163 | A full collection collapses; any other loads more; a disabled or unwired button fires nothing. |
| CollectionReveal.Reveal.FireSettle | assets/collection-reveal.js:149-162 | Counter and mode are refreshed. The button ends disabled exactly when the collection is not full and nothing is hidden or left to fetch. |
| CollectionReveal.EnabledButtonHasWork | assets/collection-reveal.js:155-161 | After a settle, an enabled "more" button has hidden items, a next page, or a full collection. |
| CollectionGridBanner.Lower | assets/collection-grid-banner.js:25 | Lower-cases every character, keeping the length. |
| CollectionGridBanner.PositionExamples | assets/collection-grid-banner.js:25 | "right" matches in any letter case. A missing, empty or other position means left. |
| CollectionGridBanner.TargetFillsRow | assets/collection-grid-banner.js:27-31 | On two or more columns, on the right the banner's two columns end the second row; on the left it starts that row. |
| CollectionGridBanner.ItemsMembers | assets/collection-grid-banner.js:17-22 | The candidates are exactly the grid's product items that have a product id and are not the banner. |
| CollectionGridBanner.IndexOfId | assets/collection-grid-banner.js:34 | Returns the position of the element, or -1 exactly when it is not a child. |
| CollectionGridBanner.ItemsIgnoreBanner | assets/collection-grid-banner.js:17-22 | Removing the banner does not change the candidates. |
| CollectionGridBanner.InsertBeforeKeepsOthers | assets/collection-grid-banner.js:34 | `insertBefore` keeps every other child in its order. |
| CollectionGridBanner.InsertBeforeFacts | assets/collection-grid-banner.js:34 | The node goes right before the reference child when it exists, and last otherwise. |
| CollectionGridBanner.PlacementFacts | assets/collection-grid-banner.js:17-34 | The banner sits right before the target item, or last when there are too few items; the others keep their order. |
| CollectionGridBanner.PlacementIdempotent | assets/collection-grid-banner.js:2-35 | Placing the banner twice is the same as placing it once. |
| CollectionGridBanner.PlacementStable | assets/collection-grid-banner.js:2-35 | Nothing moves without a banner, without an item, or with no columns, and `Placement` is idempotent. |
| CollectionGridBanner.Grid.constructor | assets/collection-grid-banner.js:42 | Starts with the served children and no pending timer. |
| CollectionGridBanner.Grid.PlaceBanner | assets/collection-grid-banner.js:2-35 | The children become `Placement` of the old ones. |
| CollectionGridBanner.Grid.Schedule | assets/collection-grid-banner.js:37-40 | Any earlier timer is replaced by one pending timer, and nothing moves. |
| CollectionGridBanner.Grid.FireTimer | assets/collection-grid-banner.js:39 | A pending timer places the banner and clears itself. |

## Left out

- Network and parsing: `fetch`, `DOMParser` and the response page are one input, `FetchOutcome`. It is either a rejected request or the number of product items on that page plus its next URL.
- `assets/scroll-reveal.js` is not part of this model.
- Geometry: bounding boxes, computed styles and media queries are inputs. They are the trigger's `Geometry`, the viewport width and the grid template string. `Math.round` of the pixel values is taken as already applied.
- Timers, animation frames and `transitionend` are pending flags, and firing one is a step of its own. The hotspot slider and start timeouts are never cleared by the source, so they are pending counts instead: each set adds one and each firing uses one up. Which pending timer fires next is the caller's choice. The real delays are not modelled. The per-item stagger of `revealBatch` is taken as finished when the settle timer fires. With a batch of zero or less the settle delay (`batch * 90`) can come before the staggered reveals; that ordering is not modelled.
- Synthetic `dispatchEvent` of `mouseenter`, `focusin`, `mouseleave` and `focusout` on the trigger (assets/menu-portal.js:122-131): only the `aria-expanded` change is recorded, and each handler is one pass (`CloneEnter`, `Leave`, `ToggleEnter`). This hides a real consequence. Once a clone is open, the trigger carries the clone's `toggleEnter` and `toggleLeave` listeners (lines 146-152), and both end by dispatching the matching events on that same trigger again. With line 104 corrected, any enter or leave of the clone or of its trigger therefore re-enters these listeners without bound until the call stack is exhausted. Each dispatch sits in a `try`, so outer levels go on dispatching after the error, and the page stalls. The model does not capture this recursion; it describes the state one pass leaves.
- MenuPortal.ControlsPanel: `getElementById` also searches the clones. They come after the page, keep no descendant id, and a clone root has its original's id or a generated `menu-portal-clone-` id. An `aria-controls` naming such a generated id with no page element carrying it would resolve to that clone root in the source and to nothing in the model.
- Body and html: the model takes the ancestors of a clone (the document body and html) to carry no `.header` class and to match none of the portal's selectors, so a clone's panel matches are those of its own tree.
- `Math.random`: the id suffix of a clone is an input.
- `console` logging, `customElements.define`, the `Component` base class and its refs are left out. Whether a hotspot has a trigger is an input.
- The `shopify:section:load` handler of the theme editor (assets/product-hotspot.js:257-278) is left out: it only re-runs the page-init steps after a section reload.
- The wiring of `beforeunload` and `pagehide` (assets/menu-portal.js:306-307) is modelled only as the `CloseAllClonesImmediate` step.
- `Number()` of a non-numeric `data-total`, `data-batch` or `data-initial` gives NaN in the source. The model takes these attributes as whole numbers.
- `parseInt` itself is left out: its result is the input `JsNum`, either a whole number or NaN.
- ProductHotspot.SortByIndex: `Array.prototype.sort` with a NaN key leaves the order to the engine. The model is a stable insertion sort (`SortStable`) that treats a NaN difference as equal, which picks one such order; ascending order is proved only for numeric indexes.
- CollectionGridBanner.Lower: only ASCII letters are lower-cased.
- The `collection:products-appended` event is modelled only by its receipt, `Grid.Schedule`. The link from `FetchNextPage` to the banner grid is not modelled.
- `init` without a reveal wrapper (assets/collection-reveal.js:166-167) is the absence of the `Reveal` object.
- A banner outside the grid: the model takes the banner to be one of the grid's children or absent. Its removal from another parent is not modelled.
- `smoothCloseClone` does not reset `aria-expanded` on its trigger, because the code that would is never reached after the handlers are deleted. The model follows the source.
- ProductHotspot.Registry.Disconnect does not clamp `activeIndex` to the shorter registry, and neither does the source.
- ProductHotspot.Registry.UpdateArrows: with one product or none, the labels are left as they were, as in the source.

## Findings

| source | as written | input that shows it | evidently intended | confidence | as-written member | corrected member |
|---|---|---|---|---|---|---|
| assets/menu-portal.js:104 | `openCloneFor` calls `closeAllClones()`, but no such name is in scope. Only `window.__MenuPortal.closeAllClones` exists (line 310). Past the reposition shortcut every call throws before a clone is built. | Hover or click any trigger that has a panel while no clone is open: the call throws and no clone is ever shown. | Smooth-close the previous clone and then build and show the new one. | not executed | MenuPortal.OpenAsWrittenNeverShows | MenuPortal.Open |
| assets/product-hotspot.js:85-91 | The guard `index < 0 \|\| index >= total` lets a NaN index through, because both comparisons are false. | A hotspot whose `data-index` is not numeric (`data-index="x"`) is clicked. `activeIndex` becomes NaN, and no hotspot or card is active. | Reject any index that is not a number in `[0, total)`. | not executed | ProductHotspot.NaNPassesGuard | ProductHotspot.Registry.GoToIndex |
