# logseq-block-tabs, modelled in Dafny

logseq-block-tabs is a Logseq plugin. It turns a block containing the macro
`{{renderer tabs,Title 1|Title 2|...}}` into a tab strip. The block's
next-level child blocks are its panes: tab *i* shows pane *i*.

The whole plugin lives in `src/index.ts`. This project models its logic:

- **Titles** (`titles.dfy`): how the macro argument becomes tab titles
  (`parseTabTitles`), with JavaScript's `split`, `trim`, `filter` and `join`.
- **Ids** (`ids.dfy`): header ids `block-tabs-<block id>`, and how the
  handlers recover the block id with `String.prototype.replace`. That call
  removes the first occurrence of the prefix, wherever it is.
- **Resolve** (`resolve.dfy`): which block owns a tab group.
  - The render handler sets up a group only when the macro is `tabs`, gives a
    title, a reference names its block, and the slot sits in a block.
  - The `activeTab` handler resolves a click to a registry key.
  - A group inside a block reference belongs to the referenced block.
- **View** (`view.dfy`): the visible state one reconcile pass leaves:
  - which tab carries the `active` class;
  - which panes are displayed;
  - whether the scroll arrows are shown;
  - the strip's maximum width.
- **Sweep** (`sweep.dfy`): the orphan sweep run on every database change, as
  functions of:
  - the registry's keys in insertion order;
  - the headers present in the document;
  - the document's blocks.
- **Registry** (`registry.dfy`): class `TabRegistry`, the process-wide Map
  `tabActionIndexs` from header id to active tab index. Its order and entries
  are updated in place by three callbacks:
  - the MutationObserver's reconcile pass (`Reconcile`);
  - the tab click handler (`ActiveTab`);
  - the sweep (`Sweep`).

  Each callback is proved against the functions above. The Map keeps
  insertion order because the sweep's early `return` makes that order
  observable.
- **Actions** (`actions.dfy`): the two stateless click handlers,
  `arrowPull` and `editBlock`.
- **Dom** and **Wrappers**: the document as the handlers see it, and `Option`.

DOM queries, measurements and Logseq API calls are parameters. The model
receives:

- the result of `closest(...)` as a `RefLookup`;
- the enclosing block's attributes;
- the measured widths as a `Layout`;
- the queried tabs, panes and arrow containers as `array<bool>` display flags;
- the blocks that can be found by id as a `Document`;
- the header ids present in the document as a set.

**Surplus panes.** With more panes than tabs, the code first shows every
pane (`src/index.ts:131-135`). Then the tab loop (`src/index.ts:139-151`)
hides every pane below the tab count except the active one. With three tabs,
five panes and tab 1 active, the panes end up
`[hidden, shown, hidden, shown, shown]`, not all shown
(`View.PaneView`, `View.SurplusPanesExample`).

## Model

| member | source | states |
|---|---|---|
| Titles.ParseTabTitles | src/index.ts:8-14 | fewer than two arguments give no titles; every title is non-empty, trimmed and free of the pipe separator; there are no more titles than pipe-separated segments |
| Titles.TitleHasSegment | src/index.ts:10-13 | every title is the trimmed form of some pipe-separated segment of the second argument |
| Titles.SegmentIsTitle | src/index.ts:10-13 | every segment that is not blank once trimmed appears among the titles |
| Titles.ParseIgnoresLaterArguments | src/index.ts:9-10 | arguments after the second do not change the titles |
| Titles.ParseJoinedTitles | src/index.ts:8-14 | round trip with the slash command's template: titles joined by pipes parse back to themselves when non-empty, trimmed and free of the pipe separator |
| Titles.ParseExample | src/index.ts:8-14 | the segments " A ", "B", "  ", "C" joined by pipes parse to `["A","B","C"]`: blanks around titles are trimmed and the blank segment is dropped |
| Titles.TrimProperties | src/index.ts:12 | `trim` leaves no white space at either end; the result is empty exactly when the input is all white space; a string without surrounding white space is unchanged; no character is introduced |
| Titles.Split | src/index.ts:11 | splitting on the pipe gives at least one segment and no segment contains the separator |
| Titles.JoinSplit | src/index.ts:11 | joining the segments of `split` with the separator gives back the input |
| Titles.SplitJoin | src/index.ts:11 | splitting a join of one or more separator-free parts gives back the parts |
| Titles.TrimAll | src/index.ts:12 | mapping `trim` keeps the length and trims each element in place |
| Titles.NonEmpty | src/index.ts:13 | the filter never lengthens its input |
| Titles.NonEmptyMembers | src/index.ts:13 | the filter keeps exactly the non-empty strings |
| Titles.NonEmptySingle | src/index.ts:13 | a single element is kept exactly when it is non-empty |
| Titles.NonEmptyAppend | src/index.ts:13 | the filter works element by element: filtering a concatenation concatenates the filtered parts, so order is kept |
| Titles.NonEmptyPositions | src/index.ts:13 | the result picks elements of the input at strictly increasing positions, repeats included, and every non-empty element is picked |
| Titles.TitlesInOrder | src/index.ts:10-13 | the titles are the trimmed segments of the second argument, in order and with repeats kept: they sit at strictly increasing segment positions, and every segment that does not trim to nothing is one of them |
| Titles.Trim | src/index.ts:12 | `trim` never lengthens a string; TrimProperties states that the result is the slice of the input left between a leading and a trailing run of white space |
| Ids.ContainerId | src/index.ts:64 | a header id is `block-tabs-` followed by the block id |
| Ids.ReplaceFirst | src/index.ts:287 | without an occurrence the string is unchanged; otherwise the text before the first occurrence is kept and the length changes by the replacement's length less the pattern's |
| Ids.StripPrefix | src/index.ts:317 | an id without the prefix is unchanged; otherwise it loses exactly the prefix's length |
| Ids.IdRoundTrip | src/index.ts:64 | removing `block-tabs-` from a header id gives back the owner's block id |
| Ids.ContainerIdInjective | src/index.ts:64 | distinct blocks get distinct header ids, so distinct registry keys |
| Ids.IndexOf | src/index.ts:287 | the search `replace` relies on: the position returned is an occurrence, and no earlier position is one; None means no occurrence at or after the start |
| Ids.ReplaceFirstAt | src/index.ts:287 | `replace` with a string pattern replaces the first occurrence only |
| Ids.StripRemovesFirstOccurrence | src/index.ts:317 | the prefix is removed where it first occurs, also when other text precedes it |
| Ids.StripWithoutPrefix | src/index.ts:348 | an id that does not contain the prefix is left unchanged |
| Actions.ScrollOffset | src/index.ts:271-284 | a scroll happens exactly when the arrow names its header and the tab container is found; it is 180 pixels to the right for direction "1" and to the left otherwise |
| Actions.ArrowsAreOpposite | src/index.ts:278 | the two arrows of a header scroll by the same amount in opposite directions |
| Actions.StripOptional | src/index.ts:287-290 | an absent value stays absent; a present one loses the prefix |
| Actions.EditTarget | src/index.ts:286-296 | the block opened is non-empty and is `data-blockid` without the prefix when that is non-empty, else the element id without the prefix; nothing is opened exactly when both are empty once stripped |
| Actions.EditOpensOwner | src/index.ts:286-296 | the edit icon (`data-blockid`) and a double click on the header (element id) both open the owner block |
| Actions.EditWithoutOwnerDoesNothing | src/index.ts:293-295 | a header of a block without an id opens nothing |
| Resolve.RenderGroup | src/index.ts:38-64 | a group is set up exactly when the macro is `tabs`, has a title, a reference names its block and the slot is in a block; its titles are the parsed titles, its header id is the container id of the referenced block or else of the enclosing block, and its level is the block's level, 0 when missing |
| Resolve.OwnerId | src/index.ts:55-62 | the owner is the referenced block when the reference names one, else the enclosing block's id, empty exactly when that has none |
| Resolve.ReferenceSharesHeaderId | src/index.ts:52-64 | a block and a reference to it render the same header id, so they share one registry entry |
| Resolve.RenderedHeaderFindsOwner | src/index.ts:62-64 | a rendered header id leads back to its owner block |
| Resolve.ClickOwner | src/index.ts:298-320 | a click resolves exactly when index, parent id and parent level are all given, a reference names its block, and the owner block is found; inside a reference the key is the referenced block's container id, otherwise the header's own id |
| Resolve.ClickFindsRenderedGroup | src/index.ts:298-320 | a click on a tab of a rendered header, from its block or from a reference to it, resolves to the header id it was rendered with |
| View.MaxWidth | src/index.ts:109 | the tab container's max width is the content width less 64, or 736 when the content measures 0 |
| View.Sum | src/index.ts:111-114 | the tabs' total width is at least each tab's width |
| View.Overflows | src/index.ts:116-119 | the arrows are never shown for a header without tabs |
| View.Lookup | src/index.ts:121-126 | the stored index of a known header, 0 for an unknown one |
| View.TabFlags | src/index.ts:149 | one `active` flag per tab; by its definition tab i is active exactly when i is the active index, and OneActiveTab counts the active tabs |
| View.PaneView | src/index.ts:131-143 | one display flag per pane; by its definition pane i is shown exactly when it lies beyond the tab count or i is the active index; ShownPaneCount counts the shown panes |
| View.ClickPanes | src/index.ts:325-336 | one display flag per pane; how it relates to a reconcile pass is stated by ClickAgreesWithReconcile |
| View.OneActiveTab | src/index.ts:149 | exactly one tab is active when the active index names a tab, none otherwise |
| View.ShownPaneCount | src/index.ts:131-143 | after a reconcile pass the number of shown panes is the number of panes beyond the tab count, plus one when the active index names both a tab and a pane |
| View.PanesFollowTabs | src/index.ts:139-143 | with no more panes than tabs, pane i is shown exactly when tab i is active |
| View.ClickAgreesWithReconcile | src/index.ts:325-336 | a click and a reconcile pass for the same index agree on every pane below the tab count, and on all panes when none is beyond it |
| View.ClickAfterShowingSurplus | src/index.ts:131-143 | the tab loop run after all panes were shown gives exactly the reconcile view |
| View.ThreeTabsExample | src/index.ts:139-150 | three tabs and three panes with tab 1 active: only tab 1 and pane 1 are shown |
| View.SurplusPanesExample | src/index.ts:131-143 | three tabs and five panes with tab 1 active: panes 0 and 2 are hidden, panes 1, 3 and 4 shown |
| View.OverflowGrowsWithTabs | src/index.ts:111-118 | the tabs' total width is additive, so adding tabs never hides the arrows |
| Sweep.Remove | src/index.ts:345 | deleting never lengthens the keys |
| Sweep.Halts | src/index.ts:344-353 | only a key whose header is gone and whose owner block is found can end the sweep |
| Sweep.Survivors | src/index.ts:344-345 | keeping the present keys never lengthens the keys |
| Sweep.RestoreOne | src/index.ts:347-361 | one restore adds or removes no block |
| Sweep.SweptOrder | src/index.ts:343-364 | a sweep never adds keys, and one that returns early removes at least the halting key |
| Sweep.SweptBlocks | src/index.ts:343-364 | a sweep adds or removes no block |
| Sweep.EarlierOrphansEvicted | src/index.ts:344-345 | every orphan visited before the early return is deleted from the registry |
| Sweep.RemoveMembers | src/index.ts:345 | deleting a key keeps every other key and only those |
| Sweep.RemoveKeepsDistinct | src/index.ts:345 | deleting keeps the Map's keys free of repeats |
| Sweep.Restore | src/index.ts:347-361 | restoring panes never adds or removes a block |
| Sweep.RestoreKeepsLevels | src/index.ts:357-360 | restoring changes only the display of panes: every block keeps its level and number of panes |
| Sweep.FirstHalt | src/index.ts:343-353 | the sweep returns early at the first key whose header is gone and whose owner block is found without a level, or visits every key |
| Sweep.SweptOrderMembers | src/index.ts:343-346 | a sweep keeps every key whose header is present and adds none; without an early return it keeps exactly those keys |
| Sweep.HaltKeepsLaterKeys | src/index.ts:352-353 | the key that ends the sweep early is deleted, and every later key stays registered, orphan or not |
| Sweep.SweepShowsOrphanPanes | src/index.ts:347-361 | every orphan visited before the early return whose owner block has a level gets all that block's panes shown |
| Sweep.SweepLeavesOtherBlocks | src/index.ts:342-365 | no block other than an orphan's owner is changed |
| Sweep.SweepWithoutOrphans | src/index.ts:342-365 | when every registered header is present, the sweep changes neither the registry nor the document |
| Sweep.SecondSweepIsNoOp | src/index.ts:342-365 | after a sweep without an early return, a second sweep changes nothing |
| Sweep.SweepAdvance | src/index.ts:343-363 | one visited key moves the sweep either to its final state or to the state after that key |
| Dom.Document.constructor | src/index.ts:347-349 | the document holds the given blocks, found by id |
| Registry.TabRegistry.constructor | src/index.ts:30 | the registry starts empty |
| Registry.TabRegistry.Set | src/index.ts:125 | `Map.set`: the entry is written; a new key goes last, an existing key keeps its place |
| Registry.TabRegistry.Delete | src/index.ts:345 | `Map.delete`: the entry is gone and the other keys keep their order |
| Registry.TabRegistry.Reconcile | src/index.ts:102-154 | nothing changes when the content or tab container is missing; otherwise: the max width is the content width (800 when it measures 0) less 64; the arrows follow the overflow test; 0 is recorded for an unknown header; tabs and panes are exactly `TabFlags` and `PaneView` of the stored index |
| Registry.TabRegistry.ReadIndex | src/index.ts:121-126 | the stored index, never negative, or 0 for an unknown header, which is then recorded |
| Registry.TabRegistry.SelectTab | src/index.ts:139-151 | the tab loop: tab k and pane k are shown, other tabs and panes below the tab count are hidden, the rest keep their display, and k is recorded only when it names a tab |
| Registry.TabRegistry.ActiveTab | src/index.ts:298-338 | the key is `ClickOwner` of the click; an unresolved click changes nothing; otherwise tabs and panes follow the clicked index, and the registry records it only when it names a tab |
| Registry.TabRegistry.Sweep | src/index.ts:342-365 | the keys left are `SweptOrder` and the document is `SweptBlocks`, each entry keeping its index |
| Registry.TabRegistry.Visit | src/index.ts:344-363 | a key whose header is present changes nothing; otherwise it is deleted and its owner block's panes are all shown, or the sweep stops when the block has no level |
| Registry.Fill | src/index.ts:117-119 | every element gets the same display |

## Left out

- The HTML template, the CSS, and the registration of the slash command and of the handlers are not modelled. The slash command's template appears only as the input of `Titles.ParseJoinedTitles`.
- DOM queries, `offsetWidth` measurements and `closest(...)` lookups are not modelled. Their results are parameters. So is which element a query finds: in a reference the reconcile pass searches the whole document, and the model takes whatever was found.
- The effects `scrollBy` (with smooth scrolling) and `logseq.Editor.editBlock` are not modelled. The model computes what they are passed: `Actions.ScrollOffset` and `Actions.EditTarget`.
- MutationObserver scheduling is not modelled. `Registry.TabRegistry.Reconcile` is one pass. When it returns early the observer stays connected, and the model says nothing about later passes.
- Callbacks are not interleaved: each handler runs to completion.
- `parseInt` is not modelled; dataset and attribute values are the parsed integers (`None` when missing or empty).
  - A `data-index` that parses to NaN matches no tab, the same as a negative index.
  - A level that parses to NaN matches no pane, so it corresponds to an empty pane array.
  - Partial parses such as `"1a"` are not modelled.
- The `!args` test of `parseTabTitles` for a missing argument array is not modelled. The arguments are always a sequence.
- Live iteration in the sweep is not modelled as such: the source iterates the Map with `for...of` while deleting the current key. The model iterates a copy of the keys taken at the start. The two visit the same keys in the same order, because only the key being visited is ever deleted.
- The panes are not one shared state across callbacks. The sweep shows the panes held in `Dom.Document`, while `Reconcile` and `ActiveTab` take their own pane arrays, so no property spans callbacks (for example a sweep showing panes that a later reconcile pass hides again).
- CSS-selector escaping of ids in `querySelector('#...')` is not modelled: an id that makes the selector invalid would throw.
