# NPC dialogue graph and item stat reconciliation — a verified model

This project models two pieces of the game server's admin web pages in Dafny.

**The NPC dialogue-page graph** (`Server/Web/Pages/Npcs.cshtml.cs`). An NPC definition
(`NPCInfo`) has an optional entry page. A page (`NPCPage`) has an optional success page and
owns ordered lists of checks, actions, buttons and goods. A check's fail page and a button's
destination page are further edges, so the pages form a directed graph that may have cycles.
The model keeps every record ever created in a heap map keyed by its `Index` (an arena). The
global `Binding` lists of `SEnvir` are separate membership sets. Removing a record from its
`Binding` list does not destroy it, so edges into removed pages stay dangling but still lead
to a record, as they do in the C# object graph. The class `NpcAdmin.Envir` holds that world
and the index counters that `CreateNewObject` draws from. Its methods model:

- `FindPage`: the lookup in the page list, then the search from each NPC's entry page;
- `FindPageInHierarchy`: the depth-first search with a shared visited set;
- `DeletePageRecursive`: the cycle-safe cascade delete;
- the structural handlers: create and delete an entry page, delete an NPC, add and delete
  checks, actions, buttons and goods, update a button, create a button's destination page,
  and update a good.

The pure view of the same world is the datatype `DialogGraph.Store`. `DialogGraph.Valid`
states its consistency: every edge leads into the heap, and every record a page lists names
that page as its owner. `NpcEdits` gives each handler's effect as a function of the store
before the call, with lemmas on what it preserves.

**Item stat reconciliation** (`Server/Web/Pages/Items.cshtml.cs`). `UpdateItemStats` merges
a list of (stat kind, amount) pairs into an item's `ItemStats` list. Zero amounts are dropped,
and for a repeated kind the last non-zero amount wins. Stats of kinds no longer wanted are
removed and deleted. Stats of kinds still wanted keep their record and get the new amount.
Wanted kinds the item lacks get new records. `StatsChanged` then runs once. The class
`ItemAdmin.ItemDb` holds items and stat records in arenas keyed by index. Its methods
`UpdateItemStats`, `CreateItem` and `UpdateItem` are proved against the predicate
`StatsUpdated` and the lemmas about it.

**Shared rules** (`Access`). `HasPermission` parses the caller's "Permission" claim as a
32-bit integer, the way `int.TryParse` does, and compares it with the tier's value.
`TotalPages` is the page count of a paged listing.

Design decisions:

- A record's identity is its `Index`. `CreateNewObject` hands out fresh indices, so two
  records of one kind never share one. The visited sets of the source are keyed by `Index`
  too, which makes this the natural identity.
- The JSON text of the stats is not parsed. `UpdateItemStats` takes what the deserializer
  produced: `None` for `null`, or a sequence of pairs.
- A `Dictionary` that has had no removals enumerates its keys in first-insertion order.
  `KeyOrder` models that order, so the new stat records are created in that order.
- `StatsChanged` is modelled as a log (`recomputed`) of the items it ran on.
- Setting `newStat.Item = item` adds the stat to `item.ItemStats`, as the source's comment at
  Items.cshtml.cs:524 says. The model appends it to the end of the list.
- `CreateNewObject` is taken to return an item whose `ItemStats` list exists and is empty, as a fresh record of the MirDB collections is. Otherwise `UpdateItemStats` would return at once (Items.cshtml.cs:480) and a new item would keep no stats.
- A page's `Checks`, `Actions`, `Buttons` and `Goods` lists are taken to exist. The source
  guards against a null list (`page.Checks?.Add` at Npcs.cshtml.cs:496, `if (page.Checks !=
  null)` at :1077 and :1114, and the same for the other lists); a null list is not modelled.
- Tiers compare by their position: Guest 0, Supervisor 1, Admin 2, SuperAdmin 3. The
  `AccountIdentity` enum is not part of this model.

Two consequences of the code worth stating:

- The cascade delete removes every page reachable from the root, whether or not another page
  or NPC still points to it. `DeletePageRecursive` and `DeleteReachable` state exactly that,
  and the edges from other pages into deleted pages are left unchanged (dangling).
- The admin pages contain no code that spawns or moves a live NPC on a map, so the model has
  no live placement.

## Model

| member | source | states |
|---|---|---|
| Access.HasPermission | Server/Web/Pages/Items.cshtml.cs:539-549 | a missing claim is denied; otherwise permission is granted iff the claim parses as a 32-bit integer that is at least the required tier |
| Access.ParseInt32 | Server/Web/Pages/Items.cshtml.cs:544 | `int.TryParse`: a parsed value lies in the 32-bit range, and the empty string does not parse; the text left after trailing `'\0'`s and surrounding white space are dropped is read by `ParseNumber` |
| Access.ParseNumber | Server/Web/Pages/Items.cshtml.cs:544 | a parsed value lies in the 32-bit range, and the empty text does not parse |
| Access.ParseNumberShape | Server/Web/Pages/Items.cshtml.cs:544 | a text that parses is an optional sign followed by one or more digits, and is read as the value of the digits, negated after `-`; conversely a digit string whose value fits parses to that value |
| Access.ParseSignedDecimal | Server/Web/Pages/Items.cshtml.cs:544 | a sign (`+`, `-` or none) followed by the decimal spelling of n is read as n with that sign whenever the signed value fits in 32 bits, `-2147483648` included |
| Access.ParseInt32Reads | Server/Web/Pages/Items.cshtml.cs:544 | `int.TryParse` on a claim made of white space, an optional sign, the decimal spelling of n, white space and trailing `'\0'`s gives n with that sign whenever the signed value fits in 32 bits |
| Access.TrimsPadding | Server/Web/Pages/Items.cshtml.cs:544 | trimming removes exactly the white space around a number and the `'\0'`s after it |
| Access.ParseDecimal | Server/Web/Pages/Items.cshtml.cs:544 | the decimal spelling of any 32-bit non-negative number parses back to that number |
| Access.ParseDecimalWithNuls | Server/Web/Pages/Items.cshtml.cs:544 | any number of trailing `'\0'` characters after the decimal spelling of a 32-bit non-negative number still parse to that number |
| Access.PermissionOfDecimalClaim | Server/Web/Pages/Items.cshtml.cs:544-546 | a claim holding the decimal number n is granted exactly the tiers whose value is at most n |
| Access.NonNumericClaimDenied | Server/Web/Pages/Items.cshtml.cs:544-548 | a claim containing a character that is not a digit, a sign, white space or `'\0'` is denied for every tier |
| Access.PermissionIsMonotone | Server/Web/Pages/Npcs.cshtml.cs:1163-1170 | a claim that is granted a tier is granted every lower tier |
| Access.TotalPages | Server/Web/Pages/Items.cshtml.cs:35 | on 32-bit `int`s: when `count + size - 1` fits, the page count is the ceiling of count / size (enough pages for every row, one fewer is not, and zero rows give zero pages); when the sum overflows it wraps negative and the page count is not positive (same rule at Npcs.cshtml.cs:25) |
| Access.CeilingDivision | Server/Web/Pages/Items.cshtml.cs:35 | `(count + size - 1) / size` is the least page count whose pages hold `count` rows, and zero only for zero rows |
| Access.WrapOverflow | Server/Web/Pages/Items.cshtml.cs:35 | a sum of two non-negative 32-bit numbers that exceeds the range wraps to that sum minus 2^32, a negative number |
| Common.IndexOf | Server/Web/Pages/Npcs.cshtml.cs:554 | `List.IndexOf`: the position of x holds x and no earlier position does |
| Common.RemoveAt | Server/Web/Pages/Npcs.cshtml.cs:554 | `List.RemoveAt(k)`: the list loses exactly the element at k, elements before k keep their position and those after it move down by one |
| Common.RemoveFirst | Server/Web/Pages/Npcs.cshtml.cs:554 | `List.Remove`: a list without x is unchanged; otherwise exactly one x leaves and the list is one shorter, and every other element stays |
| Common.RemoveFirstRemovesFirst | Server/Web/Pages/Npcs.cshtml.cs:554 | `List.Remove(x)` is `RemoveAt(IndexOf(x))`: the copy that leaves is the first one, and the rest keep their order |
| Common.RemoveFirstMultiset | Server/Web/Pages/Npcs.cshtml.cs:554 | removing x takes exactly one copy of x out of the list, and no other element |
| Common.RemoveFirstDistinct | Server/Web/Pages/Npcs.cshtml.cs:554 | in a list without repetitions, removing the first x removes every x and keeps the others in order |
| DialogGraph.LocatedInHeap | Server/Web/Pages/Npcs.cshtml.cs:1046-1062 | in a consistent world, any page `FindPage` finds exists |
| DialogGraph.ReachedInHeap | Server/Web/Pages/Npcs.cshtml.cs:1064-1096 | in a consistent world, following success, fail and destination edges only reaches existing pages |
| DialogGraph.VisitedIsReachable | Server/Web/Pages/Npcs.cshtml.cs:1098-1161 | a visited set that holds the root, is closed under edges and holds only pages reachable from the root is exactly the set of pages reachable from the root |
| NpcAdmin.Envir.FindPageInHierarchy | Server/Web/Pages/Npcs.cshtml.cs:1064-1096 | the page found, the visited set left behind and the pages examined are exactly those of the reference search `PageSearch.SearchFrom`: a null or visited page ends at once, a page is marked visited before it is compared, then the success page, the fail pages in check order and the destinations in button order are searched in turn, and the first hit ends the search |
| NpcAdmin.Envir.SearchFailPages | Server/Web/Pages/Npcs.cshtml.cs:1077-1084 | searches the fail page of each check of the page, in list order and each with the visited set the earlier ones left, up to the first hit: exactly `PageSearch.SearchAll` over `FailPages` |
| NpcAdmin.Envir.SearchDestinations | Server/Web/Pages/Npcs.cshtml.cs:1086-1093 | searches the destination of each button of the page, in list order and each with the visited set the earlier ones left, up to the first hit: exactly `PageSearch.SearchAll` over `DestPages` |
| PageSearch.FailPages | Server/Web/Pages/Npcs.cshtml.cs:1079 | the fail page of each check, position by position |
| PageSearch.DestPages | Server/Web/Pages/Npcs.cshtml.cs:1088 | the destination of each button, position by position |
| PageSearch.SearchAllAppend | Server/Web/Pages/Npcs.cshtml.cs:1077-1093 | searching the list `a + b` is searching `a` and, only when that misses, going on with `b` from the visited set `a` left |
| PageSearch.SearchFromSteps | Server/Web/Pages/Npcs.cshtml.cs:1066-1095 | the search from a new page that is not the target runs in three stages, success page, then fail pages, then destinations; the first stage that finds the target ends it, and the pages examined are the page followed by those of the stages that ran |
| PageSearch.ChildrenAreEdges | Server/Web/Pages/Npcs.cshtml.cs:1074-1093 | in a consistent world every page the search goes on to from `p` exists and is the end of an edge out of `p` |
| PageSearch.EdgesAreChildren | Server/Web/Pages/Npcs.cshtml.cs:1074-1093 | every edge out of `p` (success, fail or destination) is one the search goes on to |
| PageSearch.SearchFromSound | Server/Web/Pages/Npcs.cshtml.cs:1064-1096 | a null or visited page changes nothing; otherwise the page ends up visited, every newly visited page is reachable from it and is examined once, a hit is the target, and on a miss the newly visited pages exclude the target and have every edge inside the visited set |
| PageSearch.SearchAllSound | Server/Web/Pages/Npcs.cshtml.cs:1077-1093 | the searches from a list of edge ends of `p` examine each page once and only pages reachable from `p`; on a miss every listed page has been visited and the newly visited set is closed under edges and excludes the target |
| NpcAdmin.Envir.FindPage | Server/Web/Pages/Npcs.cshtml.cs:1046-1062 | returns the page of the page list when the index is registered; otherwise searches each NPC's entry page in list order with a fresh visited set; returns exactly `Located`, so a result has the requested index and null means no NPC's entry page reaches it |
| NpcAdmin.Envir.DeletePageRecursive | Server/Web/Pages/Npcs.cshtml.cs:1098-1161 | a null or visited page changes nothing; otherwise the newly visited pages are reachable from the root and closed under edges, each is cleared and out of the page list, every check, action, button and good they owned is out of its list (checks and buttons with their edge cleared), and nothing else changes |
| NpcAdmin.Envir.ClearPage | Server/Web/Pages/Npcs.cshtml.cs:1106-1157 | clears the success edge and the four lists of one visited page, recursing through every edge first |
| NpcAdmin.Envir.ClearChecks | Server/Web/Pages/Npcs.cshtml.cs:1114-1126 | each check of the page is visited in order: its fail page is deleted and cleared, the check leaves the check list, and the page's check list is emptied |
| NpcAdmin.Envir.ClearActions | Server/Web/Pages/Npcs.cshtml.cs:1129-1134 | each action of the page leaves the action list, and the page's action list is emptied |
| NpcAdmin.Envir.ClearButtons | Server/Web/Pages/Npcs.cshtml.cs:1137-1149 | each button of the page is visited in order: its destination is deleted and cleared, the button leaves the button list, and the page's button list is emptied |
| NpcAdmin.Envir.ClearGoods | Server/Web/Pages/Npcs.cshtml.cs:1152-1157 | each good of the page leaves the good list, and the page's good list is emptied |
| NpcAdmin.Envir.DeleteReachable | Server/Web/Pages/Npcs.cshtml.cs:1098-1104 | a top-level cascade delete removes exactly the pages reachable from the root in the world before the call |
| NpcAdmin.Envir.CreateEntryPage | Server/Web/Pages/Npcs.cshtml.cs:378-409 | refused without permission, for an unknown NPC, or when the NPC already has an entry page, with no change; otherwise a new bare page at the next index joins the page list and becomes the NPC's entry page |
| NpcAdmin.Envir.DeleteEntryPage | Server/Web/Pages/Npcs.cshtml.cs:437-464 | refused without permission, for an unknown NPC, or when it has no entry page, with no change; otherwise every page reachable from the entry page is deleted and the entry page becomes null |
| NpcAdmin.Envir.DeleteNpc | Server/Web/Pages/Npcs.cshtml.cs:246-295 | refused without permission or for an unknown NPC; otherwise the entry page's cascade is deleted, the entry page becomes null, and the NPC leaves the NPC list |
| NpcAdmin.Envir.RemoveNpc | Server/Web/Pages/Npcs.cshtml.cs:279 | the NPC leaves the NPC list, the others stay in order, and nothing else changes |
| NpcAdmin.Envir.DropEntryPage | Server/Web/Pages/Npcs.cshtml.cs:272-276 | when the NPC has an entry page, the pages reachable from it are deleted and the entry page becomes null; otherwise nothing changes |
| NpcAdmin.Envir.AddCheck | Server/Web/Pages/Npcs.cshtml.cs:468-505 | refused without permission or when `FindPage` finds no page; otherwise a new check at the next index, with its page back-reference set and the item when the index is positive, joins the check list and the end of the page's checks |
| NpcAdmin.Envir.AddAction | Server/Web/Pages/Npcs.cshtml.cs:570-612 | refused without permission or when no page is found; otherwise a new action, with item and map references when their indices are positive, joins the action list and the end of the page's actions |
| NpcAdmin.Envir.AddButton | Server/Web/Pages/Npcs.cshtml.cs:686-712 | refused without permission or when no page is found; otherwise a new button without destination joins the button list and the end of the page's buttons |
| NpcAdmin.Envir.AddGood | Server/Web/Pages/Npcs.cshtml.cs:806-837 | refused without permission, when no page is found, or for an unknown item; otherwise a new good with the clamped rate joins the good list and the end of the page's goods |
| NpcAdmin.Envir.DeleteCheck | Server/Web/Pages/Npcs.cshtml.cs:543-568 | refused without permission or for an unknown check; otherwise the check leaves its owner page's list and the check list |
| NpcAdmin.Envir.DeleteAction | Server/Web/Pages/Npcs.cshtml.cs:659-684 | refused without permission or for an unknown action; otherwise the action leaves its owner page's list and the action list |
| NpcAdmin.Envir.DeleteButton | Server/Web/Pages/Npcs.cshtml.cs:746-768 | refused without permission or for an unknown button; otherwise the button leaves its owner page's list and the button list |
| NpcAdmin.Envir.DeleteGood | Server/Web/Pages/Npcs.cshtml.cs:867-893 | refused without permission or for an unknown good; otherwise the good leaves its owner page's list and the good list |
| NpcAdmin.Envir.UpdateButton | Server/Web/Pages/Npcs.cshtml.cs:714-744 | refused without permission or for an unknown button; otherwise the button id is set and the destination becomes `FindPage(destPageIndex)` for a positive index and null otherwise |
| NpcAdmin.Envir.CreateButtonDestPage | Server/Web/Pages/Npcs.cshtml.cs:770-804 | refused without permission, for an unknown button, or when it already has a destination; otherwise a new bare page at the next index joins the page list and becomes the button's destination |
| NpcAdmin.Envir.UpdateGood | Server/Web/Pages/Npcs.cshtml.cs:839-865 | refused without permission or for an unknown good; otherwise the item is replaced by the lookup result when the index is positive, and the rate is clamped |
| NpcEdits.ClampRate | Server/Web/Pages/Npcs.cshtml.cs:826 | a good's rate is always positive: a positive rate is kept, and any other becomes 1 |
| NpcEdits.NewPageAdded | Server/Web/Pages/Npcs.cshtml.cs:392-398 | a new bare page keeps the world consistent, adds no edge, is found by `FindPage`, and reaches only itself |
| NpcEdits.EntryPageCreated | Server/Web/Pages/Npcs.cshtml.cs:389-399 | after an entry page is created, the world is consistent, no edge changed, and the NPC's entry page reaches the new page and nothing else |
| NpcEdits.EntryPageDroppedAfter | Server/Web/Pages/Npcs.cshtml.cs:448-453 | the cascade from the entry page followed by clearing the entry reference is the state `EntryPageDropped` describes |
| NpcEdits.CheckAdded | Server/Web/Pages/Npcs.cshtml.cs:495-496 | adding a check keeps the world consistent and the edges unchanged; the check is listed, points back to its page, ends that page's list, and no other page changes |
| NpcEdits.ActionAdded | Server/Web/Pages/Npcs.cshtml.cs:602-603 | adding an action keeps the world consistent and the edges unchanged; the action is listed, points back to its page, ends that page's list, and no other page changes |
| NpcEdits.ButtonAdded | Server/Web/Pages/Npcs.cshtml.cs:702-703 | adding a button keeps the world consistent and the edges unchanged; the button is listed, points back to its page, ends that page's list, and no other page changes |
| NpcEdits.GoodAdded | Server/Web/Pages/Npcs.cshtml.cs:826-828 | adding a good keeps the world consistent and the edges unchanged; the good is listed, points back to its page, ends that page's list, and no other page changes |
| NpcEdits.CheckDeleted | Server/Web/Pages/Npcs.cshtml.cs:554-555 | deleting a check keeps the world consistent and adds no edge; it leaves the check list and every page's check list, and nothing else in the pages changes |
| NpcEdits.ActionDeleted | Server/Web/Pages/Npcs.cshtml.cs:670-671 | deleting an action keeps the world consistent and adds no edge; it leaves the action list and every page's action list |
| NpcEdits.ButtonDeleted | Server/Web/Pages/Npcs.cshtml.cs:757-758 | deleting a button keeps the world consistent and adds no edge; it leaves the button list and every page's button list |
| NpcEdits.GoodDeleted | Server/Web/Pages/Npcs.cshtml.cs:878-879 | deleting a good keeps the world consistent and adds no edge; it leaves the good list and every page's good list |
| NpcEdits.ButtonRetargeted | Server/Web/Pages/Npcs.cshtml.cs:723-733 | retargeting a button keeps the world consistent; only its owner page's edges can change, and the owner then has an edge to the new destination |
| NpcEdits.DestPageCreated | Server/Web/Pages/Npcs.cshtml.cs:784-791 | a new destination page keeps the world consistent, is found by `FindPage`, reaches only itself, and the button's owner page has an edge to it |
| NpcEdits.GoodRepriced | Server/Web/Pages/Npcs.cshtml.cs:850-856 | updating a good keeps the world consistent and the edges unchanged, and leaves a positive rate, equal to the input when that was positive |
| NpcEdits.PurgedSound | Server/Web/Pages/Npcs.cshtml.cs:1098-1161 | the cascade delete keeps every index below its counter, so later creations still get fresh indices |
| ItemAdmin.Desired | Server/Web/Pages/Items.cshtml.cs:488-496 | the desired map never holds a zero amount |
| ItemAdmin.DesiredKinds | Server/Web/Pages/Items.cshtml.cs:488-496 | a kind is desired iff some input gives it a non-zero amount |
| ItemAdmin.LastNonZeroWins | Server/Web/Pages/Items.cshtml.cs:489-495 | the desired amount of a kind is the amount of its last input with a non-zero amount |
| ItemAdmin.AllZeroDesiresNothing | Server/Web/Pages/Items.cshtml.cs:488-496 | an empty or all-zero input desires no kind |
| ItemAdmin.KeyOrder | Server/Web/Pages/Items.cshtml.cs:508 | the enumeration order of the desired map lists each desired kind exactly once |
| ItemAdmin.BuildDesired | Server/Web/Pages/Items.cshtml.cs:488-496 | the first loop builds exactly the desired map and its key order |
| ItemAdmin.FirstOfKind | Server/Web/Pages/Items.cshtml.cs:510 | `FirstOrDefault` by kind: a result is a listed stat of that kind, and null holds exactly when no listed stat has the kind |
| ItemAdmin.FirstOfKindIsFirst | Server/Web/Pages/Items.cshtml.cs:510 | the stat found is the first of its kind: it sits at a position before which no stat has that kind |
| ItemAdmin.Stale | Server/Web/Pages/Items.cshtml.cs:499 | the stats to remove are exactly the listed stats whose kind is not desired |
| ItemAdmin.RemoveStale | Server/Web/Pages/Items.cshtml.cs:500-505 | removing the stale stats one by one leaves the list without them, in order and without repetition, and takes them out of the stat binding list |
| ItemAdmin.UpsertStats | Server/Web/Pages/Items.cshtml.cs:508-528 | the second loop updates the first stat of each present desired kind and creates one new record per missing kind, at consecutive fresh indices, in enumeration order |
| ItemAdmin.ReconcileCopy | Server/Web/Pages/Items.cshtml.cs:478-537 | a null stat list or an unparsed input changes nothing; otherwise the item's stats are reconciled, stale records are deleted, `StatsChanged` runs once, and the catalogue stays sound |
| ItemAdmin.ReconciledSound | Server/Web/Pages/Items.cshtml.cs:478-537 | reconciliation keeps every index below its counter and every stat list without repetitions and made of existing stats |
| ItemAdmin.ReconciledKinds | Server/Web/Pages/Items.cshtml.cs:498-528 | after reconciliation the item holds a stat of a kind iff that kind is desired |
| ItemAdmin.ReconciledIdentity | Server/Web/Pages/Items.cshtml.cs:499-526 | a stat of a desired kind stays in the list with the same index and kind; a stat of any other kind leaves the list; every stat new to the list is a fresh record of the item |
| ItemAdmin.ReconciledAmounts | Server/Web/Pages/Items.cshtml.cs:510-526 | when the item held at most one stat per kind, it still does, and every stat carries its kind's desired amount |
| ItemAdmin.ReconciledUnique | Server/Web/Pages/Items.cshtml.cs:498-528 | the reconciled list, records and counter are determined by the old state and the desired map |
| ItemAdmin.ReconciledExists | Server/Web/Pages/Items.cshtml.cs:498-528 | the reconciliation described by `Reconciled` always exists |
| ItemAdmin.NothingDesiredClears | Server/Web/Pages/Items.cshtml.cs:498-505 | an empty or all-zero input empties the item's stat list |
| ItemAdmin.FreshItemStats | Server/Web/Pages/Items.cshtml.cs:517-526 | an item with no stats gets one new record per desired kind, in enumeration order, each linked to the item with its desired amount |
| ItemAdmin.ClampStackSize | Server/Web/Pages/Items.cshtml.cs:343 | the stack size is at least 1: a positive input is kept and any other becomes 1 (same rule at line 436) |
| ItemAdmin.StatsStepCopy | Server/Web/Pages/Items.cshtml.cs:347-350 | a null or white-space stats string leaves the stats untouched; any other string reconciles them |
| ItemAdmin.FreshItemSound | Server/Web/Pages/Items.cshtml.cs:320-343 | adding an item with an empty stat list at the next item index keeps the catalogue sound |
| ItemAdmin.ItemDb.UpdateItemStats | Server/Web/Pages/Items.cshtml.cs:478-537 | the catalogue after the call is the one `StatsUpdated` describes, and it stays sound |
| ItemAdmin.ItemDb.CreateItem | Server/Web/Pages/Items.cshtml.cs:281-378 | refused without permission, or for a null or white-space name (`string.IsNullOrWhiteSpace`), with no change; otherwise a new item at the next index with the clamped stack size joins the item list, then its stats are set |
| ItemAdmin.ItemDb.AddItem | Server/Web/Pages/Items.cshtml.cs:320-350 | the new item takes the next item index, with the given fields, the clamped stack size and an empty stat list; then its stats are set unless the stats string is null or white space; the catalogue stays sound |
| ItemAdmin.ItemDb.UpdateItem | Server/Web/Pages/Items.cshtml.cs:381-471 | refused without permission or for an unknown item, with no change; otherwise the fields are overwritten, the stack size clamped, and the stats reconciled unless the stats string is null or white space |

## Left out

- HTTP, Razor rendering, JSON envelopes, `Message` strings and `IsAjaxRequest`: request plumbing.
- Logging through `SEnvir.Log`: it has no effect on the modelled state.
- The catch-all exception handlers, and an update left half applied by an exception: every operation is modelled as total.
- `CreateNewObject` returning null: the model always allocates the next index.
- JSON deserialization of the stats string: `UpdateItemStats` takes the parsed list, or `None` for a `null` or malformed document.
- `LoadNpcs` and `LoadItems`: read-only filtering, sorting and paging of the list views, with culture-aware string matching.
- `OnGetOnlineNpcs`: it only reads live map objects.
- `OnPostGiveItem`: it depends on the player inventory and the online player list, which these files do not contain.
- The enum catalogues and the stat-group table of `OnGetStatTypes`: lookup tables with no behaviour.
- `OnPostCreateNpc`, `OnPostUpdateNpc`, `OnPostUpdateNpcPage`, `OnPostUpdateCheck` and `OnPostUpdateAction`: they only copy scalar fields and change no edge or list membership.
- The decimal arithmetic of `Good.Rate`: the rate is a `real` and only the "not positive becomes 1" rule is modelled.
- The MirDB association side effects for NPC records: the handlers set the `Page` back-reference and then append to the page's list themselves; any automatic list update behind the setter is not part of this model.
- `HasPermission`: `int.TryParse` skips only the ASCII white space U+0009..U+000D and U+0020 and allows trailing `'\0'`s; the model does the same, but the current culture's sign symbols are fixed to `+` and `-`.
- ParseInt32: its own contract states only the 32-bit range and that the empty string does not parse. Facts on its result would enter every handler proof that checks a permission; the value read is proved instead by `ParseInt32Reads`, `TrimsPadding` and `ParseNumberShape`.
- ParseNumber: its own contract states only the 32-bit range and that the empty text does not parse, for the same reason; the value read is proved by `ParseNumberShape` and `ParseSignedDecimal`.
- ReconciledAmounts: the premise that the item holds at most one stat per kind is the source's limit, not the model's. When an item already holds two stats of one kind, the source updates only the first (`FirstOrDefault`, Items.cshtml.cs:510-515) and the others keep their old amount; `UpsertStats` and `FirstOfKindIsFirst` model exactly that, so not every stat then carries the desired amount.
- Concurrency: every operation is one sequential step over the world.
