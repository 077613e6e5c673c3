# pinmap core in Dafny

pinmap assigns the signals of a board's pin grid to microcontroller pins. Each signal is
one row of the *mapping table*. The *options table* lists, per board pin, the MCU pin and
the alternate module/function pairs that pin offers.

This project models the core that keeps the mapping consistent while a user edits it:

- **Building the catalog** (`PinOptions.__init__`). From the raw options table it builds:
  - the pin list;
  - the unique module and function names, without the sentinels `""`, `N/A` and `N/C`;
  - the module/function pair table;
  - one candidate per usable (pin, pair) slot.
- **Building the selector menus** (`_updateSelectorOptions`). A row's drop-down menu holds every
  candidate its regular expressions and its bus lock allow. A candidate whose pin or pair a
  *primary* row already uses is prefixed with a conflict tag (`Pin>Row>> `,
  `Func>Row>> `).
- **Reading and writing selector labels.** This covers:
  - stripping the tag;
  - splitting a label into board pin, MCU pin, module and function;
  - choosing which option a selector shows for a stored label.
- **Applying a selector change** (`selectorChangeUpdateMapping`). The new label is resolved to
  a candidate key, and the row is marked primary when no other row uses its pin or pair. When
  the row held a primary key, the primary flag is handed on (`_updatePrimary`). Finally the
  row's bus is re-locked to the module its members use (`_updateBusModuleKey`).
- **Refreshing the front end** (`updateFrontend`). The walk starts at the changed selector and
  follows the `previous`/`next` links of the selector chain built by
  `_generateFrontendElements`.
- **The updater thread** (`UpdaterFunction`), modelled as a sequential drain of a queue of
  changed selectors.

Modules:

- `Labels` (labels.dfy): label text — tags, splitting, formatting, the shown value.
- `PinOptions` (pinoptions.dfy): the catalog and its builder.
- `Allocation` (allocation.dfy): used keys, conflict tags, allowed candidates, menus, and
  applying a change as a function on the mapping and bus tables.
- `SelectorChain` (chain.dfy): the selector links and which selectors a refresh reaches.
- `PinMapAdapter` (adapter.dfy): the `Adapter` class. Its mapping, bus table and selector
  state are fields, and its methods update them in place, proved against the `Allocation`
  functions.

The regular-expression engine is a parameter (`Matcher`). A label is a `string`.

## Model

| member | source | states |
|---|---|---|
| PinOptions.BuildCatalog | pinmap/pinoptions.py:26-61 | pins are the board/MCU columns plus the comment (empty when the table has no comment column); module and function names are the usable distinct names in first-seen order; the pair table is the distinct used pairs in first-seen order; there is one candidate per usable slot, in row-then-column order, pointing at its row and at the index of its pair |
| PinOptions.UsableNames | pinmap/pinoptions.py:34-45 | the result is exactly the distinct values that are not `""`, `N/A` or `N/C`, without duplicates and in first-seen order |
| PinOptions.AddRowCandidates | pinmap/pinoptions.py:48-61 | one row's usable slots are appended as candidates, and each new pair is appended to the pair table at its first use only |
| PinOptions.DistinctSpec | pinmap/pinoptions.py:34-35 | `unique()` keeps each value once, in first-seen order, and loses none |
| PinOptions.WithoutKeepsOrder | pinmap/pinoptions.py:40-44 | removing the sentinels keeps first-seen order and no-duplicates, and removes exactly the sentinel values |
| PinOptions.SlotSkippedIffRemovable | pinmap/pinoptions.py:49-52 | a slot gives a candidate if and only if neither its module nor its function is a sentinel |
| PinOptions.UsableSlotsRows | pinmap/pinoptions.py:48-52 | every usable slot is one of the ALT slots of the row it names, and neither its module nor its function is `""`, `N/A` or `N/C` |
| PinOptions.Without | pinmap/pinoptions.py:40-44 | removing one sentinel keeps exactly the names that differ from it |
| PinOptions.AddSlot | pinmap/pinoptions.py:53-61 | one usable slot becomes one more candidate, pointing at the slot's row and at a pair that names the slot's module and function; the pair table stays the distinct used pairs in first-seen order |
| PinOptions.CellInColumns | pinmap/pinoptions.py:34-35 | every module/function cell of the table is among the concatenated column values |
| Labels.TagRemoved | pinmap/adapter.py:420-422 | the result is a suffix of the value with no `>> ` in it; when it is shorter, `>> ` stands right before it |
| Labels.RemoveSharedPrefixIdempotent | pinmap/adapter.py:420-422 | stripping the tag twice gives what stripping once gives |
| Labels.RemoveTagOfTaggedLabel | pinmap/adapter.py:387-393 | stripping a tag (empty, or ending in `>> `) off a tag-free label gives back the label |
| Labels.SplitJoin | pinmap/adapter.py:422 | `split` followed by a join with the same separator gives back the string |
| Labels.SplitPiecesFree | pinmap/adapter.py:422 | no piece of a split contains the separator |
| Labels.LastPiece | pinmap/adapter.py:422 | the last piece of a split is the text after the last separator |
| Labels.FindFirst | pinmap/adapter.py:422 | the index of the first occurrence of the separator, or none when it does not occur |
| Labels.SplitSelectorValue | pinmap/adapter.py:438-449 | an empty (or tag-only) label gives four empty fields; the module field never holds a space |
| Labels.SplitIgnoresTag | pinmap/adapter.py:440 | splitting ignores the conflict tag |
| Labels.SplitFormatRoundTrip | pinmap/adapter.py:383-386 | a menu option, with or without a tag, splits back into the board pin, MCU pin, module and function it was formatted from |
| Labels.FormatSplitsIntoFour | pinmap/adapter.py:383-386 | a formatted option splits on ` - ` into exactly its four padded fields |
| Labels.RemoveSpacesUnpads | pinmap/adapter.py:445-448 | removing spaces undoes the left-justified padding of a field that has no spaces |
| Labels.SafeValue | pinmap/adapter.py:424-436 | as written: the shown option is one of the options; with no substring match (or an empty label) it is the first option, otherwise the last option containing the stripped label |
| Labels.SafeValuePicksLongerLabel | pinmap/adapter.py:430-433 | as written, a stored label is shown as a different option whose function name extends it |
| Labels.ShownValue | pinmap/adapter.py:424-436 | corrected: the shown option is one of the options; it is the last option whose tag-free text equals the stripped label, and the first option when there is none |
| Labels.SafeSelectorValue | pinmap/adapter.py:428-435 | as written: the loop over the options, testing `value in option`, picks exactly the option `SafeValue` names |
| Labels.ShownSelectorValue | pinmap/adapter.py:428-435 | corrected: the same loop testing whole tag-free labels picks exactly the option `ShownValue` names |
| Labels.LastMatchSpec | pinmap/adapter.py:431-433 | the scan finds the last exact match, or index 0 when there is none |
| Allocation.OwnKeys | pinmap/adapter.py:339-355 | the keys kept out of the used lists are the row's own pin and pair keys, and only when the row is mapped and primary; a shown `Pin>` tag keeps the pin key in, a `Func>` tag (without a `Pin>` one) keeps the pair key in, and a mapped primary row always drops at least one of them |
| Allocation.UsedKeys | pinmap/adapter.py:326-334 | a key is used if and only if it is not the row's own key and some row of the mapping uses it |
| Allocation.PrimaryHolder | pinmap/adapter.py:403-412 | the first other row holding the key as primary, or none when no other row does |
| Allocation.ConflictTag | pinmap/adapter.py:400-418 | the tag is empty if and only if no other row holds the key as primary; otherwise it starts with the kind name and `>` and ends with `>> ` |
| Allocation.AllowedCandidates | pinmap/adapter.py:356-366 | exactly the candidates whose module is allowed (the bus's locked module; otherwise a module matching the row's pattern and, on a named bus, locked by no bus) and whose function matches the row's pattern, each once, in increasing key order |
| Allocation.CandidatePrefix | pinmap/adapter.py:387-393 | a candidate whose pin and pair are both unused gets no tag; a tag always ends with `>> ` |
| Allocation.MenuOptions | pinmap/adapter.py:336-394 | the menu is the empty entry followed by one entry per allowed candidate |
| Allocation.CandidatePrefixMeaning | pinmap/adapter.py:387-393 | a menu entry carries a tag if and only if a used pin or pair of it is held by another primary row; a pin conflict gives a `Pin>` tag |
| Allocation.MenuEntryResolves | pinmap/adapter.py:368-394 | every non-empty menu entry, once its tag is stripped, is its candidate's label and resolves back to that candidate |
| Allocation.CandidateLabelResolves | pinmap/adapter.py:462-468 | a candidate's label, with any tag, resolves to that candidate |
| Allocation.CandidateKeysResolve | pinmap/adapter.py:487-491 | a candidate's own fields look up its own pin key and module-function key |
| Allocation.ResolveKeys | pinmap/adapter.py:464-468 | resolved pin and pair keys are in range of the catalog |
| Allocation.ResolveLabel | pinmap/adapter.py:462-468 | a resolved key names a candidate whose fields are exactly the fields of the label |
| Allocation.ResolveIgnoresTag | pinmap/adapter.py:438-444 | resolving a label does not depend on its tag |
| Allocation.CountUsersPositive | pinmap/adapter.py:473-478 | the user count of a key is positive if and only if some row uses that key |
| Allocation.Cleared | pinmap/adapter.py:457-460 | a cleared row has no label, key -1 and no primary flag, and keeps its position, signal, bus and patterns |
| Allocation.Assign | pinmap/adapter.py:470-478 | only the changed row changes: it stores the new label and candidate key, keeps everything else but the primary flag |
| Allocation.AssignPrimaryIffSole | pinmap/adapter.py:470-478 | after a change the row is primary if and only if no other row uses its pin or its pair |
| Allocation.FirstUser | pinmap/adapter.py:502-506 | the first row using the key, or none when no row does |
| Allocation.Heir | pinmap/adapter.py:495-504 | the heir is a row of the mapping that uses the old pin or the old pair |
| Allocation.MakePrimary | pinmap/adapter.py:505-507 | only the heir changes: it becomes primary and its label loses its tag; its key and bus stay |
| Allocation.Promote | pinmap/adapter.py:486-507 | handing on the primary flag keeps every row's key and bus |
| Allocation.PromoteKeepsAPrimary | pinmap/adapter.py:486-507 | after the hand-over, a pin or pair that some row still uses is held by a primary row |
| Allocation.HeirUses | pinmap/adapter.py:495-504 | the new primary row uses the old pin or pair; it uses the pin whenever some row does, and there is one whenever some row uses the pair |
| Allocation.BusMembersSpec | pinmap/adapter.py:284-310 | a bus's members are exactly the rows on that bus, in increasing order |
| Allocation.MembersModule | pinmap/adapter.py:509-520 | the bus lock is -1 exactly when no member is mapped; otherwise it is the module of the first mapped member in member order |
| Allocation.UpdateBus | pinmap/adapter.py:509-520 | the bus table keeps its bus names |
| Allocation.AfterPrimary | pinmap/adapter.py:480-484 | the tail raises exactly when the old row was primary and its old label does not resolve, and then nothing changes; a row that was not primary hands nothing on; the row count, the bus names and the changed row's key stay |
| Allocation.ApplyChange | pinmap/adapter.py:451-484 | an empty value leaves the row unmapped; a value that resolves leaves the row on the resolved candidate; a value that does not resolve raises and changes nothing; the row count and the bus names stay |
| Allocation.ApplyChangeKeepsTables | pinmap/adapter.py:451-484 | a change keeps every key in range and each bus's member list |
| Allocation.ApplyChangeKeepsLabels | pinmap/adapter.py:451-484 | a change keeps every row's stored label agreeing with its key |
| Allocation.ApplyChangeKeepsBusLocks | pinmap/adapter.py:451-484 | for a value the row's menu offers, a change that does not raise keeps the bus locks: each bus locked to the one module its mapped members use, -1 when none is mapped, and no two buses locked to the same module |
| Allocation.SoleChoiceLocksBus | pinmap/adapter.py:451-520 | a row that is not primary, alone mapped on its named bus, takes a candidate through its label without raising; only that row changes, and its bus is locked to the candidate's module |
| Allocation.StaleChoiceSharesLock | pinmap/adapter.py:451-520 | as written: from a valid state with nothing mapped, two changes that pick candidates of one module in rows on two named buses both succeed, the second although its row's menu no longer offers it, and lock both buses to that module |
| Allocation.AfterPrimaryUpdatesBus | pinmap/adapter.py:480-484 | the bus is updated after the primary hand-over |
| SelectorChain.LinkSelectorsAsWritten | pinmap/adapter.py:286-307 | as written, the loop links every selector but the last to its neighbours and leaves the last one unlinked |
| SelectorChain.LinkSelectors | pinmap/adapter.py:286-307 | corrected: every selector is linked to both of its neighbours |
| SelectorChain.AsWrittenOrdered | pinmap/adapter.py:286-307 | both link tables point backwards through `previous` and forwards through `next` |
| SelectorChain.AsWrittenLastRefreshesAlone | pinmap/adapter.py:522-534 | as written, a change in the last of two or more selectors refreshes only that selector |
| SelectorChain.AsWrittenRefreshesFromOthers | pinmap/adapter.py:522-534 | as written, a change in any other selector refreshes every selector |
| SelectorChain.ChainRefreshesAll | pinmap/adapter.py:522-534 | with the corrected links, a refresh from any selector reaches exactly all selectors |
| PinMapAdapter.BuildMenu | pinmap/adapter.py:336-394 | the menu loop builds exactly the menu `MenuOptions` specifies |
| PinMapAdapter.AppendEach | pinmap/adapter.py:368-394 | the menu is an empty entry followed by one entry per allowed key, in order |
| PinMapAdapter.BuildBuses | pinmap/adapter.py:284-310 | there is one unlocked bus per bus name of the mapping; its members are that bus's rows in order |
| PinMapAdapter.FreshViewExists | pinmap/adapter.py:395-398 | every row has a fresh selector state: the menu for its current value and the option its label selects |
| PinMapAdapter.Replay | pinmap/adapter.py:28-33 | draining the queue keeps the table sizes, the key ranges, the bus names and the bus members |
| PinMapAdapter.ReplayKeepsLabels | pinmap/adapter.py:28-33 | however many changes are drained, every stored label still agrees with its key |
| PinMapAdapter.Adapter.constructor | pinmap/adapter.py:281-314 | builds the bus table (all unlocked) and the chain; every selector starts from `""` and is refreshed |
| PinMapAdapter.Adapter.UpdateSelectorOptions | pinmap/adapter.py:336-398 | only selector `r` changes: its options become the menu and its value the option its label selects |
| PinMapAdapter.Adapter.RowSelector | pinmap/adapter.py:336-398 | returns row `r`'s menu as `MenuOptions` specifies and the option `ShownValue` picks for its label |
| PinMapAdapter.Adapter.UpdateBusModuleKey | pinmap/adapter.py:509-520 | the bus table becomes `UpdateBus` of the old state; nothing else changes |
| PinMapAdapter.FirstMappedModule | pinmap/adapter.py:513-519 | the scan returns the module of the first member with a mapped candidate, -1 when no member is mapped |
| PinMapAdapter.Adapter.UpdatePrimary | pinmap/adapter.py:486-507 | the mapping becomes `Promote` of the old mapping, or the method raises when that is undefined |
| PinMapAdapter.Adapter.SelectorChangeUpdateMapping | pinmap/adapter.py:451-484 | the mapping and bus table become `ApplyChange` of the old state for the selector's value, and the raise flag agrees; the selectors are unchanged |
| PinMapAdapter.Adapter.StageChange | pinmap/adapter.py:455-478 | clears the row, or stores the resolved key, label and primary flag, or raises on an unknown label |
| PinMapAdapter.Adapter.FinishChange | pinmap/adapter.py:480-484 | runs the hand-over when the old row was primary, then updates the bus, as `AfterPrimary` specifies |
| PinMapAdapter.Adapter.Refresh | pinmap/adapter.py:336-398 | selector `r` gets its fresh state and no other selector changes |
| PinMapAdapter.Adapter.UpdateFrontend | pinmap/adapter.py:522-534 | after the walk, every selector holds its fresh menu, built from the value it showed before the walk, and the option its label selects |
| PinMapAdapter.Adapter.Drain | pinmap/adapter.py:28-33 | the mapping and bus table become `Replay` of the queue; when the queue is empty or a change raises, the selectors keep their state, and otherwise every selector is fresh |

## Left out

- Widgets, layout, grid labels, status symbols, clear buttons and the `observe`/`unobserve` toggling around value writes are not modelled. They are display only.
- Threading is not modelled. The blocking queue and `PinSelectorUpdate` are modelled as a sequential drain of a given list of changed rows (`Drain`).
- Empty queue at a step: `Drain` refreshes the front end only at the end of the list. It does not model a queue that empties between two changes while other threads keep adding to it.
- File backends, reports, import/export, `Board` and the `helper.py` widgets are not modelled. They are I/O.
- Regular-expression matching is not modelled. It is the `Matcher` parameter.
- pandas `astype(str)` and the `NaN` strings are not modelled. The raw table is given with string cells.
- Exceptions are not modelled as Python exceptions. A lookup that raises (an unknown label, a missing holder) becomes the `raised` result, and the state at that point is kept.
- PinMapAdapter.Adapter.constructor: it requires the imported mapping's keys to be in range of the catalog. It starts every bus lock at -1, as the source does, and does not recompute the locks for an imported mapping.
- PinMapAdapter.Adapter.constructor: it links selectors with the corrected chain (`LinkSelectors`). The as-written links are modelled separately in `SelectorChain`.
- PinMapAdapter.Adapter.constructor: it collects all bus members before refreshing the selectors, where the source interleaves the two. The outcome is the same, because menus read only the bus locks, and every lock is -1 during construction.
- Allocation.MenuEntryResolves: label round trips are proved for catalogs whose names hold no spaces, `>` or ` - ` (`PlainCatalog`) and whose candidates are distinct (`UniqueCandidates`). Other names can make `split(' - ')` yield other than four fields.
- Labels.SplitSelectorValue: a label that does not split into exactly four fields is `None`, where the source raises `ValueError`.
- Allocation.ApplyChangeKeepsBusLocks: it is stated for values the row's current menu offers (`Offered`). A selector can hold a value from a stale menu: menus are rebuilt only when the queue empties, and as written a change in the last selector refreshes no other menu. `ApplyChange` never re-checks that a value is allowed, so such a value can lock two named buses to the same module (see "## Findings"); the lemma does not cover it.
- PinMapAdapter.Adapter.RowSelector: it picks the shown option with the corrected rule (`ShownValue`, exact tag-free match), not the substring rule of pinmap/adapter.py:430-433 (`SafeValue`, modelled by `Labels.SafeSelectorValue`). Where a label is contained in a longer one, the program shows the longer option and the model shows the label's own.
- PinMapAdapter.FreshViewExists: a fresh selector value is the corrected `ShownValue`, not the substring choice `SafeValue`, for the reason given for `RowSelector`.
- PinMapAdapter.Adapter.Refresh: the refreshed value is the corrected `ShownValue`, not `SafeValue`, as for `RowSelector`.
- PinMapAdapter.Adapter.UpdateSelectorOptions: the new value is the corrected `ShownValue`, not `SafeValue`, as for `RowSelector`. The next `OwnKeys` reads the `Pin>`/`Func>` tag of this value, so later menus can differ from the program's too.
- PinMapAdapter.Adapter.UpdateFrontend: every selector ends on the corrected `ShownValue`, not `SafeValue`, as for `RowSelector`.
- PinMapAdapter.Adapter.Drain: the final selector values follow the corrected `ShownValue`, not `SafeValue`, as for `RowSelector`.
- PinMapAdapter.Adapter.constructor: every selector starts on the corrected `ShownValue`, not `SafeValue`, as for `RowSelector`.
- PinOptions.BuildCatalog: the function names are collected column by column in the order of the ALTn-Module columns (slot n is the ALTn pair). The program concatenates the ALTn-Function columns in their own header order, so a table whose Function columns are ordered differently from its Module columns gets its function keys in another order.
- Allocation.ConflictTag: a row's grid position is the text `gridRow`, where the program turns the integer `Row` column into text with `str()`.

## Findings

| source | as written | input that shows it | evidently intended | confidence | as-written member | corrected member |
|---|---|---|---|---|---|---|
| pinmap/adapter.py:300-307 | links are set only on the selector created one iteration earlier, so the last selector keeps `previous` and `next` as `None` | a mapping of two or more rows, then a change in the last row's selector: `updateFrontend` refreshes only that selector | every selector linked to its neighbours, so that any change refreshes every menu | not executed | SelectorChain.AsWrittenLastRefreshesAlone | SelectorChain.ChainRefreshesAll |
| pinmap/adapter.py:430-433 | the stored label is matched by substring (`value in option`), and the last containing option wins | one pin offering functions `CH1` and `CH1N` of the same module: a row storing the `CH1` label is shown the `CH1N` option | show the option whose tag-free text equals the stored label | not executed | Labels.SafeValuePicksLongerLabel | Labels.ShownValue |
| pinmap/adapter.py:451-484 | a change applies the selector's value without checking that the row's current menu still offers it; menus are rebuilt only when the queue empties, and a change in the last selector refreshes no other menu | two rows on two named buses, nothing mapped; both menus offer module M; the later row takes an M candidate, then the other row takes the M candidate its stale menu still shows: both buses end locked to M | a named bus's module is locked by no other bus, as the menu filter at pinmap/adapter.py:361-363 intends | not executed | Allocation.StaleChoiceSharesLock | Allocation.ApplyChangeKeepsBusLocks |
