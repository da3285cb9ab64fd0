# swift-gui in Dafny

A model of the page registry and click handling of swift-gui, a Bukkit menu
library. A `SwiftGui` is a map from page number to `Page` plus two sticky
numbering flags. Each page has a number, a row count, a title and a grid of
`rows * 9` slots.

The model covers:

- creating the registry;
- adding pages, under key `size + 1`;
- numbering every title in ascending or descending order;
- placing navigation and custom buttons on pages;
- filling a border pattern into a page;
- fanning each page operation out to every page of the registry;
- what the Back, Forward, NewPage and DeletePage buttons do when clicked;
- how a click reaches a button.

Everything is a pure function over immutable values:

- a thrown `IllegalArgumentException` becomes an `Err` of `Common.Error`;
- "open this page for the player" becomes the key of the page opened;
- the Bukkit inventory becomes the slot grid.

Files:

- `common.dfy`: `Option`, `Result` and the error causes.
- `decimal.dfy`: Java's rendering of an `int` in a `String + int` concatenation, and the parser that reads it back.
- `buttons.dfy`: materials, button kinds and the button constructor.
- `pages.dfy`: the page constructor, default slots, placement, `fillBorder` and title renaming.
- `int_sets.dfy`: the key sets used by deletion and their sizes.
- `swift_gui.dfy`: the registry: construction, adding, numbering, fan-out, deletion and two worked scenarios.
- `navigation.dfy`: the `onClick` of each button, the dispatch, and the listener entry point `checkForButtonPress`.

Three choices shape the model:

- **Bulk operations.** They iterate the registry's `HashMap` in an order the model cannot see. The order is a parameter: a sequence listing every key once. A page that refuses the operation stops the loop, because the host throws. Pages visited before it keep their change, and the refusal is reported.
- **Where a button lives.** A button reaches its page and registry through live references. The click functions take the registry and the owning page's current state as arguments.
- **Deleting in numbered mode.** Deletion is modelled over a snapshot of the map, which is the evident intent of the loop in `DeletePageButton.onClick`.

Deleting a page in numbered mode moves every key *below* the deleted one down and leaves the keys above it alone. With three "Menu" pages numbered ascending and page 2 deleted, page 1 therefore goes to key 0, gets page number 0 and is renamed "Menu - 1 - 0", while page 3 stays "Menu - 3" (`Gui.MenuScenario`).

## Model

| member | source | states |
|---|---|---|
| Decimal.ParseShow | src/main/java/io/github/ayushchivate/swiftgui/Page.java:229 | reading back the decimal text Java appends for an `int` gives that `int`, for negative numbers too |
| Decimal.ShowInjective | src/main/java/io/github/ayushchivate/swiftgui/Page.java:229 | two `int`s render to the same text exactly when they are equal |
| Buttons.NewButton | src/main/java/io/github/ayushchivate/swiftgui/CustomButton.java:31-59 | the constructor succeeds exactly when the index is not negative, and otherwise fails with the negative-index error; `getIndex`/`getMaterial` return the index and material given |
| Pages.CreatePage | src/main/java/io/github/ayushchivate/swiftgui/Page.java:72-87 | a page exists exactly when number and rows are positive; the number is checked first; the page has the given number, rows and title and `rows * 9` empty slots |
| Pages.DefaultIndex | src/main/java/io/github/ayushchivate/swiftgui/Page.java:92-95 | on a page with at least one row each default slot lies in the grid, in the bottom row, at column 0 (back), 3 (delete), 5 (new page) or 8 (forward) |
| Pages.DefaultIndicesDistinct | src/main/java/io/github/ayushchivate/swiftgui/Page.java:92-95 | on a page with at least one row two buttons share a default slot only if they are the same button |
| Pages.SetItem | src/main/java/io/github/ayushchivate/swiftgui/Page.java:141 | a slot inside the grid is set to the material and every other slot, the number, rows and title stay; a slot outside it is refused |
| Pages.AddNavButton | src/main/java/io/github/ayushchivate/swiftgui/Page.java:130-208 | the chosen slot (default or explicit) shows ARROW, PAPER or TNT, nothing else on the page changes, and the new button has that slot, material and kind; a default slot on a well-formed page always succeeds |
| Pages.AddCustomButton | src/main/java/io/github/ayushchivate/swiftgui/Page.java:215-220 | the button's material appears at the button's own index, nothing else changes, and the placed button is the one given |
| Pages.AddCustomButtonAt | src/main/java/io/github/ayushchivate/swiftgui/SwiftGui.java:338-342 | the button's material appears at the index passed to the fan-out, nothing else changes |
| Pages.SetItemOverwrites | src/main/java/io/github/ayushchivate/swiftgui/Page.java:139-146 | placing twice on one slot leaves the same page as placing only the second time |
| Pages.SetItemCommutes | src/main/java/io/github/ayushchivate/swiftgui/Page.java:139-207 | placements on different slots give the same page in either order |
| Pages.FillPass | src/main/java/io/github/ayushchivate/swiftgui/Page.java:282-291 | with one running index over rows then columns, slot `r * 9 + c` holds the fill material exactly where the pattern cell is 1 and is untouched elsewhere |
| Pages.FillBorder | src/main/java/io/github/ayushchivate/swiftgui/Page.java:264-295 | a pattern whose row count differs from the page's is refused first, then one with a row not nine wide; otherwise every slot that showed something keeps it, every empty slot gets the fill pass's cell, and number, rows and title are kept |
| Pages.SuffixReadsBack | src/main/java/io/github/ayushchivate/swiftgui/Page.java:229 | `name + " - " + n` starts with `name` and `" - "`, and its tail reads back as `n` |
| Pages.SuffixInjective | src/main/java/io/github/ayushchivate/swiftgui/Page.java:229 | two suffixes on one title agree only for the same number |
| Pages.RenameAscending | src/main/java/io/github/ayushchivate/swiftgui/Page.java:226-237 | the title gains the suffix of the page number; number, rows and grid are kept |
| Pages.RenameAscendingReadsBack | src/main/java/io/github/ayushchivate/swiftgui/Page.java:226-229 | the new title keeps the old one as a prefix and its suffix reads back as the page number |
| Pages.RenameDescending | src/main/java/io/github/ayushchivate/swiftgui/Page.java:243-254 | the title gains the suffix of registry size minus page number; number, rows and grid are kept |
| Pages.RenameDescendingReadsBack | src/main/java/io/github/ayushchivate/swiftgui/Page.java:243-246 | the new title keeps the old one as a prefix and its suffix reads back as size minus page number |
| Pages.RenameAscendingTwice | src/main/java/io/github/ayushchivate/swiftgui/Page.java:226-229 | renaming twice stacks two suffixes and differs from renaming once: the rename is not idempotent |
| IntSets.LoweredSize | src/main/java/io/github/ayushchivate/swiftgui/DeletePageButton.java:43-45 | shifting a set of keys one down keeps its size |
| IntSets.RenumberedKeys | src/main/java/io/github/ayushchivate/swiftgui/DeletePageButton.java:36-50 | after removing `d` and moving the keys below it down, a key is present exactly when it is one less than an old key below `d`, or an old key above `d` |
| IntSets.RenumberedKeysSize | src/main/java/io/github/ayushchivate/swiftgui/DeletePageButton.java:36-50 | moving the keys below `d` down merges no two keys, so exactly `d` is lost |
| Gui.Create | src/main/java/io/github/ayushchivate/swiftgui/SwiftGui.java:73-91 | a row count of -1 is read as 1; a negative page count is refused first, then a non-positive row count; otherwise the keys are exactly 1..N, each page has its key as number and the given rows and title, and neither flag is set |
| Gui.EmptyConstructor | src/main/java/io/github/ayushchivate/swiftgui/SwiftGui.java:47-49 | the no-argument constructor gives an empty registry with neither flag |
| Gui.Open | src/main/java/io/github/ayushchivate/swiftgui/SwiftGui.java:134-137 | `open` shows page 1, and fails exactly when there is no page 1 |
| Gui.Numbered | src/main/java/io/github/ayushchivate/swiftgui/SwiftGui.java:173-177 | ascending wins over descending; with neither flag the page is unchanged; number, rows and grid are always kept |
| Gui.AddNewPage | src/main/java/io/github/ayushchivate/swiftgui/SwiftGui.java:158-180 | refused exactly when rows are not positive; otherwise the new page goes under `size + 1` with that number, the given rows and an empty grid; the other entries and the flags are unchanged; the title is suffixed by the flag in force |
| Gui.DenseExtend | src/main/java/io/github/ayushchivate/swiftgui/SwiftGui.java:166-170 | keys 1..N plus key N + 1 are keys 1..N+1 |
| Gui.AddNewPageKeepsDense | src/main/java/io/github/ayushchivate/swiftgui/SwiftGui.java:166-170 | on keys 1..N, adding a page gives keys 1..N+1 |
| Gui.AddNewPageKeepsValid | src/main/java/io/github/ayushchivate/swiftgui/SwiftGui.java:166-177 | adding a page keeps every page under its own number and well formed |
| Gui.AddNewPageOverwritesTakenKey | src/main/java/io/github/ayushchivate/swiftgui/SwiftGui.java:166-170 | when key `size + 1` is already taken, the new page replaces it and the registry does not grow |
| Gui.AddPages | src/main/java/io/github/ayushchivate/swiftgui/SwiftGui.java:215-231 | the loop collects exactly `count` pages, each well formed with the given rows, and keeps the flags; on keys 1..N it leaves keys 1..N+count |
| Gui.AddPagesStep | src/main/java/io/github/ayushchivate/swiftgui/SwiftGui.java:215-231 | on dense keys, one more round puts the new page under the next key, appends it to the returned pages and keeps the earlier entries |
| Gui.AddPagesKeepsValid | src/main/java/io/github/ayushchivate/swiftgui/SwiftGui.java:215-231 | every round of `addNewPages` keeps every page under its own number and well formed |
| Gui.AddPagesNumbersInOrder | src/main/java/io/github/ayushchivate/swiftgui/SwiftGui.java:215-233 | on keys 1..N, the i-th returned page has number N+1+i and is stored under that key |
| Gui.AddPagesKeepsOld | src/main/java/io/github/ayushchivate/swiftgui/SwiftGui.java:215-231 | on dense keys, adding pages leaves every existing entry as it was |
| Gui.AddNewPages | src/main/java/io/github/ayushchivate/swiftgui/SwiftGui.java:203-234 | refused exactly when the count is negative (checked first) or rows are not positive; otherwise exactly `count` pages come back, each with the given rows |
| Gui.NumberAscendingAll | src/main/java/io/github/ayushchivate/swiftgui/SwiftGui.java:349-354 | sets the ascending flag, keeps the keys, and gives every page once the suffix of its own number; number, rows and grid are kept |
| Gui.NumberDescendingAll | src/main/java/io/github/ayushchivate/swiftgui/SwiftGui.java:361-366 | sets the descending flag, keeps the keys, and gives every page once the suffix of size minus its number |
| Gui.AscendingTitlesDistinct | src/main/java/io/github/ayushchivate/swiftgui/SwiftGui.java:349-354 | pages that shared a title have different titles after ascending numbering |
| Gui.DescendingTitlesDistinct | src/main/java/io/github/ayushchivate/swiftgui/SwiftGui.java:361-366 | pages that shared a title have different titles after descending numbering |
| Gui.NumberingKeepsValid | src/main/java/io/github/ayushchivate/swiftgui/SwiftGui.java:349-366 | numbering keeps every page under its own number and well formed |
| Gui.FirstFailure | src/main/java/io/github/ayushchivate/swiftgui/SwiftGui.java:256-258 | every page before the returned position accepts the operation, and the page at it (if any) refuses |
| Gui.ForEachPage | src/main/java/io/github/ayushchivate/swiftgui/SwiftGui.java:256-258 | the keys are kept; pages before the first refusal carry the operation's result, the rest are unchanged; the refusal, if any, is reported |
| Gui.ForEachPageAll | src/main/java/io/github/ayushchivate/swiftgui/SwiftGui.java:256-258 | over a full iteration order, nothing is refused exactly when every page accepts, and then every page is changed |
| Gui.ForEachPageUntouchedOrChanged | src/main/java/io/github/ayushchivate/swiftgui/SwiftGui.java:256-258 | whether or not the loop stops early, each page is either unchanged or the operation's result |
| Gui.ForEachPageKeepsValid | src/main/java/io/github/ayushchivate/swiftgui/SwiftGui.java:256-258 | an operation that keeps each page's number, rows and grid size keeps every page under its own number and well formed, even when the loop stops early |
| Gui.ApplyAll | src/main/java/io/github/ayushchivate/swiftgui/SwiftGui.java:255-380 | keys and flags are kept; success exactly when every page accepts, and then each page is the operation's result; a reported error is one some page raised; whatever the outcome, each page is either unchanged or the operation's result |
| Gui.AddNavButtonAll | src/main/java/io/github/ayushchivate/swiftgui/SwiftGui.java:255-330 | success exactly when the slot lies in every page's grid; then each page shows the button's material there and nothing else changes; default slots on well-formed pages always succeed |
| Gui.AddCustomButtonAll | src/main/java/io/github/ayushchivate/swiftgui/SwiftGui.java:338-342 | success exactly when the index lies in every page's grid; then each page shows the button's material there and nothing else changes |
| Gui.FillBorderAll | src/main/java/io/github/ayushchivate/swiftgui/SwiftGui.java:376-380 | success exactly when every page has as many rows as the pattern and the pattern is nine wide; then each page is that page's border fill |
| Gui.ApplyAllKeepsValid | src/main/java/io/github/ayushchivate/swiftgui/SwiftGui.java:255-380 | a shape-keeping page operation applied to every page keeps the registry valid, whatever the failure |
| Gui.AddNavButtonAllKeepsValid | src/main/java/io/github/ayushchivate/swiftgui/SwiftGui.java:255-330 | placing a navigation button on every page keeps the registry valid, even when a page refuses the slot |
| Gui.AddCustomButtonAllKeepsValid | src/main/java/io/github/ayushchivate/swiftgui/SwiftGui.java:338-342 | placing a caller-defined button on every page keeps the registry valid, even when a page refuses the index |
| Gui.FillBorderAllKeepsValid | src/main/java/io/github/ayushchivate/swiftgui/SwiftGui.java:376-380 | filling the border of every page keeps the registry valid, even when a page refuses the pattern |
| Gui.Renumbered | src/main/java/io/github/ayushchivate/swiftgui/DeletePageButton.java:38-50 | the renumbered map has a key exactly when it is one less than an old key below `d`, or an old key above `d` |
| Gui.RemovePage | src/main/java/io/github/ayushchivate/swiftgui/DeletePageButton.java:27-52 | the deleted key is gone and the flags are kept; with no flag only that key is removed; with a flag the keys are those of `RenumberedKeys` |
| Gui.DeleteKeys | src/main/java/io/github/ayushchivate/swiftgui/DeletePageButton.java:36-50 | with a flag, the keys left are exactly the old keys with `d` removed and the lower ones moved down |
| Gui.DeleteSize | src/main/java/io/github/ayushchivate/swiftgui/DeletePageButton.java:36-50 | deleting a present page leaves exactly one page fewer; deleting an absent one keeps the count |
| Gui.DeleteKeepsPagesAbove | src/main/java/io/github/ayushchivate/swiftgui/DeletePageButton.java:43 | with a flag, a page above the deleted one keeps its key, number and title |
| Gui.DeleteShiftsPagesBelow | src/main/java/io/github/ayushchivate/swiftgui/DeletePageButton.java:43-48 | with a flag, the page under `k < d` moves to `k - 1`, takes number `k - 1`, keeps rows and grid, and gains the suffix of the new number (ascending) or of the new size minus it (descending) |
| Gui.DeleteKeepsPageValid | src/main/java/io/github/ayushchivate/swiftgui/DeletePageButton.java:40-50 | with a flag, each page left sits under its own number and is well formed |
| Gui.DeleteKeepsValid | src/main/java/io/github/ayushchivate/swiftgui/DeletePageButton.java:36-50 | deletion keeps every page under its own number and well formed |
| Gui.DeleteMovesFirstPageToZero | src/main/java/io/github/ayushchivate/swiftgui/DeletePageButton.java:43-46 | with a flag, deleting a page above page 1 moves page 1 to key and number 0, a number the page constructor refuses |
| Gui.PlainDeleteLeavesGap | src/main/java/io/github/ayushchivate/swiftgui/DeletePageButton.java:36-38 | with no flag, deleting a page other than the last leaves keys that are no longer 1..N |
| Gui.ShopScenario | src/main/java/io/github/ayushchivate/swiftgui/DeletePageButton.java:33-38 | empty registry, two "Shop" pages added, page 1 deleted: only key 2 is left, still number 2 and titled "Shop" |
| Gui.ThreeMenuPages | src/main/java/io/github/ayushchivate/swiftgui/SwiftGui.java:349-354 | three "Menu" pages numbered ascending have keys 1, 2, 3 and titles "Menu - 1" and "Menu - 3" on pages 1 and 3 |
| Gui.MenuScenario | src/main/java/io/github/ayushchivate/swiftgui/DeletePageButton.java:38-50 | deleting page 2 of those leaves keys 0 and 3: page 0 is titled "Menu - 1 - 0", page 3 keeps "Menu - 3" |
| Navigation.BackClick | src/main/java/io/github/ayushchivate/swiftgui/BackButton.java:27-55 | the registry is never changed; a page opens exactly when a player clicked and key `number - 1` exists, and it is that page |
| Navigation.ForwardClick | src/main/java/io/github/ayushchivate/swiftgui/ForwardButton.java:27-55 | the registry is never changed; a page opens exactly when a player clicked and key `number + 1` exists, and it is that page |
| Navigation.NavigationOnDenseKeys | src/main/java/io/github/ayushchivate/swiftgui/BackButton.java:43-51 | on keys 1..N, back opens a page exactly when not on page 1, and forward exactly when not on page N |
| Navigation.ForwardThenBack | src/main/java/io/github/ayushchivate/swiftgui/ForwardButton.java:43-54 | going forward and then back from the page reached returns to the starting page |
| Navigation.BackThenForward | src/main/java/io/github/ayushchivate/swiftgui/BackButton.java:43-54 | going back and then forward from the page reached returns to the starting page |
| Navigation.NewPageClick | src/main/java/io/github/ayushchivate/swiftgui/NewPageButton.java:28-53 | with no player or no clicked inventory nothing happens; otherwise it fails exactly when the inventory is under 9 slots, since that gives 0 rows; on success the registry is `addNewPage(size / 9, owner title)` and the new key, which is in the registry, is opened |
| Navigation.NewPageClickOpensAddedPage | src/main/java/io/github/ayushchivate/swiftgui/NewPageButton.java:46-52 | the page opened is the one added: it is in the registry, has `size / 9` rows and a title starting with the clicked page's title |
| Navigation.DeleteClick | src/main/java/io/github/ayushchivate/swiftgui/DeletePageButton.java:27-52 | whoever clicked, the owning page's key is deleted as `RemovePage` does and no page is opened |
| Navigation.OnClick | src/main/java/io/github/ayushchivate/swiftgui/CustomButton.java:31-80 | a caller-defined button runs exactly its own handler, placed or not; a navigation button never placed does nothing; only a new-page button can fail; only new-page and delete buttons change the registry; a page opened is in the registry; a handler is reported exactly for a caller-defined button |
| Navigation.PressIgnoresClickTarget | src/main/java/io/github/ayushchivate/swiftgui/CustomButton.java:73-80 | as written, the outcome of a click does not depend on the clicked inventory's title, slot or item |
| Navigation.ShopDeleteButton | src/main/java/io/github/ayushchivate/swiftgui/Page.java:151-167 | `addDeletePageButton()` on a one-row page puts a TNT delete button on slot 3, and page 1 of the counterexample shows it there |
| Navigation.StrayClickDeletesPage | src/main/java/io/github/ayushchivate/swiftgui/CustomButton.java:73-80 | as written, a click on slot 0 of an inventory titled "Other" still runs the delete button that `addDeletePageButton` put on slot 3 of page 1 and deletes page 1 |
| Navigation.RoutedPress | src/main/java/io/github/ayushchivate/swiftgui/CustomButton.java:73-80 | with the button-press check filled in, `onClick` runs exactly for a player's click on the owning page's inventory, on the button's slot, showing its material; any other click does nothing |
| Navigation.RoutedPressAnswersPlacedButton | src/main/java/io/github/ayushchivate/swiftgui/CustomButton.java:73-80 | with the check filled in, a player's click on the slot where `addCustomButton` put a button runs that button, and the same click runs no button of the page on another slot |
| Navigation.RoutedStrayClickIsIgnored | src/main/java/io/github/ayushchivate/swiftgui/CustomButton.java:73-80 | with the check filled in, the same stray click leaves the registry alone |

## Left out

- Bukkit I/O is not modelled: `createInventory`, `openInventory`, `registerEvents` and the static plugin handle. Opening a page is the key returned in `shown`.
- `Inventory.addItem` is host behaviour. It stacks the old contents into the first free slots after a rename or a fill. The model keeps every item in its own slot instead.
- The rename and fill paths call `createInventory(null, NUMBER_OF_ROWS, …)` with the row count, not `rows * 9`. The model keeps a `rows * 9` grid throughout.
- Deleting in numbered mode changes the `HashMap` while iterating over it, which throws `ConcurrentModificationException` once the iteration continues past a moved entry. The model applies the loop body to every entry over a snapshot. Descending renames use the size after the removal, which the loop keeps constant.
- The deletion model moves all keys below the deleted one down at once. That matches running `pages.put(key - 1, pages.remove(key))` over a snapshot only when those keys are visited in ascending order, which is how Java's `HashMap` orders small non-negative `Integer` keys. In descending order the moves overwrite each other: pages 1 to 4 with page 4 deleted would leave only the old page 3, under key 0. Unlike the bulk operations, deletion therefore takes no iteration order as a parameter.
- `addNewPages` allocates its result array before checking the count. A negative count therefore throws `NegativeArraySizeException` rather than `IllegalArgumentException`. The model reports `NegativePageCount`.
- `getAllPages` stores the page under key `k` at array index `k`, which overflows for key N. It is not modelled.
- Two overloads delegate with their arguments swapped: `SwiftGui(numberOfPages, numberOfRows)` and `addNewPages(numberOfPages, numberOfRows)`. Only the three-argument forms are modelled.
- These symbols are used but never defined: `getPages()`, `SWIFT_GUI.size()`, the `page` field and `setPage`, `numberAscendingOrder()`/`numberDescendingOrder()` and `isAscendingOrder`. They are modelled as the evident intent: the registry's map, its size, the owning page, `renameAscending`/`renameDescending` and the ascending flag.
- `Page` is constructed with three arguments but declares four; the fourth, the registry back-reference, is passed explicitly to the click functions.
- `addCustomButtonAll` calls a two-argument `addCustomButton(button, index)` that does not exist. It is modelled as `AddCustomButtonAt`, writing the button's material at the given index.
- `addCustomButtonAll` leaves the one button object bound to the last page visited. The model returns no button from the fan-out.
- `fillBorderAll` takes an `int[]` but passes it where `fillBorder` needs an `int[][]`. It is modelled with the two-dimensional pattern.
- A back, forward, new-page or delete button that was never placed on a page has no page to read. BackButton.java:43 and ForwardButton.java:43 read it only after a player's click, since a non-player click returns at :35-36. NewPageButton.java:49 reads it only after a player's click on a non-null inventory, since it returns at :36-37 and :45. DeletePageButton.java:33 reads it on every click. On the paths that read it the source throws `NullPointerException`; the model treats every click on such a navigation button as doing nothing. A caller-defined button is not affected: it runs its handler whether or not it was placed.
- The constructor registers the button as a listener before it checks the index, so a button refused for a negative index is already registered. The model has no button value for a refused construction.
- The model has one listener per button. The same click reaching many registered buttons is not modelled.
- The effects of a caller-defined `onClick` are not visible. The model reports only that it ran, in `fired`.
- The `HashMap` iteration order is a parameter (`order`). The model does not compute it.
- Java's 32-bit `int` overflow on page numbers and counts is not modelled; integers are unbounded.
- Navigation.CheckForButtonPress: the as-written entry point carries no contract of its own. `PressIgnoresClickTarget` and `StrayClickDeletesPage` state what it does.
- Gui.AddNewPages: its contract gives the count, rows and well-formedness of the returned pages, and keys 1..N+count when the keys were 1..N. The numbers and keys of the returned pages are stated separately by `AddPagesNumbersInOrder` and `AddPagesKeepsOld`, and validity by `AddPagesKeepsValid`; the first two only for a registry whose keys are 1..N. On other key sets `size + 1` can hit a taken key (`AddNewPageOverwritesTakenKey`).
- Pages.FillBorder: requires a well-formed page, which every page the constructor builds is; `Gui.FillBorderAll` requires the same of every page.

## Findings

| source | as written | input that shows it | evidently intended | confidence | as-written member | corrected member |
|---|---|---|---|---|---|---|
| src/main/java/io/github/ayushchivate/swiftgui/CustomButton.java:73-80 | `checkForButtonPress` calls `onClick` for every inventory click; the "check for button press" step is empty | registry of two one-row "Shop" pages, a delete button on slot 3 of page 1, a player clicking slot 0 of an inventory titled "Other": page 1 is deleted | run `onClick` only for a player's click on the owning page's inventory, on the button's slot, showing the button's material | not executed; high | Navigation.StrayClickDeletesPage | Navigation.RoutedPress |
