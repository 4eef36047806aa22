# GUI-Helper-Framework: the `Gui` core in Dafny

This project models the `Gui` class of GUI-Helper-Framework, a small library for inventory menus
on a game server. A GUI is a titled grid of slots, grouped into rows of 9. The model covers:

- the contents array, which `set`, the bulk fills, `clear`, the size setter and the contents setter overwrite;
- the slot-to-action table, which is read with a no-op default;
- the process-wide map from each live inventory (the presentation handle) to the GUI that built it, with `build`, `update`, the lookups and the removals.

Modules:

- `GuiTypes` holds the host's values. Items (`ItemStack`) and actions (`GuiAction`, with the distinguished `NoOp`) are opaque identities. `Slot` is `Option<ItemStack>`, where `None` is Java's null. `Inventory` is a class, so creating one is a fresh allocation. Each inventory remembers the size, title and contents it was made from.
- `SlotGrid` defines in pure terms which slots each fill means: `InRow(line, k)` is `0 <= k && k / 9 == line`, and `InColumn(column, k)` is `0 <= k && k % 9 == column`. `Rows(size)` is Java's truncating `size / 9`. The module also holds `BuildSize`, the size `build` settles on, plus Java's `Arrays.copyOfRange` and the size setter's effect on contents. Its lemmas tie rows and columns to the slot ranges the loops walk.
- `ActionTable` holds the action table as a `map<int, GuiAction>`, with register, unregister, has and get, and lemmas about them.
- `GuiCore` holds the class `Gui` and the class `Registry`.
  - `Gui` has the source's fields. Its methods overwrite the `contents` array in place with the source's loops, or reassign the fields. Each method's `ensures` states the new state slot by slot, using the `SlotGrid` regions.
  - `Registry` stands for Java's static `INVENTORIES` map. It is passed to `Build` and `Update` explicitly. Its predicate `Coherent()` says that every entry is keyed by its GUI's current inventory. `Build`, `Update` and both removals preserve it. In a coherent registry a GUI has at most one entry.
- `Scenarios.ShopLifecycle` runs a client through build, a second build, update, a row fill and removal, using only the contracts.

Java methods that throw are modelled with `requires` clauses. These cover `ArrayIndexOutOfBoundsException` from an index past the contents array, `NegativeArraySizeException`, and `IllegalArgumentException` from `copyOfRange`. Each `requires` admits exactly the inputs on which the Java code does not throw. Every guard of the source that turns an input into a no-op is kept as a no-op.

Quirks of the source, kept as written:

- `contents.length == size` is not maintained.
  - The second constructor adopts an array of any length.
  - The size setter shrinks the array to `s - 1` slots and leaves it unchanged when growing (`SlotGrid.ShrinkLosesLastSlot`).
  - `build` resets a size that is not a multiple of 9 to 54 through that setter. A GUI with more than 54 slots therefore ends up with only 53 (`SlotGrid.BuildOfOversizedGuiIsShort`).
  - `clear` and the contents setter restore the invariant. The model states every method's precondition in terms of `contents.Length`, not `size`.
- `fillLine` and `fillLineInRange` compare `line` with `size`, not with `size / 9`. A line the guard admits at or beyond `size / 9` reaches past the grid (`SlotGrid.LineGuardAdmitsRowPastEnd`). A row fits exactly when `line < size / 9` (`SlotGrid.RowFitsIff`).

Where the code departs from its own Javadoc or from its evident design, the model follows the code:

- The `size` field is documented as "a multiple of 9" (Gui.java:49-50), but the constructors and the size setter accept any size. Only `build` normalises it, to 54.
- The size setter does not resize the array when growing, and shrinks it one slot too far. So `contents.length == size` is not an invariant, although every fill walks the grid by `size`.
- `getAction` is documented as returning the action "or null" (Gui.java:386), but it returns a fresh do-nothing action instead. The model returns `NoOp` and never an absent value.
- The row fills check `line` against `size`, not against the number of rows `size / 9`.

## Model

| member | source | states |
|---|---|---|
| `SlotGrid.Rows` | src/main/java/me/cristike/ghf/Gui.java:318 | `size / 9` truncates toward zero: for `size >= 0` the result is the number of whole rows (`9n <= size < 9n + 9`); for a negative size it is `<= 0` |
| `SlotGrid.RowSpan` | src/main/java/me/cristike/ghf/Gui.java:303-311 | columns `from..to` of row `line` are exactly the slots `9*line + from .. 9*line + to` that the row fills walk |
| `SlotGrid.RowFitsIff` | src/main/java/me/cristike/ghf/Gui.java:282-288 | for `size, line >= 0`, every slot of row `line` is below `size` if and only if `line < size / 9` |
| `SlotGrid.LineGuardAdmitsRowPastEnd` | src/main/java/me/cristike/ghf/Gui.java:283 | a line admitted by the guard `0 <= line < size` but with `line >= size / 9` has its last slot `9*line + 8` at or beyond `size` |
| `SlotGrid.ColumnSlotInGrid` | src/main/java/me/cristike/ghf/Gui.java:316-322 | every slot of a column fill, which lies in one of the `size / 9` whole rows, is below `size` |
| `SlotGrid.SecondRowOfFiftyFour` | src/main/java/me/cristike/ghf/Gui.java:282-288 | on 54 slots, row 1 is exactly the slot range 9..17, so `fillLine(item, 1)` writes the same slots as `fillInRange(item, 9, 17)` |
| `SlotGrid.FifthColumnOfFiftyFour` | src/main/java/me/cristike/ghf/Gui.java:316-322 | on 54 slots, column 4 of the whole rows is exactly {4, 13, 22, 31, 40, 49} |
| `SlotGrid.BuildSize` | src/main/java/me/cristike/ghf/Gui.java:122 | the size after `build` is a multiple of 9; it is the old size when that was one, else 54 |
| `SlotGrid.CopyOfRange` | src/main/java/me/cristike/ghf/Gui.java:445 | `Arrays.copyOfRange(a, from, to)` has length `to - from`, and holds `a[from + i]` where it exists and null past the end |
| `SlotGrid.ResizedAsWritten` | src/main/java/me/cristike/ghf/Gui.java:443-447 | shrinking to `s` leaves `s - 1` slots and growing leaves the contents as they are; surviving slots keep their items |
| `SlotGrid.ShrinkLosesLastSlot` | src/main/java/me/cristike/ghf/Gui.java:444-445 | shrinking contents of length `n` to `1 <= s < n` leaves `s - 1 < s` slots: off by one |
| `SlotGrid.BuildOfOversizedGuiIsShort` | src/main/java/me/cristike/ghf/Gui.java:120-124 | `build` on a GUI of more than 54 slots that is not a multiple of 9 sets the size to 54 but leaves 53 slots |
| `ActionTable.Has` | src/main/java/me/cristike/ghf/Gui.java:381-383 | when `hasAction` holds the slot is bound and `getAction` gives its binding; when it does not, `getAction` gives the no-op action |
| `ActionTable.Get` | src/main/java/me/cristike/ghf/Gui.java:388-400 | `getAction` is never absent: it is the slot's binding when there is one, and otherwise the no-op action |
| `ActionTable.Register` | src/main/java/me/cristike/ghf/Gui.java:350-353 | registering an in-range slot binds it to the action, overwriting any binding; an out-of-range slot leaves the table unchanged; other slots keep their `hasAction` and `getAction` |
| `ActionTable.RegisterAll` | src/main/java/me/cristike/ghf/Gui.java:358-361 | registering a list of slots never removes a binding |
| `ActionTable.RegisterAllBinds` | src/main/java/me/cristike/ghf/Gui.java:358-361 | registering a list binds exactly its members in `[0, size)` to the action, and every other slot keeps its binding and its `getAction` |
| `ActionTable.Unregister` | src/main/java/me/cristike/ghf/Gui.java:366-368 | after unregistering a slot, with no range check, `hasAction` is false and `getAction` is the no-op action; other slots keep their `hasAction` and `getAction` |
| `ActionTable.UnregisterAll` | src/main/java/me/cristike/ghf/Gui.java:373-376 | unregistering a list of slots only removes bindings and never changes a remaining one |
| `ActionTable.UnregisterAllClears` | src/main/java/me/cristike/ghf/Gui.java:373-376 | unregistering a list removes exactly the bindings of its members |
| `GuiCore.Gui.constructor` | src/main/java/me/cristike/ghf/Gui.java:90-100 | a new GUI has `size` empty slots in a fresh array, is not built, and has no actions, a no-op close action and changes disallowed |
| `GuiCore.Gui.WithContents` | src/main/java/me/cristike/ghf/Gui.java:105-115 | a new GUI holds the caller's array itself, whatever its length |
| `GuiCore.Gui.Build` | src/main/java/me/cristike/ghf/Gui.java:120-128 | a second build changes nothing; the first normalises the size, registers a fresh inventory of that size, title and contents under this GUI, and preserves the registry's coherence |
| `GuiCore.Gui.Update` | src/main/java/me/cristike/ghf/Gui.java:133-150 | an unbuilt GUI is built, with `build`'s effect on the size and the array (a fresh array when the size shrinks, the same one otherwise); a built one gets a fresh inventory of its current state, its old inventory's entry is removed, and the new one maps to it |
| `GuiCore.Gui.Clear` | src/main/java/me/cristike/ghf/Gui.java:225-227 | the contents become a fresh array of exactly `size` empty slots |
| `GuiCore.Gui.Set` | src/main/java/me/cristike/ghf/Gui.java:232-235 | a slot in `[0, size)` gets the item; an out-of-range slot is ignored; every other slot is unchanged |
| `GuiCore.Gui.SetSlots` | src/main/java/me/cristike/ghf/Gui.java:240-245 | exactly the listed slots in `[0, size)` get the item, and all others keep their value |
| `GuiCore.Gui.Fill` | src/main/java/me/cristike/ghf/Gui.java:250-253 | every slot in `[0, size)` gets the item |
| `GuiCore.Gui.FillExcept` | src/main/java/me/cristike/ghf/Gui.java:258-265 | slot `k` in `[0, size)` gets the item if and only if `k` is not an exception; excepted slots keep their value |
| `GuiCore.Gui.FillInRange` | src/main/java/me/cristike/ghf/Gui.java:271-277 | with both bounds in `[0, size)` exactly the slots `from..to` get the item; an out-of-range bound or `from > to` changes nothing |
| `GuiCore.Gui.FillLine` | src/main/java/me/cristike/ghf/Gui.java:282-288 | for `0 <= line < size` exactly the 9 slots of row `line` get the item; otherwise nothing changes |
| `GuiCore.Gui.FillLines` | src/main/java/me/cristike/ghf/Gui.java:293-296 | exactly the slots whose row is a listed line below `size` get the item |
| `GuiCore.Gui.FillLineInRange` | src/main/java/me/cristike/ghf/Gui.java:303-311 | with a valid line and columns `from`, `to` in `[0, 9)`, exactly columns `from..to` of that row get the item; otherwise nothing changes |
| `GuiCore.Gui.FillColumn` | src/main/java/me/cristike/ghf/Gui.java:316-322 | for a column in `[0, 9)`, exactly that column's slots in the `size / 9` whole rows get the item; otherwise nothing changes |
| `GuiCore.Gui.FillColumns` | src/main/java/me/cristike/ghf/Gui.java:327-330 | exactly the slots of the whole rows whose column is listed get the item |
| `GuiCore.Gui.FillColumnInRange` | src/main/java/me/cristike/ghf/Gui.java:337-345 | with a valid column and rows `from`, `to` in `[0, size / 9)`, exactly that column in rows `from..to` gets the item; otherwise nothing changes |
| `GuiCore.Gui.RegisterAction` | src/main/java/me/cristike/ghf/Gui.java:350-353 | the action table becomes `ActionTable.Register` of the old one, which binds only an in-range slot |
| `GuiCore.Gui.RegisterActions` | src/main/java/me/cristike/ghf/Gui.java:358-361 | the action table becomes `ActionTable.RegisterAll` of the old one, registering each slot in order |
| `GuiCore.Gui.UnregisterAction` | src/main/java/me/cristike/ghf/Gui.java:366-368 | the slot's binding is dropped, with no range check |
| `GuiCore.Gui.UnregisterActions` | src/main/java/me/cristike/ghf/Gui.java:373-376 | the action table becomes `ActionTable.UnregisterAll` of the old one |
| `GuiCore.Gui.HasAction` | src/main/java/me/cristike/ghf/Gui.java:381-383 | when `hasAction(slot)` holds the GUI's table binds the slot and `getAction(slot)` gives that binding; otherwise `getAction(slot)` is the no-op action |
| `GuiCore.Gui.GetAction` | src/main/java/me/cristike/ghf/Gui.java:388-400 | `getAction(slot)` is the slot's binding in the GUI's table when there is one, and otherwise the no-op action; it is never absent |
| `GuiCore.Gui.SetTitle` | src/main/java/me/cristike/ghf/Gui.java:429-431 | the title becomes the given one |
| `GuiCore.Gui.SetSize` | src/main/java/me/cristike/ghf/Gui.java:443-447 | the size becomes `s`; shrinking leaves a fresh array of the first `s - 1` slots, and growing keeps the same array |
| `GuiCore.Gui.ContentsCopy` | src/main/java/me/cristike/ghf/Gui.java:453-455 | the result is a fresh array with the same slots as the contents |
| `GuiCore.Gui.SetContents` | src/main/java/me/cristike/ghf/Gui.java:461-466 | reports true and adopts the caller's array if and only if its length is the size; otherwise reports false and keeps the contents |
| `GuiCore.Gui.SetCloseAction` | src/main/java/me/cristike/ghf/Gui.java:478-480 | the close action becomes the given one |
| `GuiCore.Gui.SetAllowChanges` | src/main/java/me/cristike/ghf/Gui.java:492-494 | the allow-changes flag becomes the given one |
| `GuiCore.CopyOfRangeArray` | src/main/java/me/cristike/ghf/Gui.java:445 | `Arrays.copyOfRange` on an array gives a fresh array whose slots are `SlotGrid.CopyOfRange` of the original |
| `GuiCore.Registry.constructor` | src/main/java/me/cristike/ghf/Gui.java:28 | the registry starts empty |
| `GuiCore.Registry.CoherentMeansOneEntryPerGui` | src/main/java/me/cristike/ghf/Gui.java:127 | in a coherent registry, two entries for the same GUI are the same entry |
| `GuiCore.Registry.Exists` | src/main/java/me/cristike/ghf/Gui.java:163-165 | true if and only if some registered GUI has the id |
| `GuiCore.Registry.GetGuiById` | src/main/java/me/cristike/ghf/Gui.java:171-177 | null if and only if no registered GUI has the id; otherwise some registered GUI with that id |
| `GuiCore.Registry.GetGui` | src/main/java/me/cristike/ghf/Gui.java:183-185 | non-null if and only if the inventory is registered, and then its GUI |
| `GuiCore.Registry.GetGuiInventory` | src/main/java/me/cristike/ghf/Gui.java:191-197 | null if and only if no registered GUI has the id; otherwise a registered inventory whose GUI has that id |
| `GuiCore.Registry.RemoveGuiById` | src/main/java/me/cristike/ghf/Gui.java:202-213 | without a matching GUI nothing changes; otherwise exactly one entry with that id is removed and the others stay |
| `GuiCore.Registry.RemoveGui` | src/main/java/me/cristike/ghf/Gui.java:218-220 | the entry of the inventory, if any, is removed, and nothing else changes |
| `Scenarios.ShopLifecycle` | src/main/java/me/cristike/ghf/Gui.java:120-165 | a GUI "shop" exists by id after `build` and no longer after `removeGui("shop")`, and along the way a second build adds nothing and `update` swaps its handle |

## Left out

- `GuiListeners.java` is not part of this model. It is the host event glue that looks up the GUI, sets ALLOW or DENY and calls the action. It depends entirely on host event objects.
- `GuiAction.java` is not part of this model beyond an action's identity. It is an abstract callback class with no logic. An action is an opaque value, and `NoOp` stands for the anonymous do-nothing actions.
- The one-time listener registration in both constructors is not modelled. It is a host plugin-manager side effect behind a static flag.
- `open(player)` is not modelled, because it only asks the host to show the inventory.
- The getters (`id()`, `inventory()`, `title()`, `size()`, `closeAction()`, `allowChanges()`) are plain reads of the fields.
- GuiCore.Gui.Update: the viewers are not modelled. Java closes the old inventory for them and reopens the new one.
- GuiCore.Gui.Build: the host's own checks in `createInventory` and `setContents` are not modelled. These are a size that is a positive multiple of 9 and contents no longer than the size. An inventory just records what it was made from.
- GuiCore.Gui.Update: the same host checks are not modelled when a built GUI makes its new inventory (Gui.java:140-141). Unlike `build`, `update` does not normalise the size first, so the host would reject a size set since the build that is not a multiple of 9.
- GuiCore.Registry.GetGuiById: the choice among several GUIs with the same id is left open. Java's answer depends on `HashMap` iteration order, which the source does not fix. The same applies to `GetGuiInventory` and `RemoveGuiById`.
- GuiCore.Registry.Exists: Java streams over the whole key set, while the model shares the search loop of `GetGuiInventory`. The answer is the same.
- Java's `int` is unbounded here. `line * 9`, `(line + 1) * 9` and `to * 9 + column` could overflow only for grids of over 238 million slots.
- GuiCore.Gui.Set: the call that Java would let throw is excluded by `requires`, not modelled as an exception. This applies to an in-range slot that is past the end of a short contents array.
- GuiCore.Gui.SetSlots: Java writes the slots before the first bad one and then throws. This is excluded by `requires`, not modelled as an exception.
- GuiCore.Gui.Fill: when the contents are shorter than `size`, Java writes up to their end and then throws. This is excluded by `requires`.
- GuiCore.Gui.FillExcept: Java throws at the first non-excepted slot past the contents. This is excluded by `requires`.
- GuiCore.Gui.FillInRange: Java throws when `to` is past the contents. This is excluded by `requires`.
- GuiCore.Gui.FillLine: for a line the guard admits (`0 <= line < size`), Java throws when `9*line + 8 >= contents.length`, after writing the row's slots that lie inside the array. This is excluded by `requires`, not modelled as an exception.
- GuiCore.Gui.FillLines: for each listed line the guard admits, Java throws when `9*line + 8 >= contents.length`, after writing that row's slots that lie inside the array and all the earlier lines. This is excluded by `requires`.
- GuiCore.Gui.FillLineInRange: for an admitted line and columns with `from <= to`, Java throws when `9*line + to >= contents.length`, after writing the slots of `from..to` that lie inside the array. This is excluded by `requires`.
- GuiCore.Gui.FillColumn: Java throws when `9*(size/9 - 1) + column >= contents.length`, after writing the column's slots that lie inside the array. This is excluded by `requires`.
- GuiCore.Gui.FillColumns: as for `FillColumn`, for each listed column.
- GuiCore.Gui.FillColumnInRange: as for `FillColumn`.
- GuiCore.Gui.SetSize: Java's `copyOfRange(..., 0, s - 1)` throws when shrinking to `s < 1`. This is excluded by `requires`.
- GuiCore.Gui.Clear: Java throws `NegativeArraySizeException` for a negative size. This is excluded by `requires`. The same applies to `GuiCore.Gui.constructor`.
