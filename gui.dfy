/**
 * A GUI: a titled grid of slots in rows of 9, with per-slot click actions, a close action,
 * and a registry from live inventories back to the GUI that built them.
 *
 * Java's static `INVENTORIES` map is the `Registry` object passed to the operations that use it.
 * Operations that would throw in Java (an index past the contents array, a negative array size,
 * a bad `copyOfRange`) demand, in `requires`, exactly the inputs on which they do not throw.
 */
module GuiCore {
  import opened GuiTypes
  import opened SlotGrid
  import ActionTable

  class Gui {
    const id: string
    var inventory: Inventory?
    var title: string
    var size: int
    var contents: array<Slot>
    var actions: ActionTable.Table
    var closeAction: GuiAction
    var allowChanges: bool

    /** A GUI of `size` empty slots, not yet built. Java throws for a negative size. */
    constructor (id: string, title: string, size: int)
      requires 0 <= size
      ensures this.id == id && this.title == title && this.size == size
      ensures fresh(contents) && contents.Length == size
      ensures forall k :: 0 <= k < contents.Length ==> contents[k] == None
      ensures inventory == null && actions == map[] && closeAction == NoOp && !allowChanges
    {
      this.id := id;
      this.title := title;
      this.size := size;
      this.contents := new Slot[size](_ => None);
      inventory := null;
      actions := map[];
      closeAction := NoOp;
      allowChanges := false;
    }

    /** A GUI holding the caller's array itself, whatever its length; not yet built. */
    constructor WithContents(id: string, title: string, size: int, contents: array<Slot>)
      ensures this.id == id && this.title == title && this.size == size && this.contents == contents
      ensures inventory == null && actions == map[] && closeAction == NoOp && !allowChanges
    {
      this.id := id;
      this.title := title;
      this.size := size;
      this.contents := contents;
      inventory := null;
      actions := map[];
      closeAction := NoOp;
      allowChanges := false;
    }

    /**
     * `build()`: the first call normalises the size (through the size setter), makes a fresh
     * inventory from the size, title and contents, and registers it; later calls do nothing.
     */
    method Build(reg: Registry)
      modifies this, reg
      ensures old(inventory) != null ==> inventory == old(inventory) && size == old(size) && contents == old(contents)
      ensures old(inventory) != null ==> reg.inventories == old(reg.inventories)
      ensures old(inventory) == null ==> Built(reg, old(reg.inventories)) && fresh(inventory)
      ensures old(inventory) == null ==> size == BuildSize(old(size))
      ensures old(inventory) == null ==> contents[..] == ResizedAsWritten(old(contents[..]), old(size), size)
      ensures old(inventory) == null && size < old(size) ==> fresh(contents)
      ensures size >= old(size) ==> contents == old(contents)
      ensures title == old(title) && actions == old(actions) && closeAction == old(closeAction) && allowChanges == old(allowChanges)
      ensures old(reg.Coherent()) ==> reg.Coherent()
    {
      if inventory != null {
        return;
      }
      if size % Width != 0 {
        SetSize(DefaultSize);
      }
      inventory := new Inventory(size, title, contents[..]);
      reg.inventories := reg.inventories[inventory := this];
    }

    /**
     * The state right after this GUI put a fresh inventory, built from its current size, title
     * and contents, into the registry whose entries were `before`.
     */
    ghost predicate Built(reg: Registry, before: map<Inventory, Gui>)
      reads this, reg, contents
    {
      && inventory != null
      && inventory.size == size && inventory.title == title && inventory.contents == contents[..]
      && reg.inventories == before[inventory := this]
    }

    /**
     * `update()`: builds a GUI that is not built yet; otherwise replaces its inventory by a fresh
     * one made from the current size, title and contents, and swaps the registry entry.
     */
    method Update(reg: Registry)
      modifies this, reg
      ensures old(inventory) == null ==> Built(reg, old(reg.inventories)) && size == BuildSize(old(size))
      ensures old(inventory) == null ==> contents[..] == ResizedAsWritten(old(contents[..]), old(size), size)
      ensures old(inventory) == null && size < old(size) ==> fresh(contents)
      ensures size >= old(size) ==> contents == old(contents)
      ensures old(inventory) != null ==> size == old(size) && contents == old(contents)
      ensures old(inventory) != null ==> Built(reg, old(reg.inventories) - {old(inventory)})
      ensures fresh(inventory)
      ensures title == old(title) && actions == old(actions) && closeAction == old(closeAction) && allowChanges == old(allowChanges)
      ensures old(reg.Coherent()) ==> reg.Coherent()
    {
      if inventory == null {
        Build(reg);
        return;
      }
      var i := new Inventory(size, title, contents[..]);
      reg.inventories := reg.inventories - {inventory};
      inventory := i;
      reg.inventories := reg.inventories[inventory := this];
    }

    /** `clear()`: a fresh array of `size` empty slots. Java throws for a negative size. */
    method Clear()
      requires 0 <= size
      modifies this`contents
      ensures fresh(contents) && contents.Length == size
      ensures forall k :: 0 <= k < contents.Length ==> contents[k] == None
    {
      contents := new Slot[size](_ => None);
    }

    /** `set(item, slot)`: writes the slot if it is in `[0, size)`, else does nothing. */
    method Set(item: ItemStack, slot: int)
      requires 0 <= slot < size ==> slot < contents.Length
      modifies contents
      ensures forall k :: 0 <= k < contents.Length ==>
        contents[k] == if k == slot && k < size then Some(item) else old(contents[k])
    {
      if slot < 0 || slot >= size {
        return;
      }
      contents[slot] := Some(item);
    }

    /** `set(item, slots...)`: writes each listed slot in `[0, size)` and skips the others. */
    method SetSlots(item: ItemStack, slots: seq<int>)
      requires forall i :: 0 <= i < |slots| && 0 <= slots[i] < size ==> slots[i] < contents.Length
      modifies contents
      ensures forall k :: 0 <= k < contents.Length ==>
        contents[k] == if k in slots && 0 <= k < size then Some(item) else old(contents[k])
    {
      for i := 0 to |slots|
        invariant forall k :: 0 <= k < contents.Length ==>
          contents[k] == if k in slots[..i] && 0 <= k < size then Some(item) else old(contents[k])
      {
        var slot := slots[i];
        assert slots[..i + 1] == slots[..i] + [slot];
        if slot < 0 || slot >= size {
          continue;
        }
        contents[slot] := Some(item);
      }
      assert slots[..|slots|] == slots;
    }

    /** `fill(item)`: writes every slot in `[0, size)`. */
    method Fill(item: ItemStack)
      requires size <= contents.Length
      modifies contents
      ensures forall k :: 0 <= k < contents.Length ==>
        contents[k] == if k < size then Some(item) else old(contents[k])
    {
      var slot := 0;
      while slot < size
        invariant 0 <= slot && (slot <= size || slot == 0)
        invariant forall k :: 0 <= k < contents.Length ==>
          contents[k] == if k < slot then Some(item) else old(contents[k])
      {
        contents[slot] := Some(item);
        slot := slot + 1;
      }
    }

    /** `fillExcept(item, exceptions...)`: writes every slot in `[0, size)` that is not an exception. */
    method FillExcept(item: ItemStack, exceptions: seq<int>)
      requires forall k :: 0 <= k < size && k !in exceptions ==> k < contents.Length
      modifies contents
      ensures forall k :: 0 <= k < contents.Length ==>
        contents[k] == if k < size && k !in exceptions then Some(item) else old(contents[k])
    {
      var slot := 0;
      while slot < size
        invariant 0 <= slot && (slot <= size || slot == 0)
        invariant forall k :: 0 <= k < contents.Length ==>
          contents[k] == if k < slot && k !in exceptions then Some(item) else old(contents[k])
      {
        if slot !in exceptions {
          contents[slot] := Some(item);
        }
        slot := slot + 1;
      }
    }

    /**
     * `fillInRange(item, from, to)`: with both bounds in `[0, size)` writes the slots `from..to`
     * inclusive (none when `from > to`); with either bound outside, does nothing.
     */
    method FillInRange(item: ItemStack, from: int, to: int)
      requires 0 <= from < size && 0 <= to < size && from <= to ==> to < contents.Length
      modifies contents
      ensures forall k :: 0 <= k < contents.Length ==>
        contents[k] == if 0 <= from && to < size && from <= k <= to then Some(item) else old(contents[k])
    {
      if from < 0 || from >= size {
        return;
      }
      if to < 0 || to >= size {
        return;
      }
      var slot := from;
      while slot <= to
        invariant from <= slot && (slot <= to + 1 || slot == from)
        invariant forall k :: 0 <= k < contents.Length ==>
          contents[k] == if from <= k < slot then Some(item) else old(contents[k])
      {
        contents[slot] := Some(item);
        slot := slot + 1;
      }
    }

    /**
     * `fillLine(item, line)`: for `0 <= line < size` writes the 9 slots of row `line`.
     * The guard admits lines up to `size`, not `size / 9`; only lines whose row lies
     * inside the contents array can be passed (see `LineGuardAdmitsRowPastEnd`).
     */
    method FillLine(item: ItemStack, line: int)
      requires 0 <= line < size ==> Width * line + Width <= contents.Length
      modifies contents
      ensures forall k :: 0 <= k < contents.Length ==>
        contents[k] == if line < size && InRow(line, k) then Some(item) else old(contents[k])
    {
      if line < 0 || line >= size {
        return;
      }
      var from, to := line * Width, (line + 1) * Width - 1;
      var slot := from;
      while slot <= to
        invariant from <= slot <= to + 1
        invariant forall k :: 0 <= k < contents.Length ==>
          contents[k] == if from <= k < slot then Some(item) else old(contents[k])
      {
        contents[slot] := Some(item);
        slot := slot + 1;
      }
      forall k | 0 <= k < contents.Length
        ensures (from <= k < slot) <==> InRow(line, k)
      {
        RowSpan(line, 0, Width - 1, k);
      }
    }

    /** `fillLines(item, lines...)`: `fillLine` for each line in turn. */
    method FillLines(item: ItemStack, lines: seq<int>)
      requires forall i :: 0 <= i < |lines| && 0 <= lines[i] < size ==> Width * lines[i] + Width <= contents.Length
      modifies contents
      ensures forall k :: 0 <= k < contents.Length ==>
        contents[k] == if k / Width in lines && k / Width < size then Some(item) else old(contents[k])
    {
      for i := 0 to |lines|
        invariant forall k :: 0 <= k < contents.Length ==>
          contents[k] == if k / Width in lines[..i] && k / Width < size then Some(item) else old(contents[k])
      {
        assert lines[..i + 1] == lines[..i] + [lines[i]];
        FillLine(item, lines[i]);
      }
      assert lines[..|lines|] == lines;
    }

    /**
     * `fillLineInRange(item, line, from, to)`: for `0 <= line < size` and columns `from`, `to` in
     * `[0, 9)` writes columns `from..to` of row `line`; otherwise does nothing.
     * As in `FillLine`, only rows inside the contents array can be passed.
     */
    method FillLineInRange(item: ItemStack, line: int, from: int, to: int)
      requires 0 <= line < size && 0 <= from < Width && 0 <= to < Width && from <= to ==>
        Width * line + to < contents.Length
      modifies contents
      ensures forall k :: 0 <= k < contents.Length ==>
        contents[k] == if line < size && 0 <= from && to < Width && InRow(line, k) && from <= k % Width <= to
                       then Some(item) else old(contents[k])
    {
      if line < 0 || line >= size {
        return;
      }
      if from < 0 || from >= Width {
        return;
      }
      if to < 0 || to >= Width {
        return;
      }
      var fFrom, fTo := line * Width + from, line * Width + to;
      var slot := fFrom;
      while slot <= fTo
        invariant fFrom <= slot && (slot <= fTo + 1 || slot == fFrom)
        invariant forall k :: 0 <= k < contents.Length ==>
          contents[k] == if fFrom <= k < slot then Some(item) else old(contents[k])
      {
        contents[slot] := Some(item);
        slot := slot + 1;
      }
      forall k | 0 <= k < contents.Length
        ensures (fFrom <= k < slot) <==> (InRow(line, k) && from <= k % Width <= to)
      {
        RowSpan(line, from, to, k);
      }
    }

    /**
     * `fillColumn(item, column)`: for a column in `[0, 9)` writes that column in each of the
     * `size / 9` whole rows; otherwise does nothing.
     */
    method FillColumn(item: ItemStack, column: int)
      requires 0 <= column < Width && 0 < Rows(size) ==> Width * (Rows(size) - 1) + column < contents.Length
      modifies contents
      ensures forall k :: 0 <= k < contents.Length ==>
        contents[k] == if InColumn(column, k) && k / Width < Rows(size) then Some(item) else old(contents[k])
    {
      if column < 0 || column >= Width {
        return;
      }
      var to := (Rows(size) - 1) * Width + column;
      var slot := column;
      ghost var r := 0;
      while slot <= to
        invariant slot == Width * r + column
        invariant 0 <= r && (r <= Rows(size) || r == 0)
        invariant forall k :: 0 <= k < contents.Length ==>
          contents[k] == if InColumn(column, k) && k / Width < r then Some(item) else old(contents[k])
      {
        SlotAt(r, column);
        contents[slot] := Some(item);
        slot := slot + Width;
        r := r + 1;
      }
    }

    /** `fillColumns(item, columns...)`: `fillColumn` for each column in turn. */
    method FillColumns(item: ItemStack, columns: seq<int>)
      requires forall i :: 0 <= i < |columns| && 0 <= columns[i] < Width && 0 < Rows(size) ==>
        Width * (Rows(size) - 1) + columns[i] < contents.Length
      modifies contents
      ensures forall k :: 0 <= k < contents.Length ==>
        contents[k] == if k % Width in columns && k / Width < Rows(size) then Some(item) else old(contents[k])
    {
      for i := 0 to |columns|
        invariant forall k :: 0 <= k < contents.Length ==>
          contents[k] == if k % Width in columns[..i] && k / Width < Rows(size) then Some(item) else old(contents[k])
      {
        assert columns[..i + 1] == columns[..i] + [columns[i]];
        FillColumn(item, columns[i]);
      }
      assert columns[..|columns|] == columns;
    }

    /**
     * `fillColumnInRange(item, column, from, to)`: for a column in `[0, 9)` and rows `from`, `to`
     * in `[0, size / 9)` writes that column in rows `from..to`; otherwise does nothing.
     */
    method FillColumnInRange(item: ItemStack, column: int, from: int, to: int)
      requires 0 <= column < Width && 0 <= from < Rows(size) && 0 <= to < Rows(size) && from <= to ==>
        Width * to + column < contents.Length
      modifies contents
      ensures forall k :: 0 <= k < contents.Length ==>
        contents[k] == if InColumn(column, k) && 0 <= from && to < Rows(size) && from <= k / Width <= to
                       then Some(item) else old(contents[k])
    {
      if column < 0 || column >= Width {
        return;
      }
      if from < 0 || from >= Rows(size) {
        return;
      }
      if to < 0 || to >= Rows(size) {
        return;
      }
      var fFrom, fTo := from * Width + column, to * Width + column;
      var slot := fFrom;
      ghost var r := from;
      while slot <= fTo
        invariant slot == Width * r + column
        invariant from <= r && (r <= to + 1 || r == from)
        invariant forall k :: 0 <= k < contents.Length ==>
          contents[k] == if InColumn(column, k) && from <= k / Width < r then Some(item) else old(contents[k])
      {
        SlotAt(r, column);
        contents[slot] := Some(item);
        slot := slot + Width;
        r := r + 1;
      }
    }

    /** `registerAction(action, slot)`: binds an in-range slot; ignores an out-of-range one. */
    method RegisterAction(action: GuiAction, slot: int)
      modifies this`actions
      ensures actions == ActionTable.Register(old(actions), size, slot, action)
    {
      if slot < 0 || slot >= size {
        return;
      }
      actions := actions[slot := action];
    }

    /** `registerAction(action, slots...)`: `registerAction` for each slot in turn. */
    method RegisterActions(action: GuiAction, slots: seq<int>)
      modifies this`actions
      ensures actions == ActionTable.RegisterAll(old(actions), size, slots, action)
    {
      for i := 0 to |slots|
        invariant ActionTable.RegisterAll(actions, size, slots[i..], action)
               == ActionTable.RegisterAll(old(actions), size, slots, action)
      {
        assert slots[i..][1..] == slots[i + 1..];
        RegisterAction(action, slots[i]);
      }
    }

    /** `unregisterAction(slot)`: drops the slot's binding; no range check. */
    method UnregisterAction(slot: int)
      modifies this`actions
      ensures actions == ActionTable.Unregister(old(actions), slot)
    {
      actions := actions - {slot};
    }

    /** `unregisterAction(slots...)`: `unregisterAction` for each slot in turn. */
    method UnregisterActions(slots: seq<int>)
      modifies this`actions
      ensures actions == ActionTable.UnregisterAll(old(actions), slots)
    {
      for i := 0 to |slots|
        invariant ActionTable.UnregisterAll(actions, slots[i..]) == ActionTable.UnregisterAll(old(actions), slots)
      {
        assert slots[i..][1..] == slots[i + 1..];
        UnregisterAction(slots[i]);
      }
    }

    /**
     * `hasAction(slot)`: whether a click on the slot dispatches to a bound action; when it does not,
     * `getAction` answers the no-op action.
     */
    predicate HasAction(slot: int)
      reads this
      ensures HasAction(slot) ==> slot in actions && GetAction(slot) == actions[slot]
      ensures !HasAction(slot) ==> GetAction(slot) == NoOp
    {
      ActionTable.Has(actions, slot)
    }

    /** `getAction(slot)`: never absent; the bound action, or a no-op action when the slot has none. */
    function GetAction(slot: int): (a: GuiAction)
      reads this
      ensures a == NoOp || a in actions.Values
      ensures slot in actions ==> a == actions[slot]
    {
      ActionTable.Get(actions, slot)
    }

    /** `title(t)`. */
    method SetTitle(t: string)
      modifies this`title
      ensures title == t
    {
      title := t;
    }

    /**
     * `size(s)`, exactly as written: shrinking keeps a fresh copy of only the first `s - 1` slots
     * (see `ShrinkLosesLastSlot`); growing keeps the same array. Java throws when shrinking to
     * `s < 1`, where `copyOfRange(..., 0, s - 1)` gets an end before its start.
     */
    method SetSize(s: int)
      requires s < size ==> 1 <= s
      modifies this`size, this`contents
      ensures size == s
      ensures contents[..] == ResizedAsWritten(old(contents[..]), old(size), s)
      ensures s < old(size) ==> fresh(contents)
      ensures s >= old(size) ==> contents == old(contents)
    {
      if s < size {
        contents := CopyOfRangeArray(contents, 0, s - 1);
      }
      size := s;
    }

    /** `contents()`: a fresh copy of the contents array. */
    method ContentsCopy() returns (c: array<Slot>)
      ensures fresh(c) && c[..] == contents[..]
    {
      c := CopyOfRangeArray(contents, 0, contents.Length);
    }

    /**
     * `contents(c)`: adopts the caller's array itself when its length is the size and reports
     * true; otherwise reports false and keeps the current contents.
     */
    method SetContents(c: array<Slot>) returns (ok: bool)
      modifies this`contents
      ensures ok <==> c.Length == size
      ensures contents == if ok then c else old(contents)
    {
      if c.Length != size {
        return false;
      }
      contents := c;
      return true;
    }

    /** `closeAction(ga)`. */
    method SetCloseAction(ga: GuiAction)
      modifies this`closeAction
      ensures closeAction == ga
    {
      closeAction := ga;
    }

    /** `allowChanges(ac)`. */
    method SetAllowChanges(ac: bool)
      modifies this`allowChanges
      ensures allowChanges == ac
    {
      allowChanges := ac;
    }
  }

  /** `Arrays.copyOfRange` on an array: a fresh array holding `CopyOfRange(a[..], from, to)`. */
  method CopyOfRangeArray(a: array<Slot>, from: int, to: int) returns (r: array<Slot>)
    requires 0 <= from <= a.Length && from <= to
    ensures fresh(r) && r[..] == CopyOfRange(a[..], from, to)
  {
    r := new Slot[to - from](_ => None);
    forall i | 0 <= i < r.Length && from + i < a.Length {
      r[i] := a[from + i];
    }
  }

  /**
   * The process-wide map from each live inventory to the GUI that built it (Java's static
   * `INVENTORIES`), with its lookups and removals.
   */
  class Registry {
    var inventories: map<Inventory, Gui>

    constructor ()
      ensures inventories == map[]
    {
      inventories := map[];
    }

    /** Every entry is keyed by the current inventory of its GUI, so a GUI has at most one entry. */
    ghost predicate Coherent()
      reads this, inventories.Values
    {
      forall inv :: inv in inventories ==> inventories[inv].inventory == inv
    }

    /** Some registered GUI has this id. */
    ghost predicate Registered(id: string)
      reads this
    {
      exists inv :: inv in inventories && inventories[inv].id == id
    }

    /** In a coherent registry, building a GUI twice still leaves it with one entry. */
    lemma CoherentMeansOneEntryPerGui(a: Inventory, b: Inventory)
      requires Coherent() && a in inventories && b in inventories
      ensures inventories[a] == inventories[b] ==> a == b
    {
    }

    /** `exists(id)`: whether some registered GUI has this id. */
    method Exists(id: string) returns (b: bool)
      ensures b <==> Registered(id)
    {
      var inv := GetGuiInventory(id);
      b := inv != null;
    }

    /** `getGui(id)`: some registered GUI with this id, or null when there is none. */
    method GetGuiById(id: string) returns (g: Gui?)
      ensures g == null <==> !Registered(id)
      ensures g != null ==> g.id == id && exists inv :: inv in inventories && inventories[inv] == g
    {
      var inv := GetGuiInventory(id);
      g := if inv == null then null else inventories[inv];
    }

    /** `getGui(inventory)`: the GUI registered under this inventory, or null. */
    function GetGui(inv: Inventory): (g: Gui?)
      reads this
      ensures g != null <==> inv in inventories
      ensures g != null ==> inventories[inv] == g
    {
      if inv in inventories then inventories[inv] else null
    }

    /**
     * `getGuiInventory(id)`: the inventory of some registered GUI with this id, or null.
     * Which one, when several match, depends on the map's iteration order, so it is left open.
     */
    method GetGuiInventory(id: string) returns (inv: Inventory?)
      ensures inv == null <==> !Registered(id)
      ensures inv != null ==> inv in inventories && inventories[inv].id == id
    {
      var rest := inventories.Keys;
      while rest != {}
        invariant rest <= inventories.Keys
        invariant forall key :: key in inventories && key !in rest ==> inventories[key].id != id
        decreases rest
      {
        var key :| key in rest;
        if inventories[key].id == id {
          return key;
        }
        rest := rest - {key};
      }
      return null;
    }

    /** `removeGui(id)`: removes the entry of one registered GUI with this id, if there is one. */
    method RemoveGuiById(id: string)
      modifies this
      ensures !old(Registered(id)) ==> inventories == old(inventories)
      ensures old(Registered(id)) ==> exists inv :: inv in old(inventories) && old(inventories)[inv].id == id
                                                  && inventories == old(inventories) - {inv}
      ensures old(Coherent()) ==> Coherent()
    {
      var inv := GetGuiInventory(id);
      if inv != null {
        inventories := inventories - {inv};
      }
    }

    /** `removeGui(inventory)`: removes the entry of this inventory, if any. */
    method RemoveGui(inv: Inventory)
      modifies this
      ensures inventories == old(inventories) - {inv}
      ensures old(Coherent()) ==> Coherent()
    {
      inventories := inventories - {inv};
    }
  }
}
