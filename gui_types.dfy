/** Host-side types that the GUI core stores and hands around but never looks inside. */
module GuiTypes {

  datatype Option<+T> = None | Some(value: T)

  /** An item stack of the host; its internals are opaque here, only its identity matters. */
  datatype ItemStack = ItemStack(handle: nat)

  /** What one slot of a GUI holds: an item, or nothing (a null array element). */
  type Slot = Option<ItemStack>

  /**
   * A click/close callback. Its behaviour belongs to the caller, so it is only an identity here;
   * `NoOp` is the action whose two handlers do nothing.
   */
  datatype GuiAction = NoOp | Callback(handle: nat)

  /**
   * A host inventory: the presentation handle a player sees and the registry's key.
   * Creating one is a fresh allocation; it remembers the size, title and contents it was built with.
   */
  class Inventory {
    const size: int
    const title: string
    const contents: seq<Slot>

    constructor (size: int, title: string, contents: seq<Slot>)
      ensures this.size == size && this.title == title && this.contents == contents
    {
      this.size := size;
      this.title := title;
      this.contents := contents;
    }
  }
}
