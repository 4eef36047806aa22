/**
 * The per-slot click actions of a GUI, as a finite map from slot to action read with a
 * default: a slot without a binding answers with the no-op action, never with nothing.
 */
module ActionTable {
  import opened GuiTypes

  type Table = map<int, GuiAction>

  /** `hasAction(slot)`: whether `getAction` answers a binding rather than the no-op fallback. */
  predicate Has(t: Table, slot: int)
    ensures Has(t, slot) ==> slot in t && Get(t, slot) == t[slot]
    ensures !Has(t, slot) ==> Get(t, slot) == NoOp
  {
    slot in t
  }

  /** `getAction(slot)`: never absent; the bound action, or a no-op action when there is none. */
  function Get(t: Table, slot: int): (a: GuiAction)
    ensures a == NoOp || a in t.Values
    ensures slot in t ==> a == t[slot]
  {
    if slot in t then t[slot] else NoOp
  }

  /**
   * `registerAction(action, slot)`: an in-range slot becomes bound to the action, overwriting any
   * binding; an out-of-range slot leaves the table as it was; every other slot keeps its binding.
   */
  function Register(t: Table, size: int, slot: int, action: GuiAction): (r: Table)
    ensures 0 <= slot < size ==> Has(r, slot) && Get(r, slot) == action
    ensures !(0 <= slot < size) ==> r == t
    ensures forall s :: s != slot ==> (Has(r, s) <==> Has(t, s)) && Get(r, s) == Get(t, s)
  {
    if 0 <= slot < size then t[slot := action] else t
  }

  /** `registerAction(action, slots...)`: registers each slot in turn, so it never drops a binding. */
  function RegisterAll(t: Table, size: int, slots: seq<int>, action: GuiAction): (r: Table)
    ensures t.Keys <= r.Keys
    decreases |slots|
  {
    if slots == [] then t else RegisterAll(Register(t, size, slots[0], action), size, slots[1..], action)
  }

  /**
   * `unregisterAction(slot)`: the slot loses its binding, whatever the slot is, and `getAction`
   * falls back to the no-op for it; every other slot keeps its binding.
   */
  function Unregister(t: Table, slot: int): (r: Table)
    ensures !Has(r, slot) && Get(r, slot) == NoOp
    ensures forall s :: s != slot ==> (Has(r, s) <==> Has(t, s)) && Get(r, s) == Get(t, s)
  {
    t - {slot}
  }

  /** `unregisterAction(slots...)`: unregisters each slot in turn, so it only ever removes bindings. */
  function UnregisterAll(t: Table, slots: seq<int>): (r: Table)
    ensures r.Keys <= t.Keys
    ensures forall s :: s in r ==> r[s] == t[s]
    decreases |slots|
  {
    if slots == [] then t else UnregisterAll(Unregister(t, slots[0]), slots[1..])
  }

  /**
   * Registering a list of slots binds exactly its in-range members to the action and leaves the
   * binding of every other slot as it was.
   */
  lemma {:induction false} RegisterAllBinds(t: Table, size: int, slots: seq<int>, action: GuiAction, s: int)
    ensures Has(RegisterAll(t, size, slots, action), s) <==> Has(t, s) || (s in slots && 0 <= s < size)
    ensures Get(RegisterAll(t, size, slots, action), s) == if s in slots && 0 <= s < size then action else Get(t, s)
    decreases |slots|
  {
    if slots != [] {
      RegisterAllBinds(Register(t, size, slots[0], action), size, slots[1..], action, s);
      assert s in slots <==> s == slots[0] || s in slots[1..];
    }
  }

  /** Unregistering a list of slots removes exactly the bindings of its members. */
  lemma {:induction false} UnregisterAllClears(t: Table, slots: seq<int>)
    ensures UnregisterAll(t, slots) == t - set s | s in slots
    decreases |slots|
  {
    if slots != [] {
      UnregisterAllClears(Unregister(t, slots[0]), slots[1..]);
      assert (set s | s in slots) == {slots[0]} + set s | s in slots[1..];
    }
  }
}
