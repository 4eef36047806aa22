/** What a caller of the GUI core can conclude from the contracts alone. */
module Scenarios {
  import opened GuiTypes
  import opened SlotGrid
  import opened GuiCore

  /**
   * A "shop" GUI of 54 slots: building it registers it under its id, building it again adds no
   * entry, updating it moves its entry to a fresh inventory, filling its second row writes slots
   * 9..17 only, and removing it by id unregisters it.
   */
  method ShopLifecycle(item: ItemStack) returns (existedAfterBuild: bool, existsAfterRemove: bool)
    ensures existedAfterBuild && !existsAfterRemove
  {
    var reg := new Registry();
    var shop := new Gui("shop", "Shop", 54);
    assert BuildSize(54) == 54;
    shop.Build(reg);
    var first := shop.inventory;
    assert reg.inventories == map[first := shop];
    existedAfterBuild := reg.Exists("shop");
    assert reg.inventories[first].id == "shop";

    shop.Build(reg);
    assert shop.inventory == first && reg.inventories == map[first := shop];

    shop.Update(reg);
    assert shop.inventory != first;
    assert reg.GetGui(first) == null && reg.GetGui(shop.inventory) == shop;

    shop.FillLine(item, 1);
    SecondRowOfFiftyFour(9);
    SecondRowOfFiftyFour(17);
    SecondRowOfFiftyFour(18);
    assert shop.contents[9] == Some(item) && shop.contents[17] == Some(item) && shop.contents[18] == None;

    reg.RemoveGuiById("shop");
    assert reg.inventories == map[];
    existsAfterRemove := reg.Exists("shop");
  }
}
