/** The purchasable items and the per-row decisions `cellForRowAt` takes:
    which accessory controls a row gets, their tags, whether the purchase
    button is enabled and how wide the accessory stack is. */
module Cells {

  /** A purchasable item; the icon is not modelled. */
  datatype InAppData = InAppData(
    title: string,
    info: string,
    purchaseButtonTitle: string,
    isPurchasedDisable: bool)

  /** Frame widths and stack spacing of the accessory controls. */
  const InfoButtonWidth: nat := 24
  const PurchaseButtonWidth: nat := 95
  const AccessorySpacing: nat := 16

  /** A control of the accessory stack; `tag` is the row it was built for. */
  datatype Control =
    | InfoButton(tag: nat)
    | PurchaseControl(tag: nat, enabled: bool, normalTitle: string)

  /** A configured cell: its text, the arranged accessory controls (left to
      right) and the frame width given to the accessory stack. */
  datatype Cell = Cell(title: string, accessory: seq<Control>, accessoryWidth: nat)

  function ControlWidth(c: Control): nat
  {
    match c
    case InfoButton(_) => InfoButtonWidth
    case PurchaseControl(_, _, _) => PurchaseButtonWidth
  }

  /** Width a horizontal stack needs: the controls' widths plus one spacing
      between each pair of neighbours. */
  function StackWidth(cs: seq<Control>, spacing: nat): nat
  {
    if |cs| == 0 then 0
    else if |cs| == 1 then ControlWidth(cs[0])
    else ControlWidth(cs[0]) + spacing + StackWidth(cs[1..], spacing)
  }

  predicate HasInfoControl(c: Cell)
  {
    exists k :: 0 <= k < |c.accessory| && c.accessory[k].InfoButton?
  }

  predicate PurchaseEnabled(c: Cell)
  {
    exists k :: 0 <= k < |c.accessory| && c.accessory[k].PurchaseControl? && c.accessory[k].enabled
  }

  /** The cell the table shows for `row`. The table only asks for rows below
      its row count, which is the number of items. */
  function ConfigureCell(items: seq<InAppData>, row: nat): (c: Cell)
    requires row < |items|
    ensures c.title == items[row].title
    ensures HasInfoControl(c) <==> items[row].info != []
    ensures PurchaseEnabled(c) <==> !items[row].isPurchasedDisable
    ensures c.accessoryWidth == (if items[row].info == [] then 95 else 135)
    ensures forall k :: 0 <= k < |c.accessory| ==> c.accessory[k].tag == row
    // the purchase button comes last, after at most the info button
    ensures |c.accessory| > 0 && c.accessory[|c.accessory| - 1].PurchaseControl?
              && forall k :: 0 <= k < |c.accessory| - 1 ==> c.accessory[k].InfoButton?
  {
    var data := items[row];
    var info := if data.info != [] then [InfoButton(row)] else [];
    var purchase := PurchaseControl(row, !data.isPurchasedDisable, data.purchaseButtonTitle);
    var width :=
      if data.info == [] then PurchaseButtonWidth
      else InfoButtonWidth + AccessorySpacing + PurchaseButtonWidth;
    var c := Cell(data.title, info + [purchase], width);
    assert c.accessory[|c.accessory| - 1] == purchase;
    assert data.info != [] ==> c.accessory[0].InfoButton?;
    assert data.info == [] ==> c.accessory == [purchase];
    c
  }

  /** The width written into the accessory frame is exactly what its
      arranged controls need, with or without an info button. */
  lemma AccessoryWidthFitsControls(items: seq<InAppData>, row: nat)
    requires row < |items|
    ensures ConfigureCell(items, row).accessoryWidth
              == StackWidth(ConfigureCell(items, row).accessory, AccessorySpacing)
  {
  }

}
