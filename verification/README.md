# MRInAppPurchaseView: the purchase-button state machine

`MRInAppPurchaseView` is a table view controller that lists purchasable
items (`InAppData`). Each row carries a three-state purchase button
(`normal`, `confirmation`, `progress`) and, when the item has info text, an
info button. A first tap on a purchase button asks for confirmation. A second
tap starts the purchase and tells the delegate `inAppPurchaseButtonTapped`.
Selecting a row or scrolling puts every button that awaits confirmation back
to normal. The info button does the same reset, then shows an alert and calls
the optional `accessoryButtonTappedForRowWith` on the delegate.

This project models that controller without UIKit, as a value
`View(items, rows, log, delegate)`:

- `items` is the list given to `setInAppPurchases`.
- `rows` are the rows the table has rendered, indexed by the tag their
  buttons carry. Each row holds the cell `cellForRowAt` configured and the
  live state of its purchase button. This is the button subtree the reset
  walks with `subviewsRecursive()`.
- `log` lists the delegate callbacks in order.
- `delegate` is absent, or attached and perhaps implementing the optional
  accessory callback. It is a weak property: in `Traces` the host can
  replace it, or it can become absent, between any two events.

Every handler is a pure function from view to view. Indexing
`inAppPurchases[button.tag]` past the end of the list traps in Swift; the
model returns `Err(IndexOutOfRange)` there.

Modules:

- `Results` holds the result type.
- `PurchaseButton` holds the three button states.
- `Cells` holds the items and the per-row cell configuration.
- `InAppPurchaseView` holds the view and its handlers.
- `Traces` runs sequences of events and states what holds over every run.

Behaviour of the code worth noting:

- The reset touches only buttons in `confirmation` (line 150). A button in
  `progress` stays in progress after scrolling or row selection.
  `ResetAll` states this.
- Nothing ensures that at most one row is in a non-normal state. A purchase-button
  tap does not reset the other rows, so two rows can await confirmation
  together. `Traces.TwoRowsConfirm` proves this.
- `setInAppPurchases` does not reload the table. The rendered rows keep
  their cells and button states, and a later tap can index the new list with
  an old tag.
- `delegate?.inAppPurchaseButtonTapped(inAppPurchase: inAppPurchases[button.tag])`
  is optional chaining. With no delegate, the argument is never evaluated, so
  there is no trap. The info handler indexes the list unconditionally
  (line 162), so it traps with or without a delegate.

## Model

| member | source | states |
|---|---|---|
| `Cells.ConfigureCell` | Sources/MRInAppPurchaseView/MRInAppPurchaseView.swift:91-126 | a row has an info control iff its item's info is non-empty; the purchase button is enabled iff `isPurchasedDisable` is false; every accessory control is tagged with the row; the purchase button comes last; accessory width is 95 without info and 135 with it |
| `Cells.AccessoryWidthFitsControls` | Sources/MRInAppPurchaseView/MRInAppPurchaseView.swift:78-126 | the frame width chosen in the second `info.isEmpty` branch equals the width the arranged controls need (24 + 16 spacing + 95, or 95 alone) |
| `InAppPurchaseView.SetInAppPurchases` | Sources/MRInAppPurchaseView/MRInAppPurchaseView.swift:46-48 | the item list is replaced wholesale by the argument; the row count becomes its length; rendered rows, callbacks and delegate are unchanged |
| `InAppPurchaseView.Display` | Sources/MRInAppPurchaseView/MRInAppPurchaseView.swift:68-117 | the loaded table has as many rows as the data source reports for section 0, which is one per item, each with a fresh purchase button in `normal` and a cell whose title, info control and enabled flag follow that item |
| `InAppPurchaseView.ResetAll` | Sources/MRInAppPurchaseView/MRInAppPurchaseView.swift:146-155 | every `confirmation` button becomes `normal`; `normal` and `progress` buttons and all cells are untouched; afterwards no button is in `confirmation` |
| `InAppPurchaseView.SetNormalStateToPurchaseButtons` | Sources/MRInAppPurchaseView/MRInAppPurchaseView.swift:146-155 | the one-button-at-a-time walk over the subviews computes exactly `ResetAll` |
| `InAppPurchaseView.ResetAllIdempotent` | Sources/MRInAppPurchaseView/MRInAppPurchaseView.swift:146-155 | resetting twice equals resetting once; a reset leaves the table unchanged iff no button awaits confirmation |
| `InAppPurchaseView.ResetAllKeepsProgressCount` | Sources/MRInAppPurchaseView/MRInAppPurchaseView.swift:150-152 | the reset leaves the number of purchases in progress unchanged |
| `InAppPurchaseView.Reset` | Sources/MRInAppPurchaseView/MRInAppPurchaseView.swift:146-155 | the reset of the whole view, stated row by row: every `confirmation` button becomes `normal`; every other button keeps its state, so `progress` survives; afterwards no button is in `confirmation`; cells, items, callbacks and delegate are kept |
| `InAppPurchaseView.DidSelectRow` | Sources/MRInAppPurchaseView/MRInAppPurchaseView.swift:134-136 | selecting any row has the reset's effect: every `confirmation` button becomes `normal`; every other button keeps its state, so `progress` survives; afterwards no button is in `confirmation`; cells, items, callbacks and delegate are kept |
| `InAppPurchaseView.DidScroll` | Sources/MRInAppPurchaseView/MRInAppPurchaseView.swift:140-142 | scrolling has the reset's effect: every `confirmation` button becomes `normal`; every other button keeps its state, so `progress` survives; afterwards no button is in `confirmation`; cells, items, callbacks and delegate are kept |
| `InAppPurchaseView.PurchaseButtonTapped` | Sources/MRInAppPurchaseView/MRInAppPurchaseView.swift:167-179 | `normal` becomes `confirmation` with no callback; `confirmation` becomes `progress` and appends exactly one `PurchaseTapped(items[tag])` when a delegate is set; `progress` is a no-op; no other row changes; it traps iff a confirmed tap has a delegate to call and the tag is past the end of the list |
| `InAppPurchaseView.InfoButtonTapped` | Sources/MRInAppPurchaseView/MRInAppPurchaseView.swift:159-165 | it first resets all rows, then appends `AccessoryTapped(items[tag])` iff the delegate implements it, never a purchase callback; it traps iff the tag is past the end of the list |
| `Traces.StepEvolves` | Sources/MRInAppPurchaseView/MRInAppPurchaseView.swift:134-179 | no single event removes a row, changes a cell, takes a button out of `progress` or rewrites past callbacks; each new purchase callback is matched by a button entering `progress` |
| `Traces.RunEvolves` | Sources/MRInAppPurchaseView/MRInAppPurchaseView.swift:134-179 | the same holds over any sequence of events |
| `Traces.PurchasesBoundedByButtons` | Sources/MRInAppPurchaseView/MRInAppPurchaseView.swift:167-178 | over any run, the delegate hears at most one purchase per button that was not already in progress |
| `Traces.DisplayedPurchasesBounded` | Sources/MRInAppPurchaseView/MRInAppPurchaseView.swift:104-106 | from the table as first displayed, the delegate hears at most as many purchases as there are items |
| `Traces.TapTwicePurchasesOnce` | Sources/MRInAppPurchaseView/MRInAppPurchaseView.swift:168-173 | two taps on an enabled normal button, with a delegate set, end in `progress` and notify the delegate exactly once with that row's item |
| `Traces.TwoRowsConfirm` | Sources/MRInAppPurchaseView/MRInAppPurchaseView.swift:168-170 | tapping any two distinct enabled normal rows leaves both in `confirmation` at once |
| `Traces.SelectAndScrollReset` | Sources/MRInAppPurchaseView/MRInAppPurchaseView.swift:134-155 | as events, selection and scrolling have the same effect, and the rows become exactly `ResetAll` of the rows; no button awaits confirmation afterwards; `progress` buttons and the callback log are untouched |

## Left out

- The alert shown by the info handler (`showAlert`) is not recorded. Only
  the reset and the delegate callback are modelled.
- `Cells.ConfigureCell`: the purchase button's normal title is kept as
  given; `uppercased()` and the localised confirmation title are Unicode and
  bundle library calls outside the model.
- UIKit rendering: table setup in `viewDidLoad`, colours, image styling,
  frames other than the integer accessory widths, and cell dequeueing and
  reuse.
- Row, header and footer heights: floating-point layout constants.
- Animation flags of `setButtonState`.
- The external `PurchaseButton` package beyond its three states. A freshly
  created button is taken to start in `normal`. The `@unknown default` branch
  cannot arise with three states.
- The `deinit` debug print.
- Touch delivery: a tap on a disabled purchase button or on a row without an
  info button never reaches the handlers. `Traces.Step` treats it as leaving
  the view unchanged.
- `InAppPurchaseView.Display` renders every row. UIKit only creates cells
  for the visible rows, and scrolling is disabled (line 40), so rows below
  the frame may never get a purchase button. The bounds proved from
  `Display` still hold for that smaller set of rows.
- Re-rendering of rows by the table after load is not an event of `Traces`.
  The source never asks the table to reload.
