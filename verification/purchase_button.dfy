/** The three visual states of the external purchase button, and the two
    ways the view moves a single button between them. */
module PurchaseButton {

  datatype ButtonState = Normal | Confirmation | Progress

  /** The state a tap moves a button to (a progress button ignores taps). */
  function Advanced(s: ButtonState): ButtonState
  {
    match s
    case Normal => Confirmation
    case Confirmation => Progress
    case Progress => Progress
  }

  /** The state "reset all" leaves a button in: only a button awaiting
      confirmation goes back to normal; a purchase in progress is kept. */
  function Relaxed(s: ButtonState): ButtonState
  {
    if s == Confirmation then Normal else s
  }

}
