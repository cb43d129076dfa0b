/** The view driven by a sequence of user and host events, and what holds
    over every such sequence. */
module Traces {

  import opened Results
  import opened PurchaseButton
  import opened Cells
  import opened InAppPurchaseView

  /** What can happen between two handler calls: the user's taps, selection
      and scrolling, and the host replacing the item list or the delegate
      (the delegate is weak, so it also becomes absent when released). */
  datatype Event =
    | SetPurchases(items: seq<InAppData>)
    | TapPurchase(tag: nat)
    | TapInfo(tag: nat)
    | SelectRow(row: nat)
    | Scroll
    | SetDelegate(delegate: Delegate)

  /** One event. A tap reaches its action only when the tapped control
      exists and is enabled: a disabled purchase button, or a row rendered
      without an info button, delivers no touch and the view is unchanged. */
  function Step(v: View, e: Event): Result<View, Fault>
  {
    match e
    case SetPurchases(items) => Ok(SetInAppPurchases(v, items))
    case TapPurchase(tag) =>
      if tag < |v.rows| && PurchaseEnabled(v.rows[tag].cell) then PurchaseButtonTapped(v, tag)
      else Ok(v)
    case TapInfo(tag) =>
      if tag < |v.rows| && HasInfoControl(v.rows[tag].cell) then InfoButtonTapped(v, tag)
      else Ok(v)
    case SelectRow(row) => Ok(DidSelectRow(v, row))
    case Scroll => Ok(DidScroll(v))
    case SetDelegate(d) => Ok(v.(delegate := d))
  }

  /** The events in order; a trap ends the run. */
  function Run(v: View, es: seq<Event>): Result<View, Fault>
    decreases |es|
  {
    if es == [] then Ok(v)
    else
      match Step(v, es[0])
      case Err(f) => Err(f)
      case Ok(w) => Run(w, es[1..])
  }

  /** What no event can undo: the rendered rows stay the same rows, a
      purchase in progress stays in progress, callbacks are only ever
      appended, and a new purchase callback is paid for by a button that
      has just entered progress. */
  ghost predicate Evolves(v: View, w: View)
  {
    && |w.rows| == |v.rows|
    && (forall j :: 0 <= j < |v.rows| ==> w.rows[j].cell == v.rows[j].cell)
    && (forall j :: 0 <= j < |v.rows| && v.rows[j].state == Progress ==> w.rows[j].state == Progress)
    && v.log <= w.log
    && PurchaseCount(w.log) + ProgressCount(v.rows) <= PurchaseCount(v.log) + ProgressCount(w.rows)
  }

  lemma StepEvolves(v: View, e: Event)
    ensures Step(v, e).Ok? ==> Evolves(v, Step(v, e).value)
  {
    match e
    case TapPurchase(tag) =>
      if tag < |v.rows| && PurchaseEnabled(v.rows[tag].cell) {
        var r := PurchaseButtonTapped(v, tag);
        if r.Ok? && r.value != v {
          var w := r.value;
          assert w.rows == v.rows[tag := w.rows[tag]];
          ProgressCountUpdate(v.rows, tag, w.rows[tag]);
          PurchaseCountAppend(v.log, w.log[|v.log|..]);
          assert w.log == v.log + w.log[|v.log|..];
        }
      }
    case TapInfo(tag) =>
      if tag < |v.rows| && HasInfoControl(v.rows[tag].cell) {
        var r := InfoButtonTapped(v, tag);
        if r.Ok? {
          var w := r.value;
          ResetAllKeepsProgressCount(v.rows);
          PurchaseCountAppend(v.log, w.log[|v.log|..]);
          assert w.log == v.log + w.log[|v.log|..];
        }
      }
    case SelectRow(_) =>
      ResetAllKeepsProgressCount(v.rows);
    case Scroll =>
      ResetAllKeepsProgressCount(v.rows);
    case SetPurchases(_) =>
    case SetDelegate(_) =>
  }

  lemma {:induction false} RunEvolves(v: View, es: seq<Event>)
    ensures Run(v, es).Ok? ==> Evolves(v, Run(v, es).value)
    decreases |es|
  {
    if es != [] {
      StepEvolves(v, es[0]);
      var s := Step(v, es[0]);
      if s.Ok? {
        RunEvolves(s.value, es[1..]);
        var w := Run(s.value, es[1..]);
        if w.Ok? {
          assert w.value.log[..|v.log|] == w.value.log[..|s.value.log|][..|v.log|];
        }
      }
    }
  }

  /** Over any run, the delegate hears at most one purchase per button that
      was not already in progress: a button can fire the purchase once. */
  lemma PurchasesBoundedByButtons(v: View, es: seq<Event>)
    ensures Run(v, es).Ok? ==>
              PurchaseCount(Run(v, es).value.log)
                <= PurchaseCount(v.log) + |v.rows| - ProgressCount(v.rows)
  {
    RunEvolves(v, es);
  }

  /** Starting from the table as first displayed, every run tells the
      delegate of at most as many purchases as there are rows. */
  lemma DisplayedPurchasesBounded(v: View, es: seq<Event>)
    ensures Run(Display(v), es).Ok? ==>
              PurchaseCount(Run(Display(v), es).value.log) <= PurchaseCount(v.log) + |v.items|
  {
    AllNormalNoProgress(Display(v).rows);
    PurchasesBoundedByButtons(Display(v), es);
  }

  /** Tapping an enabled button twice from normal confirms and then
      purchases: it ends in progress and the delegate hears exactly one
      purchase of that row's item. */
  lemma TapTwicePurchasesOnce(v: View, tag: nat)
    requires tag < |v.rows| && tag < |v.items|
    requires v.rows[tag].state == Normal && PurchaseEnabled(v.rows[tag].cell)
    requires v.delegate.Attached?
    ensures Run(v, [TapPurchase(tag), TapPurchase(tag)]).Ok?
    ensures |Run(v, [TapPurchase(tag), TapPurchase(tag)]).value.rows| == |v.rows|
    ensures Run(v, [TapPurchase(tag), TapPurchase(tag)]).value.rows[tag].state == Progress
    ensures Run(v, [TapPurchase(tag), TapPurchase(tag)]).value.log
              == v.log + [PurchaseTapped(v.items[tag])]
  {
    var es := [TapPurchase(tag), TapPurchase(tag)];
    var w1 := PurchaseButtonTapped(v, tag).value;
    assert Step(v, es[0]) == Ok(w1);
    assert es[1..] == [TapPurchase(tag)];
    assert Step(w1, TapPurchase(tag)) == PurchaseButtonTapped(w1, tag);
    assert Run(w1, [TapPurchase(tag)]) == PurchaseButtonTapped(w1, tag);
  }

  /** Nothing keeps two rows from awaiting confirmation together: a tap on
      a purchase button does not reset the other rows. */
  lemma TwoRowsConfirm(v: View, i: nat, j: nat)
    requires i < |v.rows| && j < |v.rows| && i != j
    requires v.rows[i].state == Normal && PurchaseEnabled(v.rows[i].cell)
    requires v.rows[j].state == Normal && PurchaseEnabled(v.rows[j].cell)
    ensures Run(v, [TapPurchase(i), TapPurchase(j)]).Ok?
    ensures |Run(v, [TapPurchase(i), TapPurchase(j)]).value.rows| == |v.rows|
    ensures Run(v, [TapPurchase(i), TapPurchase(j)]).value.rows[i].state == Confirmation
    ensures Run(v, [TapPurchase(i), TapPurchase(j)]).value.rows[j].state == Confirmation
  {
    var w1 := PurchaseButtonTapped(v, i).value;
    assert [TapPurchase(i), TapPurchase(j)][1..] == [TapPurchase(j)];
    assert Run(w1, [TapPurchase(j)]) == PurchaseButtonTapped(w1, j);
  }

  /** Selecting a row and scrolling have the same effect: afterwards no
      button awaits confirmation, and progress buttons and the callback log
      are untouched. */
  lemma SelectAndScrollReset(v: View, row: nat)
    ensures Step(v, SelectRow(row)) == Step(v, Scroll)
    ensures Step(v, Scroll).Ok? && Step(v, Scroll).value.rows == ResetAll(v.rows)
    ensures Step(v, Scroll).Ok? && NoneConfirming(Step(v, Scroll).value.rows)
    ensures Step(v, Scroll).value.log == v.log
    ensures forall j :: 0 <= j < |v.rows| && v.rows[j].state == Progress ==>
              Step(v, Scroll).value.rows[j].state == Progress
  {
  }

}
