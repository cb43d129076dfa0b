/** The list view controller as a value: the items it lists, the rows the
    table has rendered (each row's configured cell and the live state of its
    purchase button, indexed by the row tag the buttons carry), the
    callbacks its delegate has received so far, and which delegate is set.
    Every event handler is a pure function from view to view. */
module InAppPurchaseView {

  import opened Results
  import opened PurchaseButton
  import opened Cells

  /** A call the view makes on its delegate. */
  datatype Callback =
    | PurchaseTapped(item: InAppData)
    | AccessoryTapped(item: InAppData)

  /** The delegate is weak and optional; the accessory callback is an
      optional protocol method it may or may not implement. */
  datatype Delegate = NoDelegate | Attached(handlesAccessory: bool)

  /** A rendered row: the cell `cellForRowAt` configured and the state of
      the purchase button in it. */
  datatype Row = Row(cell: Cell, state: ButtonState)

  datatype View = View(
    items: seq<InAppData>,
    rows: seq<Row>,
    log: seq<Callback>,
    delegate: Delegate)

  /** `inAppPurchases[button.tag]` with a tag past the end of the list. */
  datatype Fault = IndexOutOfRange(index: nat, count: nat)

  // ---------------------------------------------------------------------
  // Table data source

  function NumberOfSections(v: View): nat
  {
    1
  }

  function NumberOfRowsInSection(v: View, section: int): nat
  {
    |v.items|
  }

  /** Replaces the item list wholesale. The table is not reloaded, so the
      rendered rows keep the cells and button states they had. */
  function SetInAppPurchases(v: View, items: seq<InAppData>): (w: View)
    ensures w.items == items
    ensures w.rows == v.rows && w.log == v.log && w.delegate == v.delegate
    ensures NumberOfSections(w) == 1
    ensures forall section :: NumberOfRowsInSection(w, section) == |items|
  {
    v.(items := items)
  }

  /** The table as it shows after loading: one row per item, each built by
      `ConfigureCell`, each holding a freshly created purchase button, which
      starts in the normal state. */
  function Display(v: View): (w: View)
    ensures w.items == v.items && w.log == v.log && w.delegate == v.delegate
    ensures |w.rows| == NumberOfRowsInSection(v, 0)
    ensures forall j :: 0 <= j < |w.rows| ==> w.rows[j].state == Normal
    ensures forall j :: 0 <= j < |w.rows| ==>
              w.rows[j].cell.title == v.items[j].title
              && (HasInfoControl(w.rows[j].cell) <==> v.items[j].info != [])
              && (PurchaseEnabled(w.rows[j].cell) <==> !v.items[j].isPurchasedDisable)
  {
    v.(rows := seq(|v.items|, j requires 0 <= j < |v.items| => Row(ConfigureCell(v.items, j), Normal)))
  }

  // ---------------------------------------------------------------------
  // Reset all

  predicate NoneConfirming(rows: seq<Row>)
  {
    forall j :: 0 <= j < |rows| ==> rows[j].state != Confirmation
  }

  /** Every purchase button of the table after the reset walk: a button
      awaiting confirmation goes back to normal, every other button, and
      every cell, is left as it was. */
  function ResetAll(rows: seq<Row>): (r: seq<Row>)
    ensures |r| == |rows|
    ensures forall j :: 0 <= j < |rows| ==> r[j].cell == rows[j].cell
    ensures forall j :: 0 <= j < |rows| ==>
              (rows[j].state == Confirmation ==> r[j].state == Normal)
              && (rows[j].state != Confirmation ==> r[j].state == rows[j].state)
    ensures NoneConfirming(r)
  {
    if rows == [] then []
    else [rows[0].(state := Relaxed(rows[0].state))] + ResetAll(rows[1..])
  }

  /** The reset as the loop over the table's subviews performs it, one
      button at a time. */
  method SetNormalStateToPurchaseButtons(rows: seq<Row>) returns (r: seq<Row>)
    ensures r == ResetAll(rows)
  {
    r := rows;
    var k := 0;
    while k < |r|
      invariant 0 <= k <= |r| == |rows|
      invariant forall j :: 0 <= j < k ==> r[j] == rows[j].(state := Relaxed(rows[j].state))
      invariant forall j :: k <= j < |r| ==> r[j] == rows[j]
    {
      if r[k].state == Confirmation {
        r := r[k := r[k].(state := Normal)];
      }
      k := k + 1;
    }
  }

  /** Resetting twice is resetting once, and the reset changes a table
      exactly when some button awaits confirmation. */
  lemma ResetAllIdempotent(rows: seq<Row>)
    ensures ResetAll(ResetAll(rows)) == ResetAll(rows)
    ensures ResetAll(rows) == rows <==> NoneConfirming(rows)
  {
  }

  /** What "reset all" does to a view, row by row: a button awaiting
      confirmation goes back to normal, every other button (a purchase in
      progress included) and every cell are kept, and so are the items,
      the callbacks and the delegate. */
  ghost predicate ResetEffect(v: View, w: View)
  {
    && w.items == v.items && w.log == v.log && w.delegate == v.delegate
    && |w.rows| == |v.rows|
    && (forall j :: 0 <= j < |v.rows| ==> w.rows[j].cell == v.rows[j].cell)
    && (forall j :: 0 <= j < |v.rows| && v.rows[j].state == Confirmation ==>
          w.rows[j].state == Normal)
    && (forall j :: 0 <= j < |v.rows| && v.rows[j].state != Confirmation ==>
          w.rows[j].state == v.rows[j].state)
    && NoneConfirming(w.rows)
  }

  /** The effect of both row selection and scrolling. */
  function Reset(v: View): (w: View)
    ensures ResetEffect(v, w)
  {
    v.(rows := ResetAll(v.rows))
  }

  /** Selecting any row resets all buttons. */
  function DidSelectRow(v: View, row: nat): (w: View)
    ensures ResetEffect(v, w)
  {
    Reset(v)
  }

  /** Scrolling resets all buttons. */
  function DidScroll(v: View): (w: View)
    ensures ResetEffect(v, w)
  {
    Reset(v)
  }

  // ---------------------------------------------------------------------
  // Button actions

  /** `rows` with the purchase button of row `tag` set to `s`. */
  function WithState(rows: seq<Row>, tag: nat, s: ButtonState): (r: seq<Row>)
    requires tag < |rows|
  {
    rows[tag := rows[tag].(state := s)]
  }

  /** Only the purchase button of row `tag` may have changed. */
  predicate OthersUnchanged(v: View, w: View, tag: nat)
  {
    && w.items == v.items
    && w.delegate == v.delegate
    && |w.rows| == |v.rows|
    && (forall j :: 0 <= j < |v.rows| ==> w.rows[j].cell == v.rows[j].cell)
    && (forall j :: 0 <= j < |v.rows| && j != tag ==> w.rows[j] == v.rows[j])
  }

  /** A tap on the purchase button of row `tag`. With no delegate set the
      item is never looked up, so a tag past the end of the list only traps
      when there is a delegate to call. */
  function PurchaseButtonTapped(v: View, tag: nat): (r: Result<View, Fault>)
    requires tag < |v.rows|
    ensures r.Err? <==>
              v.rows[tag].state == Confirmation && v.delegate.Attached? && tag >= |v.items|
    ensures r.Ok? ==> OthersUnchanged(v, r.value, tag)
    ensures v.rows[tag].state == Normal ==>
              r.Ok? && r.value.rows[tag].state == Confirmation && r.value.log == v.log
    ensures v.rows[tag].state == Confirmation && r.Ok? ==>
              && r.value.rows[tag].state == Progress
              && (v.delegate.NoDelegate? ==> r.value.log == v.log)
              && (v.delegate.Attached? ==> r.value.log == v.log + [PurchaseTapped(v.items[tag])])
    ensures v.rows[tag].state == Progress ==> r == Ok(v)
  {
    var s := v.rows[tag].state;
    match s
    case Normal =>
      Ok(v.(rows := WithState(v.rows, tag, Advanced(s))))
    case Confirmation =>
      var advanced := v.(rows := WithState(v.rows, tag, Advanced(s)));
      if v.delegate.NoDelegate? then Ok(advanced)
      else if tag < |v.items| then Ok(advanced.(log := v.log + [PurchaseTapped(v.items[tag])]))
      else Err(IndexOutOfRange(tag, |v.items|))
    case Progress =>
      Ok(v)
  }

  /** A tap on the info button of row `tag`: reset all, look the item up
      (trapping past the end of the list), then tell the delegate if it
      implements the optional accessory callback. */
  function InfoButtonTapped(v: View, tag: nat): (r: Result<View, Fault>)
    ensures r.Err? <==> tag >= |v.items|
    ensures r.Ok? ==>
              && r.value.items == v.items
              && r.value.delegate == v.delegate
              && r.value.rows == ResetAll(v.rows)
    ensures r.Ok? && v.delegate == Attached(true) ==>
              r.value.log == v.log + [AccessoryTapped(v.items[tag])]
    ensures r.Ok? && v.delegate != Attached(true) ==> r.value.log == v.log
  {
    var reset := Reset(v);
    if tag >= |v.items| then Err(IndexOutOfRange(tag, |v.items|))
    else
      var data := v.items[tag];
      match v.delegate
      case Attached(true) => Ok(reset.(log := reset.log + [AccessoryTapped(data)]))
      case _ => Ok(reset)
  }

  // ---------------------------------------------------------------------
  // Counting

  /** Number of purchase buttons in the progress state. */
  function ProgressCount(rows: seq<Row>): (n: nat)
    ensures n <= |rows|
  {
    if rows == [] then 0
    else (if rows[0].state == Progress then 1 else 0) + ProgressCount(rows[1..])
  }

  /** Number of purchase callbacks in a callback log. */
  function PurchaseCount(log: seq<Callback>): (n: nat)
    ensures n <= |log|
  {
    if log == [] then 0
    else (if log[0].PurchaseTapped? then 1 else 0) + PurchaseCount(log[1..])
  }

  lemma {:induction false} PurchaseCountAppend(a: seq<Callback>, b: seq<Callback>)
    ensures PurchaseCount(a + b) == PurchaseCount(a) + PurchaseCount(b)
  {
    if a != [] {
      assert (a + b)[1..] == a[1..] + b;
      PurchaseCountAppend(a[1..], b);
    } else {
      assert a + b == b;
    }
  }

  lemma {:induction false} ProgressCountUpdate(rows: seq<Row>, tag: nat, x: Row)
    requires tag < |rows|
    ensures ProgressCount(rows[tag := x]) + (if rows[tag].state == Progress then 1 else 0)
              == ProgressCount(rows) + (if x.state == Progress then 1 else 0)
  {
    if tag > 0 {
      assert rows[tag := x][1..] == rows[1..][tag - 1 := x];
      ProgressCountUpdate(rows[1..], tag - 1, x);
    } else {
      assert rows[tag := x][1..] == rows[1..];
    }
  }

  lemma {:induction false} AllNormalNoProgress(rows: seq<Row>)
    requires forall j :: 0 <= j < |rows| ==> rows[j].state == Normal
    ensures ProgressCount(rows) == 0
  {
    if rows != [] {
      AllNormalNoProgress(rows[1..]);
    }
  }

  /** The reset never touches a purchase in progress. */
  lemma {:induction false} ResetAllKeepsProgressCount(rows: seq<Row>)
    ensures ProgressCount(ResetAll(rows)) == ProgressCount(rows)
  {
    if rows != [] {
      assert ResetAll(rows)[1..] == ResetAll(rows[1..]);
      ResetAllKeepsProgressCount(rows[1..]);
    }
  }

}
