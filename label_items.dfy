/** The rows of the label picker: how a stored label, together with the
    selection the dialog was opened for, becomes a list item, and which ids a
    confirm collects from the items. */
module LabelItems {
  import opened Optional

  /** A label as the database stores it; the dialog only reads it. */
  datatype Label = Label(
    id: string,
    name: string,
    color: string,
    exclusive: bool,
    display: int,
    order: int)

  /** The view model of one row. `states` is 2 for an on/off checkbox and 3
      for a tri-state one whose third state is "leave as it is". */
  datatype LabelItem = LabelItem(
    labelId: string,
    name: string,
    color: string,
    display: int,
    order: int,
    states: int,
    isAttached: bool,
    isUnchanged: bool,
    numberOfSelectedMessages: int)

  /** What the dialog was opened for: the ids of the labels to show as
      checked, how many of the selected messages already carry each label
      (absent when the caller passed none), and the ids of the selected
      messages (absent when the caller passed none). */
  datatype Selection = Selection(
    checkedLabels: seq<string>,
    selectedCounts: Option<map<string, int>>,
    messageIds: Option<seq<string>>)

  /** The row for one label. A label that none or all of the selected
      messages carry (or any label when no messages were given) gets an
      on/off checkbox, checked when the caller listed it; any other count
      gets a tri-state checkbox that starts as "unchanged". */
  function FromLabel(lbl: Label, sel: Selection): (item: LabelItem)
    ensures item.labelId == lbl.id && item.name == lbl.name && item.color == lbl.color
    ensures item.display == lbl.display && item.order == lbl.order
    ensures item.numberOfSelectedMessages ==
      if sel.selectedCounts.Some? && lbl.id in sel.selectedCounts.value
      then sel.selectedCounts.value[lbl.id] else 0
    ensures item.states == 2 || item.states == 3
    ensures item.states == 2 <==>
      sel.messageIds.None? || item.numberOfSelectedMessages == 0
      || item.numberOfSelectedMessages == |sel.messageIds.value|
    ensures item.states == 2 ==> item.isAttached == (lbl.id in sel.checkedLabels) && !item.isUnchanged
    ensures item.states == 3 ==> item.isUnchanged && !item.isAttached
  {
    var count :=
      if sel.selectedCounts.Some? && lbl.id in sel.selectedCounts.value
      then sel.selectedCounts.value[lbl.id] else 0;
    var binary := sel.messageIds.None? || count == |sel.messageIds.value| || count == 0;
    LabelItem(
      labelId := lbl.id,
      name := lbl.name,
      color := lbl.color,
      display := lbl.display,
      order := lbl.order,
      states := if binary then 2 else 3,
      isAttached := binary && lbl.id in sel.checkedLabels,
      isUnchanged := !binary,
      numberOfSelectedMessages := count)
  }

  /** A label carried by some but not all of the selected messages is never
      coerced to fully on or fully off. */
  lemma PartialCountIsTriState(lbl: Label, sel: Selection)
    requires sel.messageIds.Some? && sel.selectedCounts.Some?
    requires lbl.id in sel.selectedCounts.value
    requires 0 < sel.selectedCounts.value[lbl.id] < |sel.messageIds.value|
    ensures FromLabel(lbl, sel).states == 3
    ensures FromLabel(lbl, sel).isUnchanged && !FromLabel(lbl, sel).isAttached
  {
  }

  /** The rows for a label list: the non-exclusive labels, in list order. */
  function VisibleItems(labels: seq<Label>, sel: Selection): (items: seq<LabelItem>)
    ensures |items| <= |labels|
  {
    if labels == [] then []
    else
      var last := labels[|labels| - 1];
      VisibleItems(labels[..|labels| - 1], sel) + (if last.exclusive then [] else [FromLabel(last, sel)])
  }

  /** Building rows distributes over concatenation, so the rows keep the
      order of the labels they come from. */
  lemma {:induction false} VisibleItemsAppend(a: seq<Label>, b: seq<Label>, sel: Selection)
    ensures VisibleItems(a + b, sel) == VisibleItems(a, sel) + VisibleItems(b, sel)
  {
    if b == [] {
      assert a + b == a;
    } else {
      var b' := b[..|b| - 1];
      assert (a + b)[..|a + b| - 1] == a + b';
      assert (a + b)[|a + b| - 1] == b[|b| - 1];
      VisibleItemsAppend(a, b', sel);
    }
  }

  /** Every non-exclusive label has its row. */
  lemma {:induction false} VisibleItemsComplete(labels: seq<Label>, sel: Selection)
    ensures forall k :: 0 <= k < |labels| && !labels[k].exclusive ==>
      FromLabel(labels[k], sel) in VisibleItems(labels, sel)
  {
    if labels != [] {
      var n := |labels| - 1;
      var init := labels[..n];
      VisibleItemsComplete(init, sel);
      forall k | 0 <= k < |labels| && !labels[k].exclusive
        ensures FromLabel(labels[k], sel) in VisibleItems(labels, sel)
      {
        if k < n {
          assert labels[k] == init[k];
          assert FromLabel(init[k], sel) in VisibleItems(init, sel);
        }
      }
    }
  }

  /** Every row is the row of a non-exclusive label. */
  lemma {:induction false} VisibleItemsSound(labels: seq<Label>, sel: Selection)
    ensures forall j :: 0 <= j < |VisibleItems(labels, sel)| ==>
      exists k :: 0 <= k < |labels| && !labels[k].exclusive && VisibleItems(labels, sel)[j] == FromLabel(labels[k], sel)
  {
    if labels == [] {
      assert VisibleItems(labels, sel) == [];
    } else {
      var n := |labels| - 1;
      var init := labels[..n];
      VisibleItemsSound(init, sel);
      var items := VisibleItems(labels, sel);
      var front := VisibleItems(init, sel);
      assert items[..|front|] == front;
      forall j | 0 <= j < |items|
        ensures exists k :: 0 <= k < |labels| && !labels[k].exclusive && items[j] == FromLabel(labels[k], sel)
      {
        if j < |front| {
          var k :| 0 <= k < |init| && !init[k].exclusive && front[j] == FromLabel(init[k], sel);
          assert items[j] == front[j];
          assert labels[k] == init[k];
        } else {
          assert items[j] == FromLabel(labels[n], sel);
        }
      }
    }
  }

  /** The list is empty exactly when every label is exclusive. */
  lemma {:induction false} VisibleItemsEmpty(labels: seq<Label>, sel: Selection)
    ensures VisibleItems(labels, sel) == [] <==> forall k :: 0 <= k < |labels| ==> labels[k].exclusive
  {
    if labels != [] {
      var n := |labels| - 1;
      var init := labels[..n];
      VisibleItemsEmpty(init, sel);
      if VisibleItems(labels, sel) == [] {
        assert VisibleItems(init, sel) == [] && labels[n].exclusive;
        forall k | 0 <= k < |labels|
          ensures labels[k].exclusive
        {
          if k < n {
            assert labels[k] == init[k];
          }
        }
      }
      if forall k :: 0 <= k < |labels| ==> labels[k].exclusive {
        assert forall k :: 0 <= k < n ==> init[k] == labels[k];
      }
    }
  }

  /** Which flag of a row a confirm collects. */
  datatype Flag = Attached | Unchanged

  predicate HasFlag(item: LabelItem, flag: Flag) {
    match flag
    case Attached => item.isAttached
    case Unchanged => item.isUnchanged
  }

  /** The ids of the rows carrying `flag`, in row order. */
  function IdsWith(items: seq<LabelItem>, flag: Flag): (ids: seq<string>)
    ensures |ids| <= |items|
  {
    if items == [] then []
    else
      var last := items[|items| - 1];
      IdsWith(items[..|items| - 1], flag) + (if HasFlag(last, flag) then [last.labelId] else [])
  }

  /** Collecting ids distributes over concatenation: the ids keep row order. */
  lemma {:induction false} IdsWithAppend(a: seq<LabelItem>, b: seq<LabelItem>, flag: Flag)
    ensures IdsWith(a + b, flag) == IdsWith(a, flag) + IdsWith(b, flag)
  {
    if b == [] {
      assert a + b == a;
    } else {
      var b' := b[..|b| - 1];
      assert (a + b)[..|a + b| - 1] == a + b';
      assert (a + b)[|a + b| - 1] == b[|b| - 1];
      IdsWithAppend(a, b', flag);
    }
  }

  /** An id is collected exactly when some row with that id carries the flag. */
  lemma {:induction false} IdsWithMembers(items: seq<LabelItem>, flag: Flag, id: string)
    ensures id in IdsWith(items, flag) <==>
      exists k :: 0 <= k < |items| && HasFlag(items[k], flag) && items[k].labelId == id
  {
    if items != [] {
      var n := |items| - 1;
      IdsWithMembers(items[..n], flag, id);
      if id in IdsWith(items[..n], flag) {
        var k :| 0 <= k < n && HasFlag(items[..n][k], flag) && items[..n][k].labelId == id;
        assert items[k] == items[..n][k];
      }
      if exists k :: 0 <= k < |items| && HasFlag(items[k], flag) && items[k].labelId == id {
        var k :| 0 <= k < |items| && HasFlag(items[k], flag) && items[k].labelId == id;
        if k < n {
          assert items[..n][k] == items[k];
        }
      }
    }
  }

  /** Right after the list is built, only labels the caller listed as checked
      are collected as attached. */
  lemma FreshAttachedWereChecked(labels: seq<Label>, sel: Selection, id: string)
    requires id in IdsWith(VisibleItems(labels, sel), Attached)
    ensures id in sel.checkedLabels
  {
    var items := VisibleItems(labels, sel);
    IdsWithMembers(items, Attached, id);
    var j :| 0 <= j < |items| && HasFlag(items[j], Attached) && items[j].labelId == id;
    VisibleItemsSound(labels, sel);
  }

  /** Right after the list is built, the unchanged ids are exactly those of
      the shown labels whose message count is partial. */
  lemma FreshUnchangedArePartial(labels: seq<Label>, sel: Selection, id: string)
    ensures id in IdsWith(VisibleItems(labels, sel), Unchanged) <==>
      exists k :: 0 <= k < |labels| && !labels[k].exclusive && labels[k].id == id
        && FromLabel(labels[k], sel).states == 3
  {
    var items := VisibleItems(labels, sel);
    IdsWithMembers(items, Unchanged, id);
    VisibleItemsComplete(labels, sel);
    VisibleItemsSound(labels, sel);
    if exists k :: 0 <= k < |labels| && !labels[k].exclusive && labels[k].id == id
        && FromLabel(labels[k], sel).states == 3 {
      var k :| 0 <= k < |labels| && !labels[k].exclusive && labels[k].id == id
        && FromLabel(labels[k], sel).states == 3;
      var j :| 0 <= j < |items| && items[j] == FromLabel(labels[k], sel);
      assert HasFlag(items[j], Unchanged);
    }
  }

  /** Right after the list is built, a shown label whose row is tri-state is
      never collected as attached, even when another label shares its id:
      the row's kind depends on the id alone. */
  lemma FreshPartialNotAttached(labels: seq<Label>, sel: Selection, k: nat)
    requires k < |labels| && !labels[k].exclusive && FromLabel(labels[k], sel).states == 3
    ensures labels[k].id !in IdsWith(VisibleItems(labels, sel), Attached)
  {
    var items := VisibleItems(labels, sel);
    IdsWithMembers(items, Attached, labels[k].id);
    VisibleItemsSound(labels, sel);
    forall j | 0 <= j < |items| && items[j].labelId == labels[k].id
      ensures !items[j].isAttached
    {
      var i :| 0 <= i < |labels| && !labels[i].exclusive && items[j] == FromLabel(labels[i], sel);
      assert labels[i].id == labels[k].id;
    }
  }

  /** One label that all three selected messages carry, listed as checked:
      an on/off row, attached. */
  lemma ExampleFullyLabelled()
    ensures var sel := Selection(["L1"], Some(map["L1" := 3]), Some(["m1", "m2", "m3"]));
      var items := VisibleItems([Label("L1", "Work", "#7272A7", false, 1, 0)], sel);
      |items| == 1 && items[0].states == 2 && items[0].isAttached
      && IdsWith(items, Attached) == ["L1"] && IdsWith(items, Unchanged) == []
  {
  }

  /** One label that one of three selected messages carries: a tri-state row
      that is collected as unchanged and not as attached. */
  lemma ExamplePartiallyLabelled()
    ensures var sel := Selection([], Some(map["L2" := 1]), Some(["m1", "m2", "m3"]));
      var items := VisibleItems([Label("L2", "Home", "#7272A7", false, 1, 0)], sel);
      |items| == 1 && items[0].states == 3 && items[0].isUnchanged && !items[0].isAttached
      && IdsWith(items, Attached) == [] && IdsWith(items, Unchanged) == ["L2"]
  {
  }
}
