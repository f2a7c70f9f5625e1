/** The label picker dialog: its state across user events, and what each
    event makes it report to its host. Widgets are reduced to the values the
    dialog reads from them (the typed name, the "also archive" box, the
    clicked colour) and every effect on the outside world is appended to an
    event log. */
module ManageLabels {
  import opened Optional
  import opened LabelColor
  import opened LabelItems

  /** The transient notices the dialog shows instead of acting. */
  datatype Notice = ChooseColor | NameEmpty | NameDuplicate | MaxLabelsSelected(max: int)

  /** What the dialog does to the outside world, in order. */
  datatype Event =
    | LabelsChecked(checked: seq<string>, unchangedIds: Option<seq<string>>, messageIds: Option<seq<string>>)
    | LabelsCheckedAndArchived(
        checked: seq<string>, unchangedIds: Option<seq<string>>,
        messageIds: Option<seq<string>>, messagesToArchive: Option<seq<string>>)
    | LabelsDeleted(checked: seq<string>)
    | LabelCreated(name: string, color: string)
    | Shown(notice: Notice)
    | Dismissed
      /** Delete mode with no creation listener: the call on the missing
          listener throws. The model logs the failure and does not dismiss. */
    | DeleteWithoutListener

  /** The arguments the dialog is created with. `checkedLabels` is None when
      that key is absent from the arguments. */
  datatype Arguments = Arguments(
    checkedLabels: Option<seq<string>>,
    numberSelected: Option<map<string, int>>,
    messageIds: Option<seq<string>>,
    showCheckboxes: bool)

  /** Why a new label name is refused, if it is: it is empty, or it equals
      (case-sensitively) the name of a row already shown. */
  function NameRejection(name: string, items: seq<LabelItem>): (r: Option<Notice>)
    ensures r == None <==> name != "" && forall k :: 0 <= k < |items| ==> items[k].name != name
    ensures r == Some(NameEmpty) <==> name == ""
    ensures r.Some? ==> r == Some(NameEmpty) || r == Some(NameDuplicate)
  {
    if name == "" then Some(NameEmpty)
    else if exists k :: 0 <= k < |items| && items[k].name == name then Some(NameDuplicate)
    else None
  }

  class ManageLabelsDialog {
    /** Fixed when the dialog is created. */
    const selection: Selection
    const showCheckboxes: bool
    const hasChangeListener: bool
    const hasCreationListener: bool
    const colorOptions: seq<Int32>

    /** The rows currently shown. */
    var labels: seq<LabelItem>
    /** The text of the new-label name field. */
    var labelName: string
    var creationMode: bool
    /** The colour index picked at random on entering creation mode, -1 when none. */
    var currentSelection: int
    /** The colour of the label being created, "" while none is chosen. */
    var selectedNewLabelColor: string
    var doneClickable: bool
    /** Everything the dialog has done to the outside world, oldest first. */
    var events: seq<Event>

    ghost predicate Valid()
      reads this
    {
      |colorOptions| > 0
      && -1 <= currentSelection < |colorOptions|
      && (selectedNewLabelColor == "" || IsColorString(selectedNewLabelColor))
    }

    /** In creation mode a colour has always been chosen: entering the mode
        picks one whenever no random pick is pending, and a chosen colour is
        never cleared. The "choose a colour" notice on confirm therefore never
        shows. This is kept apart from Valid() and stated as preserved by
        every event, so that the colour test in OnDoneClicked stays a branch
        the verifier examines. */
    ghost predicate ColorChosenWhenCreating()
      reads this
    {
      (creationMode ==> currentSelection != -1)
      && (currentSelection != -1 ==> selectedNewLabelColor != "")
    }

    /** The ids a confirm reports as checked. */
    ghost function Checked(): seq<string>
      reads this
    {
      IdsWith(labels, Attached)
    }

    /** The unchanged ids a confirm reports: absent when no message ids were given. */
    ghost function UnchangedArgument(): Option<seq<string>>
      reads this
    {
      if selection.messageIds.None? then None else Some(IdsWith(labels, Unchanged))
    }

    /** Attaching to the host and reading the arguments. Without the
        checked-labels key the dialog has no checked labels, no counts and
        no message ids. */
    constructor (args: Arguments, hasChangeListener: bool, hasCreationListener: bool, colorOptions: seq<Int32>)
      requires |colorOptions| > 0
      ensures Valid() && ColorChosenWhenCreating()
      ensures selection ==
        if args.checkedLabels.Some?
        then Selection(args.checkedLabels.value, args.numberSelected, args.messageIds)
        else Selection([], None, None)
      ensures showCheckboxes == args.showCheckboxes
      ensures this.hasChangeListener == hasChangeListener && this.hasCreationListener == hasCreationListener
      ensures this.colorOptions == colorOptions
      ensures labels == [] && labelName == "" && !creationMode && currentSelection == -1
      ensures selectedNewLabelColor == "" && doneClickable && events == []
    {
      if args.checkedLabels.Some? {
        selection := Selection(args.checkedLabels.value, args.numberSelected, args.messageIds);
      } else {
        selection := Selection([], None, None);
      }
      showCheckboxes := args.showCheckboxes;
      this.hasChangeListener := hasChangeListener;
      this.hasCreationListener := hasCreationListener;
      this.colorOptions := colorOptions;
      labels := [];
      labelName := "";
      creationMode := false;
      currentSelection := -1;
      selectedNewLabelColor := "";
      doneClickable := true;
      events := [];
    }

    /** A new label list from the database (None for a null list): the rows
        are rebuilt from scratch, and confirming is disabled while there are
        none. */
    method OnLabelsChanged(emitted: Option<seq<Label>>)
      requires Valid()
      modifies this`labels, this`doneClickable
      ensures Valid()
      ensures labels == VisibleItems(if emitted.Some? then emitted.value else [], selection)
      ensures doneClickable == (labels != [])
    {
      var source := if emitted.Some? then emitted.value else [];
      var items := [];
      var i := 0;
      while i < |source|
        invariant 0 <= i <= |source|
        invariant items == VisibleItems(source[..i], selection)
      {
        assert source[..i + 1][..i] == source[..i];
        if !source[i].exclusive {
          items := items + [FromLabel(source[i], selection)];
        }
        i := i + 1;
      }
      assert source[..i] == source;
      labels := items;
      doneClickable := |items| != 0;
    }

    /** The ids of the attached rows, in row order. */
    method GetCheckedLabels() returns (ids: seq<string>)
      ensures ids == IdsWith(labels, Attached)
    {
      ids := [];
      var i := 0;
      while i < |labels|
        invariant 0 <= i <= |labels|
        invariant ids == IdsWith(labels[..i], Attached)
      {
        assert labels[..i + 1][..i] == labels[..i];
        if labels[i].isAttached {
          ids := ids + [labels[i].labelId];
        }
        i := i + 1;
      }
      assert labels[..i] == labels;
    }

    /** The ids of the rows left as they are, in row order. */
    method GetUnchangedLabels() returns (ids: seq<string>)
      ensures ids == IdsWith(labels, Unchanged)
    {
      ids := [];
      var i := 0;
      while i < |labels|
        invariant 0 <= i <= |labels|
        invariant ids == IdsWith(labels[..i], Unchanged)
      {
        assert labels[..i + 1][..i] == labels[..i];
        if labels[i].isUnchanged {
          ids := ids + [labels[i].labelId];
        }
        i := i + 1;
      }
      assert labels[..i] == labels;
    }

    /** The duplicate-name scan of a save. */
    method HasLabelNamed(name: string) returns (found: bool)
      ensures found <==> exists k :: 0 <= k < |labels| && labels[k].name == name
    {
      var i := 0;
      while i < |labels|
        invariant 0 <= i <= |labels|
        invariant forall k :: 0 <= k < i ==> labels[k].name != name
      {
        if labels[i].name == name {
          return true;
        }
        i := i + 1;
      }
      return false;
    }

    /** The text watcher, after the name field changed to `text`.
        `randomIndex` is the colour index the random generator would draw. */
    method OnTextChanged(text: string, randomIndex: nat)
      requires Valid() && randomIndex < |colorOptions|
      modifies this`labelName, this`creationMode, this`currentSelection,
        this`selectedNewLabelColor, this`doneClickable
      ensures Valid()
      ensures old(ColorChosenWhenCreating()) ==> ColorChosenWhenCreating()
      ensures labelName == text && doneClickable
      ensures text == "" ==>
        !creationMode && currentSelection == -1 && selectedNewLabelColor == old(selectedNewLabelColor)
      ensures text != "" ==> creationMode
      ensures text != "" && old(creationMode) ==>
        currentSelection == old(currentSelection) && selectedNewLabelColor == old(selectedNewLabelColor)
      ensures text != "" && !old(creationMode) && old(currentSelection) == -1 ==>
        currentSelection == randomIndex && selectedNewLabelColor == FormatColor(colorOptions[randomIndex])
      ensures text != "" && !old(creationMode) && old(currentSelection) != -1 ==>
        currentSelection == old(currentSelection) && selectedNewLabelColor == old(selectedNewLabelColor)
    {
      labelName := text;
      if text == "" {
        creationMode := false;
        currentSelection := -1;
      } else if !creationMode {
        creationMode := true;
        RandomCheck(randomIndex);
      }
      doneClickable := true;
    }

    /** Picks the colour at `randomIndex`, unless a random pick is already in force. */
    method RandomCheck(randomIndex: nat)
      requires Valid() && randomIndex < |colorOptions|
      modifies this`currentSelection, this`selectedNewLabelColor
      ensures Valid()
      ensures old(currentSelection) == -1 ==>
        currentSelection == randomIndex && selectedNewLabelColor == FormatColor(colorOptions[randomIndex])
      ensures old(currentSelection) != -1 ==>
        currentSelection == old(currentSelection) && selectedNewLabelColor == old(selectedNewLabelColor)
    {
      if currentSelection == -1 {
        currentSelection := randomIndex;
        selectedNewLabelColor := FormatColor(colorOptions[currentSelection]);
      }
    }

    /** A click on the colour at `position` of the colour grid. The random
        pick index is left as it was. */
    method OnItemClick(position: nat)
      requires Valid() && position < |colorOptions|
      modifies this`selectedNewLabelColor
      ensures Valid()
      ensures old(ColorChosenWhenCreating()) ==> ColorChosenWhenCreating()
      ensures selectedNewLabelColor == FormatColor(colorOptions[position])
    {
      selectedNewLabelColor := FormatColor(colorOptions[position]);
    }

    /** Saving the typed name as a new label with the chosen colour. */
    method OnSaveClicked()
      requires Valid()
      modifies this`labelName, this`creationMode, this`currentSelection,
        this`selectedNewLabelColor, this`doneClickable, this`events
      ensures Valid()
      ensures old(ColorChosenWhenCreating()) ==> ColorChosenWhenCreating()
      ensures selectedNewLabelColor == old(selectedNewLabelColor)
      ensures var rejection := NameRejection(old(labelName), labels);
        rejection.Some? ==>
          events == old(events) + [Shown(rejection.value)]
          && labelName == old(labelName) && creationMode == old(creationMode)
          && currentSelection == old(currentSelection) && doneClickable == old(doneClickable)
      ensures NameRejection(old(labelName), labels).None? ==>
        events == old(events) + (if hasCreationListener then [LabelCreated(old(labelName), selectedNewLabelColor)] else [])
        && labelName == "" && !creationMode && currentSelection == -1 && doneClickable
    {
      var name := labelName;
      if name == "" {
        events := events + [Shown(NameEmpty)];
        return;
      }
      var duplicate := HasLabelNamed(name);
      if duplicate {
        events := events + [Shown(NameDuplicate)];
        return;
      }
      // Clearing the field runs the text watcher at once; no colour is drawn
      // for an empty text, so the random index passed is immaterial.
      OnTextChanged("", 0);
      if hasCreationListener {
        events := events + [LabelCreated(name, selectedNewLabelColor)];
      }
    }

    /** The confirm button. In creation mode it saves the new label (once a
        colour is chosen); otherwise it reports the selection, provided no
        more than `maxLabelsAllowed` labels are attached, and closes.
        `alsoArchive` is the state of the "also archive" box. */
    method OnDoneClicked(maxLabelsAllowed: int, alsoArchive: bool)
      requires Valid()
      modifies this`labelName, this`creationMode, this`currentSelection,
        this`selectedNewLabelColor, this`doneClickable, this`events
      ensures Valid()
      ensures old(ColorChosenWhenCreating()) ==> ColorChosenWhenCreating()
      ensures selectedNewLabelColor == old(selectedNewLabelColor)
      // normal mode
      ensures !old(creationMode) ==>
        labelName == old(labelName) && !creationMode && currentSelection == old(currentSelection)
        && doneClickable == old(doneClickable)
      ensures !old(creationMode) && |Checked()| > maxLabelsAllowed ==>
        events == old(events) + [Shown(MaxLabelsSelected(maxLabelsAllowed))]
      ensures !old(creationMode) && |Checked()| <= maxLabelsAllowed ==>
        events == old(events) +
          if showCheckboxes then
            (if !hasChangeListener then []
             else if alsoArchive
             then [LabelsCheckedAndArchived(Checked(), UnchangedArgument(), selection.messageIds, selection.messageIds)]
             else [LabelsChecked(Checked(), UnchangedArgument(), selection.messageIds)])
            + [Dismissed]
          else if hasCreationListener then [LabelsDeleted(Checked()), Dismissed]
          else [DeleteWithoutListener]
      ensures !old(creationMode) ==>
        (Dismissed in events[|old(events)|..] <==>
          |Checked()| <= maxLabelsAllowed && (showCheckboxes || hasCreationListener))
      // creation mode
      ensures old(creationMode) && old(selectedNewLabelColor) == "" ==>
        events == old(events) + [Shown(ChooseColor)]
        && labelName == old(labelName) && creationMode && currentSelection == old(currentSelection)
        && doneClickable == old(doneClickable)
      ensures old(creationMode) && old(selectedNewLabelColor) != "" ==> !creationMode
      ensures var rejection := NameRejection(old(labelName), labels);
        old(creationMode) && old(selectedNewLabelColor) != "" && rejection.Some? ==>
          events == old(events) + [Shown(rejection.value)]
          && labelName == old(labelName) && currentSelection == old(currentSelection)
          && doneClickable == old(doneClickable)
      ensures old(creationMode) && old(selectedNewLabelColor) != "" && NameRejection(old(labelName), labels).None? ==>
        events == old(events) + (if hasCreationListener then [LabelCreated(old(labelName), selectedNewLabelColor)] else [])
        && labelName == "" && currentSelection == -1 && doneClickable
      // the "choose a colour" notice is unreachable from a reachable state
      ensures old(ColorChosenWhenCreating()) ==> Shown(ChooseColor) !in events[|old(events)|..]
    {
      if creationMode {
        if selectedNewLabelColor == "" {
          events := events + [Shown(ChooseColor)];
        } else {
          creationMode := false;
          OnSaveClicked();
        }
      } else {
        var checkedLabelIds := GetCheckedLabels();
        if |checkedLabelIds| > maxLabelsAllowed {
          events := events + [Shown(MaxLabelsSelected(maxLabelsAllowed))];
          return;
        }
        if showCheckboxes && hasChangeListener {
          var checked := GetCheckedLabels();
          var unchangedIds := None;
          if selection.messageIds.Some? {
            var ids := GetUnchangedLabels();
            unchangedIds := Some(ids);
          }
          if alsoArchive {
            events := events + [LabelsCheckedAndArchived(checked, unchangedIds, selection.messageIds, selection.messageIds)];
          } else {
            events := events + [LabelsChecked(checked, unchangedIds, selection.messageIds)];
          }
        } else if !showCheckboxes {
          if !hasCreationListener {
            events := events + [DeleteWithoutListener];
            return;
          }
          var checked := GetCheckedLabels();
          events := events + [LabelsDeleted(checked)];
        }
        events := events + [Dismissed];
      }
    }

    /** The close button: the dialog goes away and reports nothing. */
    method OnCloseClicked()
      modifies this`events
      ensures events == old(events) + [Dismissed]
    {
      events := events + [Dismissed];
    }
  }

  /** The dialog of the worked example below, after the database delivered
      label L1: one on/off row, attached. */
  method OpenFullyLabelled(messageIds: seq<string>) returns (dialog: ManageLabelsDialog)
    requires |messageIds| == 3
    ensures fresh(dialog) && dialog.Valid()
    ensures dialog.showCheckboxes && dialog.hasChangeListener
    ensures dialog.selection.messageIds == Some(messageIds)
    ensures dialog.Checked() == ["L1"] && dialog.UnchangedArgument() == Some([])
    ensures !dialog.creationMode && dialog.events == []
  {
    var sel := Selection(["L1"], Some(map["L1" := 3]), Some(messageIds));
    var l1 := Label("L1", "Work", "#7272A7", false, 1, 0);
    dialog := new ManageLabelsDialog(Arguments(Some(["L1"]), Some(map["L1" := 3]), Some(messageIds), true), true, true, [-0x8D8D59]);
    assert dialog.selection == sel;
    var row := FromLabel(l1, sel);
    assert row.states == 2 && row.isAttached && !row.isUnchanged;
    assert VisibleItems([l1], sel) == VisibleItems([], sel) + [row];
    dialog.OnLabelsChanged(Some([l1]));
    assert dialog.labels == [row];
    assert IdsWith([row], Attached) == IdsWith([], Attached) + ["L1"];
    assert IdsWith([row], Unchanged) == IdsWith([], Unchanged);
  }

  /** The worked example of an apply: label L1, listed as checked and carried
      by all three selected messages, confirmed without "also archive",
      reports `onLabelsChecked(["L1"], [], messageIds)` and closes. */
  method ExampleApplyFullyLabelled() returns (log: seq<Event>)
    ensures log == [LabelsChecked(["L1"], Some([]), Some(["m1", "m2", "m3"])), Dismissed]
  {
    var dialog := OpenFullyLabelled(["m1", "m2", "m3"]);
    dialog.OnDoneClicked(10, false);
    log := dialog.events;
  }
}
