# Label picker dialog of the ProtonMail Android client

This project models the state and selection rules of `ManageLabelsDialogFragment`, the dialog where a user applies labels to the selected messages, creates a new label, or (in manage mode) picks labels to delete. The model leaves out the widgets. What remains is a small state machine over plain data:

- **Building the rows** (`LabelItems.FromLabel`, `LabelItems.VisibleItems`, `ManageLabelsDialog.OnLabelsChanged`). Every database emission rebuilds the row list from the non-exclusive labels, in input order.
  - A label gets an on/off row when no message ids were given, or when none or all of the selected messages carry it. That row is checked when the caller listed the label.
  - Any other count gives a tri-state row that starts as "unchanged" and not attached.
- **Collecting ids on confirm** (`LabelItems.IdsWith`, `GetCheckedLabels`, `GetUnchangedLabels`). These are the ids of the attached rows and of the unchanged rows, in row order.
- **Confirm** (`OnDoneClicked`):
  - Outside creation mode, more attached labels than the allowed maximum gives only a notice. The dialog stays open.
  - Otherwise it makes at most one listener call and closes (apply mode without a change listener makes none). The exception is manage mode without a creation listener: there the call throws and the dialog does not close (see below). In apply mode the call is `onLabelsChecked`, with three arguments, or with four when "also archive" is ticked; the fourth argument is the message ids again. In manage mode the call is `onLabelsDeleted`.
  - In creation mode, confirm runs the save path.
- **Creation mode** (`OnTextChanged`, `RandomCheck`, `OnItemClick`, `OnSaveClicked`):
  - A non-empty name enters creation mode. The first entry after a reset also picks a random colour.
  - An empty name leaves creation mode and clears the pending random pick.
  - Saving refuses an empty name, or a name equal (case-sensitively) to a shown label's name. Otherwise it clears the field and, when a creation listener is present, reports the new label with its colour.
- **Colours** (`LabelColor.FormatColor`). A colour resource, a 32-bit `int`, is stored as `#` followed by six upper-case hex digits of its low 24 bits.

Effects on the outside world are appended to the dialog's `events` log: listener calls, dismissal and the transient notices. Collaborators become parameters:

- the label list from the database;
- the maximum number of labels (`maxLabelsAllowed`);
- the colour resource array;
- the state of the "also archive" box;
- the index the random generator draws (`randomIndex`, any index into the colour array).

The presence of each listener is a flag fixed at creation.

A few points where the code's behaviour is easy to misread:

- **Re-entering creation mode.** Creation mode is entered on any non-empty edit made while not in creation mode, not only on an edit that starts from an empty field. After a refused save the field still holds text, but creation mode is off. The next edit enters it again, without a new random colour.
- **When a random colour is drawn.** It is drawn whenever no random pick is pending. Clearing the field resets the pick, so the next entry draws again.
- **The "choose a colour" notice never shows.** `ManageLabelsDialog.ColorChosenWhenCreating` holds in the initial state and every event preserves it. It states that in creation mode a colour is always already chosen. `OnDoneClicked` ensures that from any state where it holds, confirm never logs this notice.
- **Delete mode with no creation listener.** The code calls the listener without a null check (`ManageLabelsDialogFragment.java` line 246). That call throws, and the exception is not caught. The model records this case as the event `DeleteWithoutListener` and does not dismiss the dialog.
- **Clearing the name field.** Clearing it after a successful save runs the text watcher at once. The model's save calls `OnTextChanged("")` for this reason.

## Model

Source paths are relative to the repository root; all cited lines are in `app/src/main/java/ch/protonmail/android/activities/dialogs/ManageLabelsDialogFragment.java`.

| member | source | states |
|---|---|---|
| LabelColor.Low24 | app/src/main/java/ch/protonmail/android/activities/dialogs/ManageLabelsDialogFragment.java:428 | `0xFFFFFF & colorId` is below 2^24 and equals the colour modulo 2^24, also for negative colours and colours above 2^24; a colour that already fits is left unchanged |
| LabelColor.HexDigits | app/src/main/java/ch/protonmail/android/activities/dialogs/ManageLabelsDialogFragment.java:428 | the `%06X` digits: exactly the requested number of characters, each an upper-case hex digit |
| LabelColor.ParseHexDigits | app/src/main/java/ch/protonmail/android/activities/dialogs/ManageLabelsDialogFragment.java:428 | reading the zero-padded digits back gives the value whenever it fits in that many digits (no digit is lost) |
| LabelColor.FormatColor | app/src/main/java/ch/protonmail/android/activities/dialogs/ManageLabelsDialogFragment.java:427-428 | the stored colour is 7 characters, `#` then six upper-case hex digits, and those digits decode to the low 24 bits of the colour |
| LabelColor.FormatColorInjective | app/src/main/java/ch/protonmail/android/activities/dialogs/ManageLabelsDialogFragment.java:437-438 | two colours give the same string if and only if their low 24 bits agree: the string depends on those bits alone and loses none of them |
| LabelColor.FormatOpaqueColor | app/src/main/java/ch/protonmail/android/activities/dialogs/ManageLabelsDialogFragment.java:437-438 | an opaque colour, negative as a Java `int`, loses its alpha byte: 0xFF7272A7 becomes `#7272A7` |
| LabelItems.FromLabel | app/src/main/java/ch/protonmail/android/activities/dialogs/ManageLabelsDialogFragment.java:371-393 | the row copies id, name, colour, display and order; its count is the map entry or 0 when the map or entry is missing; it is on/off iff no message ids were given or the count is 0 or all messages, and then attached iff the label was listed as checked; otherwise tri-state, unchanged and not attached |
| LabelItems.PartialCountIsTriState | app/src/main/java/ch/protonmail/android/activities/dialogs/ManageLabelsDialogFragment.java:378-384 | a count strictly between 0 and the number of messages always yields a tri-state, unchanged, unattached row |
| LabelItems.VisibleItems | app/src/main/java/ch/protonmail/android/activities/dialogs/ManageLabelsDialogFragment.java:346-354 | the row list never has more rows than there are labels |
| LabelItems.VisibleItemsAppend | app/src/main/java/ch/protonmail/android/activities/dialogs/ManageLabelsDialogFragment.java:350-354 | rows of a concatenated list are the rows of each part, concatenated: rows keep the input order |
| LabelItems.VisibleItemsComplete | app/src/main/java/ch/protonmail/android/activities/dialogs/ManageLabelsDialogFragment.java:350-354 | every non-exclusive label has its row in the list |
| LabelItems.VisibleItemsSound | app/src/main/java/ch/protonmail/android/activities/dialogs/ManageLabelsDialogFragment.java:350-354 | every row in the list is the row of some non-exclusive label |
| LabelItems.VisibleItemsEmpty | app/src/main/java/ch/protonmail/android/activities/dialogs/ManageLabelsDialogFragment.java:350-361 | the row list is empty iff every label is exclusive (the case that shows the empty view and disables confirm) |
| LabelItems.IdsWith | app/src/main/java/ch/protonmail/android/activities/dialogs/ManageLabelsDialogFragment.java:395-415 | collecting ids never yields more ids than rows |
| LabelItems.IdsWithAppend | app/src/main/java/ch/protonmail/android/activities/dialogs/ManageLabelsDialogFragment.java:398-402 | collected ids follow row order (collection distributes over concatenation) |
| LabelItems.IdsWithMembers | app/src/main/java/ch/protonmail/android/activities/dialogs/ManageLabelsDialogFragment.java:395-415 | an id is collected iff some row with that id is attached (resp. unchanged) |
| LabelItems.FreshAttachedWereChecked | app/src/main/java/ch/protonmail/android/activities/dialogs/ManageLabelsDialogFragment.java:372-373 | in a freshly built list, every attached id was listed as checked by the caller |
| LabelItems.FreshUnchangedArePartial | app/src/main/java/ch/protonmail/android/activities/dialogs/ManageLabelsDialogFragment.java:378-384 | in a freshly built list, an id is collected as unchanged iff it belongs to a shown label whose row is tri-state |
| LabelItems.FreshPartialNotAttached | app/src/main/java/ch/protonmail/android/activities/dialogs/ManageLabelsDialogFragment.java:378-404 | in a freshly built list, a shown label whose row is tri-state is never collected as checked (even if another label shares its id) |
| LabelItems.ExampleFullyLabelled | app/src/main/java/ch/protonmail/android/activities/dialogs/ManageLabelsDialogFragment.java:371-393 | checked `L1` carried by all three messages: an on/off attached row, collected as checked and not as unchanged |
| LabelItems.ExamplePartiallyLabelled | app/src/main/java/ch/protonmail/android/activities/dialogs/ManageLabelsDialogFragment.java:371-393 | `L2` carried by one of three messages: a tri-state row, collected as unchanged and not as checked |
| ManageLabels.NameRejection | app/src/main/java/ch/protonmail/android/activities/dialogs/ManageLabelsDialogFragment.java:318-328 | a name is accepted iff it is non-empty and differs from every shown row's name; an empty name is refused as empty, anything else refused as a duplicate |
| ManageLabels.ManageLabelsDialog.constructor | app/src/main/java/ch/protonmail/android/activities/dialogs/ManageLabelsDialogFragment.java:159-173 | with the checked-labels key the three selection arguments are taken as given; without it: no checked labels, no counts, no message ids; the dialog starts outside creation mode with no colour, no pending pick and an empty log |
| ManageLabels.ManageLabelsDialog.OnLabelsChanged | app/src/main/java/ch/protonmail/android/activities/dialogs/ManageLabelsDialogFragment.java:345-367 | the rows become exactly the rows of the emitted list (of no labels for a null list); confirm is enabled iff there is a row |
| ManageLabels.ManageLabelsDialog.GetCheckedLabels | app/src/main/java/ch/protonmail/android/activities/dialogs/ManageLabelsDialogFragment.java:395-404 | returns the ids of the attached rows in row order |
| ManageLabels.ManageLabelsDialog.GetUnchangedLabels | app/src/main/java/ch/protonmail/android/activities/dialogs/ManageLabelsDialogFragment.java:406-415 | returns the ids of the unchanged rows in row order |
| ManageLabels.ManageLabelsDialog.HasLabelNamed | app/src/main/java/ch/protonmail/android/activities/dialogs/ManageLabelsDialogFragment.java:323-328 | true iff some shown row has exactly that name |
| ManageLabels.ManageLabelsDialog.OnTextChanged | app/src/main/java/ch/protonmail/android/activities/dialogs/ManageLabelsDialogFragment.java:259-284 | empty text leaves creation mode and clears the pending pick; non-empty text enters creation mode from outside it, drawing the random colour only when no pick is pending; further non-empty edits in creation mode change nothing; confirm is enabled; the colour invariant is kept |
| ManageLabels.ManageLabelsDialog.RandomCheck | app/src/main/java/ch/protonmail/android/activities/dialogs/ManageLabelsDialogFragment.java:433-441 | with no pending pick, the drawn index (inside the colour array) becomes the pick and its formatted colour the chosen one; otherwise nothing changes |
| ManageLabels.ManageLabelsDialog.OnItemClick | app/src/main/java/ch/protonmail/android/activities/dialogs/ManageLabelsDialogFragment.java:426-431 | the chosen colour becomes the clicked colour, formatted; the random pick index is untouched |
| ManageLabels.ManageLabelsDialog.OnSaveClicked | app/src/main/java/ch/protonmail/android/activities/dialogs/ManageLabelsDialogFragment.java:317-339 | a refused name logs only its notice and changes nothing else; an accepted one reports `onLabelCreated(name, colour)` when a creation listener exists, clears the field and leaves creation mode |
| ManageLabels.ManageLabelsDialog.OnDoneClicked | app/src/main/java/ch/protonmail/android/activities/dialogs/ManageLabelsDialogFragment.java:219-250 | outside creation mode: over the maximum only the notice, no call and no dismissal; otherwise the 3- or 4-argument `onLabelsChecked` (archive list = message ids, unchanged argument absent iff message ids are), or `onLabelsDeleted`, then dismissal; dismissal happens iff within the maximum and either in apply mode (with or without a change listener) or in delete mode with a creation listener. In creation mode: no colour gives the notice and stays in creation mode; with a colour, creation mode ends and the save path runs. From any state where a colour is chosen whenever creation mode is on, confirm never logs the "choose a colour" notice |
| ManageLabels.ManageLabelsDialog.OnCloseClicked | app/src/main/java/ch/protonmail/android/activities/dialogs/ManageLabelsDialogFragment.java:214-217 | closing only dismisses the dialog |
| ManageLabels.ExampleApplyFullyLabelled | app/src/main/java/ch/protonmail/android/activities/dialogs/ManageLabelsDialogFragment.java:219-250 | opening the dialog for checked `L1` carried by all three messages, receiving that label and confirming without archive reports `onLabelsChecked(["L1"], [], messageIds)` and then dismisses |

## Left out

- **Widgets and presentation.** The model leaves out visibility changes, dialog and button titles and their colours, keyboard hiding, window gravity and the layout listener. These are presentation only. Notices are logged by kind, without their text.
- **Toggling rows.** The list adapter's toggling of a row's checkbox is not modelled: `LabelsAdapter` is not part of this model. The confirm operations work on whatever flags the rows hold.
- **The row constructor.** The model assumes that `LabelsAdapter.LabelItem`'s constructor sets only the attached flag, so an on/off row is never unchanged. That constructor is not part of this model.
- **Creation arguments and listeners.** Argument serialisation is out, and so is the listener binding by cast. Arguments are a datatype; the presence of each listener is a flag. Arguments that are null altogether would make line 172 throw; that case is not modelled. A counts map holding a null value would throw on unboxing; that case is not modelled either.
- **Before the first emission.** Until the first database emission the code's row list and adapter are null. The model starts from an empty row list. So where the code throws before the first emission, the model goes on with no rows: a confirm outside creation mode (the adapter read at line 397) and a save of a non-empty name (the loop over the row list at line 323). The model also assumes the dialog is attached, so the rows always reach the adapter.
- **Disabled confirm.** A disabled confirm button delivers no clicks. The model records whether confirm is enabled but does not gate `OnDoneClicked` on it.
- **External collaborators.** These become parameters: the database subscription, the maximum-labels policy, the colour resource array, the random generator and the archive checkbox widget. The colour array must be non-empty, because drawing from an empty one throws.
- **Other files.** `LabelsViewController.kt` (view re-population) and `ContactGroupsResponse.kt` (a serialisation holder) are not part of this model.
