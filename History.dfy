/**
  The edit history of App.tsx as a state machine over values: the list of image files, the
  cursor `historyIndex` into it, and the confirmation dialog that an undo or a redo opens. Each
  handler is a function from the old view to the new one; the `Session` class in App.dfy applies
  them to its fields.

  The dialog's `onConfirm` closure captures the cursor of the render that opened it (App.tsx:705-731).
  `ConfirmAsWritten` models that closure; `Confirm` is the corrected handler the rest of the model
  uses, which checks the guard again against the current cursor.
 */
module History {
  import opened Outcomes
  import opened Files

  datatype Direction = Undo | Redo

  /** An open confirmation dialog: what it will do, and the cursor it captured when opened. */
  datatype Pending = Pending(dir: Direction, captured: int)

  datatype View = View(history: seq<Artifact>, index: int, pending: Option<Pending>)

  /** The state before anything is loaded: an empty list, cursor -1, no dialog. */
  const Initial: View := View([], -1, None)

  /** The cursor points into a non-empty list, and is -1 for an empty one. */
  predicate Inv(v: View) {
    (|v.history| == 0 ==> v.index == -1) &&
    (|v.history| > 0 ==> 0 <= v.index < |v.history|)
  }

  /** `history[historyIndex] ?? null`. */
  function CurrentImage(v: View): Option<Artifact> {
    if 0 <= v.index < |v.history| then Some(v.history[v.index]) else None
  }

  /** `history[0] ?? null`. */
  function OriginalImage(v: View): Option<Artifact> {
    if |v.history| > 0 then Some(v.history[0]) else None
  }

  predicate CanUndo(v: View) {
    v.index > 0
  }

  predicate CanRedo(v: View) {
    v.index < |v.history| - 1
  }

  /** `s.slice(0, end)`: a negative end counts from the back; both ends are clamped to the list. */
  function SlicePrefix(s: seq<Artifact>, end: int): (r: seq<Artifact>)
    ensures |r| <= |s| && r == s[..|r|]
    ensures 0 <= end <= |s| ==> |r| == end
  {
    if end < 0 then (if |s| + end < 0 then [] else s[..|s| + end])
    else if end > |s| then s
    else s[..end]
  }

  /**
    `addImageToHistory`: the entries after the cursor are discarded, the file is appended, and the
    cursor moves to it. Whatever the old cursor, the new view satisfies the invariant and shows the
    new file.
   */
  function AddImage(v: View, f: Artifact): (w: View)
    ensures Inv(w) && CurrentImage(w) == Some(f)
    ensures |w.history| <= |v.history| + 1 && w.history[..|w.history| - 1] == v.history[..|w.history| - 1]
    ensures w.pending == v.pending
  {
    var kept := SlicePrefix(v.history, v.index + 1);
    View(kept + [f], |kept|, v.pending)
  }

  /** `handleImageUpload`: the file becomes the whole history. */
  function Upload(v: View, f: Artifact): (w: View)
    ensures Inv(w) && w.history == [f] && CurrentImage(w) == Some(f) && OriginalImage(w) == Some(f)
    ensures w.pending == v.pending
  {
    View([f], 0, v.pending)
  }

  /** `handleUndo`: opens the dialog only when undo is possible. */
  function RequestUndo(v: View): (w: View)
    ensures w.history == v.history && w.index == v.index
    ensures CanUndo(v) ==> w.pending == Some(Pending(Undo, v.index))
    ensures !CanUndo(v) ==> w == v
  {
    if CanUndo(v) then v.(pending := Some(Pending(Undo, v.index))) else v
  }

  /** `handleRedo`: opens the dialog only when redo is possible. */
  function RequestRedo(v: View): (w: View)
    ensures w.history == v.history && w.index == v.index
    ensures CanRedo(v) ==> w.pending == Some(Pending(Redo, v.index))
    ensures !CanRedo(v) ==> w == v
  {
    if CanRedo(v) then v.(pending := Some(Pending(Redo, v.index))) else v
  }

  /** The dialog's `onConfirm` as written: the captured cursor moves by one and the dialog closes. */
  function ConfirmAsWritten(v: View): (w: View)
    requires v.pending.Some?
    ensures w.history == v.history && w.pending.None?
    ensures w.index == v.pending.value.captured + (if v.pending.value.dir == Undo then -1 else 1)
  {
    var p := v.pending.value;
    View(v.history, if p.dir == Undo then p.captured - 1 else p.captured + 1, None)
  }

  /**
    The confirmation with the guard checked when it is confirmed: the current cursor moves by one
    if the move is still possible, and the dialog closes either way.
   */
  function Confirm(v: View): (w: View)
    requires v.pending.Some?
    ensures w.history == v.history && w.pending.None?
    ensures Inv(v) ==> Inv(w)
    ensures v.pending.value.dir == Undo ==> w.index == if CanUndo(v) then v.index - 1 else v.index
    ensures v.pending.value.dir == Redo ==> w.index == if CanRedo(v) then v.index + 1 else v.index
  {
    match v.pending.value.dir
    case Undo => View(v.history, if CanUndo(v) then v.index - 1 else v.index, None)
    case Redo => View(v.history, if CanRedo(v) then v.index + 1 else v.index, None)
  }

  /** Dismissing the dialog. */
  function Cancel(v: View): (w: View)
    ensures w.history == v.history && w.index == v.index && w.pending.None?
  {
    v.(pending := None)
  }

  /** `handleReset`: back to the first entry, keeping the list, when there is one. */
  function Reset(v: View): (w: View)
    ensures w.history == v.history && w.pending == v.pending
    ensures |v.history| > 0 ==> w.index == 0 && CurrentImage(w) == OriginalImage(v)
    ensures |v.history| == 0 ==> w == v
  {
    if |v.history| > 0 then v.(index := 0) else v
  }

  /** `handleUploadNew`: an empty history with cursor -1. */
  function Clear(v: View): (w: View)
    ensures Inv(w) && CurrentImage(w).None? && OriginalImage(w).None?
    ensures w.pending == v.pending
  {
    View([], -1, v.pending)
  }

  // ---------------------------------------------------------------------------------------------
  // Properties of the handlers
  // ---------------------------------------------------------------------------------------------

  /** Under the invariant, adding keeps the entries up to the cursor, drops the rest, and appends. */
  lemma AddImageKeepsPrefix(v: View, f: Artifact)
    requires Inv(v)
    ensures AddImage(v, f).history == v.history[..v.index + 1] + [f]
    ensures AddImage(v, f).index == v.index + 1
    ensures OriginalImage(AddImage(v, f)) == if |v.history| > 0 then OriginalImage(v) else Some(f)
  {
  }

  /**
    Undo is possible exactly when the cursor is past the first entry; confirming it then moves the
    cursor back by one and changes nothing else. Otherwise the request changes nothing.
   */
  lemma UndoConfirmed(v: View)
    requires Inv(v) && v.pending.None?
    ensures CanUndo(v) <==> |v.history| > 0 && v.index != 0
    ensures CanUndo(v) ==> Confirm(RequestUndo(v)) == v.(index := v.index - 1)
    ensures CanUndo(v) ==> ConfirmAsWritten(RequestUndo(v)) == v.(index := v.index - 1)
    ensures !CanUndo(v) ==> RequestUndo(v) == v
  {
  }

  /**
    Redo is possible exactly when an entry follows the cursor; confirming it then moves the cursor
    forward by one and changes nothing else. Otherwise the request changes nothing.
   */
  lemma RedoConfirmed(v: View)
    requires Inv(v) && v.pending.None?
    ensures CanRedo(v) <==> |v.history| > 0 && v.index != |v.history| - 1
    ensures CanRedo(v) ==> Confirm(RequestRedo(v)) == v.(index := v.index + 1)
    ensures CanRedo(v) ==> ConfirmAsWritten(RequestRedo(v)) == v.(index := v.index + 1)
    ensures !CanRedo(v) ==> RequestRedo(v) == v
  {
  }

  /** Undo and redo are inverse: confirming one and then the other restores the view. */
  lemma UndoThenRedo(v: View)
    requires Inv(v) && v.pending.None? && CanUndo(v)
    ensures var u := Confirm(RequestUndo(v)); CanRedo(u) && Confirm(RequestRedo(u)) == v
  {
  }

  /** After a reset of a list of two or more, redo is possible and the list is intact. */
  lemma ResetThenRedo(v: View)
    requires Inv(v) && |v.history| > 1 && v.pending.None?
    ensures Reset(v).history == v.history && CanRedo(Reset(v)) && !CanUndo(Reset(v))
    ensures Confirm(RequestRedo(Reset(v))) == View(v.history, 1, None)
  {
  }

  /** While the view has not changed since the dialog opened, the two confirmations agree. */
  lemma ConfirmAgreesWhenFresh(v: View)
    requires v.pending.Some? && v.pending.value.captured == v.index
    requires v.pending.value.dir == Undo ==> CanUndo(v)
    requires v.pending.value.dir == Redo ==> CanRedo(v)
    ensures Confirm(v) == ConfirmAsWritten(v)
  {
  }

  // ---------------------------------------------------------------------------------------------
  // Sequences of user actions
  // ---------------------------------------------------------------------------------------------

  /** What a user, or an action that completes, can do to the history. */
  datatype Action =
    | UploadImage(file: Artifact)
    | AddResult(file: Artifact)
    | AskUndo
    | AskRedo
    | ConfirmDialog
    | CancelDialog
    | ResetHistory
    | UploadNew

  /** One action; confirming or dismissing without an open dialog has no button to press. */
  function Step(v: View, a: Action): View {
    match a
    case UploadImage(f) => Upload(v, f)
    case AddResult(f) => AddImage(v, f)
    case AskUndo => RequestUndo(v)
    case AskRedo => RequestRedo(v)
    case ConfirmDialog => if v.pending.Some? then Confirm(v) else v
    case CancelDialog => Cancel(v)
    case ResetHistory => Reset(v)
    case UploadNew => Clear(v)
  }

  /** The same step with the confirmation as written. */
  function StepAsWritten(v: View, a: Action): View {
    match a
    case ConfirmDialog => if v.pending.Some? then ConfirmAsWritten(v) else v
    case _ => Step(v, a)
  }

  function Run(v: View, actions: seq<Action>): View
    decreases |actions|
  {
    if actions == [] then v else Run(Step(v, actions[0]), actions[1..])
  }

  function RunAsWritten(v: View, actions: seq<Action>): View
    decreases |actions|
  {
    if actions == [] then v else RunAsWritten(StepAsWritten(v, actions[0]), actions[1..])
  }

  /** Every action keeps the cursor invariant. */
  lemma StepKeepsInv(v: View, a: Action)
    requires Inv(v)
    ensures Inv(Step(v, a))
  {
  }

  /**
    From any view satisfying the invariant (the initial one in particular), any sequence of actions
    ends in a view whose cursor is valid, whose current image is the entry under the cursor and
    whose original image is the first entry.
   */
  lemma {:induction false} RunKeepsInv(v: View, actions: seq<Action>)
    requires Inv(v)
    ensures var w := Run(v, actions);
      Inv(w) &&
      (|w.history| > 0 ==> CurrentImage(w) == Some(w.history[w.index]) && OriginalImage(w) == Some(w.history[0])) &&
      (|w.history| == 0 ==> CurrentImage(w).None? && OriginalImage(w).None?)
    decreases |actions|
  {
    if actions != [] {
      StepKeepsInv(v, actions[0]);
      RunKeepsInv(Step(v, actions[0]), actions[1..]);
    }
  }

  /**
    With the confirmation as written the invariant breaks: a redo requested on a two-entry list,
    followed by an upload that completes while the dialog is open, leaves the cursor at 1 in a
    one-entry list, so no image is shown although the list is not empty.
   */
  lemma StaleRedoBreaksInv(a: Artifact, b: Artifact, x: Artifact)
    ensures var trace := [AskRedo, UploadImage(x), ConfirmDialog];
      var w := RunAsWritten(View([a, b], 0, None), trace);
      Inv(View([a, b], 0, None)) && !Inv(w) && w.history == [x] && w.index == 1 && CurrentImage(w).None?
  {
    var v0 := View([a, b], 0, None);
    var v1 := StepAsWritten(v0, AskRedo);
    assert v1 == View([a, b], 0, Some(Pending(Redo, 0)));
    var v2 := StepAsWritten(v1, UploadImage(x));
    assert v2 == View([x], 0, Some(Pending(Redo, 0)));
    var v3 := StepAsWritten(v2, ConfirmDialog);
    assert v3 == View([x], 1, None);
    var trace := [AskRedo, UploadImage(x), ConfirmDialog];
    assert trace[1..] == [UploadImage(x), ConfirmDialog] && trace[1..][1..] == [ConfirmDialog];
    assert RunAsWritten(v2, [ConfirmDialog]) == v3;
  }

  /** The corrected confirmation keeps the list and the cursor valid on the same trace. */
  lemma StaleRedoCorrected(a: Artifact, b: Artifact, x: Artifact)
    ensures var w := Run(View([a, b], 0, None), [AskRedo, UploadImage(x), ConfirmDialog]);
      w == View([x], 0, None) && CurrentImage(w) == Some(x)
  {
    var v0 := View([a, b], 0, None);
    var v2 := Step(Step(v0, AskRedo), UploadImage(x));
    assert v2 == View([x], 0, Some(Pending(Redo, 0)));
    assert Step(v2, ConfirmDialog) == View([x], 0, None);
    var trace := [AskRedo, UploadImage(x), ConfirmDialog];
    assert trace[1..] == [UploadImage(x), ConfirmDialog] && trace[1..][1..] == [ConfirmDialog];
    assert Run(v2, [ConfirmDialog]) == View([x], 0, None);
  }
}
