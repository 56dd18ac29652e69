/** The validators cell of the student table: a dialog that edits the cell's
    ordered list of validation rules. Each rule has a kind ("enum", "regex",
    "base64") and, except for base64, a parameter. A list never holds two rules
    of the same kind; every change the dialog makes is written to the grid at
    once. */
module Validators {
  import opened Optional
  import opened Grid
  import opened Sequences

  /** One rule. `kind` is the source's `type` field. */
  datatype Validator = Validator(kind: string, value: Option<string>)

  /** The dialog's state: the local copy of the list, the position being edited
      (none while adding), the draft kind and parameter, the error line shown
      under the draft, and the grid column the list belongs to. */
  datatype Editor = Editor(
    validators: seq<Validator>,
    editingIdx: Option<nat>,
    draftType: string,
    draftValue: string,
    error: string,
    field: string)

  /** The state after a handler, and the grid write it issued, if any. */
  datatype Outcome = Outcome(editor: Editor, write: Option<GridWrite<seq<Validator>>>)

  /** The one kind that takes no parameter. */
  const Base64: string := "base64"

  /** The kind the draft starts from. */
  const DefaultDraftType: string := "regex"

  /** At most one rule per kind. */
  predicate KindsDistinct(vs: seq<Validator>) {
    forall i, j :: 0 <= i < j < |vs| ==> vs[i].kind != vs[j].kind
  }

  /** The position being edited, if any, names an entry of the list. */
  predicate EditTargetValid(e: Editor) {
    e.editingIdx.Some? ==> e.editingIdx.value < |e.validators|
  }

  /** The position being edited, if any, is an entry or the position just past
      the last one; a write there replaces the entry or appends. */
  predicate TargetWritable(e: Editor) {
    e.editingIdx.Some? ==> e.editingIdx.value <= |e.validators|
  }

  predicate WellFormed(e: Editor) {
    KindsDistinct(e.validators) && EditTargetValid(e)
  }

  /** The draft is back to a fresh "add a regex" form with no error. */
  predicate IsReset(e: Editor) {
    e.editingIdx.None? && e.draftType == DefaultDraftType && e.draftValue == "" && e.error == ""
  }

  /** Some entry other than the one being edited has `kind`. */
  predicate Collides(vs: seq<Validator>, editingIdx: Option<nat>, kind: string) {
    exists idx: nat :: idx < |vs| && vs[idx].kind == kind && editingIdx != Some(idx)
  }

  /** Entries of this rule's kind carry a parameter exactly when the kind takes one. */
  predicate Canonical(v: Validator) {
    if v.kind == Base64 then v.value.None? else v.value.Some?
  }

  function DuplicateMessage(kind: string): string {
    "Validator \"" + kind + "\" already exists"
  }

  /** The duplicate scan `validators.some((v, idx) => ...)`, from position `from` on. */
  function CollisionFrom(vs: seq<Validator>, editingIdx: Option<nat>, kind: string, from: nat): (found: bool)
    ensures found <==> exists idx: nat :: from <= idx < |vs| && vs[idx].kind == kind && editingIdx != Some(idx)
    decreases |vs| - from
  {
    if from >= |vs| then false
    else (vs[from].kind == kind && editingIdx != Some(from)) || CollisionFrom(vs, editingIdx, kind, from + 1)
  }

  /** The rule built from the draft: base64 never carries a parameter, every
      other kind carries the draft text. */
  function NewValidator(kind: string, text: string): (v: Validator)
    ensures v.kind == kind
    ensures v.value.None? <==> kind == Base64
    ensures v.value.Some? ==> v.value.value == text
    ensures Canonical(v)
  {
    Validator(kind, if kind == Base64 then None else Some(text))
  }

  /** The dialog's state when the cell is rendered: the cell's list, or an empty
      one when the cell has none, and a fresh draft. */
  function Init(cellValue: Option<seq<Validator>>, field: string): (e: Editor)
    ensures cellValue.Some? ==> e.validators == cellValue.value
    ensures cellValue.None? ==> e.validators == []
    ensures IsReset(e) && e.field == field
    ensures cellValue.None? || KindsDistinct(cellValue.value) ==> WellFormed(e)
  {
    Editor(cellValue.GetOr([]), None, DefaultDraftType, "", "", field)
  }

  /** The Cancel button (also run after every successful add or update): the
      draft is cleared and nothing else changes. */
  function ResetEditor(e: Editor): (r: Editor)
    ensures IsReset(r)
    ensures r.validators == e.validators && r.field == e.field
    ensures KindsDistinct(e.validators) ==> WellFormed(r)
  {
    e.(editingIdx := None, draftType := DefaultDraftType, draftValue := "", error := "")
  }

  /** The Add / Update button. A draft whose kind another entry already has is
      refused with an error naming the kind, and nothing else happens. Otherwise
      the draft rule replaces the edited entry in place, or is appended when no
      entry is being edited (or the edit target is the position just past the
      end, where JavaScript's indexed write appends); the new list is written to
      the grid and the draft is reset. */
  function AddOrUpdate(e: Editor): (r: Outcome)
    requires TargetWritable(e)
    ensures r.write.None? <==> Collides(e.validators, e.editingIdx, e.draftType)
    ensures r.write.None? ==> r.editor == e.(error := DuplicateMessage(e.draftType))
    ensures r.write.Some? ==>
              && r.write.value == SetDataValue(e.field, r.editor.validators)
              && IsReset(r.editor)
              && r.editor.field == e.field
    ensures r.write.Some? && (e.editingIdx.None? || e.editingIdx.value == |e.validators|) ==>
              r.editor.validators == e.validators + [NewValidator(e.draftType, e.draftValue)]
    ensures r.write.Some? && e.editingIdx.Some? && e.editingIdx.value < |e.validators| ==>
              && |r.editor.validators| == |e.validators|
              && r.editor.validators[e.editingIdx.value] == NewValidator(e.draftType, e.draftValue)
              && forall k :: 0 <= k < |e.validators| && k != e.editingIdx.value ==>
                   r.editor.validators[k] == e.validators[k]
    ensures KindsDistinct(e.validators) ==> KindsDistinct(r.editor.validators)
    ensures WellFormed(e) ==> WellFormed(r.editor)
  {
    if CollisionFrom(e.validators, e.editingIdx, e.draftType, 0) then
      Outcome(e.(error := DuplicateMessage(e.draftType)), None)
    else
      var v := NewValidator(e.draftType, e.draftValue);
      var updated :=
        match e.editingIdx
        case Some(i) => if i < |e.validators| then e.validators[i := v] else e.validators + [v]
        case None => e.validators + [v];
      assert KindsDistinct(e.validators) ==> KindsDistinct(updated) by {
        if KindsDistinct(e.validators) {
          forall i, j | 0 <= i < j < |updated| ensures updated[i].kind != updated[j].kind {
            if updated[i] == v {
              assert e.editingIdx != Some(j) ==> updated[j] == e.validators[j];
            } else if updated[j] == v {
              assert updated[i] == e.validators[i];
              assert e.editingIdx != Some(i);
            } else {
              assert updated[i] == e.validators[i] && updated[j] == e.validators[j];
            }
          }
        }
      }
      Outcome(ResetEditor(e.(validators := updated)), Some(SetDataValue(e.field, updated)))
  }

  /** The pencil icon of entry `idx`: it becomes the edit target and the draft
      is loaded from it, a missing parameter as "". */
  function Edit(e: Editor, idx: nat): (r: Editor)
    requires idx < |e.validators|
    ensures r.validators == e.validators && r.field == e.field && r.error == ""
    ensures r.editingIdx == Some(idx)
    ensures r.draftType == e.validators[idx].kind
    ensures r.draftValue == e.validators[idx].value.GetOr("")
    ensures KindsDistinct(e.validators) ==> WellFormed(r)
  {
    e.(editingIdx := Some(idx), draftType := e.validators[idx].kind,
       draftValue := e.validators[idx].value.GetOr(""), error := "")
  }

  /** The delete icon of entry `idx`, as the component has it: the list without
      that position is kept and written to the grid, and the edit target is left
      as it was, although the entries after `idx` have moved down. */
  function RemoveAsWritten(e: Editor, idx: nat): (r: Outcome)
    ensures r.write == Some(SetDataValue(e.field, r.editor.validators))
    ensures idx < |e.validators| ==> r.editor.validators == e.validators[..idx] + e.validators[idx + 1..]
    ensures idx >= |e.validators| ==> r.editor.validators == e.validators
    ensures r.editor == e.(validators := r.editor.validators)
    ensures KindsDistinct(e.validators) ==> KindsDistinct(r.editor.validators)
  {
    var updated := DropIndex(e.validators, idx);
    DropIndexIsSplice(e.validators, idx);
    assert KindsDistinct(e.validators) ==> KindsDistinct(updated) by {
      if KindsDistinct(e.validators) && idx < |e.validators| {
        forall i, j | 0 <= i < j < |updated| ensures updated[i].kind != updated[j].kind {
          var i' := if i < idx then i else i + 1;
          var j' := if j < idx then j else j + 1;
          assert updated[i] == e.validators[i'] && updated[j] == e.validators[j'];
        }
      }
    }
    Outcome(e.(validators := updated), Some(SetDataValue(e.field, updated)))
  }

  /** The delete icon with the edit target kept on the entry it named: removing
      the edited entry resets the draft, and an edited entry after `idx` is
      followed to its new position. The list and the grid write are those of
      the component. */
  function Remove(e: Editor, idx: nat): (r: Outcome)
    ensures r.write == Some(SetDataValue(e.field, r.editor.validators))
    ensures idx < |e.validators| ==> r.editor.validators == e.validators[..idx] + e.validators[idx + 1..]
    ensures idx >= |e.validators| ==> r.editor == e
    ensures r.editor.field == e.field
    ensures WellFormed(e) ==> WellFormed(r.editor)
    ensures idx < |e.validators| && e.editingIdx == Some(idx) ==> IsReset(r.editor)
    ensures e.editingIdx.None? ==> r.editor == e.(validators := r.editor.validators)
    ensures e.editingIdx.Some? && e.editingIdx.value != idx ==>
              r.editor == e.(validators := r.editor.validators, editingIdx := r.editor.editingIdx)
    ensures EditTargetValid(e) && e.editingIdx.Some? && e.editingIdx.value != idx ==>
              && r.editor.editingIdx.Some?
              && r.editor.editingIdx.value < |r.editor.validators|
              && r.editor.validators[r.editor.editingIdx.value] == e.validators[e.editingIdx.value]
  {
    var dropped := RemoveAsWritten(e, idx);
    var list := dropped.editor;
    if idx >= |e.validators| then
      dropped
    else
      match e.editingIdx
      case None => dropped
      case Some(k) =>
        if k == idx then Outcome(ResetEditor(list), dropped.write)
        else if k > idx then Outcome(list.(editingIdx := Some(k - 1)), dropped.write)
        else dropped
  }

  /** Editing an entry of a well-formed list and submitting the loaded draft
      unchanged always succeeds; it leaves the list as it was exactly when the
      entry is canonical (a base64 rule with no parameter, or another kind with
      one). */
  lemma EditThenSubmitRoundTrip(e: Editor, idx: nat)
    requires KindsDistinct(e.validators) && idx < |e.validators|
    ensures AddOrUpdate(Edit(e, idx)).write.Some?
    ensures AddOrUpdate(Edit(e, idx)).editor.validators == e.validators <==> Canonical(e.validators[idx])
  {
    var d := Edit(e, idx);
    var v := e.validators[idx];
    assert !Collides(d.validators, d.editingIdx, d.draftType) by {
      forall j: nat | j < |e.validators| && j != idx ensures e.validators[j].kind != v.kind {
        if j < idx {
          assert e.validators[j].kind != e.validators[idx].kind;
        } else {
          assert e.validators[idx].kind != e.validators[j].kind;
        }
      }
    }
    var r := AddOrUpdate(d);
    var nv := NewValidator(v.kind, v.value.GetOr(""));
    assert r.editor.validators[idx] == nv;
    if Canonical(v) {
      assert nv == v;
      assert r.editor.validators == e.validators;
    } else {
      assert nv != v;
    }
  }

  /** Updating the edited entry while keeping its kind is never refused in a
      well-formed state: the entry does not collide with itself. */
  lemma UpdateOwnKindSucceeds(e: Editor)
    requires WellFormed(e) && e.editingIdx.Some?
    requires e.draftType == e.validators[e.editingIdx.value].kind
    ensures AddOrUpdate(e).write.Some?
    ensures AddOrUpdate(e).editor.validators[e.editingIdx.value] == NewValidator(e.draftType, e.draftValue)
  {
    var i := e.editingIdx.value;
    assert !Collides(e.validators, e.editingIdx, e.draftType) by {
      forall j: nat | j < |e.validators| && j != i ensures e.validators[j].kind != e.draftType {
        if j < i {
          assert e.validators[j].kind != e.validators[i].kind;
        } else {
          assert e.validators[i].kind != e.validators[j].kind;
        }
      }
    }
  }

  /** The dialog interactions. */
  datatype Event =
    | Submit
    | Cancel
    | EditAt(idx: nat)
    | RemoveAt(idx: nat)
    | ChooseType(kind: string)
    | TypeValue(text: string)

  /** Which delete a run of the dialog uses: the component's (`RemoveAsWritten`)
      or the corrected one that keeps the edit target (`Remove`). */
  datatype DeleteMode = AsWritten | Corrected

  /** The Add / Update button is enabled only for base64 or a non-empty parameter. */
  predicate SubmitEnabled(e: Editor) {
    e.draftType == Base64 || e.draftValue != ""
  }

  /** The interactions the dialog offers in state `e`: icons exist only for
      listed entries, and a submission is considered only while the edit target
      is an entry or the position just past the last one. */
  predicate Enabled(e: Editor, ev: Event) {
    match ev
    case Submit => TargetWritable(e) && SubmitEnabled(e)
    case EditAt(i) => i < |e.validators|
    case RemoveAt(i) => i < |e.validators|
    case _ => true
  }

  /** One dialog interaction: the Add / Update and Cancel buttons, the pencil
      and delete icons, and the draft's kind selector and parameter field. */
  function Step(e: Editor, ev: Event, mode: DeleteMode): (r: Outcome)
    requires Enabled(e, ev)
    ensures r.write.Some? ==> r.write.value == SetDataValue(e.field, r.editor.validators)
    ensures r.write.None? ==> r.editor.validators == e.validators
    ensures r.write.Some? <==> ev.RemoveAt? || (ev.Submit? && !Collides(e.validators, e.editingIdx, e.draftType))
    ensures r.editor.field == e.field
    ensures KindsDistinct(e.validators) ==> KindsDistinct(r.editor.validators)
    ensures ev.RemoveAt? && mode.AsWritten? ==> r.editor.editingIdx == e.editingIdx
    ensures ev.ChooseType? ==> r == Outcome(e.(draftType := ev.kind), None)
    ensures ev.TypeValue? ==> r == Outcome(e.(draftValue := ev.text), None)
    ensures mode.Corrected? && WellFormed(e) ==> WellFormed(r.editor)
  {
    match ev
    case Submit => AddOrUpdate(e)
    case Cancel => Outcome(ResetEditor(e), None)
    case EditAt(i) => Outcome(Edit(e, i), None)
    case RemoveAt(i) => if mode.AsWritten? then RemoveAsWritten(e, i) else Remove(e, i)
    case ChooseType(k) => Outcome(e.(draftType := k), None)
    case TypeValue(t) => Outcome(e.(draftValue := t), None)
  }

  /** Every interaction of `evs` is offered when its turn comes. */
  predicate Runnable(e: Editor, evs: seq<Event>, mode: DeleteMode)
    decreases |evs|
  {
    |evs| == 0 || (Enabled(e, evs[0]) && Runnable(Step(e, evs[0], mode).editor, evs[1..], mode))
  }

  /** The final state and the grid writes, in order, of a run of interactions. */
  function Run(e: Editor, evs: seq<Event>, mode: DeleteMode): (Editor, seq<GridWrite<seq<Validator>>>)
    requires Runnable(e, evs, mode)
    decreases |evs|
  {
    if |evs| == 0 then (e, [])
    else
      var o := Step(e, evs[0], mode);
      var rest := Run(o.editor, evs[1..], mode);
      (rest.0, (if o.write.Some? then [o.write.value] else []) + rest.1)
  }

  /** Over any run of the dialog, with either delete, on a list with at most one
      rule per kind: the list keeps that property, every list written to the
      grid goes to the cell's own column and has it too, and the grid ends up
      holding the dialog's list (the last write is the final list, and with no
      write the list is the one the dialog started from). */
  lemma {:induction false} RunKeepsInvariants(e: Editor, evs: seq<Event>, mode: DeleteMode)
    requires KindsDistinct(e.validators) && Runnable(e, evs, mode)
    ensures KindsDistinct(Run(e, evs, mode).0.validators)
    ensures Run(e, evs, mode).0.field == e.field
    ensures forall w :: w in Run(e, evs, mode).1 ==> w.field == e.field && KindsDistinct(w.value)
    ensures |Run(e, evs, mode).1| == 0 ==> Run(e, evs, mode).0.validators == e.validators
    ensures |Run(e, evs, mode).1| > 0 ==>
              Run(e, evs, mode).1[|Run(e, evs, mode).1| - 1].value == Run(e, evs, mode).0.validators
    decreases |evs|
  {
    if |evs| > 0 {
      var o := Step(e, evs[0], mode);
      RunKeepsInvariants(o.editor, evs[1..], mode);
      var rest := Run(o.editor, evs[1..], mode);
      var ws := (if o.write.Some? then [o.write.value] else []) + rest.1;
      assert Run(e, evs, mode) == (rest.0, ws);
      if |rest.1| > 0 {
        assert ws[|ws| - 1] == rest.1[|rest.1| - 1];
      }
    }
  }

  /** With the corrected delete, a run that starts well-formed stays well-formed:
      the edit target always names an entry, so a submission can always be made. */
  lemma {:induction false} CorrectedRunKeepsWellFormed(e: Editor, evs: seq<Event>)
    requires WellFormed(e) && Runnable(e, evs, Corrected)
    ensures WellFormed(Run(e, evs, Corrected).0)
    decreases |evs|
  {
    if |evs| > 0 {
      CorrectedRunKeepsWellFormed(Step(e, evs[0], Corrected).editor, evs[1..]);
    }
  }

  /** Adding a regex rule to a cell holding one enum rule: the cell's list gains
      the rule at the end and the grid receives that list exactly once. */
  lemma AddRegexExample()
    ensures
      var e := Init(Some([Validator("enum", Some("A,B"))]), "validators");
      var evs := [ChooseType("regex"), TypeValue("[a-z]+"), Submit];
      var expected := [Validator("enum", Some("A,B")), Validator("regex", Some("[a-z]+"))];
      && Runnable(e, evs, AsWritten)
      && Run(e, evs, AsWritten).0.validators == expected
      && Run(e, evs, AsWritten).1 == [SetDataValue("validators", expected)]
  {
    var e := Init(Some([Validator("enum", Some("A,B"))]), "validators");
    var e1 := e.(draftType := "regex");
    var e2 := e1.(draftValue := "[a-z]+");
    assert !CollisionFrom(e2.validators, None, "regex", 0);
  }

  /** The three-rule list the stale-target scenario starts from. */
  function StaleScenario(): (e: Editor)
    ensures WellFormed(e) && |e.validators| == 3
  {
    Init(Some([Validator("enum", Some("A")), Validator("regex", Some("x")), Validator(Base64, None)]), "validators")
  }

  /** With the component's delete, editing the regex rule of
      [enum, regex, base64] and then deleting the enum rule leaves the edit
      target on the base64 rule: submitting the unchanged regex draft is then
      refused as a duplicate of the very rule being edited. */
  lemma StaleEditTargetAfterRemove()
    ensures
      var stale := RemoveAsWritten(Edit(StaleScenario(), 1), 0).editor;
      && stale.editingIdx == Some(1)
      && stale.validators[1] == Validator(Base64, None)
      && AddOrUpdate(stale).write.None?
      && AddOrUpdate(stale).editor.error == DuplicateMessage("regex")
  {
    var e := StaleScenario();
    var editing := Edit(e, 1);
    assert editing.draftType == "regex";
    var stale := RemoveAsWritten(editing, 0).editor;
    assert stale.validators == e.validators[..0] + e.validators[1..];
    assert stale.validators[0].kind == "regex";
    assert stale.editingIdx == Some(1);
    assert Collides(stale.validators, stale.editingIdx, stale.draftType) by {
      assert stale.validators[0].kind == stale.draftType && stale.editingIdx != Some(0);
    }
  }

  /** With the corrected delete the same submission updates the regex rule in
      place and writes the two remaining rules to the grid. */
  lemma CorrectedRemoveKeepsEditTarget()
    ensures
      var fixed := Remove(Edit(StaleScenario(), 1), 0).editor;
      AddOrUpdate(fixed).write == Some(SetDataValue("validators", [Validator("regex", Some("x")), Validator(Base64, None)]))
  {
    var e := StaleScenario();
    var editing := Edit(e, 1);
    var fixed := Remove(editing, 0).editor;
    assert fixed.validators == e.validators[..0] + e.validators[1..];
    assert fixed.editingIdx == Some(0);
    assert fixed.draftType == "regex" && fixed.draftValue == "x";
    UpdateOwnKindSucceeds(fixed);
    var r := AddOrUpdate(fixed);
    assert r.editor.validators == [Validator("regex", Some("x")), Validator(Base64, None)];
  }
}
