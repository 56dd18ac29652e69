/** The college cell editor built on a Select whose own change handler is
    disabled: the value moves only through the add and delete buttons. */
module CollegeSelect {
  import opened Sequences
  import OptionStore

  type Editor = OptionStore.Store

  /** The user interactions the editor handles while it is open. Picking a menu
      entry (`Pick`) reaches the Select's change handler, which does nothing. */
  datatype Event = Add | Delete(option: string) | Pick(option: string) | NewOption(text: string)

  /** The editor opened on a cell: the cell's value over the four default
      colleges, with an empty add field. */
  function Init(cellValue: string): (e: Editor)
    ensures e.options == OptionStore.Colleges && Distinct(e.options)
    ensures e.value == cellValue && e.pending == ""
  {
    OptionStore.CollegesDistinct();
    OptionStore.Store(OptionStore.Colleges, cellValue, "")
  }

  /** The handle the grid polls when editing stops: whenever it is called it
      reports the current selection. */
  function GetValue(e: Editor): (v: string)
    ensures v == e.value
  {
    e.value
  }

  /** One interaction: the add button, an option's delete icon, picking a menu
      entry (the Select's change handler, which does nothing), or typing in the
      add field. */
  function Step(e: Editor, ev: Event): (r: Editor)
    ensures ev.Pick? ==> r == e
    ensures ev.NewOption? ==> r == e.(pending := ev.text)
    ensures Distinct(e.options) ==> Distinct(r.options)
    ensures OptionStore.SelectionListed(e) ==> OptionStore.SelectionListed(r)
  {
    match ev
    case Add => OptionStore.Add(e)
    case Delete(o) => OptionStore.Delete(e, o)
    case Pick(_) => e
    case NewOption(t) => e.(pending := t)
  }

  function Run(e: Editor, evs: seq<Event>): Editor
    decreases |evs|
  {
    if |evs| == 0 then e else Run(Step(e, evs[0]), evs[1..])
  }

  predicate IsAddOrDelete(ev: Event) {
    ev.Add? || ev.Delete?
  }

  /** Picking entries and typing in the add field never change the options or
      the value the grid will read: only add and delete do. */
  lemma {:induction false} ValueMovesOnlyByAddOrDelete(e: Editor, evs: seq<Event>)
    requires forall i :: 0 <= i < |evs| ==> !IsAddOrDelete(evs[i])
    ensures GetValue(Run(e, evs)) == GetValue(e)
    ensures Run(e, evs).options == e.options
    decreases |evs|
  {
    if |evs| > 0 {
      ValueMovesOnlyByAddOrDelete(Step(e, evs[0]), evs[1..]);
    }
  }

  /** Whatever the user does while the editor is open, the option list never
      holds the same college twice, and a selection that was empty or listed
      stays so. */
  lemma {:induction false} RunKeepsStoreInvariants(e: Editor, evs: seq<Event>)
    requires Distinct(e.options)
    ensures Distinct(Run(e, evs).options)
    ensures OptionStore.SelectionListed(e) ==> OptionStore.SelectionListed(Run(e, evs))
    decreases |evs|
  {
    if |evs| > 0 {
      RunKeepsStoreInvariants(Step(e, evs[0]), evs[1..]);
    }
  }

  /** Adding a new college and then deleting it restores the option list and
      leaves the editor with no value. */
  lemma AddThenDeleteRestores(e: Editor, text: string)
    requires Distinct(e.options) && text != "" && text !in e.options
    ensures Step(Step(Step(e, NewOption(text)), Add), Delete(text)).options == e.options
    ensures GetValue(Step(Step(Step(e, NewOption(text)), Add), Delete(text))) == ""
  {
    var added := Step(Step(e, NewOption(text)), Add);
    assert added.options == e.options + [text];
    OptionStore.DeleteRemovesPosition(added, |e.options|);
    assert added.options[..|e.options|] == e.options;
  }
}
