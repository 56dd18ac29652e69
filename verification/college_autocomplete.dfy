/** The college cell editor built on a free-solo Autocomplete: the option store
    plus a selection that accepts any text, listed or not. */
module CollegeAutocomplete {
  import opened Optional
  import opened Sequences
  import OptionStore

  type Editor = OptionStore.Store

  /** What the Autocomplete passes to its change handler: a string (a listed
      option or, in free-solo mode, any typed text) or a non-string (null when
      the field is cleared). */
  datatype Picked = Text(text: string) | NotText

  /** The user interactions the editor handles while it is open. */
  datatype Event = Add | Delete(option: string) | Change(picked: Picked) | Input(text: string)

  /** The editor opened on a cell: the cell's value, or "" when it has none,
      over the four default colleges, with an empty add field. */
  function Init(cellValue: Option<string>): (e: Editor)
    ensures e.options == OptionStore.Colleges && Distinct(e.options)
    ensures cellValue.Some? ==> e.value == cellValue.value
    ensures cellValue.None? ==> e.value == ""
    ensures e.pending == ""
  {
    OptionStore.CollegesDistinct();
    OptionStore.Store(OptionStore.Colleges, cellValue.GetOr(""), "")
  }

  /** The handle the grid polls when editing stops: whenever it is called it
      reports the current selection, free text included. */
  function GetValue(e: Editor): (v: string)
    ensures v == e.value
  {
    e.value
  }

  /** Choosing or typing a selection: any string is taken as the value, even one
      that is not among the options; anything else is ignored. */
  function OnChange(e: Editor, picked: Picked): (r: Editor)
    ensures r.options == e.options && r.pending == e.pending
    ensures picked.Text? ==> GetValue(r) == picked.text
    ensures picked.NotText? ==> r == e
  {
    match picked
    case Text(t) => e.(value := t)
    case NotText => e
  }

  /** One interaction: the add button, an option's delete icon, the
      Autocomplete's change handler, or its input-change handler, which only
      records the typed text. */
  function Step(e: Editor, ev: Event): (r: Editor)
    ensures ev.Input? ==> r == e.(pending := ev.text)
    ensures ev.Change? ==> r.options == e.options && r.pending == e.pending
    ensures Distinct(e.options) ==> Distinct(r.options)
  {
    match ev
    case Add => OptionStore.Add(e)
    case Delete(o) => OptionStore.Delete(e, o)
    case Change(p) => OnChange(e, p)
    case Input(t) => e.(pending := t)
  }

  function Run(e: Editor, evs: seq<Event>): Editor
    decreases |evs|
  {
    if |evs| == 0 then e else Run(Step(e, evs[0]), evs[1..])
  }

  /** Whatever the user does while the editor is open, the option list never
      holds the same college twice. */
  lemma {:induction false} RunKeepsOptionsDistinct(e: Editor, evs: seq<Event>)
    requires Distinct(e.options)
    ensures Distinct(Run(e, evs).options)
    decreases |evs|
  {
    if |evs| > 0 {
      RunKeepsOptionsDistinct(Step(e, evs[0]), evs[1..]);
    }
  }

  /** After a successful add the grid reads the added college, and after
      deleting the selected college it reads "". */
  lemma GetValueFollowsAddAndDelete(e: Editor, option: string)
    ensures e.pending != "" && e.pending !in e.options ==> GetValue(OptionStore.Add(e)) == e.pending
    ensures GetValue(OptionStore.Delete(e, e.value)) == ""
    ensures option != e.value ==> GetValue(OptionStore.Delete(e, option)) == GetValue(e)
  {
  }
}
