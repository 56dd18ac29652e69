/** The editable option list shared by the two college cell editors: an ordered,
    duplicate-free list of names, the value the editor will hand back to the grid,
    and the text typed into the "add a college" field. */
module OptionStore {
  import opened Sequences

  /** The four college names both editors start from. */
  const Colleges: seq<string> := ["IIT", "NIT", "BITS Pilani", "IIIT"]

  /** `pending` is the add-field text: `inputValue` in the autocomplete editor,
      `newOption` in the select editor. */
  datatype Store = Store(options: seq<string>, value: string, pending: string)

  /** The selection is empty or one of the listed options. Neither editor
      enforces this on entry (the autocomplete accepts free text and the select
      starts from the cell's value), but adding and deleting keep it. */
  predicate SelectionListed(s: Store) {
    s.value == "" || s.value in s.options
  }

  lemma CollegesDistinct()
    ensures Distinct(Colleges) && |Colleges| == 4
  {
  }

  /** The add button: an empty or already listed text is ignored; otherwise it is
      appended, becomes the selection, and the add field is cleared. */
  function Add(s: Store): (r: Store)
    ensures s.pending == "" || s.pending in s.options ==> r == s
    ensures s.pending != "" && s.pending !in s.options ==>
              && r.options == s.options + [s.pending]
              && r.value == s.pending
              && r.pending == ""
    ensures Distinct(s.options) ==> Distinct(r.options)
    ensures SelectionListed(s) ==> SelectionListed(r)
    ensures forall o :: o in r.options <==> o in s.options || o == s.pending != ""
  {
    if s.pending != "" && s.pending !in s.options then
      var r := Store(s.options + [s.pending], s.pending, "");
      assert Distinct(s.options) ==> Distinct(r.options) by {
        if Distinct(s.options) {
          forall i, j | 0 <= i < j < |r.options| ensures r.options[i] != r.options[j] {
            if j == |s.options| {
              assert r.options[i] == s.options[i];
            }
          }
        }
      }
      r
    else
      s
  }

  /** The delete icon of an option: every occurrence of it leaves the list, and
      the selection is cleared exactly when it was that option. */
  function Delete(s: Store, option: string): (r: Store)
    ensures option !in r.options
    ensures forall o :: o in r.options <==> o in s.options && o != option
    ensures r.value == "" <==> s.value == option || s.value == ""
    ensures r.value != "" ==> r.value == s.value
    ensures r.pending == s.pending
    ensures Distinct(s.options) ==> Distinct(r.options)
    ensures SelectionListed(s) ==> SelectionListed(r)
  {
    assert Distinct(s.options) ==> Distinct(RemoveAll(s.options, option)) by {
      if Distinct(s.options) {
        RemoveAllKeepsDistinct(s.options, option);
      }
    }
    Store(RemoveAll(s.options, option), if s.value == option then "" else s.value, s.pending)
  }

  /** Deleting a listed option of a duplicate-free list removes exactly its
      position and keeps the other options in order. */
  lemma DeleteRemovesPosition(s: Store, k: nat)
    requires Distinct(s.options) && k < |s.options|
    ensures Delete(s, s.options[k]).options == s.options[..k] + s.options[k + 1..]
  {
    RemoveAllOfDistinctIsSplice(s.options, k);
  }

  /** Deleting the selected option always leaves the editor reporting no value. */
  lemma DeleteSelectedClearsValue(s: Store)
    ensures Delete(s, s.value).value == ""
  {
  }

  /** Typing a text and pressing add twice in a row adds it once: the second
      press finds it listed (or the field empty) and changes nothing. */
  lemma AddTwiceIsAddOnce(s: Store, text: string)
    ensures Add(Add(s.(pending := text)).(pending := text)).options == Add(s.(pending := text)).options
  {
  }

  /** Typing each text of `texts` in turn and pressing add after each. */
  function AddEach(s: Store, texts: seq<string>): Store
    decreases |texts|
  {
    if |texts| == 0 then s
    else AddEach(Add(s.(pending := texts[0])), texts[1..])
  }

  /** Adding distinct, non-empty, not yet listed texts one after another lists
      each exactly once, after the old options and in the order added, and
      selects the last one. */
  lemma {:induction false} AddEachAppends(s: Store, texts: seq<string>)
    requires Distinct(texts)
    requires forall i :: 0 <= i < |texts| ==> texts[i] != "" && texts[i] !in s.options
    ensures AddEach(s, texts).options == s.options + texts
    ensures |texts| > 0 ==> AddEach(s, texts).value == texts[|texts| - 1]
    ensures |texts| == 0 ==> AddEach(s, texts) == s
    decreases |texts|
  {
    if |texts| > 0 {
      var s1 := Add(s.(pending := texts[0]));
      assert s1.options == s.options + [texts[0]];
      var rest := texts[1..];
      DistinctTail(texts);
      forall i | 0 <= i < |rest| ensures rest[i] != "" && rest[i] !in s1.options {
        assert rest[i] == texts[i + 1];
      }
      AddEachAppends(s1, rest);
      assert s1.options + rest == s.options + texts;
      if |rest| == 0 {
        assert AddEach(s1, rest) == s1;
      } else {
        assert rest[|rest| - 1] == texts[|texts| - 1];
      }
    }
  }
}
