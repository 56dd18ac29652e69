/** The two one-click cell renderers of the student table: the age stepper and
    the presence switch. Each click reads the cell's current value and issues a
    single grid write to the renderer's own column; there is no editing session. */
module CellAdjusters {
  import opened Optional
  import opened Grid

  /** `value || 0`: an absent age (undefined or null) counts as 0. */
  function AgeOrZero(value: Option<int>): int {
    value.GetOr(0)
  }

  /** The minus (delta -1) and plus (delta +1) buttons: the age moved by `delta`
      and floored at zero, written to the column's field. */
  function UpdateAge(value: Option<int>, field: string, delta: int): (w: GridWrite<int>)
    ensures w.field == field
    ensures w.value >= 0
    ensures w.value >= AgeOrZero(value) + delta
    ensures w.value == AgeOrZero(value) + delta || w.value == 0
  {
    var moved := AgeOrZero(value) + delta;
    SetDataValue(field, if moved < 0 then 0 else moved)
  }

  /** The stepper's edge cases: minus at 0 (or on a missing age) stays at 0,
      plus from any non-negative age adds one, and a missing age behaves as 0. */
  lemma UpdateAgeEdges(n: int, field: string, delta: int)
    ensures UpdateAge(Some(0), field, -1).value == 0
    ensures UpdateAge(None, field, -1).value == 0
    ensures n >= 0 ==> UpdateAge(Some(n), field, 1).value == n + 1
    ensures UpdateAge(None, field, delta) == UpdateAge(Some(0), field, delta)
  {
  }

  /** The age after a series of clicks, each one re-reading the age the
      previous click wrote. */
  function Clicks(age: int, field: string, deltas: seq<int>): int
    decreases |deltas|
  {
    if |deltas| == 0 then age
    else Clicks(UpdateAge(Some(age), field, deltas[0]).value, field, deltas[1..])
  }

  function Repeat(delta: int, k: nat): (r: seq<int>)
    ensures |r| == k && forall i :: 0 <= i < k ==> r[i] == delta
  {
    if k == 0 then [] else [delta] + Repeat(delta, k - 1)
  }

  /** Pressing minus `k` times from a non-negative age ends at `age - k`, or at 0
      once the age has run out; pressing plus `k` times ends at `age + k`. */
  lemma {:induction false} RepeatedClicks(age: int, field: string, k: nat)
    requires age >= 0
    ensures Clicks(age, field, Repeat(-1, k)) == if age >= k then age - k else 0
    ensures Clicks(age, field, Repeat(1, k)) == age + k
    decreases k
  {
    if k > 0 {
      var down := Repeat(-1, k);
      assert down[1..] == Repeat(-1, k - 1);
      var up := Repeat(1, k);
      assert up[1..] == Repeat(1, k - 1);
      RepeatedClicks(if age > 0 then age - 1 else 0, field, k - 1);
      RepeatedClicks(age + 1, field, k - 1);
    }
  }

  /** The presence switch as the renderer has it: it writes back the value it
      read, so the cell keeps its value. */
  function Toggle(value: bool, field: string): (w: GridWrite<bool>)
    ensures w.field == field
    ensures w.value == value
  {
    SetDataValue(field, value)
  }

  function Toggles(value: bool, field: string, clicks: nat): bool
    decreases clicks
  {
    if clicks == 0 then value else Toggles(Toggle(value, field).value, field, clicks - 1)
  }

  /** However often the switch is clicked, the cell never changes. */
  lemma {:induction false} ToggleNeverChangesCell(value: bool, field: string, clicks: nat)
    ensures Toggles(value, field, clicks) == value
    decreases clicks
  {
    if clicks > 0 {
      ToggleNeverChangesCell(Toggle(value, field).value, field, clicks - 1);
    }
  }

  /** The switch as evidently intended: it writes the negation of what it read. */
  function ToggleCorrected(value: bool, field: string): (w: GridWrite<bool>)
    ensures w.field == field
    ensures w.value != value
  {
    SetDataValue(field, !value)
  }

  function TogglesCorrected(value: bool, field: string, clicks: nat): bool
    decreases clicks
  {
    if clicks == 0 then value else TogglesCorrected(ToggleCorrected(value, field).value, field, clicks - 1)
  }

  /** With the corrected switch the cell shows the read value after an even
      number of clicks and its negation after an odd number. */
  lemma {:induction false} CorrectedToggleAlternates(value: bool, field: string, clicks: nat)
    ensures TogglesCorrected(value, field, clicks) == (if clicks % 2 == 0 then value else !value)
    decreases clicks
  {
    if clicks > 0 {
      CorrectedToggleAlternates(!value, field, clicks - 1);
    }
  }
}
