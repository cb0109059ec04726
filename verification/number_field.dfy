/**
 The numeric code field, `CodeTextFieldNumber` with its boxes
 `InputFieldNumber`. A box is handed the number its cell parses to, accepts
 a candidate text only when it is at most one digit, and stores
 `number.toString()`, so a cleared box holds the four letters `null`.
 */
module NumberField {
  import opened KotlinStd
  import opened CodeField

  /** The number box `i` is handed: `digits[index].value?.toIntOrNull()`. */
  function ShownNumber(cell: Cell): Option<int> {
    match cell
    case None => None
    case Some(s) => ToIntOrNull(s)
  }

  /** The filter of `onValueChange`: at most one character, and only digits. */
  predicate Accepts(candidate: string) {
    |candidate| <= 1 && IsDigitsOnly(candidate)
  }

  /**
   `onNumberChanged` of box `i`: store `number.toString()` and, when the
   number is not null, ask the next box to take focus.
   */
  function OnNumberChanged(cells: Cells, i: nat, number: Option<int>): Reaction
    requires i < |cells|
  {
    Reaction(
      cells[i := Some(NullableIntToString(number))],
      if number.Some? then Some(ForwardTarget(|cells|, i)) else None)
  }

  /**
   A candidate text arrives at box `i`. An accepted digit is stored as its own
   text and asks the next box to take focus, whatever the box held before; an
   accepted empty text stores `null` and asks for nothing; anything else is
   ignored.
   */
  function OnValueChange(cells: Cells, i: nat, candidate: string): (r: Reaction)
    requires i < |cells|
    ensures |r.cells| == |cells|
    ensures forall k :: 0 <= k < |cells| && k != i ==> r.cells[k] == cells[k]
    ensures !Accepts(candidate) ==> r == Reaction(cells, None)
    ensures Accepts(candidate) && candidate != "" ==>
      r.cells[i] == Some(candidate) && r.focus == Some(ForwardTarget(|cells|, i))
    ensures candidate == "" ==> r.cells[i] == Some("null") && r.focus.None?
  {
    if |candidate| <= 1 && IsDigitsOnly(candidate) then
      if candidate == "" then
        OnNumberChanged(cells, i, ToIntOrNull(candidate))
      else
        SingleDigitRoundTrip(candidate[0]);
        assert candidate == [candidate[0]];
        OnNumberChanged(cells, i, ToIntOrNull(candidate))
    else
      Reaction(cells, None)
  }

  /**
   A key event on box `i`: backspace on a box whose number is null asks the
   previous box to take focus. The cells never change and the key is never
   consumed.
   */
  function OnKeyEvent(cells: Cells, i: nat, keyCode: int): (r: KeyReaction)
    requires i < |cells|
    ensures r.cells == cells && !r.consumed
    ensures r.focus.Some? <==> keyCode == KEYCODE_DEL && ShownNumber(cells[i]).None?
    ensures r.focus.Some? ==> r.focus.value == BackwardTarget(|cells|, i)
  {
    var number := ShownNumber(cells[i]);
    var focus := if keyCode == KEYCODE_DEL && number == None then Some(BackwardTarget(|cells|, i)) else None;
    KeyReaction(cells, focus, false)
  }

  /**
   How box `i` renders: `number?.toString().orEmpty()` with the cursor after
   the text, and the `-` placeholder when it is neither focused nor holding a
   number. The placeholder shows exactly when the box is unfocused and its
   text is empty.
   */
  function View(cells: Cells, i: nat, isFocused: bool): (v: CellView)
    requires i < |cells|
    ensures v.text == if ShownNumber(cells[i]).Some? then IntToString(ShownNumber(cells[i]).value) else ""
    ensures v.cursor == if ShownNumber(cells[i]).Some? then 1 else 0
    ensures v.cursor <= |v.text|
    ensures v.placeholder <==> !isFocused && v.text == ""
  {
    var number := ShownNumber(cells[i]);
    var text := OrEmpty(if number.Some? then Some(IntToString(number.value)) else None);
    CellView(text, if number != None then 1 else 0, !isFocused && number == None)
  }

  /** The values a numeric cell can hold: null, the text `null`, or one digit. */
  predicate StoredValue(c: Cell) {
    c == None || c == Some("null") || (c.Some? && |c.value| == 1 && IsAsciiDigit(c.value[0]))
  }

  /** Every cell of the row holds a value a numeric cell can hold. */
  predicate WellFormed(cells: Cells) {
    forall k :: 0 <= k < |cells| ==> StoredValue(cells[k])
  }

  /** The row as first composed is well formed. */
  lemma BlankWellFormed(n: nat)
    ensures WellFormed(Blank(n))
  {
  }

  /** Every text change keeps the row well formed. */
  lemma OnValueChangePreservesWellFormed(cells: Cells, i: nat, candidate: string)
    requires i < |cells| && WellFormed(cells)
    ensures WellFormed(OnValueChange(cells, i, candidate).cells)
  {
  }

  /**
   A stored cell reads back as empty exactly when it is null or was cleared,
   and a digit cell reads back as that digit.
   */
  lemma ShownNumberOfStored(c: Cell)
    requires StoredValue(c)
    ensures ShownNumber(c).None? <==> c == None || c == Some("null")
    ensures c.Some? && c != Some("null") ==> ShownNumber(c) == Some(DigitValue(c.value[0]))
  {
    if c.Some? && c != Some("null") {
      assert c.value == [c.value[0]];
      SingleDigitRoundTrip(c.value[0]);
    } else if c == Some("null") {
      assert !IsAsciiDigit(c.value[0]);
    }
  }

  /**
   On a well-formed row, backspace asks the previous box to take focus exactly
   when box `i` is null or cleared.
   */
  lemma DeleteRetreatsOnEmpty(cells: Cells, i: nat, keyCode: int)
    requires i < |cells| && WellFormed(cells)
    ensures OnKeyEvent(cells, i, keyCode).focus ==
      if keyCode == KEYCODE_DEL && (cells[i] == None || cells[i] == Some("null"))
      then Some(BackwardTarget(|cells|, i)) else None
  {
    ShownNumberOfStored(cells[i]);
  }

  /**
   Clearing box `i` stores the text `null`: the box then renders empty, with
   the cursor at 0 and the placeholder when unfocused, and the aggregate shows
   `null` in its place.
   */
  lemma ClearedCellReadsEmpty(cells: Cells, i: nat, isFocused: bool)
    requires i < |cells|
    ensures var r := OnValueChange(cells, i, "");
      && ShownNumber(r.cells[i]).None?
      && View(r.cells, i, isFocused) == CellView("", 0, !isFocused)
      && Aggregate(r.cells) == Aggregate(cells[..i]) + "null" + Aggregate(cells[i + 1..])
  {
    var r := OnValueChange(cells, i, "");
    ShownNumberOfStored(r.cells[i]);
    AggregateUpdate(cells, i, Some("null"));
  }

  /** A box never typed into renders empty text with the cursor at 0, and the placeholder when unfocused. */
  lemma NeverTypedCellView(cells: Cells, i: nat, isFocused: bool)
    requires i < |cells| && cells[i].None?
    ensures View(cells, i, isFocused) == CellView("", 0, !isFocused)
  {
  }

  /** A box holding a digit renders that digit, with the cursor after it and no placeholder. */
  lemma DigitCellView(cells: Cells, i: nat, isFocused: bool)
    requires i < |cells| && cells[i].Some? && |cells[i].value| == 1 && IsAsciiDigit(cells[i].value[0])
    ensures View(cells, i, isFocused) == CellView(cells[i].value, 1, false)
  {
    var s := cells[i].value;
    assert s == [s[0]];
    SingleDigitRoundTrip(s[0]);
  }

  /**
   The aggregate after a text change: an accepted digit appears in box `i`'s
   place, an accepted empty text leaves `null` there, and anything else leaves
   the aggregate as it was.
   */
  lemma {:induction false} ValueChangeAggregate(cells: Cells, i: nat, candidate: string)
    requires i < |cells|
    ensures Aggregate(OnValueChange(cells, i, candidate).cells) ==
      if !Accepts(candidate) then Aggregate(cells)
      else Aggregate(cells[..i]) + (if candidate == "" then "null" else candidate) + Aggregate(cells[i + 1..])
  {
    if Accepts(candidate) {
      AggregateUpdate(cells, i, Some(if candidate == "" then "null" else candidate));
    }
  }

  /**
   Typing one more character into a box that already shows a digit: the text
   field inserts it at the cursor, which gives a two-character candidate, and
   the filter ignores it.
   */
  lemma TypingIntoFilledBoxIgnored(cells: Cells, i: nat, isFocused: bool, c: char)
    requires i < |cells| && cells[i].Some? && |cells[i].value| == 1 && IsAsciiDigit(cells[i].value[0])
    ensures var v := View(cells, i, isFocused);
      OnValueChange(cells, i, v.text[..v.cursor] + [c] + v.text[v.cursor..]) == Reaction(cells, None)
  {
    DigitCellView(cells, i, isFocused);
  }
}
