/**
 The character code field, `CodeTextFieldCharacter` with its boxes
 `InputFieldCharacter`. A box is handed its cell as is, accepts any
 candidate text of at most one character and stores it verbatim, so a
 cleared box holds the empty text rather than null.
 */
module CharacterField {
  import opened KotlinStd
  import opened CodeField

  /** The filter of `onValueChange`: at most one character. */
  predicate Accepts(candidate: string) {
    |candidate| <= 1
  }

  /**
   `onNumberChanged` of box `i`: store `character.toString()` and, when the
   text is neither null nor empty, ask the next box to take focus.
   */
  function OnCharacterChanged(cells: Cells, i: nat, character: Option<string>): Reaction
    requires i < |cells|
  {
    Reaction(
      cells[i := Some(NullableToString(character))],
      if !IsNullOrEmpty(character) then Some(ForwardTarget(|cells|, i)) else None)
  }

  /**
   A candidate text arrives at box `i`. A text of at most one character is
   stored verbatim in box `i` alone, and asks the next box to take focus
   exactly when it is not empty; a longer text is ignored.
   */
  function OnValueChange(cells: Cells, i: nat, candidate: string): (r: Reaction)
    requires i < |cells|
    ensures |r.cells| == |cells|
    ensures forall k :: 0 <= k < |cells| && k != i ==> r.cells[k] == cells[k]
    ensures !Accepts(candidate) ==> r == Reaction(cells, None)
    ensures Accepts(candidate) ==> r.cells[i] == Some(candidate)
    ensures r.focus.Some? <==> Accepts(candidate) && candidate != ""
    ensures r.focus.Some? ==> r.focus.value == ForwardTarget(|cells|, i)
  {
    if |candidate| <= 1 then OnCharacterChanged(cells, i, Some(candidate)) else Reaction(cells, None)
  }

  /**
   A key event on box `i`: backspace on a box that is null or empty asks the
   previous box to take focus. The cells never change and the key is never
   consumed.
   */
  function OnKeyEvent(cells: Cells, i: nat, keyCode: int): (r: KeyReaction)
    requires i < |cells|
    ensures r.cells == cells && !r.consumed
    ensures r.focus.Some? <==> keyCode == KEYCODE_DEL && (cells[i] == None || cells[i] == Some(""))
    ensures r.focus.Some? ==> r.focus.value == BackwardTarget(|cells|, i)
  {
    var focus := if keyCode == KEYCODE_DEL && IsNullOrEmpty(cells[i]) then Some(BackwardTarget(|cells|, i)) else None;
    KeyReaction(cells, focus, false)
  }

  /**
   How box `i` renders: `inputCharacter.orEmpty()`, with the cursor at 1
   whenever the cell is not null, and the `-` placeholder when it is
   unfocused and its text empty.
   */
  function View(cells: Cells, i: nat, isFocused: bool): (v: CellView)
    requires i < |cells|
    ensures v.text == if cells[i].Some? then cells[i].value else ""
    ensures v.cursor == if cells[i].Some? then 1 else 0
    ensures v.placeholder <==> !isFocused && v.text == ""
  {
    var cell := cells[i];
    CellView(OrEmpty(cell), if cell != None then 1 else 0, !isFocused && IsNullOrEmpty(cell))
  }

  /** Every cell is null or holds at most one character. */
  predicate WellFormed(cells: Cells) {
    forall k :: 0 <= k < |cells| ==> cells[k].None? || |cells[k].value| <= 1
  }

  /** Every text change keeps the row well formed. */
  lemma OnValueChangePreservesWellFormed(cells: Cells, i: nat, candidate: string)
    requires i < |cells| && WellFormed(cells)
    ensures WellFormed(OnValueChange(cells, i, candidate).cells)
  {
  }

  /** A box never typed into renders empty text with the cursor at 0, and the placeholder when unfocused. */
  lemma NeverTypedCellView(cells: Cells, i: nat, isFocused: bool)
    requires i < |cells| && cells[i].None?
    ensures View(cells, i, isFocused) == CellView("", 0, !isFocused)
  {
  }

  /**
   Clearing box `i` stores the empty text: the box renders empty but the
   code still asks for cursor index 1, shows the placeholder when unfocused, adds nothing to the
   aggregate, and a later backspace there asks the previous box to take focus.
   */
  lemma ClearedCellView(cells: Cells, i: nat, isFocused: bool)
    requires i < |cells|
    ensures var r := OnValueChange(cells, i, "");
      && View(r.cells, i, isFocused) == CellView("", 1, !isFocused)
      && Aggregate(r.cells) == Aggregate(cells[..i]) + Aggregate(cells[i + 1..])
      && OnKeyEvent(r.cells, i, KEYCODE_DEL).focus == Some(BackwardTarget(|cells|, i))
  {
    AggregateUpdate(cells, i, Some(""));
  }

  /**
   The aggregate after a text change: an accepted text takes box `i`'s place
   verbatim, and anything else leaves the aggregate as it was.
   */
  lemma {:induction false} ValueChangeAggregate(cells: Cells, i: nat, candidate: string)
    requires i < |cells|
    ensures Aggregate(OnValueChange(cells, i, candidate).cells) ==
      if Accepts(candidate) then Aggregate(cells[..i]) + candidate + Aggregate(cells[i + 1..])
      else Aggregate(cells)
  {
    if Accepts(candidate) {
      AggregateUpdate(cells, i, Some(candidate));
    }
  }

  /**
   Typing one more character into a box that shows one: the text field
   inserts it at the cursor, which gives a two-character candidate, and the
   filter ignores it.
   */
  lemma TypingIntoFilledBoxIgnored(cells: Cells, i: nat, isFocused: bool, c: char)
    requires i < |cells| && cells[i].Some? && |cells[i].value| == 1
    ensures var v := View(cells, i, isFocused);
      OnValueChange(cells, i, v.text[..v.cursor] + [c] + v.text[v.cursor..]) == Reaction(cells, None)
  {
  }
}
