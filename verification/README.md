# CodeTextField: the segmented code-entry controller, modelled in Dafny

The app shows a row of single-character boxes that together act as one
verification-code input. There are two variants:

- the numeric field, `CodeTextFieldNumber` with its boxes `InputFieldNumber`;
- the character field, `CodeTextFieldCharacter` with its boxes `InputFieldCharacter`.

Each field keeps a fixed-length list of `String?` cells. All cells start as
null. The field shows the concatenation of every cell's `toString()` as its
aggregate text.

Two events drive a box:

- a candidate text arrives (`onValueChange`). It is filtered, the cell is
  updated, and the next box may be asked to take focus;
- a key is pressed (`onKeyEvent`). Backspace on an empty box asks the
  previous box to take focus.

Focus targets are the index plus or minus one, clamped with `coerceIn` to the
row.

The model takes away the UI toolkit and keeps a pure state machine. The state
is a `seq<Option<string>>`. Every event is a function that returns the new
cells and an optional index of the box asked to take focus. The aggregate
text and each box's rendering (text, cursor, placeholder) are pure functions
of the cells.

Files:

- `kotlin_std.dfy`, module `KotlinStd`: the Kotlin library behaviour the code
  relies on. This covers nullable values, `isDigitsOnly`, `toIntOrNull`,
  `Int.toString`, `Any?.toString` (null prints as `null`), `orEmpty`,
  `isNullOrEmpty` and `coerceIn`. It also proves that printing an `Int` and
  parsing it back is the identity.
- `code_field.dfy`, module `CodeField`: what both variants share. This covers
  the cells, the reaction types, the clamped focus targets, and the aggregate.
  The aggregate is given both as a function and as the source's loop.
- `number_field.dfy`, module `NumberField`: the numeric variant.
- `character_field.dfy`, module `CharacterField`: the character variant.
- `session.dfy`, module `Session`: replays a sequence of events against
  either variant. It states what typing a whole code box by box does.

Behaviour of the code that the model keeps:

- Clearing never makes a cell null again. A cleared numeric box stores the
  four-letter text `null`, which is `toString()` of a null `Int`. It parses
  back to null, so the box reads as empty. A cleared character box stores
  the empty text.
- A box that was never edited adds `null` to the aggregate in both variants.
  So does a cleared numeric box. A cleared character box adds nothing.
- Forward focus is requested for every accepted non-empty candidate. It
  ignores what the box held before.
- When the text field inserts a typed character at the cursor, typing into
  a filled box does not replace its value: the character lands after the
  existing one, which makes a two-character candidate, and both filters
  reject it. The `TypingIntoFilledBoxIgnored` lemmas state this. A
  one-character candidate, such as one that replaces a selected character,
  is still accepted and stored.
- For a cleared character box the code asks for cursor index 1 on empty
  text, because its cell is not null.
- The key handler never consumes the key: it always returns `false`.

## Model

| member | source | states |
|---|---|---|
| KotlinStd.NatToString | app/src/main/java/com/enterprise/codetextfield/MainActivity.kt:157 | The decimal text of a number is non-empty, all digits, one character long exactly for values below ten, and without a leading zero |
| KotlinStd.IntToString | app/src/main/java/com/enterprise/codetextfield/MainActivity.kt:157 | Definition of `Int.toString()`; characterised by IntToStringRoundTrip |
| KotlinStd.IsDigitsOnly | app/src/main/java/com/enterprise/codetextfield/MainActivity.kt:181 | Definition of `isDigitsOnly()` on ASCII digits, true of the empty text; characterised by NumberField.OnValueChange, which accepts the empty text and every single digit |
| KotlinStd.NullableToString | app/src/main/java/com/enterprise/codetextfield/MainActivity.kt:114 | Definition of `Any?.toString()` for a nullable string, null printing as `null`; characterised by CodeField.NullCellShowsNull and CodeField.BlankAggregate |
| KotlinStd.NullableIntToString | app/src/main/java/com/enterprise/codetextfield/MainActivity.kt:129 | Definition of `Int?.toString()`, null printing as `null`; characterised by NumberField.OnValueChange, which stores `null` for the empty candidate and the digit itself otherwise |
| KotlinStd.OrEmpty | app/src/main/java/com/enterprise/codetextfield/MainActivity.kt:157 | Definition of `orEmpty()`; characterised by NumberField.View, CharacterField.View and the NeverTypedCellView lemmas |
| KotlinStd.IsNullOrEmpty | app/src/main/java/com/enterprise/codetextfield/MainActivity.kt:335 | Definition of `isNullOrEmpty()`; characterised by CharacterField.OnKeyEvent and CharacterField.View, whose contracts spell it out as null or `""` |
| KotlinStd.ToIntOrNull | app/src/main/java/com/enterprise/codetextfield/MainActivity.kt:182 | Parsing succeeds only on non-empty text and only with a value inside the 32-bit `Int` range |
| KotlinStd.CoerceIn | app/src/main/java/com/enterprise/codetextfield/MainActivity.kt:131 | The coerced value lies in the range, equals the input when the input is inside it, and equals the nearer bound otherwise |
| KotlinStd.NatToStringValue | app/src/main/java/com/enterprise/codetextfield/MainActivity.kt:127-129 | The digits printed for a natural number denote that number (proved by induction) |
| KotlinStd.IntToStringRoundTrip | app/src/main/java/com/enterprise/codetextfield/MainActivity.kt:127-129 | Any 32-bit `Int` stored with `toString()` parses back with `toIntOrNull()` to the same value |
| KotlinStd.SingleDigitRoundTrip | app/src/main/java/com/enterprise/codetextfield/MainActivity.kt:180-182 | A one-digit candidate parses to its digit value, and that value prints back as the same one-character text |
| CodeField.Blank | app/src/main/java/com/enterprise/codetextfield/MainActivity.kt:107-109 | A freshly composed row has exactly the requested number of cells, all null |
| CodeField.ForwardTarget | app/src/main/java/com/enterprise/codetextfield/MainActivity.kt:122-131 | The forward target always names a box of the row: the next box, or the last box itself when input arrives there |
| CodeField.BackwardTarget | app/src/main/java/com/enterprise/codetextfield/MainActivity.kt:122-135 | The backward target always names a box of the row: the previous box, or the first box itself when backspace arrives there |
| CodeField.Aggregate | app/src/main/java/com/enterprise/codetextfield/MainActivity.kt:111-116 | Definition of the aggregate, each cell's `toString()` in index order; characterised by AggregateConcat, AggregateAt, BlankAggregate and FilledAggregate |
| CodeField.AggregateConcat | app/src/main/java/com/enterprise/codetextfield/MainActivity.kt:111-116 | The aggregate of two joined rows is the two aggregates joined |
| CodeField.AggregateAt | app/src/main/java/com/enterprise/codetextfield/MainActivity.kt:111-116 | Each cell's `toString()` sits in the aggregate right after the text of the cells before it and before the text of the cells after it |
| CodeField.AggregateUpdate | app/src/main/java/com/enterprise/codetextfield/MainActivity.kt:111-117 | Changing one cell changes only that cell's slice of the aggregate |
| CodeField.NullCellShowsNull | app/src/main/java/com/enterprise/codetextfield/MainActivity.kt:114 | A null cell among others leaves the literal text `null` at its offset in the aggregate |
| CodeField.BlankAggregate | app/src/main/java/com/enterprise/codetextfield/MainActivity.kt:107-116 | A never-edited row of n cells aggregates to 4n characters, `null` once per cell |
| CodeField.FilledAggregate | app/src/main/java/com/enterprise/codetextfield/MainActivity.kt:241-246 | When every cell holds one character, the aggregate has one character per cell, and these are the cells' characters in index order |
| CodeField.BuildOutput | app/src/main/java/com/enterprise/codetextfield/MainActivity.kt:111-117 | The source's accumulation loop over the cells computes exactly the aggregate |
| NumberField.ShownNumber | app/src/main/java/com/enterprise/codetextfield/MainActivity.kt:127 | Definition of the number a box is handed, `toIntOrNull()` of a non-null cell; characterised by ShownNumberOfStored |
| NumberField.Accepts | app/src/main/java/com/enterprise/codetextfield/MainActivity.kt:181 | Definition of the numeric filter, at most one character and only digits; characterised by OnValueChange |
| NumberField.OnNumberChanged | app/src/main/java/com/enterprise/codetextfield/MainActivity.kt:129-133 | Definition of the numeric `onNumberChanged` callback; characterised by OnValueChange |
| NumberField.OnValueChange | app/src/main/java/com/enterprise/codetextfield/MainActivity.kt:127-184 | Only box i can change. A candidate that is longer than one character or has a non-digit is ignored, with no focus request. A digit is stored as its own text and requests forward focus, whatever the box held. The empty text stores `null` and requests nothing |
| NumberField.OnKeyEvent | app/src/main/java/com/enterprise/codetextfield/MainActivity.kt:203-209 | Backspace requests backward focus exactly when the box's parsed number is null. The cells never change and the key is never consumed |
| NumberField.View | app/src/main/java/com/enterprise/codetextfield/MainActivity.kt:154-212 | The box shows the parsed number's `toString()`, or empty text when the cell parses to null. The requested cursor is 1 when there is a number and 0 otherwise, never past the end of the text. The `-` placeholder shows exactly when the box is unfocused and its text is empty |
| NumberField.BlankWellFormed | app/src/main/java/com/enterprise/codetextfield/MainActivity.kt:107-109 | A fresh numeric row holds only values a numeric cell can hold |
| NumberField.OnValueChangePreservesWellFormed | app/src/main/java/com/enterprise/codetextfield/MainActivity.kt:129 | After any text change, every numeric cell is still null, the text `null`, or one digit |
| NumberField.ShownNumberOfStored | app/src/main/java/com/enterprise/codetextfield/MainActivity.kt:127 | A stored numeric cell parses to null exactly when it is null or holds the text `null`. A digit cell parses to that digit |
| NumberField.DeleteRetreatsOnEmpty | app/src/main/java/com/enterprise/codetextfield/MainActivity.kt:203-209 | On a reachable row, backspace requests the previous box exactly when the box is null or cleared |
| NumberField.ClearedCellReadsEmpty | app/src/main/java/com/enterprise/codetextfield/MainActivity.kt:127-130 | After clearing, the box parses to null and renders empty text with cursor 0, with the placeholder when unfocused. The aggregate shows `null` in its place |
| NumberField.DigitCellView | app/src/main/java/com/enterprise/codetextfield/MainActivity.kt:154-163 | A box holding a digit renders exactly that digit, with the cursor after it and no placeholder |
| NumberField.NeverTypedCellView | app/src/main/java/com/enterprise/codetextfield/MainActivity.kt:154-163 | A box never typed into renders empty text with cursor 0, and the placeholder when unfocused |
| NumberField.ValueChangeAggregate | app/src/main/java/com/enterprise/codetextfield/MainActivity.kt:111-133 | After a text change, the aggregate holds the accepted digit in box i's place, or `null` for an accepted empty text. After a rejected candidate it is unchanged |
| NumberField.TypingIntoFilledBoxIgnored | app/src/main/java/com/enterprise/codetextfield/MainActivity.kt:154-184 | Inserting a character at the cursor of a digit box gives a candidate that is rejected, so the row is unchanged and no focus is requested |
| CharacterField.Accepts | app/src/main/java/com/enterprise/codetextfield/MainActivity.kt:309 | Definition of the character filter, at most one character; characterised by OnValueChange |
| CharacterField.OnCharacterChanged | app/src/main/java/com/enterprise/codetextfield/MainActivity.kt:259-262 | Definition of the character `onNumberChanged` callback; characterised by OnValueChange |
| CharacterField.OnValueChange | app/src/main/java/com/enterprise/codetextfield/MainActivity.kt:257-313 | Only box i can change. A candidate of at most one character is stored verbatim, and the empty text is stored as `""`. Forward focus is requested exactly when the candidate is accepted and non-empty. Longer candidates are ignored |
| CharacterField.OnKeyEvent | app/src/main/java/com/enterprise/codetextfield/MainActivity.kt:333-339 | Backspace requests backward focus exactly when the cell is null or empty. The cells never change and the key is never consumed |
| CharacterField.View | app/src/main/java/com/enterprise/codetextfield/MainActivity.kt:282-342 | The box renders its cell's text, or empty text when the cell is null. The requested cursor is 1 when the cell is not null and 0 when it is null. The placeholder shows exactly when the box is unfocused and its text is empty |
| CharacterField.NeverTypedCellView | app/src/main/java/com/enterprise/codetextfield/MainActivity.kt:282-291 | A box never typed into renders empty text with cursor 0, and the placeholder when unfocused |
| CharacterField.OnValueChangePreservesWellFormed | app/src/main/java/com/enterprise/codetextfield/MainActivity.kt:307-313 | After any text change, every character cell is still null or at most one character long |
| CharacterField.ClearedCellView | app/src/main/java/com/enterprise/codetextfield/MainActivity.kt:259-264 | A cleared character box renders empty text, the code requests cursor index 1 for it, and it shows the placeholder when unfocused. It adds nothing to the aggregate, and backspace there requests the previous box |
| CharacterField.ValueChangeAggregate | app/src/main/java/com/enterprise/codetextfield/MainActivity.kt:241-263 | After a text change, the aggregate holds the accepted candidate verbatim in box i's place. After a rejected candidate it is unchanged |
| CharacterField.TypingIntoFilledBoxIgnored | app/src/main/java/com/enterprise/codetextfield/MainActivity.kt:282-313 | Inserting a character at the cursor of a one-character box gives a candidate that is rejected, so the row is unchanged |
| Session.Step | app/src/main/java/com/enterprise/codetextfield/MainActivity.kt:125-136 | Any event keeps the row length. A focus request always names an existing box: the clamped next or previous neighbour of the event's box |
| Session.Run | app/src/main/java/com/enterprise/codetextfield/MainActivity.kt:255-265 | Replaying any events keeps the row length and issues at most one focus request per event, each naming an existing box |
| Session.StepPreservesReachable | app/src/main/java/com/enterprise/codetextfield/MainActivity.kt:129 | One event keeps the variant's cell invariant: numeric cells stay null, `null` or one digit, character cells stay null or at most one character |
| Session.RunPreservesReachable | app/src/main/java/com/enterprise/codetextfield/MainActivity.kt:125-135 | Any run of events keeps the variant's cell invariant (proved by induction) |
| Session.BlankReachable | app/src/main/java/com/enterprise/codetextfield/MainActivity.kt:107-109 | A fresh row of either variant satisfies the cell invariant |
| Session.ReachedDeleteRetreatsOnEmpty | app/src/main/java/com/enterprise/codetextfield/MainActivity.kt:203-209 | On any row reached from a fresh numeric row by any events, backspace requests the previous box exactly when the box is null or holds `null` |
| Session.TypeOne | app/src/main/java/com/enterprise/codetextfield/MainActivity.kt:127-133 | Typing an acceptable character into any box stores it there and requests the next box |
| Session.TypePrefix | app/src/main/java/com/enterprise/codetextfield/MainActivity.kt:125-133 | After typing the first m characters of a code box by box, those boxes hold the characters and the rest are still null. The requests are the forward targets of boxes 0 to m-1 (proved by induction) |
| Session.TypeWholeCode | app/src/main/java/com/enterprise/codetextfield/MainActivity.kt:111-133 | Typing a whole code into a fresh row makes the aggregate exactly that code. Focus moves to box k+1 after box k, and the last box requests itself |
| Session.FourDigitScenario | app/src/main/java/com/enterprise/codetextfield/MainActivity.kt:83 | In the four-box numeric field, typing 1, 2, 3, 9 gives the aggregate `1239`, and the last request targets box 3 |

## Left out

- Layout, styling and scaffolding are not modelled: `MainActivity.onCreate`, `CodeTextFieldApp`, rows, boxes, colours, sizes, keyboard options and string resources. They have no behaviour to state.
- The focus system is not modelled. A `FocusRequester.requestFocus()` call becomes the index in the returned reaction. Whether focus actually moves is up to the toolkit. `isFocused` is an input to the rendering functions only. Both `onFocusChanged` callbacks passed in are empty.
- Recomposition and `remember` timing are not modelled. The aggregate is treated as a pure function of the cells, although the source assigns it during composition.
- The text field's own editing is not modelled. A candidate text is an input to `OnValueChange`. Only the `TypingIntoFilledBoxIgnored` lemmas assume that a typed character is inserted at the cursor.
- The model does not fix the order of `onKeyEvent` and `onValueChange` for one physical backspace. Each is a separate event.
- A `KeyPress` event is one call of the key handler, not one physical press. The handler tests only the key code, so it runs for both key down and key up. Which box receives the key up depends on where the key down's focus request moved focus; the model leaves that to the event sequence, and the focus system that decides it is not modelled.
- CharacterField.View: the cursor in a `CellView` is the index the code passes to `TextRange`. The text field limits a selection to the text's length, so on a cleared character box the field actually holds cursor 0 while the code asks for 1. That limit belongs to the toolkit and is not modelled.
- Unicode is not modelled. `isDigitsOnly` and `toIntOrNull` also accept non-ASCII decimal digits, and `length` counts UTF-16 code units. The model uses `seq<char>` with ASCII digits.
- KotlinStd.CoerceIn: requires `lo <= hi`, where Kotlin throws. Every caller has an index inside a non-empty row, so the throw cannot happen.
- A negative row length is not modelled: it makes `List(n)` throw. A row of length 0 has no boxes, so no events reach it.
- MainViewModel.kt is not modelled. It holds only field declarations, and nothing in MainActivity.kt uses them.
