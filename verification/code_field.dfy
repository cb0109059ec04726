/**
 What the two code-entry variants share: a fixed-length row of nullable
 string cells, the reactions an event produces (new cells plus an optional
 focus request), the clamped focus targets, and the aggregate string that
 concatenates every cell's `toString()`.
 */
module CodeField {
  import opened KotlinStd

  /** One box of the row: `MutableState<String?>`, null until first edited. */
  type Cell = Option<string>

  type Cells = seq<Cell>

  /** `KeyEvent.KEYCODE_DEL`, the Android backspace key. */
  const KEYCODE_DEL: int := 67

  /** What a text-change event leaves behind: the cells and the box asked to take focus. */
  datatype Reaction = Reaction(cells: Cells, focus: Option<nat>)

  /**
   What a key event leaves behind: the cells, the box asked to take focus,
   and whether the handler consumed the key.
   */
  datatype KeyReaction = KeyReaction(cells: Cells, focus: Option<nat>, consumed: bool)

  /**
   How one box renders: its text, the cursor index the code asks for, and
   whether the `-` placeholder shows. The index is the one passed to
   `TextRange`, before the text field limits it to the text's length.
   */
  datatype CellView = CellView(text: string, cursor: nat, placeholder: bool)

  /** The row as first composed: `n` cells, all null. */
  function Blank(n: nat): (cells: Cells)
    ensures |cells| == n
    ensures forall k :: 0 <= k < n ==> cells[k].None?
  {
    seq(n, _ => None)
  }

  /** Box asked to take focus after input in box `i`: `(i + 1).coerceIn(0, n - 1)`. */
  function ForwardTarget(n: nat, i: nat): (t: nat)
    requires i < n
    ensures t < n
    ensures i + 1 < n ==> t == i + 1
    ensures i + 1 == n ==> t == i
  {
    CoerceIn(i + 1, 0, n - 1)
  }

  /** Box asked to take focus after backspace in box `i`: `(i - 1).coerceIn(0, n - 1)`. */
  function BackwardTarget(n: nat, i: nat): (t: nat)
    requires i < n
    ensures t < n
    ensures 0 < i ==> t == i - 1
    ensures i == 0 ==> t == 0
  {
    CoerceIn(i - 1, 0, n - 1)
  }

  /** The aggregate value: every cell's `toString()`, in index order. */
  function Aggregate(cells: Cells): string {
    if |cells| == 0 then "" else Aggregate(cells[..|cells| - 1]) + NullableToString(cells[|cells| - 1])
  }

  /** The aggregate of a row split in two is the two aggregates joined. */
  lemma {:induction false} AggregateConcat(a: Cells, b: Cells)
    ensures Aggregate(a + b) == Aggregate(a) + Aggregate(b)
    decreases |b|
  {
    if |b| == 0 {
      assert a + b == a;
    } else {
      var b' := b[..|b| - 1];
      assert (a + b)[..|a + b| - 1] == a + b';
      AggregateConcat(a, b');
    }
  }

  /**
   Cell `i` contributes its own text to the aggregate, right after the
   contributions of the cells before it.
   */
  lemma {:induction false} AggregateAt(cells: Cells, i: nat)
    requires i < |cells|
    ensures Aggregate(cells) == Aggregate(cells[..i]) + NullableToString(cells[i]) + Aggregate(cells[i + 1..])
  {
    var before, mid, after := cells[..i], [cells[i]], cells[i + 1..];
    assert cells == (before + mid) + after;
    AggregateConcat(before + mid, after);
    AggregateConcat(before, mid);
    assert Aggregate(mid) == NullableToString(cells[i]) by {
      assert mid[..0] == [];
    }
  }

  /**
   Changing cell `i` changes only its own slice of the aggregate; the text
   before and after it stays the same.
   */
  lemma {:induction false} AggregateUpdate(cells: Cells, i: nat, c: Cell)
    requires i < |cells|
    ensures Aggregate(cells[i := c]) == Aggregate(cells[..i]) + NullableToString(c) + Aggregate(cells[i + 1..])
  {
    var u := cells[i := c];
    AggregateAt(u, i);
    assert u[..i] == cells[..i];
    assert u[i + 1..] == cells[i + 1..];
  }

  /** A null cell leaves the four letters `null` at its offset in the aggregate. */
  lemma {:induction false} NullCellShowsNull(cells: Cells, i: nat)
    requires i < |cells| && cells[i].None?
    ensures var at := |Aggregate(cells[..i])|;
      at + 4 <= |Aggregate(cells)| && Aggregate(cells)[at..at + 4] == "null"
  {
    AggregateAt(cells, i);
  }

  /** A row never edited aggregates to `null` once per cell. */
  lemma {:induction false} BlankAggregate(n: nat)
    ensures |Aggregate(Blank(n))| == 4 * n
    ensures forall k :: 0 <= k < n ==> Aggregate(Blank(n))[4 * k..4 * k + 4] == "null"
  {
    if n > 0 {
      BlankAggregate(n - 1);
      assert Blank(n)[..n - 1] == Blank(n - 1);
      var prev := Aggregate(Blank(n - 1));
      assert Aggregate(Blank(n)) == prev + "null";
      forall k | 0 <= k < n
        ensures Aggregate(Blank(n))[4 * k..4 * k + 4] == "null"
      {
        if k < n - 1 {
          assert Aggregate(Blank(n))[4 * k..4 * k + 4] == prev[4 * k..4 * k + 4];
        }
      }
    }
  }

  /** Every cell holds exactly one character. */
  predicate AllFilled(cells: Cells) {
    forall k :: 0 <= k < |cells| ==> cells[k].Some? && |cells[k].value| == 1
  }

  /** When every cell holds one character, the aggregate is those characters in order. */
  lemma {:induction false} FilledAggregate(cells: Cells)
    requires AllFilled(cells)
    ensures |Aggregate(cells)| == |cells|
    ensures forall k :: 0 <= k < |cells| ==> Aggregate(cells)[k] == cells[k].value[0]
    decreases |cells|
  {
    if |cells| > 0 {
      var prefix := cells[..|cells| - 1];
      FilledAggregate(prefix);
      var last := cells[|cells| - 1];
      assert last.value == [last.value[0]];
    }
  }

  /**
   The loop that builds the aggregate, `output = output + value.toString()`
   for every cell in turn.
   */
  method BuildOutput(cells: Cells) returns (output: string)
    ensures output == Aggregate(cells)
  {
    output := "";
    var k := 0;
    while k < |cells|
      invariant k <= |cells|
      invariant output == Aggregate(cells[..k])
    {
      assert cells[..k + 1][..k] == cells[..k];
      output := output + NullableToString(cells[k]);
      k := k + 1;
    }
    assert cells[..|cells|] == cells;
  }
}
