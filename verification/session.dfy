/**
 A sequence of user events replayed against one code field, either variant:
 the cells it leaves and every focus request it issues, in order. Used to
 state what typing a whole code box by box does.
 */
module Session {
  import opened KotlinStd
  import opened CodeField
  import NumberField
  import CharacterField

  /** Which of the two fields receives the events. */
  datatype Variant = Number | Character

  /**
   A text change or a key event delivered to one box. A key event is one
   call of the key handler, which runs for both key down and key up; the
   box that receives the key up is whichever box has focus by then.
   */
  datatype Event = ValueChange(index: nat, candidate: string) | KeyPress(index: nat, keyCode: int)

  /** Every event goes to one of the `n` boxes. */
  predicate InRange(n: nat, events: seq<Event>) {
    forall k :: 0 <= k < |events| ==> events[k].index < n
  }

  /**
   One event, dispatched to the box it names. Any focus request names an
   existing box: the clamped neighbour before or after it.
   */
  function Step(v: Variant, cells: Cells, e: Event): (r: Reaction)
    requires e.index < |cells|
    ensures |r.cells| == |cells|
    ensures r.focus.Some? ==> r.focus.value < |cells|
    ensures r.focus.Some? ==>
      r.focus.value == ForwardTarget(|cells|, e.index) || r.focus.value == BackwardTarget(|cells|, e.index)
  {
    match e
    case ValueChange(i, candidate) =>
      if v == Number then NumberField.OnValueChange(cells, i, candidate)
      else CharacterField.OnValueChange(cells, i, candidate)
    case KeyPress(i, keyCode) =>
      var k := if v == Number then NumberField.OnKeyEvent(cells, i, keyCode)
               else CharacterField.OnKeyEvent(cells, i, keyCode);
      Reaction(k.cells, k.focus)
  }

  /** The invariant of the variant's cells: what its text changes can store. */
  predicate Reachable(v: Variant, cells: Cells) {
    if v == Number then NumberField.WellFormed(cells) else CharacterField.WellFormed(cells)
  }

  /** One event keeps the variant's cell invariant. */
  lemma StepPreservesReachable(v: Variant, cells: Cells, e: Event)
    requires e.index < |cells| && Reachable(v, cells)
    ensures Reachable(v, Step(v, cells, e).cells)
  {
    if e.ValueChange? {
      if v == Number {
        NumberField.OnValueChangePreservesWellFormed(cells, e.index, e.candidate);
      } else {
        CharacterField.OnValueChangePreservesWellFormed(cells, e.index, e.candidate);
      }
    }
  }

  /** The cells after a run of events, and the focus requests it issued in order. */
  datatype Trace = Trace(cells: Cells, requests: seq<nat>)

  /**
   Replays `events` from `cells`. The row keeps its length and every focus
   request names one of its boxes.
   */
  function Run(v: Variant, cells: Cells, events: seq<Event>): (t: Trace)
    requires InRange(|cells|, events)
    ensures |t.cells| == |cells|
    ensures |t.requests| <= |events|
    ensures forall k :: 0 <= k < |t.requests| ==> t.requests[k] < |cells|
    decreases |events|
  {
    if |events| == 0 then Trace(cells, [])
    else
      var prev := Run(v, cells, events[..|events| - 1]);
      var r := Step(v, prev.cells, events[|events| - 1]);
      Trace(r.cells, prev.requests + if r.focus.Some? then [r.focus.value] else [])
  }

  /**
   Any run of events from a row satisfying the variant's invariant, in
   particular from a fresh row, leaves a row that still satisfies it.
   */
  lemma {:induction false} RunPreservesReachable(v: Variant, cells: Cells, events: seq<Event>)
    requires InRange(|cells|, events) && Reachable(v, cells)
    ensures Reachable(v, Run(v, cells, events).cells)
    decreases |events|
  {
    if |events| > 0 {
      var prefix := events[..|events| - 1];
      assert InRange(|cells|, prefix);
      RunPreservesReachable(v, cells, prefix);
      StepPreservesReachable(v, Run(v, cells, prefix).cells, events[|events| - 1]);
    }
  }

  /** A fresh row of either variant satisfies the cell invariant. */
  lemma BlankReachable(v: Variant, n: nat)
    ensures Reachable(v, Blank(n))
  {
    NumberField.BlankWellFormed(n);
  }

  /**
   On any row reached from a fresh numeric row, backspace asks the previous
   box to take focus exactly when the box is null or cleared.
   */
  lemma ReachedDeleteRetreatsOnEmpty(n: nat, events: seq<Event>, i: nat, keyCode: int)
    requires InRange(n, events) && i < n
    ensures var cells := Run(Number, Blank(n), events).cells;
      NumberField.OnKeyEvent(cells, i, keyCode).focus ==
        if keyCode == KEYCODE_DEL && (cells[i] == None || cells[i] == Some("null"))
        then Some(BackwardTarget(n, i)) else None
  {
    BlankReachable(Number, n);
    RunPreservesReachable(Number, Blank(n), events);
    NumberField.DeleteRetreatsOnEmpty(Run(Number, Blank(n), events).cells, i, keyCode);
  }

  /** Typing `code` one character per box, from the first box to the last. */
  function TypeEvents(code: string): (events: seq<Event>)
    ensures |events| == |code|
    ensures forall k :: 0 <= k < |code| ==> events[k] == ValueChange(k, [code[k]])
  {
    seq(|code|, k requires 0 <= k < |code| => ValueChange(k, [code[k]]))
  }

  /** The characters the variant accepts one at a time. */
  predicate Typeable(v: Variant, code: string) {
    v == Number ==> IsDigitsOnly(code)
  }

  /** Typing a character the variant accepts stores it and asks the next box to take focus. */
  lemma TypeOne(v: Variant, cells: Cells, i: nat, c: char)
    requires i < |cells| && (v == Number ==> IsAsciiDigit(c))
    ensures Step(v, cells, ValueChange(i, [c])) == Reaction(cells[i := Some([c])], Some(ForwardTarget(|cells|, i)))
  {
    if v == Number {
      assert NumberField.Accepts([c]);
    }
  }

  /** The row after typing the first `m` characters of `code`, the rest still null. */
  function TypedRow(code: string, m: nat): (cells: Cells)
    ensures |cells| == |code|
  {
    seq(|code|, k requires 0 <= k < |code| => if k < m then Some([code[k]]) else None)
  }

  /** The focus requests after typing into the first `m` of `n` boxes. */
  function ForwardRequests(n: nat, m: nat): (requests: seq<nat>)
    requires m <= n
    ensures |requests| == m
  {
    seq(m, k requires 0 <= k < m => ForwardTarget(n, k))
  }

  /**
   After typing the first `m` characters of `code` into a fresh row, box by
   box, the first `m` boxes hold those characters, the rest are still null,
   and each keystroke asked the next box to take focus.
   */
  lemma {:induction false} TypePrefix(v: Variant, code: string, m: nat)
    requires Typeable(v, code) && m <= |code|
    ensures InRange(|code|, TypeEvents(code)[..m])
    ensures Run(v, Blank(|code|), TypeEvents(code)[..m]) == Trace(TypedRow(code, m), ForwardRequests(|code|, m))
    decreases m
  {
    var n := |code|;
    var events := TypeEvents(code)[..m];
    assert InRange(n, events);
    if m == 0 {
      assert TypedRow(code, 0) == Blank(n);
    } else {
      var i := m - 1;
      assert events[..i] == TypeEvents(code)[..i];
      TypePrefix(v, code, i);
      assert events[i] == ValueChange(i, [code[i]]);
      assert v == Number ==> IsAsciiDigit(code[i]);
      TypeOne(v, TypedRow(code, i), i, code[i]);
      assert TypedRow(code, i)[i := Some([code[i]])] == TypedRow(code, m);
      assert ForwardRequests(n, i) + [ForwardTarget(n, i)] == ForwardRequests(n, m);
    }
  }

  /**
   Typing a whole code into a fresh row, one character per box in order,
   makes the aggregate exactly that code; every box but the last asks the
   next one to take focus, and the last asks for itself.
   */
  lemma TypeWholeCode(v: Variant, code: string)
    requires Typeable(v, code) && 0 < |code|
    ensures InRange(|code|, TypeEvents(code))
    ensures var t := Run(v, Blank(|code|), TypeEvents(code));
      && Aggregate(t.cells) == code
      && |t.requests| == |code|
      && (forall k :: 0 <= k < |code| - 1 ==> t.requests[k] == k + 1)
      && t.requests[|code| - 1] == |code| - 1
  {
    var n := |code|;
    TypePrefix(v, code, n);
    assert TypeEvents(code)[..n] == TypeEvents(code);
    FilledAggregate(TypedRow(code, n));
    assert Aggregate(TypedRow(code, n)) == code;
  }

  /** Four digits typed into the four-box numeric field read back as `1239`, focus ending on the last box. */
  lemma FourDigitScenario()
    ensures InRange(4, TypeEvents("1239"))
    ensures var t := Run(Number, Blank(4), TypeEvents("1239"));
      |t.requests| == 4 && Aggregate(t.cells) == "1239" && t.requests[3] == 3
  {
    TypeWholeCode(Number, "1239");
  }
}
