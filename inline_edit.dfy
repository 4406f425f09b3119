/** The inline editing of one row: the text span is swapped for an input on an
    edit click, and swapped back on blur or Enter (committing) or on Escape
    (cancelling). Each row runs this machine on its own. */
module InlineEdit {
  import opened Wrappers
  import opened Text

  /** Viewing shows a text; Editing keeps the text that was shown (the span set
      aside) and the current content of the input. */
  datatype RowView = Viewing(text: string) | Editing(shown: string, buffer: string)

  /** The events a row reacts to: a click on its edit control, typing into the
      input, the input losing focus, and the Enter and Escape keys. */
  datatype EditEvent = EditClick | Typed(value: string) | Blur | Enter | Escape

  /** The new view, and the input value commitEdit was called with, if it was. */
  datatype Transition = Transition(next: RowView, commit: Option<string>)

  /** The text a view puts on screen. */
  function Shown(v: RowView): string {
    match v
    case Viewing(t) => t
    case Editing(s, _) => s
  }

  /** One event. commitEdit restores the old span when the input trims to
      nothing and otherwise shows the trimmed input; Escape restores the old
      span; a click on edit while editing finds no span and does nothing. */
  function Step(v: RowView, e: EditEvent): (tr: Transition)
    ensures tr.commit.Some? <==> v.Editing? && (e == Blur || e == Enter)
    ensures tr.commit.Some? ==> tr.commit.value == v.buffer
    ensures tr.commit.Some? && Trim(v.buffer) == [] ==> tr.next == Viewing(v.shown)
    ensures tr.commit.Some? && Trim(v.buffer) != [] ==> tr.next == Viewing(Trim(v.buffer))
    ensures v.Editing? && e == Escape ==> tr.next == Viewing(v.shown)
    ensures v.Viewing? && e == EditClick ==> tr.next == Editing(v.text, v.text)
    ensures v.Viewing? && e != EditClick ==> tr.next == v
    ensures v.Editing? && e.Typed? ==> tr.next == Editing(v.shown, e.value)
    ensures v.Editing? && e == EditClick ==> tr.next == v
  {
    match (v, e)
    case (Viewing(t), EditClick) => Transition(Editing(t, t), None)
    case (Editing(s, _), Typed(x)) => Transition(Editing(s, x), None)
    case (Editing(s, b), Blur) => Transition(Committed(s, b), Some(b))
    case (Editing(s, b), Enter) => Transition(Committed(s, b), Some(b))
    case (Editing(s, _), Escape) => Transition(Viewing(s), None)
    case _ => Transition(v, None)
  }

  /** The view commitEdit leaves: the old span when the input trims to nothing,
      otherwise a span with the trimmed input. */
  function Committed(shown: string, buffer: string): (v: RowView)
    ensures v.Viewing?
    ensures AllWhitespace(buffer) ==> v.text == shown
    ensures !AllWhitespace(buffer) ==> v.text == Trim(buffer) && v.text != [] && Trimmed(v.text)
  {
    if Trim(buffer) == [] then Viewing(shown) else Viewing(Trim(buffer))
  }

  /** A run of events: the final view and the inputs commitEdit got, in order. */
  function Run(v: RowView, es: seq<EditEvent>): (r: (RowView, seq<string>))
    ensures |r.1| <= |es|
    ensures v.Viewing? && (forall i | 0 <= i < |es| :: es[i] != EditClick) ==> r == (v, [])
    decreases |es|
  {
    if es == [] then (v, [])
    else
      var tr := Step(v, es[0]);
      assert forall i | 0 <= i < |es[1..]| :: es[1..][i] == es[i + 1];
      var rest := Run(tr.next, es[1..]);
      (rest.0, (if tr.commit.Some? then [tr.commit.value] else []) + rest.1)
  }

  /** Typing each of values into the input, one after the other. */
  function Typing(values: seq<string>): (es: seq<EditEvent>)
    ensures |es| == |values| && forall i | 0 <= i < |es| :: es[i] == Typed(values[i])
  {
    seq(|values|, i requires 0 <= i < |values| => Typed(values[i]))
  }

  /** A run over two stretches of events is the second run from where the first ended. */
  lemma {:induction false} RunAppend(v: RowView, a: seq<EditEvent>, b: seq<EditEvent>)
    ensures Run(v, a + b).0 == Run(Run(v, a).0, b).0
    ensures Run(v, a + b).1 == Run(v, a).1 + Run(Run(v, a).0, b).1
    decreases |a|
  {
    if a == [] {
      assert a + b == b;
    } else {
      assert (a + b)[0] == a[0];
      assert (a + b)[1..] == a[1..] + b;
      RunAppend(Step(v, a[0]).next, a[1..], b);
    }
  }

  /** Typing only changes the input; the shown text is kept aside and nothing is committed. */
  lemma {:induction false} TypingKeepsShown(shown: string, buffer: string, values: seq<string>)
    ensures Run(Editing(shown, buffer), Typing(values)).1 == []
    ensures Run(Editing(shown, buffer), Typing(values)).0
            == Editing(shown, if values == [] then buffer else values[|values| - 1])
    decreases |values|
  {
    if values != [] {
      var es := Typing(values);
      assert es[1..] == Typing(values[1..]);
      TypingKeepsShown(shown, values[0], values[1..]);
      if |values| > 1 {
        assert values[1..][|values[1..]| - 1] == values[|values| - 1];
      }
    }
  }

  /** Clicking edit, typing anything and pressing Escape brings back the text
      that was shown and commits nothing. */
  lemma EditThenCancel(text: string, values: seq<string>)
    ensures Run(Viewing(text), [EditClick] + Typing(values) + [Escape]) == (Viewing(text), [])
  {
    var typing := Typing(values);
    RunAppend(Viewing(text), [EditClick], typing);
    RunAppend(Viewing(text), [EditClick] + typing, [Escape]);
    TypingKeepsShown(text, text, values);
  }

  /** Clicking edit, typing and confirming commits exactly the last input once,
      and the row shows its trimmed form, or the old text when it trims to nothing. */
  lemma EditThenConfirm(text: string, values: seq<string>, confirm: EditEvent)
    requires confirm == Blur || confirm == Enter
    ensures var last := if values == [] then text else values[|values| - 1];
            Run(Viewing(text), [EditClick] + Typing(values) + [confirm])
            == (Committed(text, last), [last])
  {
    var typing := Typing(values);
    RunAppend(Viewing(text), [EditClick], typing);
    RunAppend(Viewing(text), [EditClick] + typing, [confirm]);
    TypingKeepsShown(text, text, values);
    var last := if values == [] then text else values[|values| - 1];
    assert Run(Viewing(text), [EditClick]) == (Editing(text, text), []) by {
      assert [EditClick][1..] == [];
    }
    assert Run(Viewing(text), [EditClick] + typing) == (Editing(text, last), []);
    assert Run(Editing(text, last), [confirm]) == (Committed(text, last), [last]) by {
      assert [confirm][1..] == [];
      assert Step(Editing(text, last), confirm) == Transition(Committed(text, last), Some(last));
      assert [last] + [] == [last];
    }
    var all := [EditClick] + typing + [confirm];
    assert Run(Viewing(text), all).0 == Committed(text, last);
    assert Run(Viewing(text), all).1 == [] + [last] == [last];
  }

  /** A row that shows a non-empty trimmed text keeps doing so, whatever happens. */
  lemma StepKeepsShownDisplayable(v: RowView, e: EditEvent)
    requires Shown(v) != [] && Trimmed(Shown(v))
    ensures Shown(Step(v, e).next) != [] && Trimmed(Shown(Step(v, e).next))
  {
  }
}
