/** The rows renderTasks builds: one list item per task, in list order. */
module Rows {
  import opened TaskList

  /** What a rendered item shows: its data-id, its text, whether its checkbox is
      checked, and whether it carries the "completed" style. */
  datatype Row = Row(id: string, text: string, checked: bool, struck: bool)

  /** A row shows its task's id and text, and both its checkbox and its style
      follow the completed flag. */
  function RowOf(t: Task): (r: Row)
    ensures r.id == t.id && r.text == t.text && r.checked == t.completed && r.struck == t.completed
  {
    Row(t.id, t.text, t.completed, t.completed)
  }

  /** The task a row was built from. */
  function TaskOfRow(r: Row): Task {
    Task(r.id, r.text, r.checked)
  }

  /** Every task is recovered from its row: rendering loses nothing. */
  lemma RowKeepsTask(t: Task)
    ensures TaskOfRow(RowOf(t)) == t
  {
  }

  /** The rows of a whole list. */
  function RowsOf(ts: seq<Task>): (rows: seq<Row>)
    ensures |rows| == |ts|
    ensures forall i | 0 <= i < |ts| :: rows[i].id == ts[i].id && rows[i].text == ts[i].text
                                      && rows[i].checked == ts[i].completed
  {
    seq(|ts|, i requires 0 <= i < |ts| => RowOf(ts[i]))
  }

  /** Two lists that render the same are the same list, so the display cannot
      drift from the model. */
  lemma RowsDetermineTasks(a: seq<Task>, b: seq<Task>)
    requires RowsOf(a) == RowsOf(b)
    ensures a == b
  {
    assert forall i | 0 <= i < |a| :: a[i] == TaskOfRow(RowsOf(a)[i]);
    assert forall i | 0 <= i < |b| :: b[i] == TaskOfRow(RowsOf(b)[i]);
  }

  /** The rows of a list to which a task was appended are the old rows and the
      new task's row. */
  lemma RowsOfAppend(ts: seq<Task>, t: Task)
    ensures RowsOf(ts + [t]) == RowsOf(ts) + [RowOf(t)]
  {
  }
}
