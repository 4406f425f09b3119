/** The task store: the list of tasks the page owns, the storage slot it
    persists to after every mutation, and the handlers that change it. */
module Store {
  import opened Wrappers
  import opened Text
  import opened TaskList
  import opened Progress
  import opened Rows
  import opened Storage
  import opened InlineEdit

  class TaskStore {
    /** How the list is written to and read from its slot. */
    const codec: Codec
    /** The tasks, in insertion order. */
    var tasks: seq<Task>
    /** The browser's key-value storage. */
    var storage: KeyValue

    /** The slot holds exactly the current list. */
    ghost predicate Persisted()
      reads this
    {
      GetItem(storage, StorageKey) == Some(codec.stringify(tasks))
    }

    /** Start-up: the list is whatever the slot loads as. */
    constructor Init(codec: Codec, storage: KeyValue)
      ensures this.storage == storage
      ensures tasks == Load(storage, codec)
      ensures this.codec == codec
    {
      this.codec := codec;
      this.storage := storage;
      tasks := Load(storage, codec);
    }

    /** saveToStorage */
    method SaveToStorage()
      modifies this`storage
      ensures storage == Save(old(storage), codec, tasks)
      ensures Persisted()
    {
      storage := storage[StorageKey := codec.stringify(tasks)];
    }

    /** addTask: text that trims to nothing is rejected (the alert) and changes
        nothing; otherwise the trimmed text is appended as an uncompleted task
        with the given id, the list is saved and the input is cleared. */
    method Add(raw: string, id: string) returns (accepted: bool, input: string)
      modifies this`tasks, this`storage
      ensures accepted <==> !AllWhitespace(raw)
      ensures tasks == AddTask(old(tasks), raw, id)
      ensures accepted ==> tasks == old(tasks) + [Task(id, Trim(raw), false)]
                           && storage == Save(old(storage), codec, tasks) && input == []
      ensures accepted ==> Persisted()
      ensures !accepted ==> tasks == old(tasks) && storage == old(storage) && input == raw
    {
      var text := Trim(raw);
      if text == [] {
        return false, raw;
      }
      tasks := tasks + [Task(id, text, false)];
      SaveToStorage();
      accepted, input := true, [];
    }

    /** The delete control: every task with the id goes, the rest keep their order. */
    method Delete(id: string)
      modifies this`tasks, this`storage
      ensures tasks == RemoveId(old(tasks), id)
      ensures storage == Save(old(storage), codec, tasks)
      ensures Persisted()
    {
      tasks := RemoveId(tasks, id);
      SaveToStorage();
    }

    /** commitEdit: input that trims to nothing changes nothing; otherwise the
        first task with the id gets the trimmed text and the list is saved, even
        when no task has the id. */
    method CommitEdit(id: string, raw: string) returns (saved: bool)
      modifies this`tasks, this`storage
      ensures saved <==> !AllWhitespace(raw)
      ensures saved ==> tasks == WithText(old(tasks), id, Trim(raw))
                        && storage == Save(old(storage), codec, tasks)
      ensures saved ==> Persisted()
      ensures !saved ==> tasks == old(tasks) && storage == old(storage)
    {
      var newText := Trim(raw);
      if |newText| == 0 {
        return false;
      }
      var t := FindIndex(tasks, id);
      if t.Some? {
        tasks := tasks[t.value := tasks[t.value].(text := newText)];
      }
      SaveToStorage();
      saved := true;
    }

    /** The checkbox handler: a missing id changes nothing; otherwise the first
        task with the id takes the checkbox value, the list is saved, and a quote
        is shown when the task became completed. */
    method SetCompleted(id: string, checked: bool) returns (found: bool, showQuote: bool)
      modifies this`tasks, this`storage
      ensures found <==> Mentions(old(tasks), id)
      ensures found ==> tasks == WithCompleted(old(tasks), id, checked)
                        && storage == Save(old(storage), codec, tasks)
      ensures found ==> Persisted()
      ensures !found ==> tasks == old(tasks) && storage == old(storage)
      ensures showQuote <==> found && checked
    {
      var t := FindIndex(tasks, id);
      if t.None? {
        return false, false;
      }
      tasks := tasks[t.value := tasks[t.value].(completed := checked)];
      SaveToStorage();
      found, showQuote := true, checked;
    }

    /** renderTasks: one row per task, in order, carrying the task's id, text
        and completed flag, and the progress of the list; nothing is modified. */
    method Render() returns (rows: seq<Row>, progress: ProgressState)
      ensures |rows| == |tasks|
      ensures forall i | 0 <= i < |rows| ::
                rows[i].id == tasks[i].id && rows[i].text == tasks[i].text
                && rows[i].checked == tasks[i].completed && rows[i].struck == tasks[i].completed
      ensures rows == RowsOf(tasks)
      ensures progress == ProgressOf(tasks)
    {
      rows := [];
      for i := 0 to |tasks|
        invariant |rows| == i
        invariant forall k | 0 <= k < i :: rows[k] == RowOf(tasks[k])
      {
        rows := rows + [RowOf(tasks[i])];
      }
      progress := ProgressOf(tasks);
    }

    /** One inline-edit event on the row of the task with the id: the row moves
        on as Step says, and a commit goes through commitEdit. After a commit
        that is not blank, the row shows the text the model holds for the id. */
    method OnEditEvent(id: string, view: RowView, e: EditEvent) returns (next: RowView)
      modifies this`tasks, this`storage
      ensures next == Step(view, e).next
      ensures Step(view, e).commit.Some? && !AllWhitespace(view.buffer) ==>
                tasks == WithText(old(tasks), id, Trim(view.buffer))
                && storage == Save(old(storage), codec, tasks)
      ensures Step(view, e).commit.None? || AllWhitespace(view.buffer) ==>
                tasks == old(tasks) && storage == old(storage)
      ensures Step(view, e).commit.Some? && !AllWhitespace(view.buffer) && Mentions(tasks, id) ==>
                tasks[FindIndex(tasks, id).value].text == next.text
    {
      var tr := Step(view, e);
      if tr.commit.Some? {
        var _ := CommitEdit(id, tr.commit.value);
        FindIndexByIds(old(tasks), tasks, id);
      }
      next := tr.next;
    }
  }

  /** The lists of a first session: add "Buy milk", check it, rename it to
      "Buy oat milk", delete it. */
  lemma FirstSessionLists(id: string)
    ensures AddTask([], "Buy milk", id) == [Task(id, "Buy milk", false)]
    ensures WithCompleted([Task(id, "Buy milk", false)], id, true) == [Task(id, "Buy milk", true)]
    ensures WithText([Task(id, "Buy milk", true)], id, Trim("Buy oat milk")) == [Task(id, "Buy oat milk", true)]
    ensures RemoveId([Task(id, "Buy oat milk", true)], id) == []
  {
    TrimOfTrimmed("Buy milk");
    TrimOfTrimmed("Buy oat milk");
    assert FirstWith([Task(id, "Buy milk", false)], id, 0);
    assert FirstWith([Task(id, "Buy milk", true)], id, 0);
  }

  /** The progress readouts along that session: no tasks, 0% with the one task
      open, 100% once it is checked and after it is renamed. */
  lemma FirstSessionProgress(id: string)
    ensures ProgressOf([]) == NoTasks
    ensures ProgressOf([Task(id, "Buy milk", false)]) == Percent(0)
    ensures ProgressOf([Task(id, "Buy milk", true)]) == Percent(100)
    ensures ProgressOf([Task(id, "Buy oat milk", true)]) == Percent(100)
  {
    Extremes([Task(id, "Buy milk", false)]);
    Extremes([Task(id, "Buy milk", true)]);
    Extremes([Task(id, "Buy oat milk", true)]);
  }

  /** The same session driven through the store's handlers, starting from
      storage with no slot: the progress readouts after start, add, check, edit
      and delete. */
  method FirstSession(codec: Codec, kv: KeyValue, id: string) returns (readouts: seq<ProgressState>)
    requires StorageKey !in kv
    ensures readouts == [NoTasks, Percent(0), Percent(100), Percent(100), NoTasks]
  {
    FirstSessionLists(id);
    FirstSessionProgress(id);
    var store := new TaskStore.Init(codec, kv);
    var _, p0 := store.Render();
    var _, _ := store.Add("Buy milk", id);
    var _, p1 := store.Render();
    var _, _ := store.SetCompleted(id, true);
    var _, p2 := store.Render();
    var _ := store.CommitEdit(id, "Buy oat milk");
    var _, p3 := store.Render();
    store.Delete(id);
    var _, p4 := store.Render();
    readouts := [p0, p1, p2, p3, p4];
  }
}
