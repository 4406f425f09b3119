/** The task list as a value: the entity every operation of the store works on,
    and the list-level meaning of each mutation (append, delete by id, update
    the first task with an id). */
module TaskList {
  import opened Wrappers
  import opened Text

  /** One to-do item, as the store keeps it and as it is persisted. */
  datatype Task = Task(id: string, text: string, completed: bool)

  /** Some task of ts carries id. */
  predicate Mentions(ts: seq<Task>, id: string) {
    exists i | 0 <= i < |ts| :: ts[i].id == id
  }

  /** ts[j] is the first task of ts that carries id. */
  predicate FirstWith(ts: seq<Task>, id: string, j: int) {
    0 <= j < |ts| && ts[j].id == id && forall k | 0 <= k < j :: ts[k].id != id
  }

  /** No two tasks share an id. */
  predicate UniqueIds(ts: seq<Task>) {
    forall i, j | 0 <= i < j < |ts| :: ts[i].id != ts[j].id
  }

  /** Every text is what the store admits: non-empty and already trimmed. */
  predicate DisplayableTexts(ts: seq<Task>) {
    forall i | 0 <= i < |ts| :: ts[i].text != [] && Trimmed(ts[i].text)
  }

  /** Array.prototype.find on the id, as an index: the first task with id, or
      None when no task has it. */
  function FindIndex(ts: seq<Task>, id: string): (r: Option<nat>)
    ensures r.Some? ==> FirstWith(ts, id, r.value)
    ensures r.None? <==> !Mentions(ts, id)
  {
    if ts == [] then None
    else if ts[0].id == id then Some(0)
    else match FindIndex(ts[1..], id)
      case None => None
      case Some(i) => Some(i + 1)
  }

  lemma FirstWithIsUnique(ts: seq<Task>, id: string, i: int, j: int)
    requires FirstWith(ts, id, i) && FirstWith(ts, id, j)
    ensures i == j
  {
  }

  /** What addTask does to the list: reject text that trims to nothing,
      otherwise append a new, uncompleted task with the trimmed text. */
  function AddTask(ts: seq<Task>, raw: string, id: string): (r: seq<Task>)
    ensures AllWhitespace(raw) ==> r == ts
    ensures !AllWhitespace(raw) ==>
              |r| == |ts| + 1 && r[..|ts|] == ts && r[|ts|] == Task(id, Trim(raw), false)
  {
    if Trim(raw) == [] then ts else ts + [Task(id, Trim(raw), false)]
  }

  /** The delete handler: tasks.filter(t => t.id !== id). Nothing with id is
      left, and a task survives exactly when its id differs. */
  function RemoveId(ts: seq<Task>, id: string): (r: seq<Task>)
    ensures |r| <= |ts|
    ensures forall i | 0 <= i < |r| :: r[i].id != id
    ensures forall t :: t in r <==> t in ts && t.id != id
  {
    if ts == [] then []
    else
      assert forall t :: t in ts <==> t == ts[0] || t in ts[1..];
      (if ts[0].id == id then [] else [ts[0]]) + RemoveId(ts[1..], id)
  }

  /** The commit of an inline edit: the first task with id gets text and keeps
      its id and completed flag; every other task stays as it was; without a
      task with id the list is unchanged. */
  function WithText(ts: seq<Task>, id: string, text: string): (r: seq<Task>)
    ensures |r| == |ts|
    ensures forall j | FirstWith(ts, id, j) :: r[j] == Task(id, text, ts[j].completed)
    ensures forall j | 0 <= j < |ts| && !FirstWith(ts, id, j) :: r[j] == ts[j]
    ensures !Mentions(ts, id) ==> r == ts
  {
    match FindIndex(ts, id)
    case None => ts
    case Some(i) => ts[i := ts[i].(text := text)]
  }

  /** The checkbox handler: the first task with id gets the checkbox value as
      its completed flag; nothing else changes; a missing id changes nothing. */
  function WithCompleted(ts: seq<Task>, id: string, c: bool): (r: seq<Task>)
    ensures |r| == |ts|
    ensures forall j | FirstWith(ts, id, j) :: r[j] == Task(id, ts[j].text, c)
    ensures forall j | 0 <= j < |ts| && !FirstWith(ts, id, j) :: r[j] == ts[j]
    ensures !Mentions(ts, id) ==> r == ts
  {
    match FindIndex(ts, id)
    case None => ts
    case Some(i) => ts[i := ts[i].(completed := c)]
  }

  /** Lists whose ids agree position by position find an id at the same place. */
  lemma FindIndexByIds(a: seq<Task>, b: seq<Task>, id: string)
    requires |a| == |b| && forall j | 0 <= j < |a| :: a[j].id == b[j].id
    ensures FindIndex(a, id) == FindIndex(b, id)
  {
    match FindIndex(a, id)
    case None =>
      assert forall j | 0 <= j < |b| :: b[j].id != id by {
        assert forall j | 0 <= j < |a| :: a[j].id != id;
      }
    case Some(i) =>
      assert FirstWith(b, id, i);
  }

  /** Adding text that trims to nothing leaves the list as it was; otherwise the
      list grows by exactly the new task at its end and the earlier tasks stay in
      order. */
  lemma AddAppendsOrRejects(ts: seq<Task>, raw: string, id: string)
    ensures AllWhitespace(raw) ==> AddTask(ts, raw, id) == ts
    ensures !AllWhitespace(raw) ==>
              |AddTask(ts, raw, id)| == |ts| + 1
              && AddTask(ts, raw, id)[..|ts|] == ts
              && AddTask(ts, raw, id)[|ts|] == Task(id, Trim(raw), false)
  {
    if !AllWhitespace(raw) {
      assert (ts + [Task(id, Trim(raw), false)])[..|ts|] == ts;
    }
  }

  /** Adding with an id no task has keeps the ids unique. */
  lemma AddFreshKeepsUnique(ts: seq<Task>, raw: string, id: string)
    requires UniqueIds(ts) && !Mentions(ts, id)
    ensures UniqueIds(AddTask(ts, raw, id))
  {
    var r := AddTask(ts, raw, id);
    forall i, j | 0 <= i < j < |r| ensures r[i].id != r[j].id {
      if j == |ts| && r != ts { assert r[i] == ts[i]; }
    }
  }

  /** filter keeps order: deleting from a concatenation deletes from each part. */
  lemma {:induction false} RemoveIdDistributes(a: seq<Task>, b: seq<Task>, id: string)
    ensures RemoveId(a + b, id) == RemoveId(a, id) + RemoveId(b, id)
  {
    if a == [] {
      assert a + b == b;
    } else {
      assert (a + b)[0] == a[0];
      assert (a + b)[1..] == a[1..] + b;
      RemoveIdDistributes(a[1..], b, id);
    }
  }

  /** Deleting an id no task carries changes nothing. */
  lemma {:induction false} RemoveAbsentId(ts: seq<Task>, id: string)
    requires !Mentions(ts, id)
    ensures RemoveId(ts, id) == ts
  {
    if ts != [] {
      assert !Mentions(ts[1..], id) by {
        assert forall j | 0 <= j < |ts[1..]| :: ts[1..][j] == ts[j + 1];
      }
      RemoveAbsentId(ts[1..], id);
    }
  }

  /** A second delete of the same id is a no-op. */
  lemma DeleteTwice(ts: seq<Task>, id: string)
    ensures RemoveId(RemoveId(ts, id), id) == RemoveId(ts, id)
  {
    RemoveAbsentId(RemoveId(ts, id), id);
  }

  /** With unique ids, a delete removes one task when the id is present and none
      when it is absent. */
  lemma {:induction false} RemoveIdLength(ts: seq<Task>, id: string)
    requires UniqueIds(ts)
    ensures |RemoveId(ts, id)| == if Mentions(ts, id) then |ts| - 1 else |ts|
  {
    if !Mentions(ts, id) {
      RemoveAbsentId(ts, id);
    } else if ts[0].id == id {
      assert !Mentions(ts[1..], id) by {
        assert forall j | 0 <= j < |ts[1..]| :: ts[1..][j] == ts[j + 1];
      }
      RemoveAbsentId(ts[1..], id);
    } else {
      var j :| 0 <= j < |ts| && ts[j].id == id;
      assert ts[1..][j - 1].id == id;
      RemoveIdLength(ts[1..], id);
    }
  }

  /** Deleting cannot bring in an id the list did not have. */
  lemma {:induction false} RemoveIdKeepsAbsent(ts: seq<Task>, id: string, x: string)
    requires !Mentions(ts, x)
    ensures !Mentions(RemoveId(ts, id), x)
  {
    if ts != [] {
      assert forall k | 0 <= k < |ts[1..]| :: ts[1..][k] == ts[k + 1];
      RemoveIdKeepsAbsent(ts[1..], id, x);
    }
  }

  /** A task in front of a list with unique ids that lacks its id keeps ids unique. */
  lemma ConsKeepsUnique(t: Task, rest: seq<Task>)
    requires UniqueIds(rest) && !Mentions(rest, t.id)
    ensures UniqueIds([t] + rest)
  {
    var r := [t] + rest;
    forall i, j | 0 <= i < j < |r| ensures r[i].id != r[j].id {
      assert r[j] == rest[j - 1];
      if i > 0 { assert r[i] == rest[i - 1]; }
    }
  }

  /** Deleting keeps ids unique. */
  lemma {:induction false} RemoveIdKeepsUnique(ts: seq<Task>, id: string)
    requires UniqueIds(ts)
    ensures UniqueIds(RemoveId(ts, id))
  {
    if ts != [] {
      var tail := ts[1..];
      assert forall k | 0 <= k < |tail| :: tail[k] == ts[k + 1];
      RemoveIdKeepsUnique(tail, id);
      if ts[0].id != id {
        RemoveIdKeepsAbsent(tail, id, ts[0].id);
        ConsKeepsUnique(ts[0], RemoveId(tail, id));
      }
    }
  }

  /** Setting the completed flag twice: the second value is all that remains. */
  lemma CompletedLastWins(ts: seq<Task>, id: string, c: bool, d: bool)
    ensures WithCompleted(WithCompleted(ts, id, c), id, d) == WithCompleted(ts, id, d)
  {
    var once := WithCompleted(ts, id, c);
    FindIndexByIds(ts, once, id);
  }

  /** Setting a task's completed flag to the value it already has changes nothing. */
  lemma CompletedUnchangedValue(ts: seq<Task>, id: string, i: nat)
    requires FirstWith(ts, id, i)
    ensures WithCompleted(ts, id, ts[i].completed) == ts
  {
  }

  /** Checking a box and then unchecking it (or the reverse) restores the list. */
  lemma ToggleRestores(ts: seq<Task>, id: string, c: bool)
    requires Mentions(ts, id)
    ensures FindIndex(ts, id).Some?
    ensures var i := FindIndex(ts, id).value;
            WithCompleted(WithCompleted(ts, id, !ts[i].completed), id, ts[i].completed) == ts
  {
    var i := FindIndex(ts, id).value;
    CompletedLastWins(ts, id, !ts[i].completed, ts[i].completed);
    CompletedUnchangedValue(ts, id, i);
  }

  /** Two edit commits in a row: the second text is all that remains. */
  lemma TextLastWins(ts: seq<Task>, id: string, s: string, t: string)
    ensures WithText(WithText(ts, id, s), id, t) == WithText(ts, id, t)
  {
    var once := WithText(ts, id, s);
    FindIndexByIds(ts, once, id);
  }

  /** Edits and checkbox changes keep ids where they were, so they keep them unique. */
  lemma UpdatesKeepIds(ts: seq<Task>, id: string, text: string, c: bool)
    requires UniqueIds(ts)
    ensures UniqueIds(WithText(ts, id, text)) && UniqueIds(WithCompleted(ts, id, c))
  {
    var a, b := WithText(ts, id, text), WithCompleted(ts, id, c);
    assert forall j | 0 <= j < |ts| :: a[j].id == ts[j].id && b[j].id == ts[j].id;
  }

  /** Adding keeps every text non-empty and trimmed. */
  lemma AddKeepsTextsDisplayable(ts: seq<Task>, raw: string, id: string)
    requires DisplayableTexts(ts)
    ensures DisplayableTexts(AddTask(ts, raw, id))
  {
    var a := AddTask(ts, raw, id);
    assert forall i | 0 <= i < |ts| :: a[i] == ts[i];
  }

  /** Deleting keeps every text non-empty and trimmed. */
  lemma RemoveKeepsTextsDisplayable(ts: seq<Task>, id: string)
    requires DisplayableTexts(ts)
    ensures DisplayableTexts(RemoveId(ts, id))
  {
    var r := RemoveId(ts, id);
    forall i | 0 <= i < |r| ensures r[i].text != [] && Trimmed(r[i].text) {
      assert r[i] in ts;
    }
  }

  /** Edit commits (which pass trimmed, non-blank text) and checkbox changes keep
      every text non-empty and trimmed. */
  lemma UpdatesKeepTextsDisplayable(ts: seq<Task>, id: string, raw: string, c: bool)
    requires DisplayableTexts(ts)
    ensures DisplayableTexts(WithCompleted(ts, id, c))
    ensures !AllWhitespace(raw) ==> DisplayableTexts(WithText(ts, id, Trim(raw)))
  {
  }

  /** One request of a sequence of adds: the typed text and the id it is given. */
  datatype AddRequest = AddRequest(raw: string, id: string)

  /** The list after the adds in reqs, in order. */
  function AddAll(ts: seq<Task>, reqs: seq<AddRequest>): seq<Task>
    decreases |reqs|
  {
    if reqs == [] then ts else AddAll(AddTask(ts, reqs[0].raw, reqs[0].id), reqs[1..])
  }

  /** How many requests carry text that survives trimming. */
  function Accepted(reqs: seq<AddRequest>): nat {
    if reqs == [] then 0 else (if Trim(reqs[0].raw) == [] then 0 else 1) + Accepted(reqs[1..])
  }

  /** The ids of reqs are pairwise distinct and none is already in ts. */
  predicate FreshIds(ts: seq<Task>, reqs: seq<AddRequest>) {
    (forall i, j | 0 <= i < j < |reqs| :: reqs[i].id != reqs[j].id)
    && forall i | 0 <= i < |reqs| :: !Mentions(ts, reqs[i].id)
  }

  /** A sequence of adds grows the list by the number of non-blank requests. */
  lemma {:induction false} AddAllLength(ts: seq<Task>, reqs: seq<AddRequest>)
    ensures |AddAll(ts, reqs)| == |ts| + Accepted(reqs)
    decreases |reqs|
  {
    if reqs != [] {
      AddAllLength(AddTask(ts, reqs[0].raw, reqs[0].id), reqs[1..]);
    }
  }

  /** When every add gets an id nobody has yet, all ids stay pairwise distinct. */
  lemma {:induction false} AddAllUnique(ts: seq<Task>, reqs: seq<AddRequest>)
    requires UniqueIds(ts) && FreshIds(ts, reqs)
    ensures UniqueIds(AddAll(ts, reqs))
    decreases |reqs|
  {
    if reqs != [] {
      var next := AddTask(ts, reqs[0].raw, reqs[0].id);
      AddFreshKeepsUnique(ts, reqs[0].raw, reqs[0].id);
      var rest := reqs[1..];
      forall i | 0 <= i < |rest| ensures !Mentions(next, rest[i].id) {
        assert rest[i] == reqs[i + 1];
        forall j | 0 <= j < |next| ensures next[j].id != rest[i].id {
          if j < |ts| { assert next[j] == ts[j]; }
        }
      }
      AddAllUnique(next, rest);
    }
  }
}
