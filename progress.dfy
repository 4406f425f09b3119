/** The progress readout of updateProgress: a count of completed tasks, a
    percentage rounded to the nearest integer, and the text and fill width
    shown for it. */
module Progress {
  import opened Text
  import opened TaskList

  /** Either the distinguished empty-list state or a whole percentage. */
  datatype ProgressState = NoTasks | Percent(pct: nat)

  function Bit(b: bool): nat { if b then 1 else 0 }

  /** tasks.filter(t => t.completed).length */
  function CountCompleted(ts: seq<Task>): (n: nat)
    ensures n <= |ts|
    ensures n == 0 <==> forall i | 0 <= i < |ts| :: !ts[i].completed
    ensures n == |ts| <==> forall i | 0 <= i < |ts| :: ts[i].completed
  {
    if ts == [] then 0
    else
      assert forall i | 1 <= i < |ts| :: ts[i] == ts[1..][i - 1];
      Bit(ts[0].completed) + CountCompleted(ts[1..])
  }

  /** Math.round(n / d) for non-negative n, computed exactly: the integer nearest
      to n / d, halves going up. */
  function RoundHalfUp(n: nat, d: nat): (r: nat)
    requires d > 0
    ensures 2 * d * r <= 2 * n + d < 2 * d * r + 2 * d
  {
    var x := 2 * n + d;
    var q := x / (2 * d);
    assert q * (2 * d) + x % (2 * d) == x;
    assert (2 * d) * q == 2 * d * q;
    q
  }

  /** The progress of a list: NoTasks for an empty list, otherwise the completed
      share as a whole percentage, the nearest integer to 100 * done / total. */
  function ProgressOf(ts: seq<Task>): (p: ProgressState)
    ensures p == NoTasks <==> ts == []
    ensures p.Percent? ==> p.pct <= 100
    ensures p.Percent? ==>
              2 * |ts| * p.pct <= 200 * CountCompleted(ts) + |ts| < 2 * |ts| * p.pct + 2 * |ts|
  {
    if |ts| == 0 then NoTasks
    else
      var done, total := CountCompleted(ts), |ts|;
      var r := RoundHalfUp(100 * done, total);
      PercentAtMost100(done, total, r);
      Percent(r)
  }

  lemma PercentAtMost100(done: nat, total: nat, r: nat)
    requires 0 < total && done <= total
    requires 2 * total * r <= 200 * done + total
    ensures r <= 100
  {
  }

  /** The text of the progress readout. */
  function ProgressText(p: ProgressState): (s: string)
    ensures p == NoTasks ==> s == "No tasks yet"
    ensures p.Percent? ==> s == "Progress: " + Decimal(p.pct) + "%"
    ensures p.Percent? ==> |s| >= 12 && s[..10] == "Progress: " && s[|s| - 1] == '%'
                           && IsDigits(s[10..|s| - 1]) && DecimalValue(s[10..|s| - 1]) == p.pct
  {
    match p
    case NoTasks => "No tasks yet"
    case Percent(n) =>
      var s := "Progress: " + Decimal(n) + "%";
      assert s[10..|s| - 1] == Decimal(n);
      DecimalRoundTrip(n);
      s
  }

  /** The width of the progress fill, in percent: 0 for the empty state. */
  function FillWidth(p: ProgressState): (w: nat)
    ensures p == NoTasks ==> w == 0
    ensures p.Percent? ==> w == p.pct
  {
    match p
    case NoTasks => 0
    case Percent(n) => n
  }

  /** An empty list is told apart from a list with nothing done by its text,
      not by its fill, which is 0% in both. */
  lemma EmptyIsDistinguished(p: ProgressState)
    requires p.Percent?
    ensures ProgressText(NoTasks) != ProgressText(p)
    ensures FillWidth(NoTasks) == 0
  {
    assert ProgressText(NoTasks)[0] == 'N';
    assert ProgressText(p)[0] == 'P';
  }

  /** The fill of a list's progress never exceeds the whole bar. */
  lemma FillWithinBar(ts: seq<Task>)
    ensures FillWidth(ProgressOf(ts)) <= 100
    ensures ts == [] ==> FillWidth(ProgressOf(ts)) == 0
  {
  }

  /** One of four tasks done reads 25%. */
  lemma OneOfFour(ts: seq<Task>)
    requires |ts| == 4 && CountCompleted(ts) == 1
    ensures ProgressOf(ts) == Percent(25)
  {
  }

  /** All done reads 100%; none done reads 0% (on a non-empty list). */
  lemma Extremes(ts: seq<Task>)
    requires ts != []
    ensures (forall i | 0 <= i < |ts| :: ts[i].completed) ==> ProgressOf(ts) == Percent(100)
    ensures (forall i | 0 <= i < |ts| :: !ts[i].completed) ==> ProgressOf(ts) == Percent(0)
  {
    var p := ProgressOf(ts);
    var t := |ts|;
    if forall i | 0 <= i < |ts| :: ts[i].completed {
      assert 2 * t * p.pct <= 2 * t * 100 + t < 2 * t * p.pct + 2 * t;
      Pinned(t, p.pct, 100);
    }
    if forall i | 0 <= i < |ts| :: !ts[i].completed {
      assert 2 * t * p.pct <= t < 2 * t * p.pct + 2 * t;
      Pinned(t, p.pct, 0);
    }
  }

  /** The rounding bounds determine the result: two values that meet them for
      the same n and d are equal. */
  lemma RoundHalfUpUnique(n: nat, d: nat, r: nat, r': nat)
    requires d > 0
    requires 2 * d * r <= 2 * n + d < 2 * d * r + 2 * d
    requires 2 * d * r' <= 2 * n + d < 2 * d * r' + 2 * d
    ensures r == r'
  {
    var x: int := r - r';
    assert 2 * d * r == 2 * d * r' + 2 * d * x;
    assert 2 * d * x < 2 * d && -(2 * d) < 2 * d * x;
    BetweenMultiplesIsZero(2 * d, x);
  }

  lemma BetweenMultiplesIsZero(m: int, x: int)
    requires m > 0 && m * x < m && -m < m * x
    ensures x == 0
  {
  }

  /** Rounding t * v over t gives v. */
  lemma Pinned(t: nat, r: nat, v: nat)
    requires t > 0 && 2 * t * r <= 2 * t * v + t < 2 * t * r + 2 * t
    ensures r == v
  {
    assert 2 * t * v == 2 * (t * v);
    RoundHalfUpUnique(t * v, t, r, v);
  }

  /** Counting completed tasks is additive over concatenation. */
  lemma {:induction false} CountAppend(a: seq<Task>, b: seq<Task>)
    ensures CountCompleted(a + b) == CountCompleted(a) + CountCompleted(b)
  {
    if a == [] {
      assert a + b == b;
    } else {
      assert (a + b)[1..] == a[1..] + b;
      CountAppend(a[1..], b);
    }
  }

  /** Replacing one task changes the count by that task's flag only. */
  lemma {:induction false} CountUpdate(ts: seq<Task>, i: nat, t: Task)
    requires i < |ts|
    ensures CountCompleted(ts[i := t]) + Bit(ts[i].completed) == CountCompleted(ts) + Bit(t.completed)
  {
    if i > 0 {
      assert ts[i := t][1..] == ts[1..][i - 1 := t];
      CountUpdate(ts[1..], i - 1, t);
    }
  }

  /** Adding a task (never completed) leaves the count of completed tasks as it was. */
  lemma AddKeepsDone(ts: seq<Task>, raw: string, id: string)
    ensures CountCompleted(AddTask(ts, raw, id)) == CountCompleted(ts)
  {
    if Trim(raw) != [] {
      CountAppend(ts, [Task(id, Trim(raw), false)]);
    }
  }

  /** Checking a box never lowers the count, unchecking never raises it, and an
      edit does not change it. */
  lemma UpdatesAndCount(ts: seq<Task>, id: string, text: string)
    ensures CountCompleted(WithCompleted(ts, id, true)) >= CountCompleted(ts)
    ensures CountCompleted(WithCompleted(ts, id, false)) <= CountCompleted(ts)
    ensures CountCompleted(WithText(ts, id, text)) == CountCompleted(ts)
  {
    match FindIndex(ts, id)
    case None =>
    case Some(i) =>
      CountUpdate(ts, i, ts[i].(completed := true));
      CountUpdate(ts, i, ts[i].(completed := false));
      CountUpdate(ts, i, ts[i].(text := text));
  }
}
