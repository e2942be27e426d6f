/** The task list shared by both screens: the `Task` record and the list transformations
    `toggleCompletion`, `deleteTask`, the incomplete-only view and `calculateProgress`.
    Each screen holds its list in component state and replaces it with the result of one
    of these functions; the classes in IndexView and HomeView do that. */
module TaskStore {
  import opened Seqs

  /** One task. The id is only ever compared for equality; the due date is an opaque string. */
  datatype Task = Task(id: string, title: string, description: string, dueDate: string, completed: bool)

  /** The ids of `ts`, position by position. */
  function Ids(ts: seq<Task>): (r: seq<string>)
    ensures |r| == |ts|
    ensures forall i :: 0 <= i < |ts| ==> r[i] == ts[i].id
  {
    if ts == [] then [] else [ts[0].id] + Ids(ts[1..])
  }

  predicate HasId(ts: seq<Task>, id: string) {
    exists i :: 0 <= i < |ts| && ts[i].id == id
  }

  /** The store's invariant: ids are pairwise distinct, and the tasks still held appear in
      the order in which their ids were handed out (`history` lists every id ever added). */
  ghost predicate WellFormed(ts: seq<Task>, history: seq<string>) {
    Distinct(Ids(ts)) && IsSubsequence(Ids(ts), history)
  }

  // ---------------------------------------------------------------- toggleCompletion

  /** The task itself with `completed` negated when its id matches, else unchanged. */
  function Flip(t: Task, id: string): (r: Task)
    ensures r.(completed := t.completed) == t
    ensures r.completed != t.completed <==> t.id == id
  {
    if t.id == id then t.(completed := !t.completed) else t
  }

  /** `prev.map(task => task.id === id ? {...task, completed: !task.completed} : task)`:
      same length and order, no field but `completed` changes, and `completed` changes
      exactly on the tasks whose id is `id`. */
  function Toggle(ts: seq<Task>, id: string): (r: seq<Task>)
    ensures |r| == |ts|
    ensures forall i :: 0 <= i < |ts| ==> r[i].(completed := ts[i].completed) == ts[i]
    ensures forall i :: 0 <= i < |ts| ==> (r[i].completed != ts[i].completed <==> ts[i].id == id)
  {
    if ts == [] then [] else [Flip(ts[0], id)] + Toggle(ts[1..], id)
  }

  /** Toggling the same id twice gives back the original list. */
  lemma ToggleInvolution(ts: seq<Task>, id: string)
    ensures Toggle(Toggle(ts, id), id) == ts
  {
    var r := Toggle(Toggle(ts, id), id);
    forall i | 0 <= i < |ts| ensures r[i] == ts[i] {
      assert r[i].(completed := ts[i].completed) == ts[i];
    }
  }

  /** Toggling an id that no task carries is a no-op. */
  lemma ToggleUnknownId(ts: seq<Task>, id: string)
    requires !HasId(ts, id)
    ensures Toggle(ts, id) == ts
  {
    var r := Toggle(ts, id);
    forall i | 0 <= i < |ts| ensures r[i] == ts[i] {
      assert r[i].(completed := ts[i].completed) == ts[i];
    }
  }

  /** Toggling keeps every id in place, so it keeps the store's invariant. */
  lemma ToggleKeepsWellFormed(ts: seq<Task>, history: seq<string>, id: string)
    requires WellFormed(ts, history)
    ensures Ids(Toggle(ts, id)) == Ids(ts)
    ensures WellFormed(Toggle(ts, id), history)
  {
    var r := Toggle(ts, id);
    assert forall i :: 0 <= i < |ts| ==> r[i].id == r[i].(completed := ts[i].completed).id;
  }

  // ---------------------------------------------------------------- deleteTask

  /** `prev.filter(task => task.id !== id)`: the tasks whose id differs, in their original
      relative order, each as often as it occurs (the list shrinks by exactly the number of
      tasks carrying `id`); an id no task carries leaves the list unchanged. */
  function Delete(ts: seq<Task>, id: string): (r: seq<Task>)
    ensures IsSubsequence(r, ts)
    ensures forall t :: t in r <==> t in ts && t.id != id
    ensures |r| == |ts| - |Filter(ts, (t: Task) => t.id == id)|
    ensures !HasId(ts, id) ==> r == ts
  {
    var keep := (t: Task) => t.id != id;
    FilterIsSubsequence(ts, keep);
    FilterPartition(ts, keep, (t: Task) => t.id == id);
    if !HasId(ts, id) then FilterKeepsAll(ts, keep); Filter(ts, keep) else Filter(ts, keep)
  }

  /** Once ids are distinct, deleting a present id removes exactly one task. */
  lemma {:induction false} DeleteRemovesOne(ts: seq<Task>, id: string)
    requires Distinct(Ids(ts)) && HasId(ts, id)
    ensures |Delete(ts, id)| == |ts| - 1
  {
    if ts[0].id == id {
      FirstIdNotInTail(ts);
      assert Delete(ts[1..], id) == ts[1..];
    } else {
      var k :| 0 <= k < |ts| && ts[k].id == id;
      LaterIdInTail(ts, k);
      DeleteRemovesOne(ts[1..], id);
    }
  }

  /** Deleting keeps the store's invariant: what is left is a subsequence of what was there. */
  lemma DeleteKeepsWellFormed(ts: seq<Task>, history: seq<string>, id: string)
    requires WellFormed(ts, history)
    ensures WellFormed(Delete(ts, id), history)
  {
    var r := Delete(ts, id);
    IdsOfSubsequence(r, ts);
    SubsequenceDistinct(Ids(r), Ids(ts));
    SubsequenceTransitive(Ids(r), Ids(ts), history);
  }

  lemma {:induction false} IdsOfSubsequence(a: seq<Task>, b: seq<Task>)
    requires IsSubsequence(a, b)
    ensures IsSubsequence(Ids(a), Ids(b))
    decreases |b|
  {
    if a != [] {
      if a[0] == b[0] && IsSubsequence(a[1..], b[1..]) {
        IdsOfSubsequence(a[1..], b[1..]);
      } else {
        IdsOfSubsequence(a, b[1..]);
      }
    }
  }

  // ---------------------------------------------------------------- addTask's append

  /** Appending a task with a fresh id keeps the store's invariant once its id joins the history. */
  lemma {:induction false} AppendKeepsWellFormed(ts: seq<Task>, history: seq<string>, t: Task)
    requires WellFormed(ts, history) && !HasId(ts, t.id)
    ensures Ids(ts + [t]) == Ids(ts) + [t.id]
    ensures WellFormed(ts + [t], history + [t.id])
  {
    assert Ids(ts + [t]) == Ids(ts) + [t.id];
    DistinctAppend(Ids(ts), t.id);
    SubsequenceAppend(Ids(ts), history, t.id);
  }

  // ---------------------------------------------------------------- filters and progress

  predicate IsComplete(t: Task) { t.completed }

  predicate IsIncomplete(t: Task) { !t.completed }

  /** `tasks.filter(task => task.completed).length`. */
  function CompletedCount(ts: seq<Task>): (c: nat)
    ensures c <= |ts|
  {
    |Filter(ts, IsComplete)|
  }

  /** `tasks.filter(task => !task.completed)`: exactly the incomplete tasks, in order. */
  function Incomplete(ts: seq<Task>): (r: seq<Task>)
    ensures IsSubsequence(r, ts)
    ensures forall t :: t in r <==> t in ts && !t.completed
    ensures |r| == |ts| - CompletedCount(ts)
  {
    FilterIsSubsequence(ts, IsIncomplete);
    FilterPartition(ts, IsComplete, IsIncomplete);
    Filter(ts, IsIncomplete)
  }

  /** The list handed to the task list widget: with `incompleteOnly` set, the incomplete tasks
      in their original order (a subsequence holding all of them and nothing else); unset,
      the whole list. */
  function Visible(ts: seq<Task>, incompleteOnly: bool): (r: seq<Task>)
    ensures !incompleteOnly ==> r == ts
    ensures incompleteOnly ==> IsSubsequence(r, ts) && |r| == |ts| - CompletedCount(ts)
    ensures incompleteOnly ==> forall t :: t in r <==> t in ts && !t.completed
  {
    if incompleteOnly then Incomplete(ts) else ts
  }

  /** When no task is complete, the incomplete-only view shows the whole list. */
  lemma NothingCompleteShowsAll(ts: seq<Task>)
    requires forall i :: 0 <= i < |ts| ==> !ts[i].completed
    ensures Incomplete(ts) == ts
  {
    FilterKeepsAll(ts, IsIncomplete);
  }

  /** `Math.round(100 * c / n)` for `0 < n`, computed exactly: the integer nearest to
      `100 * c / n`, halves rounded up. With `c <= n` it lies in [0, 100]. */
  function RoundedPercent(c: nat, n: nat): (p: int)
    requires 0 < n && c <= n
    ensures 2 * n * p <= 200 * c + n < 2 * n * p + 2 * n
    ensures 0 <= p <= 100
    ensures c == 0 ==> p == 0
    ensures c == n ==> p == 100
  {
    var p := (200 * c + n) / (2 * n);
    DivBounds(200 * c + n, 2 * n, p);
    RoundingBounds(c, n, p);
    p
  }

  lemma DivBounds(x: nat, d: nat, q: int)
    requires 0 < d && q == x / d
    ensures d * q <= x < d * q + d
  {
  }

  /** Any integer within half a unit of `100 * c / n` lies in [0, 100], and is 0 or 100 at the ends. */
  lemma RoundingBounds(c: nat, n: nat, p: int)
    requires 0 < n && c <= n
    requires 2 * n * p <= 200 * c + n < 2 * n * p + 2 * n
    ensures 0 <= p <= 100
    ensures c == 0 ==> p == 0
    ensures c == n ==> p == 100
  {
    if p < 0 {
      MulMonotone(2 * n, p + 1, 0);
    }
    if p > 100 {
      MulMonotone(2 * n, 101, p);
    }
    if c == 0 && p >= 1 {
      MulMonotone(2 * n, 1, p);
    }
    if c == n && p <= 99 {
      MulMonotone(2 * n, p + 1, 100);
    }
  }

  /** `calculateProgress()`: 0 on an empty list, otherwise the rounded percentage of
      completed tasks, which is 0 when none and 100 when all are complete. */
  function Progress(ts: seq<Task>): (p: int)
    ensures 0 <= p <= 100
    ensures CompletedCount(ts) == 0 ==> p == 0
    ensures ts != [] && CompletedCount(ts) == |ts| ==> p == 100
    ensures ts != [] ==> 2 * |ts| * p <= 200 * CompletedCount(ts) + |ts| < 2 * |ts| * (p + 1)
  {
    if |ts| == 0 then 0 else RoundedPercent(CompletedCount(ts), |ts|)
  }

  /** More completed tasks out of the same total never give a smaller percentage. */
  lemma RoundedPercentMonotone(c1: nat, c2: nat, n: nat)
    requires 0 < n && c1 <= c2 <= n
    ensures RoundedPercent(c1, n) <= RoundedPercent(c2, n)
  {
    var p1, p2 := RoundedPercent(c1, n), RoundedPercent(c2, n);
    if p1 > p2 {
      MulMonotone(2 * n, p2 + 1, p1);
      assert false;
    }
  }

  lemma MulMonotone(k: nat, a: int, b: int)
    requires a <= b
    ensures k * a <= k * b
  {
  }

  lemma CompletedCountCons(ts: seq<Task>)
    requires ts != []
    ensures CompletedCount(ts) == (if ts[0].completed then 1 else 0) + CompletedCount(ts[1..])
  {
  }

  /** Toggling the task with a given id moves the completed count by exactly one. */
  lemma {:induction false} ToggleCompletedCount(ts: seq<Task>, id: string, k: nat)
    requires Distinct(Ids(ts)) && k < |ts| && ts[k].id == id
    ensures CompletedCount(Toggle(ts, id)) == CompletedCount(ts) + (if ts[k].completed then -1 else 1)
  {
    if k == 0 {
      ToggleCountAtHead(ts, id);
    } else {
      LaterIdInTail(ts, k);
      ToggleCompletedCount(ts[1..], id, k - 1);
      ToggleCountPastHead(ts, id, if ts[k].completed then -1 else 1);
    }
  }

  /** Toggling the head's id changes the head alone when ids are distinct. */
  lemma ToggleCountAtHead(ts: seq<Task>, id: string)
    requires ts != [] && Distinct(Ids(ts)) && ts[0].id == id
    ensures CompletedCount(Toggle(ts, id)) == CompletedCount(ts) + (if ts[0].completed then -1 else 1)
  {
    var r := Toggle(ts, id);
    ToggleCons(ts, id);
    FirstIdNotInTail(ts);
    ToggleUnknownId(ts[1..], id);
    CompletedCountCons(r);
    CompletedCountCons(ts);
  }

  /** Toggling an id other than the head's moves the count as it moves the tail's. */
  lemma ToggleCountPastHead(ts: seq<Task>, id: string, d: int)
    requires ts != [] && ts[0].id != id
    requires CompletedCount(Toggle(ts[1..], id)) == CompletedCount(ts[1..]) + d
    ensures CompletedCount(Toggle(ts, id)) == CompletedCount(ts) + d
  {
    var r := Toggle(ts, id);
    ToggleCons(ts, id);
    CompletedCountCons(r);
    CompletedCountCons(ts);
  }

  lemma ToggleCons(ts: seq<Task>, id: string)
    requires ts != []
    ensures Toggle(ts, id)[0] == Flip(ts[0], id) && Toggle(ts, id)[1..] == Toggle(ts[1..], id)
  {
    assert Toggle(ts, id) == [Flip(ts[0], id)] + Toggle(ts[1..], id);
  }

  /** With distinct ids, the head's id occurs nowhere in the tail. */
  lemma FirstIdNotInTail(ts: seq<Task>)
    requires ts != [] && Distinct(Ids(ts))
    ensures !HasId(ts[1..], ts[0].id)
  {
    DistinctTail(Ids(ts));
    forall j | 0 <= j < |ts[1..]| ensures ts[1..][j].id != ts[0].id {
      assert ts[1..][j].id == Ids(ts)[1..][j];
    }
  }

  /** With distinct ids, the id at a later position is not the head's, and the tail keeps distinct ids. */
  lemma LaterIdInTail(ts: seq<Task>, k: nat)
    requires 0 < k < |ts| && Distinct(Ids(ts))
    ensures ts[0].id != ts[k].id && Distinct(Ids(ts[1..])) && ts[1..][k - 1] == ts[k]
  {
    DistinctTail(Ids(ts));
    assert Ids(ts)[0] != Ids(ts)[k];
  }

  /** Completing a task never lowers the progress bar, and reopening one never raises it. */
  lemma ToggleProgress(ts: seq<Task>, id: string, k: nat)
    requires Distinct(Ids(ts)) && k < |ts| && ts[k].id == id
    ensures !ts[k].completed ==> Progress(ts) <= Progress(Toggle(ts, id))
    ensures ts[k].completed ==> Progress(Toggle(ts, id)) <= Progress(ts)
  {
    ToggleCompletedCount(ts, id, k);
    var c, c' := CompletedCount(ts), CompletedCount(Toggle(ts, id));
    if ts[k].completed {
      RoundedPercentMonotone(c', c, |ts|);
    } else {
      RoundedPercentMonotone(c, c', |ts|);
    }
  }
}
