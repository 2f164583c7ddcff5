/** The task list and the pure transforms the page builds with spread, map and
    filter: prepend on add, toggle by id, delete by id, the three filter views and
    the counters. */
module Tasks {
  import opened Priority

  /** A task as the page stores it. The id is the decimal text of a clock reading
      and createdAt a clock reading in milliseconds; both are opaque here. */
  datatype Task = Task(id: string, title: string, completed: bool, priority: Level, createdAt: int)

  /** The three filter buttons. */
  datatype FilterMode = All | Active | Completed

  /** The test each filter call on the page applies to a task. */
  datatype Criterion =
    | IdIsNot(id: string)      // delete: keep the tasks whose id differs
    | InView(mode: FilterMode) // the visible list and the counters

  predicate Keeps(c: Criterion, t: Task) {
    match c
    case IdIsNot(id) => t.id != id
    case InView(mode) =>
      if mode == Active then !t.completed
      else if mode == Completed then t.completed
      else true
  }

  /** Array.prototype.filter: the tasks of ts that c keeps, in their order. Every
      element of the result is an element of ts that c keeps. */
  function Select(ts: seq<Task>, c: Criterion): (r: seq<Task>)
    ensures |r| <= |ts|
    ensures forall t :: t in r ==> t in ts && Keeps(c, t)
  {
    if ts == [] then []
    else if Keeps(c, ts[0]) then [ts[0]] + Select(ts[1..], c)
    else Select(ts[1..], c)
  }

  /** r is an order-preserving subsequence of s (greedy left-to-right matching). */
  predicate Embeds(r: seq<Task>, s: seq<Task>)
    decreases |s|
  {
    if r == [] then true
    else if s == [] then false
    else if r[0] == s[0] then Embeds(r[1..], s[1..])
    else Embeds(r, s[1..])
  }

  // ---------------------------------------------------------------------------
  // Filtering in general
  // ---------------------------------------------------------------------------

  /** The filter keeps every copy of a task the criterion accepts and no copy of
      one it rejects. */
  lemma {:induction false} SelectCount(ts: seq<Task>, c: Criterion, t: Task)
    ensures multiset(Select(ts, c))[t] == if Keeps(c, t) then multiset(ts)[t] else 0
  {
    if ts != [] {
      SelectCount(ts[1..], c, t);
      assert ts == [ts[0]] + ts[1..];
    }
  }

  /** The filter keeps the order of the tasks it keeps. */
  lemma {:induction false} SelectEmbeds(ts: seq<Task>, c: Criterion)
    ensures Embeds(Select(ts, c), ts)
  {
    if ts != [] {
      SelectEmbeds(ts[1..], c);
      if Keeps(c, ts[0]) {
        assert Select(ts, c)[1..] == Select(ts[1..], c);
      }
    }
  }

  /** A filter that rejects nothing returns the list itself. */
  lemma {:induction false} SelectAllKept(ts: seq<Task>, c: Criterion)
    requires forall k :: 0 <= k < |ts| ==> Keeps(c, ts[k])
    ensures Select(ts, c) == ts
  {
    if ts != [] {
      SelectAllKept(ts[1..], c);
    }
  }

  /** Filtering twice by the same test is filtering once. */
  lemma SelectIdempotent(ts: seq<Task>, c: Criterion)
    ensures Select(Select(ts, c), c) == Select(ts, c)
  {
    SelectAllKept(Select(ts, c), c);
  }

  /** Two complementary filters split a list: every copy of every task lands in
      exactly one of them. */
  lemma SelectPartition(ts: seq<Task>, yes: Criterion, no: Criterion)
    requires forall t :: Keeps(yes, t) != Keeps(no, t)
    ensures multiset(Select(ts, yes)) + multiset(Select(ts, no)) == multiset(ts)
    ensures |Select(ts, yes)| + |Select(ts, no)| == |ts|
  {
    forall t ensures (multiset(Select(ts, yes)) + multiset(Select(ts, no)))[t] == multiset(ts)[t] {
      SelectCount(ts, yes, t);
      SelectCount(ts, no, t);
    }
    assert multiset(Select(ts, yes)) + multiset(Select(ts, no)) == multiset(ts);
    assert |multiset(Select(ts, yes))| + |multiset(Select(ts, no))| == |multiset(ts)|;
  }

  // ---------------------------------------------------------------------------
  // Add
  // ---------------------------------------------------------------------------

  /** The task the add button creates from the typed text: not completed, with the
      suggested priority of the text as typed (not trimmed). */
  function NewTask(id: string, title: string, createdAt: int): (t: Task)
    ensures t.title == title && !t.completed && t.id == id && t.createdAt == createdAt
    ensures t.priority == High <==> MentionsAny(title, UrgentWords)
    ensures t.priority == Low <==> !MentionsAny(title, UrgentWords) && MentionsAny(title, EasyWords)
  {
    ClassifyHigh(title);
    ClassifyLow(title);
    Task(id, title, false, Classify(title), createdAt)
  }

  // ---------------------------------------------------------------------------
  // Toggle
  // ---------------------------------------------------------------------------

  function Flip(t: Task): Task {
    t.(completed := !t.completed)
  }

  /** tasks.map over the list, flipping completed on every task with the given id.
      The length and order are kept; a task with another id is unchanged, and a
      task with this id differs only in completed. */
  function Toggled(ts: seq<Task>, id: string): (r: seq<Task>)
    ensures |r| == |ts|
    ensures forall k :: 0 <= k < |ts| ==> r[k] == if ts[k].id == id then Flip(ts[k]) else ts[k]
  {
    if ts == [] then []
    else [if ts[0].id == id then Flip(ts[0]) else ts[0]] + Toggled(ts[1..], id)
  }

  /** Toggling the same id twice restores the list. */
  lemma ToggleInvolution(ts: seq<Task>, id: string)
    ensures Toggled(Toggled(ts, id), id) == ts
  {
  }

  /** Toggling an id that no task has changes nothing. */
  lemma ToggleAbsentIsNoop(ts: seq<Task>, id: string)
    requires forall k :: 0 <= k < |ts| ==> ts[k].id != id
    ensures Toggled(ts, id) == ts
  {
  }

  /** Toggles of two ids commute. */
  lemma ToggleCommutes(ts: seq<Task>, a: string, b: string)
    ensures Toggled(Toggled(ts, a), b) == Toggled(Toggled(ts, b), a)
  {
  }

  /** When ids are distinct, toggling the id of the task at position k changes
      that task alone. */
  lemma ToggleDistinct(ts: seq<Task>, k: int)
    requires DistinctIds(ts)
    requires 0 <= k < |ts|
    ensures Toggled(ts, ts[k].id) == ts[k := Flip(ts[k])]
  {
  }

  /** No two tasks share an id. The page does not guarantee this: ids are clock
      readings, and two adds within one millisecond collide. */
  predicate DistinctIds(ts: seq<Task>) {
    forall i, j :: 0 <= i < j < |ts| ==> ts[i].id != ts[j].id
  }

  // ---------------------------------------------------------------------------
  // Delete
  // ---------------------------------------------------------------------------

  /** tasks.filter(t => t.id !== id). */
  function Deleted(ts: seq<Task>, id: string): seq<Task> {
    Select(ts, IdIsNot(id))
  }

  /** Delete removes every task with the id, keeps every copy of every other task,
      and keeps their order. */
  lemma DeleteSpec(ts: seq<Task>, id: string)
    ensures forall k :: 0 <= k < |Deleted(ts, id)| ==> Deleted(ts, id)[k].id != id
    ensures forall t: Task :: t.id != id ==> multiset(Deleted(ts, id))[t] == multiset(ts)[t]
    ensures forall t: Task :: t.id == id ==> t !in Deleted(ts, id)
    ensures Embeds(Deleted(ts, id), ts)
  {
    forall t ensures multiset(Deleted(ts, id))[t] == if t.id != id then multiset(ts)[t] else 0 {
      SelectCount(ts, IdIsNot(id), t);
    }
    SelectEmbeds(ts, IdIsNot(id));
  }

  /** Deleting an id that no task has changes nothing. */
  lemma DeleteAbsentIsNoop(ts: seq<Task>, id: string)
    requires forall k :: 0 <= k < |ts| ==> ts[k].id != id
    ensures Deleted(ts, id) == ts
  {
    SelectAllKept(ts, IdIsNot(id));
  }

  /** Deleting the same id twice is deleting it once. */
  lemma DeleteIdempotent(ts: seq<Task>, id: string)
    ensures Deleted(Deleted(ts, id), id) == Deleted(ts, id)
  {
    SelectIdempotent(ts, IdIsNot(id));
  }

  /** Deleting the id of a task just added removes that task and every older task
      that shares its id; when the id is fresh this undoes the add. */
  lemma DeleteAfterAdd(ts: seq<Task>, t: Task)
    ensures Deleted([t] + ts, t.id) == Deleted(ts, t.id)
    ensures (forall k :: 0 <= k < |ts| ==> ts[k].id != t.id) ==> Deleted([t] + ts, t.id) == ts
  {
    assert ([t] + ts)[1..] == ts;
    if forall k :: 0 <= k < |ts| ==> ts[k].id != t.id {
      DeleteAbsentIsNoop(ts, t.id);
    }
  }

  /** When ids are distinct, deleting the id of a present task shortens the list
      by exactly one. */
  lemma {:induction false} DeleteDistinctRemovesOne(ts: seq<Task>, k: int)
    requires DistinctIds(ts)
    requires 0 <= k < |ts|
    ensures |Deleted(ts, ts[k].id)| == |ts| - 1
  {
    var id := ts[k].id;
    if k == 0 {
      assert forall j :: 0 <= j < |ts[1..]| ==> ts[1..][j].id != id;
      DeleteAbsentIsNoop(ts[1..], id);
    } else {
      assert DistinctIds(ts[1..]) by {
        forall i, j | 0 <= i < j < |ts[1..]| ensures ts[1..][i].id != ts[1..][j].id {
          assert ts[1..][i] == ts[i + 1] && ts[1..][j] == ts[j + 1];
        }
      }
      assert ts[1..][k - 1] == ts[k];
      DeleteDistinctRemovesOne(ts[1..], k - 1);
    }
  }

  // ---------------------------------------------------------------------------
  // Views and counters
  // ---------------------------------------------------------------------------

  /** The list the page shows under a filter mode. */
  function Visible(ts: seq<Task>, mode: FilterMode): seq<Task> {
    Select(ts, InView(mode))
  }

  /** The "all" view is the whole list. */
  lemma VisibleAll(ts: seq<Task>)
    ensures Visible(ts, All) == ts
  {
    SelectAllKept(ts, InView(All));
  }

  /** The "active" and "completed" views split the list: both keep its order, they
      share no task, and together they hold every copy of every task. */
  lemma VisiblePartition(ts: seq<Task>)
    ensures Embeds(Visible(ts, Active), ts) && Embeds(Visible(ts, Completed), ts)
    ensures forall t :: !(t in Visible(ts, Active) && t in Visible(ts, Completed))
    ensures multiset(Visible(ts, Active)) + multiset(Visible(ts, Completed)) == multiset(ts)
    ensures |Visible(ts, Active)| + |Visible(ts, Completed)| == |ts|
  {
    SelectEmbeds(ts, InView(Active));
    SelectEmbeds(ts, InView(Completed));
    SelectPartition(ts, InView(Active), InView(Completed));
  }

  datatype Stats = Stats(total: nat, completed: nat, active: nat)

  /** The three counters in the page header. */
  function StatsOf(ts: seq<Task>): Stats {
    Stats(|ts|, |Select(ts, InView(Completed))|, |Select(ts, InView(Active))|)
  }

  /** The counters add up, and each matches the length of its view. */
  lemma StatsAddUp(ts: seq<Task>)
    ensures StatsOf(ts).total == StatsOf(ts).completed + StatsOf(ts).active
    ensures StatsOf(ts).completed == |Visible(ts, Completed)|
    ensures StatsOf(ts).active == |Visible(ts, Active)|
    ensures StatsOf(ts).total == |Visible(ts, All)|
  {
    VisiblePartition(ts);
    VisibleAll(ts);
  }

  /** Toggling keeps the total; with distinct ids, toggling the id of an active
      task moves exactly one task from active to completed. */
  lemma ToggleStats(ts: seq<Task>, k: int)
    requires DistinctIds(ts)
    requires 0 <= k < |ts| && !ts[k].completed
    ensures StatsOf(Toggled(ts, ts[k].id)).total == StatsOf(ts).total
    ensures StatsOf(Toggled(ts, ts[k].id)).completed == StatsOf(ts).completed + 1
    ensures StatsOf(Toggled(ts, ts[k].id)).active == StatsOf(ts).active - 1
  {
    ToggleDistinct(ts, k);
    SelectLengthUpdate(ts, k, Flip(ts[k]), InView(Completed));
    SelectLengthUpdate(ts, k, Flip(ts[k]), InView(Active));
  }

  /** Replacing one task changes the length of a filter by what the criterion
      says of the old and the new task. */
  lemma {:induction false} SelectLengthUpdate(ts: seq<Task>, k: int, x: Task, c: Criterion)
    requires 0 <= k < |ts|
    ensures |Select(ts[k := x], c)| ==
      |Select(ts, c)| - (if Keeps(c, ts[k]) then 1 else 0) + (if Keeps(c, x) then 1 else 0)
  {
    var ts' := ts[k := x];
    if k == 0 {
      assert ts'[1..] == ts[1..];
    } else {
      assert ts'[1..] == ts[1..][k - 1 := x];
      SelectLengthUpdate(ts[1..], k - 1, x, c);
    }
  }
}
