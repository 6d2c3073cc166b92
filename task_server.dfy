/**
 The task service: the four `/tasks` handlers (list, create, toggle, delete)
 as methods of an in-memory store that holds the task collection and a
 supply of fresh identifiers. Each request becomes a method call and each
 response a `Reply` holding the HTTP status code and an abstract body.
 */
module TaskServer {
  import opened TaskModel

  // ---- Responses ----

  datatype Message = TaskDeleted

  datatype Failure = TextMissing | TaskNotFound | UpdateFailed

  datatype Body =
    | TaskList(tasks: seq<Task>)
    | OneTask(task: Task)
    | Info(message: Message)
    | Error(failure: Failure)

  datatype Reply = Reply(code: int, body: Body)

  // ---- Listing order: newest `createdAt` first ----

  ghost predicate NewestFirst(s: seq<Task>) {
    forall i, j :: 0 <= i < j < |s| ==> s[i].createdAt >= s[j].createdAt
  }

  /** A sequence with head `h` is newest first exactly when its tail is and `h` is at least as new as every task in it. */
  lemma NewestFirstCons(h: Task, rest: seq<Task>)
    ensures NewestFirst([h] + rest) <==> NewestFirst(rest) && forall x :: x in rest ==> h.createdAt >= x.createdAt
  {
    var s := [h] + rest;
    if NewestFirst(s) {
      forall x | x in rest ensures h.createdAt >= x.createdAt {
        var k :| 0 <= k < |rest| && rest[k] == x;
        assert s[0] == h && s[k + 1] == x;
      }
      forall i, j | 0 <= i < j < |rest| ensures rest[i].createdAt >= rest[j].createdAt {
        assert s[i + 1] == rest[i] && s[j + 1] == rest[j];
      }
    }
    if NewestFirst(rest) && forall x :: x in rest ==> h.createdAt >= x.createdAt {
      forall i, j | 0 <= i < j < |s| ensures s[i].createdAt >= s[j].createdAt {
        assert s[j] == rest[j - 1];
        if i > 0 { assert s[i] == rest[i - 1]; } else { assert s[j] in rest; }
      }
    }
  }

  /** Puts `t` into a newest-first sequence at a place that keeps it newest first. */
  function InsertByDate(t: Task, s: seq<Task>): (r: seq<Task>)
    requires NewestFirst(s)
    ensures forall x :: x in r ==> x == t || x in s
    ensures NewestFirst(r)
    ensures multiset(r) == multiset(s) + multiset{t}
    decreases |s|
  {
    if s == [] then
      NewestFirstCons(t, s);
      [t]
    else
      assert s == [s[0]] + s[1..];
      NewestFirstCons(s[0], s[1..]);
      if t.createdAt >= s[0].createdAt then
        assert forall x :: x in s ==> x == s[0] || x in s[1..];
        NewestFirstCons(t, s);
        [t] + s
      else
        var rest := InsertByDate(t, s[1..]);
        NewestFirstCons(s[0], rest);
        [s[0]] + rest
  }

  /** The collection ordered by `createdAt`, newest first. */
  function SortNewestFirst(s: seq<Task>): (r: seq<Task>)
    ensures NewestFirst(r)
    ensures multiset(r) == multiset(s)
  {
    if s == [] then []
    else
      assert s == [s[0]] + s[1..];
      InsertByDate(s[0], SortNewestFirst(s[1..]))
  }

  // ---- The toggle rule ----

  /** The legacy `status` word for a completion value. */
  function StatusWord(completed: bool): (w: string)
    ensures w == "done" <==> completed
    ensures w == "pending" <==> !completed
  {
    if completed then "done" else "pending"
  }

  /**
   The document after the PUT handler's field updates: `completed` is
   negated and the legacy `done` and `status` fields are rewritten to match
   the new value; nothing else changes.
   */
  function Toggled(t: Task): (r: Task)
    ensures r.completed == !t.completed
    ensures r.done == Some(r.completed)
    ensures r.status == Some(if r.completed then "done" else "pending")
    ensures r.id == t.id && r.text == t.text && r.title == t.title
    ensures r.createdAt == t.createdAt && r.extra == t.extra
  {
    var newStatus := !t.completed;
    t.(completed := newStatus, status := Some(StatusWord(newStatus)), done := Some(newStatus))
  }

  /** The legacy fields say the same thing as `completed`. */
  predicate Synced(t: Task) {
    t.done == Some(t.completed) && t.status == Some(StatusWord(t.completed))
  }

  /** Toggling twice restores `completed`, and any toggled task is in sync. */
  lemma ToggleTwiceRestoresCompleted(t: Task)
    ensures Toggled(Toggled(t)).completed == t.completed
    ensures Synced(Toggled(t))
  {
  }

  /** On a task whose legacy fields are in sync, two toggles change nothing at all. */
  lemma ToggleTwiceOnSynced(t: Task)
    requires Synced(t)
    ensures Toggled(Toggled(t)) == t
  {
  }

  // ---- The store ----

  class TaskStore {
    /** The task collection, in insertion order. */
    var tasks: seq<Task>
    /** The next identifier the fresh-id supply hands out. */
    var nextId: Id

    ghost predicate Valid()
      reads this
    {
      UniqueIds(tasks) && forall t :: t in tasks ==> t.id < nextId
    }

    /** A store over an existing collection, whose identifiers are all below `firstFreshId`. */
    constructor (existing: seq<Task>, firstFreshId: Id)
      requires UniqueIds(existing)
      requires forall t :: t in existing ==> t.id < firstFreshId
      ensures Valid()
      ensures tasks == existing && nextId == firstFreshId
    {
      tasks := existing;
      nextId := firstFreshId;
    }

    /** GET /tasks: every stored task, newest `createdAt` first. */
    method List() returns (reply: Reply)
      ensures reply.code == 200 && reply.body.TaskList?
      ensures multiset(reply.body.tasks) == multiset(tasks)
      ensures NewestFirst(reply.body.tasks)
    {
      reply := Reply(200, TaskList(SortNewestFirst(tasks)));
    }

    /**
     POST /tasks: a missing or empty `text` is refused with 400; otherwise a
     new task with that text, `completed` false and `createdAt` now is stored
     under a fresh identifier and returned with 201.
     */
    method Create(text: Option<string>, now: Time) returns (reply: Reply)
      requires Valid()
      modifies this
      ensures Valid()
      ensures !HasText(text) ==>
        reply == Reply(400, Error(TextMissing)) && tasks == old(tasks) && nextId == old(nextId)
      ensures HasText(text) ==> reply.code == 201 && reply.body.OneTask?
      ensures HasText(text) ==>
        var t := reply.body.task;
        && !HasId(old(tasks), t.id)
        && t.text == text && !t.completed && t.createdAt == now
        && t.title.None? && t.done.None? && t.status.None? && t.extra == map[]
        && tasks == old(tasks) + [t]
        && t.id == old(nextId) && nextId == old(nextId) + 1
    {
      if !HasText(text) {
        return Reply(400, Error(TextMissing));
      }
      var r := MkTask(Draft(text, None, Some(false), None, None, None, map[]), nextId, now);
      var t := r.value;
      assert !HasId(tasks, t.id) by {
        forall i | 0 <= i < |tasks| ensures tasks[i].id != t.id {
          assert tasks[i] in tasks;
        }
      }
      tasks := tasks + [t];
      nextId := nextId + 1;
      reply := Reply(201, OneTask(t));
    }

    /**
     PUT /tasks/:id: an unknown identifier gets 404. A known task is toggled
     and saved; saving runs the schema's validation, so a stored document
     without `text` is refused with 400 and left as it was.
     */
    method Toggle(id: Id) returns (reply: Reply)
      requires Valid()
      modifies this
      ensures Valid() && nextId == old(nextId)
      ensures !HasId(old(tasks), id) ==> reply == Reply(404, Error(TaskNotFound)) && tasks == old(tasks)
      ensures forall i :: 0 <= i < |old(tasks)| && old(tasks)[i].id == id ==>
        if HasText(old(tasks)[i].text) then
          && reply == Reply(200, OneTask(Toggled(old(tasks)[i])))
          && tasks == old(tasks)[i := Toggled(old(tasks)[i])]
        else
          reply == Reply(400, Error(UpdateFailed)) && tasks == old(tasks)
    {
      match FindById(tasks, id)
      case None =>
        reply := Reply(404, Error(TaskNotFound));
      case Some(i) =>
        var updated := Toggled(tasks[i]);
        if !HasText(updated.text) {
          reply := Reply(400, Error(UpdateFailed));
        } else {
          ghost var before := tasks;
          tasks := tasks[i := updated];
          assert forall t :: t in tasks ==> t == updated || t in before;
          reply := Reply(200, OneTask(updated));
        }
    }

    /**
     DELETE /tasks/:id: removes the task with that identifier if there is one
     and answers with the success message either way.
     */
    method Delete(id: Id) returns (reply: Reply)
      requires Valid()
      modifies this
      ensures Valid() && nextId == old(nextId)
      ensures reply == Reply(200, Info(TaskDeleted))
      ensures tasks == WithoutId(old(tasks), id)
      ensures !HasId(tasks, id)
    {
      WithoutIdUnique(tasks, id);
      tasks := WithoutId(tasks, id);
      assert forall i :: 0 <= i < |tasks| ==> tasks[i] in tasks;
      reply := Reply(200, Info(TaskDeleted));
    }
  }
}
