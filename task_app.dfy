/**
 The browser client: the completion check that tolerates the legacy
 fields, the search-and-filter pipeline, the derived counts and the summary
 message, and the component state (`tasks`, `text`, `search`, `filter`) that
 each user action reconciles from the service's reply. Requests are direct
 calls on a `TaskStore`; a reply outside 2xx is treated as the request
 library's rejection, which leaves the client state as it was.
 */
module TaskApp {
  import opened TaskModel
  import opened TaskServer

  // ---- Completion, across the three fields that have meant it ----

  /**
   A task counts as completed when `completed` is set, when the legacy
   `done` flag is true, or when the legacy `status` is "done" or "completed".
   */
  predicate CheckCompleted(t: Task): (b: bool)
    ensures t.completed ==> b
    ensures !b ==> !t.completed && t.done != Some(true)
    ensures Synced(t) ==> (b <==> t.completed)
  {
    t.completed || t.done == Some(true) || t.status == Some("done") || t.status == Some("completed")
  }

  /** A task whose legacy fields are in sync is classified by `completed` alone. */
  lemma SyncedAgrees(t: Task)
    requires Synced(t)
    ensures CheckCompleted(t) == t.completed
  {
  }

  /** After a server toggle the client's classification equals the new `completed`. */
  lemma {:induction false} ToggledAgrees(t: Task)
    ensures CheckCompleted(Toggled(t)) == Toggled(t).completed
  {
    ToggleTwiceRestoresCompleted(t);
    SyncedAgrees(Toggled(t));
  }

  /** A task as the create handler builds it is classified as not completed. */
  lemma NewTaskAgrees(text: string, id: Id, now: Time)
    requires text != ""
    ensures var r := MkTask(Draft(Some(text), None, Some(false), None, None, None, map[]), id, now);
      r.Ok? && !r.value.completed && !CheckCompleted(r.value)
  {
  }

  /** A task with only `status` "done" counts as completed, like one with `completed` set. */
  lemma StatusDoneCountsAsCompleted(t: Task)
    requires !t.completed && t.status == Some("done")
    ensures CheckCompleted(t) && CheckCompleted(t.(completed := true))
  {
  }

  /** A task whose legacy `status` is "completed" counts as completed whatever its other fields say. */
  lemma StatusCompletedCounts(t: Task)
    requires t.status == Some("completed")
    ensures CheckCompleted(t)
  {
  }

  // ---- Search ----

  /** `toLowerCase` on one character; only the ASCII letters are mapped. */
  function LowerChar(c: char): (r: char)
    ensures !('A' <= r <= 'Z')
    ensures !('A' <= c <= 'Z') ==> r == c
    ensures 'A' <= c <= 'Z' ==> 'a' <= r <= 'z' && r as int - c as int == 'a' as int - 'A' as int
  {
    if 'A' <= c <= 'Z' then (c as int + 32) as char else c
  }

  function Lower(s: string): (r: string)
    ensures |r| == |s|
    ensures forall i :: 0 <= i < |r| ==> !('A' <= r[i] <= 'Z')
    ensures forall i :: 0 <= i < |s| && !('A' <= s[i] <= 'Z') ==> r[i] == s[i]
    ensures forall i :: 0 <= i < |s| && 'A' <= s[i] <= 'Z' ==> r[i] as int == s[i] as int + 32
  {
    seq(|s|, i requires 0 <= i < |s| => LowerChar(s[i]))
  }

  /** Lower-casing twice is lower-casing once. */
  lemma LowerIdempotent(s: string)
    ensures Lower(Lower(s)) == Lower(s)
  {
  }

  /** `needle` occurs in `hay` starting at position `i`. */
  ghost predicate OccursAt(hay: string, needle: string, i: int) {
    0 <= i && i + |needle| <= |hay| && hay[i..i + |needle|] == needle
  }

  lemma OccursShift(hay: string, needle: string)
    requires hay != []
    ensures forall i :: 0 <= i ==> (OccursAt(hay[1..], needle, i) <==> OccursAt(hay, needle, i + 1))
  {
    forall i | 0 <= i ensures OccursAt(hay[1..], needle, i) <==> OccursAt(hay, needle, i + 1) {
      if 0 <= i && i + |needle| <= |hay[1..]| {
        assert hay[1..][i..i + |needle|] == hay[i + 1..i + 1 + |needle|];
      }
    }
  }

  /** The substring test `hay.includes(needle)`. */
  function Includes(hay: string, needle: string): (b: bool)
    ensures b <==> exists i :: OccursAt(hay, needle, i)
    decreases |hay|
  {
    if |needle| <= |hay| && hay[..|needle|] == needle then
      assert OccursAt(hay, needle, 0);
      true
    else if hay == [] then
      false
    else
      OccursShift(hay, needle);
      assert !OccursAt(hay, needle, 0);
      assert forall i :: OccursAt(hay, needle, i) ==> i == 0 || OccursAt(hay[1..], needle, i - 1);
      Includes(hay[1..], needle)
  }

  /** The text searched: `text`, or else `title`, or else the empty string (empty strings fall through). */
  function SearchKey(t: Task): (k: string)
    ensures k == "" <==> !HasText(t.text) && !HasText(t.title)
    ensures k != "" ==> Some(k) == t.text || Some(k) == t.title
    ensures HasText(t.text) ==> k == t.text.value
  {
    if t.text.Some? && t.text.value != "" then t.text.value
    else if t.title.Some? && t.title.value != "" then t.title.value
    else ""
  }

  /** The case-insensitive substring test of the query against the search text. */
  predicate MatchesSearch(t: Task, search: string): (b: bool)
    ensures b ==> |search| <= |SearchKey(t)|
  {
    Includes(Lower(SearchKey(t)), Lower(search))
  }

  /** An empty search matches every task. */
  lemma {:induction false} EmptySearchMatches(t: Task)
    ensures MatchesSearch(t, "")
  {
    assert Lower("") == "";
    assert OccursAt(Lower(SearchKey(t)), "", 0);
  }

  /** The search ignores the case of the task's text. */
  lemma {:induction false} SearchIgnoresKeyCase(t: Task, search: string)
    requires HasText(t.text)
    ensures MatchesSearch(t.(text := Some(Lower(t.text.value))), search) == MatchesSearch(t, search)
  {
    LowerIdempotent(t.text.value);
  }

  /** The search ignores the case of the query. */
  lemma {:induction false} SearchIgnoresQueryCase(t: Task, search: string)
    ensures MatchesSearch(t, Lower(search)) == MatchesSearch(t, search)
  {
    LowerIdempotent(search);
  }

  // ---- Filter ----

  /** "all" keeps everything, "active" the unfinished tasks, any other value the finished ones. */
  predicate MatchesFilter(filter: string, completed: bool): (b: bool)
    ensures filter == "all" ==> b
    ensures filter != "all" ==> (b <==> (filter == "active" <==> !completed))
  {
    if filter == "all" then true
    else if filter == "active" then !completed
    else completed
  }

  /** A task is shown when it passes both the search and the filter. */
  predicate Keep(t: Task, search: string, filter: string): (b: bool)
    ensures filter == "all" ==> (b <==> MatchesSearch(t, search))
    ensures b && filter == "active" ==> !CheckCompleted(t)
    ensures b && filter != "all" && filter != "active" ==> CheckCompleted(t)
    ensures !MatchesSearch(t, search) ==> !b
  {
    MatchesSearch(t, search) && MatchesFilter(filter, CheckCompleted(t))
  }

  /** The tasks shown: those matching both the search and the filter. */
  function FilteredTasks(ts: seq<Task>, search: string, filter: string): (r: seq<Task>)
    ensures |r| <= |ts|
    ensures forall t :: t in r <==> t in ts && Keep(t, search, filter)
    ensures forall t :: multiset(r)[t] == if Keep(t, search, filter) then multiset(ts)[t] else 0
    decreases |ts|
  {
    if ts == [] then []
    else
      assert ts == [ts[0]] + ts[1..];
      (if Keep(ts[0], search, filter) then [ts[0]] else []) + FilteredTasks(ts[1..], search, filter)
  }

  /** The shown tasks keep the order they have in `tasks`. */
  lemma {:induction false} FilteredKeepsOrder(ts: seq<Task>, search: string, filter: string)
    ensures IsSubsequence(FilteredTasks(ts, search, filter), ts)
    decreases |ts|
  {
    if ts != [] {
      var r := FilteredTasks(ts, search, filter);
      FilteredKeepsOrder(ts[1..], search, filter);
      if Keep(ts[0], search, filter) {
        assert r[1..] == FilteredTasks(ts[1..], search, filter);
      } else {
        assert r == FilteredTasks(ts[1..], search, filter);
        SubsequenceOfTail(r, ts);
      }
    }
  }

  /** With an empty search and the "all" filter every task is shown, in order. */
  lemma {:induction false} EmptySearchShowsAll(ts: seq<Task>)
    ensures FilteredTasks(ts, "", "all") == ts
    decreases |ts|
  {
    if ts != [] {
      EmptySearchMatches(ts[0]);
      EmptySearchShowsAll(ts[1..]);
      calc {
        FilteredTasks(ts, "", "all");
        [ts[0]] + FilteredTasks(ts[1..], "", "all");
        [ts[0]] + ts[1..];
        ts;
      }
    }
  }

  /**
   The "active" view and the completed view split the "all" view: under the
   same search their sizes add up to its size.
   */
  lemma {:induction false} FilterPartition(ts: seq<Task>, search: string, filter: string)
    requires filter != "all" && filter != "active"
    ensures |FilteredTasks(ts, search, "active")| + |FilteredTasks(ts, search, filter)|
         == |FilteredTasks(ts, search, "all")|
    decreases |ts|
  {
    if ts != [] {
      FilterPartition(ts[1..], search, filter);
    }
  }

  // ---- Counts and summary ----

  /** The number of tasks classified as completed. */
  function CompletedCount(ts: seq<Task>): (n: nat)
    ensures n <= |ts|
    ensures n == |ts| <==> forall t :: t in ts ==> CheckCompleted(t)
    ensures n == 0 <==> forall t :: t in ts ==> !CheckCompleted(t)
  {
    if ts == [] then 0
    else
      assert forall t :: t in ts ==> t == ts[0] || t in ts[1..];
      (if CheckCompleted(ts[0]) then 1 else 0) + CompletedCount(ts[1..])
  }

  datatype Counts = Counts(total: nat, completed: nat, active: nat)

  function Tally(ts: seq<Task>): (c: Counts)
    ensures c.total == |ts| && c.completed <= c.total
    ensures c.completed + c.active == c.total
    ensures c.active == 0 <==> forall t :: t in ts ==> CheckCompleted(t)
  {
    var done := CompletedCount(ts);
    Counts(|ts|, done, |ts| - done)
  }

  /** The counts are the sizes of the completed and "active" views with an empty search. */
  lemma {:induction false} CountsAreFilterSizes(ts: seq<Task>)
    ensures Tally(ts).completed == |FilteredTasks(ts, "", "completed")|
    ensures Tally(ts).active == |FilteredTasks(ts, "", "active")|
    decreases |ts|
  {
    if ts != [] {
      EmptySearchMatches(ts[0]);
      CountsAreFilterSizes(ts[1..]);
    }
  }

  /** The kinds of encouragement message, each with the number of tasks still open. */
  datatype Summary =
    | StartFresh
    | AllDone
    | AlmostThere(remaining: nat)
    | PastHalfway(remaining: nat)
    | KeepGoing(remaining: nat)

  /**
   The summary message, chosen in order: no tasks; none open; more than 70%
   complete; more than 40% complete; otherwise.
   */
  function FocusSummary(ts: seq<Task>): (s: Summary)
    ensures s == StartFresh <==> ts == []
    ensures s == AllDone <==> ts != [] && forall t :: t in ts ==> CheckCompleted(t)
    ensures s.AlmostThere? <==>
      Tally(ts).active > 0 && Tally(ts).completed * 100 > 70 * |ts|
    ensures s.PastHalfway? <==>
      Tally(ts).active > 0 && 40 * |ts| < Tally(ts).completed * 100 <= 70 * |ts|
    ensures s.KeepGoing? <==>
      ts != [] && Tally(ts).active > 0 && Tally(ts).completed * 100 <= 40 * |ts|
    ensures !s.StartFresh? && !s.AllDone? ==> s.remaining == Tally(ts).active > 0
  {
    var c := Tally(ts);
    if c.total == 0 then StartFresh
    else if c.active == 0 then AllDone
    else if c.completed * 100 > 70 * c.total then AlmostThere(c.active)
    else if c.completed * 100 > 40 * c.total then PastHalfway(c.active)
    else KeepGoing(c.active)
  }

  // ---- Blank input ----

  /** The characters `String.prototype.trim` removes. */
  predicate IsJsWhitespace(c: char): (b: bool)
    ensures b ==> !('a' <= c <= 'z' || 'A' <= c <= 'Z' || '0' <= c <= '9')
    ensures c == ' ' || c == '\t' || c == '\n' ==> b
  {
    || c == ' ' || c == '\t' || c == '\n' || c == '\r'
    || c == '\U{000B}' || c == '\U{000C}' || c == '\U{00A0}' || c == '\U{1680}'
    || ('\U{2000}' <= c <= '\U{200A}')
    || c == '\U{2028}' || c == '\U{2029}' || c == '\U{202F}' || c == '\U{205F}'
    || c == '\U{3000}' || c == '\U{FEFF}'
  }

  ghost predicate AllWhitespace(s: string) {
    forall i :: 0 <= i < |s| ==> IsJsWhitespace(s[i])
  }

  /** Drops the leading whitespace: the result is a suffix of `s`. */
  function TrimStart(s: string): (r: string)
    ensures |r| <= |s| && r == s[|s| - |r|..]
    decreases |s|
  {
    if s != [] && IsJsWhitespace(s[0]) then TrimStart(s[1..]) else s
  }

  /** Drops the trailing whitespace: the result is a prefix of `s` that does not end in whitespace. */
  function TrimEnd(s: string): (r: string)
    ensures |r| <= |s| && r == s[..|r|]
    ensures r != "" ==> !IsJsWhitespace(r[|r| - 1])
    decreases |s|
  {
    if s != [] && IsJsWhitespace(s[|s| - 1]) then TrimEnd(s[..|s| - 1]) else s
  }

  /** `text.trim()`: neither end of the result is whitespace. */
  function Trim(s: string): (r: string)
    ensures |r| <= |s|
    ensures r != "" ==> !IsJsWhitespace(r[0]) && !IsJsWhitespace(r[|r| - 1])
  {
    TrimStartShape(s);
    TrimEnd(TrimStart(s))
  }

  lemma {:induction false} TrimStartShape(s: string)
    ensures TrimStart(s) == "" <==> AllWhitespace(s)
    ensures TrimStart(s) != "" ==> !IsJsWhitespace(TrimStart(s)[0])
    decreases |s|
  {
    if s != [] && IsJsWhitespace(s[0]) {
      TrimStartShape(s[1..]);
      assert AllWhitespace(s) <==> AllWhitespace(s[1..]) by {
        if AllWhitespace(s[1..]) {
          forall i | 0 <= i < |s| ensures IsJsWhitespace(s[i]) {
            if i > 0 { assert s[i] == s[1..][i - 1]; }
          }
        }
      }
    }
  }

  lemma {:induction false} TrimEndKeepsHead(s: string)
    requires s != [] && !IsJsWhitespace(s[0])
    ensures TrimEnd(s) != ""
    decreases |s|
  {
    if IsJsWhitespace(s[|s| - 1]) {
      TrimEndKeepsHead(s[..|s| - 1]);
    }
  }

  /** `!text.trim()` holds exactly when every character of `text` is whitespace. */
  lemma {:induction false} TrimEmptyIffBlank(s: string)
    ensures Trim(s) == "" <==> AllWhitespace(s)
  {
    TrimStartShape(s);
    if TrimStart(s) != "" {
      TrimEndKeepsHead(TrimStart(s));
    }
  }

  /** The characters that trimming the front drops are all whitespace. */
  lemma {:induction false} TrimStartDropsWhitespace(s: string)
    ensures AllWhitespace(s[..|s| - |TrimStart(s)|])
    decreases |s|
  {
    if s != [] && IsJsWhitespace(s[0]) {
      TrimStartDropsWhitespace(s[1..]);
      var t := TrimStart(s[1..]);
      assert s[..|s| - |t|] == [s[0]] + s[1..][..|s[1..]| - |t|];
    }
  }

  /** The characters that trimming the end drops are all whitespace. */
  lemma {:induction false} TrimEndDropsWhitespace(s: string)
    ensures AllWhitespace(s[|TrimEnd(s)|..])
    decreases |s|
  {
    if s != [] && IsJsWhitespace(s[|s| - 1]) {
      TrimEndDropsWhitespace(s[..|s| - 1]);
      var t := TrimEnd(s[..|s| - 1]);
      assert s[|t|..] == s[..|s| - 1][|t|..] + [s[|s| - 1]];
    }
  }

  /**
   `text.trim()` is the middle of `text`: what it cuts off on either side is
   whitespace, and (by `Trim`'s contract) neither end of what it keeps is.
   */
  lemma {:induction false} TrimIsInfix(s: string)
    ensures exists i, j :: 0 <= i <= j <= |s| && Trim(s) == s[i..j] && AllWhitespace(s[..i]) && AllWhitespace(s[j..])
  {
    TrimStartDropsWhitespace(s);
    var x := TrimStart(s);
    TrimEndDropsWhitespace(x);
    var i := |s| - |x|;
    var j := i + |TrimEnd(x)|;
    assert Trim(s) == s[i..j];
    assert s[j..] == x[|TrimEnd(x)|..];
  }

  // ---- The component state ----

  /** A reply that the request library resolves (2xx) rather than rejects. */
  predicate Resolved(reply: Reply): (b: bool)
    ensures reply.code == 200 || reply.code == 201 ==> b
    ensures reply.code == 400 || reply.code == 404 || reply.code == 500 ==> !b
  {
    200 <= reply.code < 300
  }

  /** The local list holds exactly the stored tasks, in whatever order. */
  ghost predicate Mirrors(local: seq<Task>, stored: seq<Task>) {
    multiset(local) == multiset(stored)
  }

  /**
   Replacing by identifier in the local list mirrors writing the one stored
   position with that identifier.
   */
  lemma ToggleReconciles(local: seq<Task>, stored: seq<Task>, i: nat, u: Task)
    requires UniqueIds(stored) && i < |stored|
    ensures Mirrors(local, stored) ==> Mirrors(ReplaceById(local, stored[i].id, u), stored[i := u])
  {
    ReplaceAtUniqueId(stored, i, u);
    if Mirrors(local, stored) {
      ReplaceByIdSameBag(local, stored, stored[i].id, u);
    }
  }

  class TodoApp {
    var tasks: seq<Task>
    /** The new-task input. */
    var text: string
    var search: string
    var filter: string

    constructor ()
      ensures tasks == [] && text == "" && search == "" && filter == "all"
    {
      tasks, text, search, filter := [], "", "", "all";
    }

    /** The list as shown: the tasks that pass the search and the filter. */
    function Shown(): (r: seq<Task>)
      reads this
      ensures forall t :: t in r <==> t in tasks && Keep(t, search, filter)
      ensures forall t :: multiset(r)[t] == if Keep(t, search, filter) then multiset(tasks)[t] else 0
    {
      FilteredTasks(tasks, search, filter)
    }

    /** On mount: the local list becomes the service's listing. */
    method FetchTasks(server: TaskStore)
      modifies this
      ensures Mirrors(tasks, server.tasks) && NewestFirst(tasks)
      ensures text == old(text) && search == old(search) && filter == old(filter)
    {
      var reply := server.List();
      tasks := reply.body.tasks;
    }

    /**
     Add: blank input sends nothing and changes nothing; otherwise the text is
     posted as typed, the created task is put first and the input is cleared.
     */
    method AddTask(server: TaskStore, now: Time)
      requires server.Valid()
      modifies this, server
      ensures server.Valid()
      ensures search == old(search) && filter == old(filter)
      ensures AllWhitespace(old(text)) ==>
        && tasks == old(tasks) && text == old(text)
        && server.tasks == old(server.tasks) && server.nextId == old(server.nextId)
      ensures !AllWhitespace(old(text)) ==>
        && |server.tasks| == |old(server.tasks)| + 1
        && var t := server.tasks[|server.tasks| - 1];
        && server.tasks == old(server.tasks) + [t]
        && tasks == [t] + old(tasks) && text == ""
        && t.text == Some(old(text)) && !t.completed && !CheckCompleted(t) && t.createdAt == now
        && !HasId(old(server.tasks), t.id)
        && t.id == old(server.nextId) && server.nextId == old(server.nextId) + 1
      ensures Mirrors(old(tasks), old(server.tasks)) ==> Mirrors(tasks, server.tasks)
    {
      TrimEmptyIffBlank(text);
      if Trim(text) == "" {
        return;
      }
      var reply := server.Create(Some(text), now);
      if Resolved(reply) {
        tasks := [reply.body.task] + tasks;
        text := "";
      }
    }

    /**
     Toggle: on a resolved reply every local entry with that identifier is
     replaced by the returned task; otherwise nothing changes locally.
     */
    method ToggleTask(server: TaskStore, id: Id)
      requires server.Valid()
      modifies this, server
      ensures server.Valid() && server.nextId == old(server.nextId)
      ensures text == old(text) && search == old(search) && filter == old(filter)
      ensures !HasId(old(server.tasks), id) ==> tasks == old(tasks) && server.tasks == old(server.tasks)
      ensures forall i :: 0 <= i < |old(server.tasks)| && old(server.tasks)[i].id == id ==>
        var u := Toggled(old(server.tasks)[i]);
        if HasText(old(server.tasks)[i].text) then
          server.tasks == old(server.tasks)[i := u] && tasks == ReplaceById(old(tasks), id, u)
        else
          server.tasks == old(server.tasks) && tasks == old(tasks)
      ensures |tasks| == |old(tasks)|
      ensures forall i :: 0 <= i < |tasks| && tasks[i] != old(tasks)[i] ==>
        tasks[i].id == id && CheckCompleted(tasks[i]) == tasks[i].completed
      ensures Mirrors(old(tasks), old(server.tasks)) ==> Mirrors(tasks, server.tasks)
    {
      ghost var stored := server.tasks;
      var reply := server.Toggle(id);
      if Resolved(reply) {
        ghost var i := FindById(stored, id).value;
        var u := reply.body.task;
        assert u == Toggled(stored[i]) && server.tasks == stored[i := u];
        ToggledAgrees(u);
        ToggleReconciles(tasks, stored, i, u);
        tasks := ReplaceById(tasks, id, u);
      }
    }

    /** Delete: the reply always resolves, and every local entry with that identifier goes. */
    method DeleteTask(server: TaskStore, id: Id)
      requires server.Valid()
      modifies this, server
      ensures server.Valid() && server.nextId == old(server.nextId)
      ensures text == old(text) && search == old(search) && filter == old(filter)
      ensures server.tasks == WithoutId(old(server.tasks), id)
      ensures tasks == WithoutId(old(tasks), id)
      ensures Mirrors(old(tasks), old(server.tasks)) ==> Mirrors(tasks, server.tasks)
    {
      if Mirrors(tasks, server.tasks) {
        WithoutIdSameBag(tasks, server.tasks, id);
      }
      var reply := server.Delete(id);
      if Resolved(reply) {
        tasks := WithoutId(tasks, id);
      }
    }
  }

  /** Toggling the one task that both sides hold leaves both holding its toggled version. */
  method ToggleOnlyTask(app: TodoApp, server: TaskStore, t: Task)
    requires server.Valid() && HasText(t.text)
    requires app.tasks == [t] && server.tasks == [t]
    modifies app, server
    ensures server.Valid()
    ensures app.tasks == [Toggled(t)] && server.tasks == [Toggled(t)]
    ensures app.text == old(app.text)
  {
    assert ReplaceById([t], t.id, Toggled(t)) == [Toggled(t)];
    assert [t][0 := Toggled(t)] == [Toggled(t)];
    app.ToggleTask(server, t.id);
  }

  /**
   One task's life seen from the client: created with `completed` false,
   toggled to true, toggled back to false, then deleted from both sides.
   */
  method TaskLifecycle(now: Time)
  {
    var server := new TaskStore([], 0);
    var app := new TodoApp();
    app.text := "Buy milk";
    assert !AllWhitespace(app.text) by { assert !IsJsWhitespace(app.text[0]); }
    app.AddTask(server, now);
    var t := app.tasks[0];
    assert app.tasks == [t] && server.tasks == [t];
    assert t.text == Some("Buy milk") && !t.completed && app.text == "";

    ToggleOnlyTask(app, server, t);
    var u := Toggled(t);
    assert u.completed && CheckCompleted(u);

    ToggleOnlyTask(app, server, u);
    assert app.tasks == [Toggled(u)] && server.tasks == [Toggled(u)];
    assert !app.tasks[0].completed && !CheckCompleted(app.tasks[0]);

    app.DeleteTask(server, t.id);
    assert app.tasks == [] && server.tasks == [];
    app.DeleteTask(server, t.id);
    assert app.tasks == [] && server.tasks == [];
  }
}
