/**
 The task record of the to-do service: the schema of the `Task` document
 (required `text`, legacy aliases `title`, `done` and `status`, defaults for
 `completed` and `createdAt`, and a non-strict bag of extra fields), the
 validating constructor that applies those rules, and the by-id operations on
 a collection of tasks that the server and the client share.
 */
module TaskModel {

  /** Document identifier (`_id`), handed out by the store's fresh-id supply. */
  type Id = nat

  /** A point in time in milliseconds, as `Date.now()` returns it. */
  type Time = int

  datatype Option<T> = None | Some(value: T) {
    function GetOr(default: T): T {
      match this
      case Some(v) => v
      case None => default
    }
  }

  /** A value held in a field that the schema does not declare. */
  datatype Value = Null | Bool(b: bool) | Num(n: int) | Str(s: string)

  /** The paths the schema declares, plus the identifier path. */
  const SchemaPaths: set<string> := {"_id", "text", "title", "completed", "done", "status", "createdAt"}

  /**
   A stored task. `completed` and `createdAt` always have a value because
   the schema gives them defaults; `text` may be absent on a legacy document
   (the schema requires it only when a document is validated), and `title`,
   `done` and `status` are optional legacy aliases.
   */
  datatype Task = Task(
    id: Id,
    text: Option<string>,
    title: Option<string>,
    completed: bool,
    done: Option<bool>,
    status: Option<string>,
    createdAt: Time,
    extra: map<string, Value>)

  /** The fields given to the document constructor, each one possibly absent. */
  datatype Draft = Draft(
    text: Option<string>,
    title: Option<string>,
    completed: Option<bool>,
    done: Option<bool>,
    status: Option<string>,
    createdAt: Option<Time>,
    extra: map<string, Value>)

  datatype ValidationError = TextRequired

  datatype Result<T> = Ok(value: T) | Err(error: ValidationError)

  /** The `required` validator of a string path: it fails on a missing value and on "". */
  predicate HasText(text: Option<string>): (b: bool)
    ensures text.None? ==> !b
    ensures text == Some("") ==> !b
    ensures text.Some? && |text.value| > 0 ==> b
  {
    text.Some? && text.value != ""
  }

  /**
   Builds and validates a task document: `text` is required, `completed`
   defaults to false, `createdAt` defaults to the current time `now`, the
   aliases are copied as given, and every field outside the schema is kept.
   */
  function MkTask(d: Draft, id: Id, now: Time): (r: Result<Task>)
    ensures r.Err? <==> !HasText(d.text)
    ensures r.Ok? ==> r.value.id == id && r.value.text == d.text
    ensures r.Ok? ==> (r.value.completed <==> d.completed == Some(true))
    ensures r.Ok? ==> r.value.createdAt == (if d.createdAt.Some? then d.createdAt.value else now)
    ensures r.Ok? ==> r.value.title == d.title && r.value.done == d.done && r.value.status == d.status
    ensures r.Ok? ==> forall k :: k in d.extra && k !in SchemaPaths ==> k in r.value.extra && r.value.extra[k] == d.extra[k]
    ensures r.Ok? ==> forall k :: k in r.value.extra ==> k in d.extra && k !in SchemaPaths
  {
    if !HasText(d.text) then Err(TextRequired)
    else Ok(Task(id, d.text, d.title, d.completed.GetOr(false), d.done,
                 d.status, d.createdAt.GetOr(now), d.extra - SchemaPaths))
  }

  /** A task built from `text` alone needs none of the legacy aliases. */
  lemma AliasesOptional(text: string, id: Id, now: Time)
    requires text != ""
    ensures var r := MkTask(Draft(Some(text), None, None, None, None, None, map[]), id, now);
      r.Ok? && r.value.title.None? && r.value.done.None? && r.value.status.None?
      && !r.value.completed && r.value.createdAt == now
  {
  }

  /** Fields outside the schema survive construction with their values. */
  lemma ExtraFieldsKept(d: Draft, id: Id, now: Time, k: string)
    requires HasText(d.text) && k in d.extra && k !in SchemaPaths
    ensures MkTask(d, id, now).Ok? && MkTask(d, id, now).value.extra[k] == d.extra[k]
  {
  }

  // ---- Collections of tasks, addressed by `_id` ----

  /** The `_id` index of the collection is unique. */
  ghost predicate UniqueIds(s: seq<Task>) {
    forall i, j :: 0 <= i < |s| && 0 <= j < |s| && i != j ==> s[i].id != s[j].id
  }

  predicate HasId(s: seq<Task>, id: Id) {
    exists i :: 0 <= i < |s| && s[i].id == id
  }

  /** The position of the first task with identifier `id`, if there is one. */
  function FindById(s: seq<Task>, id: Id): (r: Option<nat>)
    ensures r.None? <==> !HasId(s, id)
    ensures r.Some? ==> r.value < |s| && s[r.value].id == id
    ensures r.Some? ==> forall j :: 0 <= j < r.value ==> s[j].id != id
  {
    if s == [] then None
    else if s[0].id == id then Some(0)
    else
      match FindById(s[1..], id)
      case None =>
        assert forall i :: 1 <= i < |s| ==> s[i] == s[1..][i - 1];
        None
      case Some(k) => Some(k + 1)
  }

  /** The collection without the tasks whose identifier is `id`. */
  function WithoutId(s: seq<Task>, id: Id): (r: seq<Task>)
    ensures |r| <= |s|
    ensures forall t :: t in r <==> t in s && t.id != id
  {
    if s == [] then []
    else if s[0].id == id then WithoutId(s[1..], id)
    else [s[0]] + WithoutId(s[1..], id)
  }

  /** The collection with every task whose identifier is `id` replaced by `u`. */
  function ReplaceById(s: seq<Task>, id: Id, u: Task): (r: seq<Task>)
    ensures |r| == |s|
    ensures forall i :: 0 <= i < |s| ==> r[i] == (if s[i].id == id then u else s[i])
  {
    if s == [] then []
    else [if s[0].id == id then u else s[0]] + ReplaceById(s[1..], id, u)
  }

  /** `a` is `b` with some elements left out, the others in their order. */
  ghost predicate IsSubsequence(a: seq<Task>, b: seq<Task>)
    decreases |b|
  {
    if a == [] then true
    else if b == [] then false
    else if a[0] == b[0] then IsSubsequence(a[1..], b[1..])
    else IsSubsequence(a, b[1..])
  }

  lemma {:induction false} SubsequenceOfTail(a: seq<Task>, b: seq<Task>)
    requires b != [] && IsSubsequence(a, b[1..])
    ensures IsSubsequence(a, b)
    decreases |b|, 1
  {
    if a != [] && a[0] == b[0] {
      // a[1..] is then a subsequence of b[1..] as well
      SubsequenceDropHead(a, b[1..]);
    }
  }

  lemma {:induction false} SubsequenceDropHead(a: seq<Task>, b: seq<Task>)
    requires a != [] && IsSubsequence(a, b)
    ensures IsSubsequence(a[1..], b)
    decreases |b|, 2
  {
    if a[0] == b[0] {
      if a[1..] != [] {
        SubsequenceOfTail(a[1..], b);
      }
    } else {
      SubsequenceDropHead(a, b[1..]);
      if a[1..] != [] {
        SubsequenceOfTail(a[1..], b);
      }
    }
  }

  /** Removing by identifier keeps the remaining tasks in their order. */
  lemma {:induction false} WithoutIdKeepsOrder(s: seq<Task>, id: Id)
    ensures IsSubsequence(WithoutId(s, id), s)
    decreases |s|
  {
    if s != [] {
      WithoutIdKeepsOrder(s[1..], id);
      if s[0].id == id {
        SubsequenceOfTail(WithoutId(s, id), s);
      } else {
        assert WithoutId(s, id)[1..] == WithoutId(s[1..], id);
      }
    }
  }

  /** Removing by identifier a second time changes nothing. */
  lemma {:induction false} WithoutIdIdempotent(s: seq<Task>, id: Id)
    ensures WithoutId(WithoutId(s, id), id) == WithoutId(s, id)
    decreases |s|
  {
    if s != [] {
      WithoutIdIdempotent(s[1..], id);
      if s[0].id != id {
        assert ([s[0]] + WithoutId(s[1..], id))[1..] == WithoutId(s[1..], id);
      }
    }
  }

  /** Removing an identifier that is not there leaves the collection as it is. */
  lemma {:induction false} WithoutAbsentId(s: seq<Task>, id: Id)
    requires !HasId(s, id)
    ensures WithoutId(s, id) == s
    decreases |s|
  {
    if s != [] {
      assert s[0].id != id;
      assert !HasId(s[1..], id) by {
        forall i | 0 <= i < |s[1..]| ensures s[1..][i].id != id {
          assert s[1..][i] == s[i + 1];
        }
      }
      WithoutAbsentId(s[1..], id);
      assert s == [s[0]] + s[1..];
    }
  }

  lemma {:induction false} UniqueIdsTail(s: seq<Task>)
    requires s != [] && UniqueIds(s)
    ensures UniqueIds(s[1..])
    ensures forall t :: t in s[1..] ==> t.id != s[0].id
  {
  }

  /** With a unique index, an identifier that is present is removed exactly once. */
  lemma {:induction false} WithoutPresentId(s: seq<Task>, id: Id)
    requires UniqueIds(s) && HasId(s, id)
    ensures |WithoutId(s, id)| == |s| - 1
    decreases |s|
  {
    UniqueIdsTail(s);
    if s[0].id == id {
      assert !HasId(s[1..], id) by {
        forall i | 0 <= i < |s[1..]| ensures s[1..][i].id != id {
          assert s[1..][i] in s[1..];
        }
      }
      WithoutAbsentId(s[1..], id);
    } else {
      var i :| 0 <= i < |s| && s[i].id == id;
      assert s[1..][i - 1].id == id;
      WithoutPresentId(s[1..], id);
    }
  }

  /** Removing tasks keeps the index unique. */
  lemma {:induction false} WithoutIdUnique(s: seq<Task>, id: Id)
    requires UniqueIds(s)
    ensures UniqueIds(WithoutId(s, id))
    decreases |s|
  {
    if s != [] {
      UniqueIdsTail(s);
      WithoutIdUnique(s[1..], id);
      if s[0].id != id {
        var r := WithoutId(s, id);
        var rest := WithoutId(s[1..], id);
        assert r == [s[0]] + rest;
        assert forall x :: x in rest ==> x.id != s[0].id by {
          forall x | x in rest ensures x.id != s[0].id {
            var k :| 0 <= k < |s[1..]| && s[1..][k] == x;
            assert s[k + 1] == x;
          }
        }
        UniqueIdsCons(s[0], rest);
      }
    }
  }

  /** Putting a task in front of a uniquely indexed list keeps the index unique when its identifier is new. */
  lemma UniqueIdsCons(h: Task, rest: seq<Task>)
    requires UniqueIds(rest) && forall x :: x in rest ==> x.id != h.id
    ensures UniqueIds([h] + rest)
  {
    var r := [h] + rest;
    forall i, j | 0 <= i < |r| && 0 <= j < |r| && i != j ensures r[i].id != r[j].id {
      if i == 0 {
        assert r[j] == rest[j - 1] && r[j] in rest;
      } else if j == 0 {
        assert r[i] == rest[i - 1] && r[i] in rest;
      } else {
        assert r[i] == rest[i - 1] && r[j] == rest[j - 1];
      }
    }
  }

  /**
   With a unique index, replacing by identifier is the same as writing the
   one position that holds that identifier.
   */
  lemma ReplaceAtUniqueId(s: seq<Task>, i: nat, u: Task)
    requires UniqueIds(s) && i < |s|
    ensures ReplaceById(s, s[i].id, u) == s[i := u]
  {
  }

  // ---- Removing and replacing by identifier, seen as bags of tasks ----

  /** Removing by identifier drops every copy of the tasks with that identifier and no other. */
  lemma {:induction false} WithoutIdCount(s: seq<Task>, id: Id, t: Task)
    ensures multiset(WithoutId(s, id))[t] == if t.id == id then 0 else multiset(s)[t]
    decreases |s|
  {
    if s != [] {
      WithoutIdCount(s[1..], id, t);
      assert s == [s[0]] + s[1..];
    }
  }

  /** Two collections holding the same tasks still do after removing the same identifier. */
  lemma WithoutIdSameBag(a: seq<Task>, b: seq<Task>, id: Id)
    requires multiset(a) == multiset(b)
    ensures multiset(WithoutId(a, id)) == multiset(WithoutId(b, id))
  {
    forall t ensures multiset(WithoutId(a, id))[t] == multiset(WithoutId(b, id))[t] {
      WithoutIdCount(a, id, t);
      WithoutIdCount(b, id, t);
    }
  }

  /**
   Replacing by identifier swaps each task with that identifier for one copy
   of `u` and keeps the others.
   */
  lemma {:induction false} ReplaceByIdBag(s: seq<Task>, id: Id, u: Task)
    ensures multiset(ReplaceById(s, id, u))
         == multiset(WithoutId(s, id)) + multiset{}[u := |s| - |WithoutId(s, id)|]
    decreases |s|
  {
    if s != [] {
      ReplaceByIdBag(s[1..], id, u);
      var k := |s[1..]| - |WithoutId(s[1..], id)|;
      if s[0].id == id {
        assert multiset{}[u := k + 1] == multiset{u} + multiset{}[u := k];
      }
    }
  }

  /** Two collections holding the same tasks still do after the same replacement. */
  lemma {:induction false} ReplaceByIdSameBag(a: seq<Task>, b: seq<Task>, id: Id, u: Task)
    requires multiset(a) == multiset(b)
    ensures multiset(ReplaceById(a, id, u)) == multiset(ReplaceById(b, id, u))
  {
    WithoutIdSameBag(a, b, id);
    assert |a| == |multiset(a)| == |multiset(b)| == |b|;
    var wa, wb := WithoutId(a, id), WithoutId(b, id);
    assert |wa| == |multiset(wa)| == |multiset(wb)| == |wb|;
    ReplaceByIdBag(a, id, u);
    ReplaceByIdBag(b, id, u);
  }
}
