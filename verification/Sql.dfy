/** The SQLite side: tables keyed by AUTOINCREMENT sequence, the statements the repositories issue, and the constraints
    they are checked against. */
module Sql {
  import opened Models
  import opened Keyed

  /** A row of `projects` or `rules`. `ref` is the `project_id` column of `rules`; `projects` has no such column
      and keeps it None. */
  datatype Row<T> = Row(id: Uuid, ref: Option<Uuid>, payload: T)

  datatype RuntimeRow = RuntimeRow(matched: nat, simulated: nat, lastTriggered: Option<Instant>)

  /** `nextProject` and `nextRule` are above every sequence ever handed out, as AUTOINCREMENT guarantees. */
  datatype Tables = Tables(
    projects: map<nat, Row<Project>>, nextProject: nat,
    rules: map<nat, Row<FailureRule>>, nextRule: nat,
    runtime: map<Uuid, RuntimeRow>)

  datatype SqlError = UniqueViolation | ForeignKeyViolation | StorageFailure

  // Queries.

  /** SELECT payload ORDER BY sequence, over the sequences below `bound`. */
  function Listed<T>(rows: map<nat, Row<T>>, bound: nat): seq<T> {
    if bound == 0 then []
    else if bound - 1 in rows then Listed(rows, bound - 1) + [rows[bound - 1].payload]
    else Listed(rows, bound - 1)
  }

  /** Some row satisfies WHERE id = `id`. */
  predicate HasId<T>(rows: map<nat, Row<T>>, id: Uuid) { exists k <- rows :: rows[k].id == id }

  /** SELECT payload WHERE id = `id`. */
  ghost function PayloadOf<T>(rows: map<nat, Row<T>>, id: Uuid): Option<T> {
    if HasId(rows, id) then var k :| k in rows && rows[k].id == id; Some(rows[k].payload) else None
  }

  /** SELECT COUNT(*) WHERE project_id = `id`, over the sequences below `bound`. */
  function CountRef(rows: map<nat, Row<FailureRule>>, bound: nat, id: Uuid): nat {
    if bound == 0 then 0
    else CountRef(rows, bound - 1, id) + (if bound - 1 in rows && rows[bound - 1].ref == Some(id) then 1 else 0)
  }

  predicate Referenced(t: Tables, id: Uuid) { exists k <- t.rules :: t.rules[k].ref == Some(id) }

  // Statements. Each checks its constraints at the moment it runs.

  /** UPDATE ... WHERE id = `id`: every matching row gets the new columns. */
  function UpdateWhere<T>(rows: map<nat, Row<T>>, id: Uuid, row: Row<T>): map<nat, Row<T>> {
    map k | k in rows :: if rows[k].id == id then row else rows[k]
  }

  function DeleteWhere<T>(rows: map<nat, Row<T>>, id: Uuid): map<nat, Row<T>> {
    map k | k in rows && rows[k].id != id :: rows[k]
  }

  function InsertProject(t: Tables, p: Project): Result<Tables, SqlError> {
    if HasId(t.projects, p.id) then Failure(UniqueViolation)
    else Success(t.(projects := t.projects[t.nextProject := Row(p.id, None, p)], nextProject := t.nextProject + 1))
  }

  function UpdateProject(t: Tables, p: Project): Tables {
    t.(projects := UpdateWhere(t.projects, p.id, Row(p.id, None, p)))
  }

  /** ON DELETE RESTRICT: a referenced project cannot be deleted. */
  function DeleteProject(t: Tables, id: Uuid): Result<Tables, SqlError> {
    if HasId(t.projects, id) && Referenced(t, id) then Failure(ForeignKeyViolation)
    else Success(t.(projects := DeleteWhere(t.projects, id)))
  }

  function DeleteAllProjects(t: Tables): Result<Tables, SqlError> {
    if exists k <- t.projects :: Referenced(t, t.projects[k].id) then Failure(ForeignKeyViolation)
    else Success(t.(projects := map[]))
  }

  function MissingReference(t: Tables, ref: Option<Uuid>): bool { ref.Some? && !HasId(t.projects, ref.value) }

  function InsertRule(t: Tables, r: FailureRule): Result<Tables, SqlError> {
    if HasId(t.rules, r.id) then Failure(UniqueViolation)
    else if MissingReference(t, r.data.projectId) then Failure(ForeignKeyViolation)
    else Success(t.(rules := t.rules[t.nextRule := Row(r.id, r.data.projectId, r)], nextRule := t.nextRule + 1))
  }

  /** UPDATE rules SET project_id = ?, payload = ? WHERE id = ?. */
  function UpdateRule(t: Tables, r: FailureRule): Result<Tables, SqlError> {
    if HasId(t.rules, r.id) && MissingReference(t, r.data.projectId) then Failure(ForeignKeyViolation)
    else Success(t.(rules := UpdateWhere(t.rules, r.id, Row(r.id, r.data.projectId, r))))
  }

  /** UPDATE rules SET payload = ? WHERE id = ?: the project_id column keeps its value. */
  function UpdateRulePayload(t: Tables, r: FailureRule): Tables {
    t.(rules := map k | k in t.rules :: if t.rules[k].id == r.id then t.rules[k].(payload := r) else t.rules[k])
  }

  /** ON DELETE CASCADE: the counters of a deleted rule go with it. */
  function DeleteRule(t: Tables, id: Uuid): Tables {
    t.(rules := DeleteWhere(t.rules, id), runtime := if HasId(t.rules, id) then t.runtime - {id} else t.runtime)
  }

  function DeleteAllRules(t: Tables): Tables {
    t.(rules := map[], runtime := map id | id in t.runtime && !HasId(t.rules, id) :: t.runtime[id])
  }

  /** INSERT ... ON CONFLICT(rule_id) DO UPDATE. */
  function UpsertRuntime(t: Tables, s: RuleRuntimeState): Result<Tables, SqlError> {
    if !HasId(t.rules, s.ruleId) then Failure(ForeignKeyViolation)
    else Success(t.(runtime := t.runtime[s.ruleId := RuntimeRow(s.matched, s.simulated, s.lastTriggered)]))
  }

  function DeleteRuntime(t: Tables, id: Uuid): Tables { t.(runtime := t.runtime - {id}) }

  function RuntimeOf(t: Tables, id: Uuid): RuleRuntimeState {
    if id in t.runtime
    then RuleRuntimeState(id, t.runtime[id].matched, t.runtime[id].simulated, t.runtime[id].lastTriggered)
    else FreshState(id)
  }

  function InsertProjects(t: Tables, ps: seq<Project>): Result<Tables, SqlError>
    decreases |ps|
  {
    if ps == [] then Success(t)
    else match InsertProject(t, ps[0])
         case Failure(e) => Failure(e)
         case Success(next) => InsertProjects(next, ps[1..])
  }

  function InsertRules(t: Tables, rs: seq<FailureRule>): Result<Tables, SqlError>
    decreases |rs|
  {
    if rs == [] then Success(t)
    else match InsertRule(t, rs[0])
         case Failure(e) => Failure(e)
         case Success(next) => InsertRules(next, rs[1..])
  }

  // Tables and the lists they stand for.

  /** The id column is unique and agrees with the payload, and sequences are below the next one. */
  ghost predicate Aligned<T>(rows: map<nat, Row<T>>, bound: nat, key: T -> Uuid) {
    && (forall k <- rows :: k < bound && rows[k].id == key(rows[k].payload))
    && (forall k, l :: k in rows && l in rows && rows[k].id == rows[l].id ==> k == l)
  }

  ghost predicate Valid(t: Tables) {
    && Aligned(t.projects, t.nextProject, ProjectKey)
    && Aligned(t.rules, t.nextRule, RuleKey)
    && (forall k <- t.rules :: t.rules[k].ref == t.rules[k].payload.data.projectId)
  }

  lemma {:induction false} ListedFrame<T>(a: map<nat, Row<T>>, b: map<nat, Row<T>>, bound: nat)
    requires forall k :: 0 <= k < bound ==> (k in a <==> k in b) && (k in a ==> a[k].payload == b[k].payload)
    ensures Listed(a, bound) == Listed(b, bound)
    decreases bound
  {
    if bound > 0 {
      ListedFrame(a, b, bound - 1);
    }
  }

  /** A row inserted with the next sequence is listed last. */
  lemma ListedInsert<T>(rows: map<nat, Row<T>>, bound: nat, row: Row<T>)
    ensures Listed(rows[bound := row], bound + 1) == Listed(rows, bound) + [row.payload]
  {
    ListedFrame(rows[bound := row], rows, bound);
  }

  lemma {:induction false} ListedEmpty<T>(bound: nat)
    ensures Listed<T>(map[], bound) == []
    decreases bound
  {
    if bound > 0 {
      ListedEmpty<T>(bound - 1);
    }
  }

  lemma {:induction false} ListedIds<T>(rows: map<nat, Row<T>>, bound: nat, key: T -> Uuid, id: Uuid)
    requires forall k <- rows :: rows[k].id == key(rows[k].payload)
    ensures id in Ids(Listed(rows, bound), key) <==> exists k :: 0 <= k < bound && k in rows && rows[k].id == id
    decreases bound
  {
    if bound > 0 {
      ListedIds(rows, bound - 1, key, id);
      var front := Listed(rows, bound - 1);
      if bound - 1 in rows {
        assert Ids(front + [rows[bound - 1].payload], key) == Ids(front, key) + [rows[bound - 1].id];
      }
    }
  }

  /** WHERE id = `id` finds a row exactly when the list has an element with that id. */
  lemma HasIdListed<T>(rows: map<nat, Row<T>>, bound: nat, key: T -> Uuid, id: Uuid)
    requires Aligned(rows, bound, key)
    ensures HasId(rows, id) <==> id in Ids(Listed(rows, bound), key)
    ensures HasId(rows, id) <==> Find(Listed(rows, bound), key, id).Some?
  {
    ListedIds(rows, bound, key, id);
    FindSpec(Listed(rows, bound), key, id);
  }

  lemma {:induction false} InParts<T>(a: seq<T>, b: seq<T>, key: T -> Uuid, id: Uuid, x: T)
    ensures Find(a + b, key, id) == if id in Ids(a, key) then Find(a, key, id) else Find(b, key, id)
    ensures ReplaceFirst(a + b, key, id, x) ==
            if id in Ids(a, key) then ReplaceFirst(a, key, id, x) + b else a + ReplaceFirst(b, key, id, x)
    ensures RemoveFirst(a + b, key, id) ==
            if id in Ids(a, key) then RemoveFirst(a, key, id) + b else a + RemoveFirst(b, key, id)
    decreases a
  {
    if a == [] {
      assert a + b == b;
      assert forall s: seq<T> {:trigger a + s} :: a + s == s;
    } else {
      var head, tail := [a[0]], a[1..];
      assert (a + b)[1..] == tail + b;
      assert Ids(a, key) == [key(a[0])] + Ids(tail, key);
      InParts(tail, b, key, id, x);
      if key(a[0]) == id {
        assert [x] + (tail + b) == ([x] + tail) + b;
      } else if id in Ids(tail, key) {
        assert head + (ReplaceFirst(tail, key, id, x) + b) == (head + ReplaceFirst(tail, key, id, x)) + b;
        assert head + (RemoveFirst(tail, key, id) + b) == (head + RemoveFirst(tail, key, id)) + b;
      } else {
        assert head + (tail + ReplaceFirst(b, key, id, x)) == a + ReplaceFirst(b, key, id, x);
        assert head + (tail + RemoveFirst(b, key, id)) == a + RemoveFirst(b, key, id);
      }
    }
  }

  lemma FirstAbsent<T>(s: seq<T>, key: T -> Uuid, id: Uuid, x: T)
    requires id !in Ids(s, key)
    ensures Find(s, key, id) == None && ReplaceFirst(s, key, id, x) == s && RemoveFirst(s, key, id) == s
  {
    forall j | 0 <= j < |s| ensures key(s[j]) != id {
      assert Ids(s, key)[j] == key(s[j]);
    }
    Missing(s, key, id);
    NothingReplaced(s, key, id, x);
    NothingRemoved(s, key, id);
  }

  lemma {:induction false} ListedDistinct<T>(rows: map<nat, Row<T>>, bound: nat, key: T -> Uuid, until: nat)
    requires Aligned(rows, bound, key)
    ensures Distinct(Listed(rows, until), key)
    decreases until
  {
    if until > 0 {
      ListedDistinct(rows, bound, key, until - 1);
      if until - 1 in rows {
        ListedIds(rows, until - 1, key, rows[until - 1].id);
        DistinctAppend(Listed(rows, until - 1), key, rows[until - 1].payload);
      }
    }
  }

  /** `after` is `from` with the payload of every row whose id is `id` set to `x`. */
  ghost predicate Overwrites<T>(from: map<nat, Row<T>>, after: map<nat, Row<T>>, id: Uuid, x: T) {
    && after.Keys == from.Keys
    && forall k <- from :: after[k].payload == if from[k].id == id then x else from[k].payload
  }

  /** UPDATE WHERE id is the index assignment of the list, because ids are unique. */
  lemma {:induction false} ListedUpdate<T>(rows: map<nat, Row<T>>, after: map<nat, Row<T>>, bound: nat, key: T -> Uuid,
                                           id: Uuid, x: T, until: nat)
    requires Aligned(rows, bound, key) && Overwrites(rows, after, id, x)
    ensures Listed(after, until) == ReplaceFirst(Listed(rows, until), key, id, x)
    decreases until
  {
    if until > 0 {
      var k := until - 1;
      ListedUpdate(rows, after, bound, key, id, x, k);
      var front := Listed(rows, k);
      ListedIds(rows, k, key, id);
      if k in rows {
        InParts(front, [rows[k].payload], key, id, x);
        if id in Ids(front, key) {
          assert rows[k].id != id;
        } else {
          FirstAbsent(front, key, id, x);
        }
      }
    }
  }

  /** DELETE WHERE id is the index deletion of the list. */
  lemma {:induction false} ListedDelete<T>(rows: map<nat, Row<T>>, bound: nat, key: T -> Uuid, id: Uuid, until: nat)
    requires Aligned(rows, bound, key)
    ensures Listed(DeleteWhere(rows, id), until) == RemoveFirst(Listed(rows, until), key, id)
    decreases until
  {
    if until > 0 {
      var k := until - 1;
      ListedDelete(rows, bound, key, id, k);
      var front := Listed(rows, k);
      ListedIds(rows, k, key, id);
      if k in rows {
        var x := rows[k].payload;
        InParts(front, [x], key, id, x);
        if id in Ids(front, key) {
          assert rows[k].id != id;
        } else {
          FirstAbsent(front, key, id, x);
        }
      }
    }
  }

  /** SELECT WHERE id returns the element a scan of the list finds. */
  lemma {:induction false} ListedFind<T>(rows: map<nat, Row<T>>, bound: nat, key: T -> Uuid, k: nat, until: nat)
    requires Aligned(rows, bound, key) && k in rows && k < until
    ensures Find(Listed(rows, until), key, rows[k].id) == Some(rows[k].payload)
    decreases until
  {
    var front, last := Listed(rows, until - 1), until - 1;
    var id := rows[k].id;
    if last in rows {
      InParts(front, [rows[last].payload], key, id, rows[last].payload);
    }
    ListedIds(rows, last, key, id);
    if k < last {
      ListedFind(rows, bound, key, k, last);
    }
  }

  lemma PayloadListed<T>(rows: map<nat, Row<T>>, bound: nat, key: T -> Uuid, id: Uuid)
    requires Aligned(rows, bound, key)
    ensures PayloadOf(rows, id) == Find(Listed(rows, bound), key, id)
  {
    HasIdListed(rows, bound, key, id);
    if HasId(rows, id) {
      var k :| k in rows && rows[k].id == id && PayloadOf(rows, id) == Some(rows[k].payload);
      ListedFind(rows, bound, key, k, bound);
    }
  }
}
