/** Request history: the in-memory repository, its SQLite counterpart, and cursor pagination under appends. */
module History {
  import opened Models

  /** `before` is the cursor; a page holds at least one entry. */
  datatype HistoryQuery = HistoryQuery(limit: nat, before: Option<nat>)

  ghost predicate Ascending(entries: seq<RequestHistoryEntry>) {
    forall i, j :: 0 <= i < j < |entries| ==> entries[i].id <= entries[j].id
  }

  ghost predicate StrictlyAscending(entries: seq<RequestHistoryEntry>) {
    forall i, j :: 0 <= i < j < |entries| ==> entries[i].id < entries[j].id
  }

  predicate Below(e: RequestHistoryEntry, before: Option<nat>) { before.None? || e.id < before.value }

  /** The entries below the cursor, last stored first. */
  function Newest(entries: seq<RequestHistoryEntry>, before: Option<nat>): seq<RequestHistoryEntry>
    decreases |entries|
  {
    if entries == [] then []
    else
      var n := |entries| - 1;
      (if Below(entries[n], before) then [entries[n]] else []) + Newest(entries[..n], before)
  }

  function Take<T>(s: seq<T>, n: nat): seq<T> { if |s| <= n then s else s[..n] }

  function Insert(sorted: seq<RequestHistoryEntry>, e: RequestHistoryEntry): seq<RequestHistoryEntry>
    decreases |sorted|
  {
    if sorted == [] then [e]
    else
      var n := |sorted| - 1;
      if sorted[n].id <= e.id then sorted + [e] else Insert(sorted[..n], e) + [sorted[n]]
  }

  function SortById(entries: seq<RequestHistoryEntry>): seq<RequestHistoryEntry>
    decreases |entries|
  {
    if entries == [] then [] else Insert(SortById(entries[..|entries| - 1]), entries[|entries| - 1])
  }

  lemma {:induction false} InsertKeepsAll(sorted: seq<RequestHistoryEntry>, e: RequestHistoryEntry)
    ensures multiset(Insert(sorted, e)) == multiset(sorted) + multiset{e}
    decreases |sorted|
  {
    if sorted != [] {
      var front, last := sorted[..|sorted| - 1], sorted[|sorted| - 1];
      assert sorted == front + [last];
      InsertKeepsAll(front, e);
    }
  }

  lemma {:induction false} InsertSpec(sorted: seq<RequestHistoryEntry>, e: RequestHistoryEntry)
    requires Ascending(sorted)
    ensures Ascending(Insert(sorted, e))
    decreases |sorted|
  {
    if sorted != [] {
      var front, last := sorted[..|sorted| - 1], sorted[|sorted| - 1];
      if last.id > e.id {
        InsertSpec(front, e);
        InsertKeepsAll(front, e);
        StaysBelow(Insert(front, e), front, e, last);
      }
    }
  }

  lemma StaysBelow(front: seq<RequestHistoryEntry>, rest: seq<RequestHistoryEntry>, e: RequestHistoryEntry,
                   last: RequestHistoryEntry)
    requires Ascending(front) && multiset(front) == multiset(rest) + multiset{e}
    requires e.id <= last.id && forall x <- rest :: x.id <= last.id
    ensures Ascending(front + [last])
  {
    forall i | 0 <= i < |front| ensures front[i].id <= last.id {
      assert front[i] in multiset(front);
      assert front[i] == e || front[i] in rest;
    }
  }

  /** The constructor's order: ascending by id, nothing lost or added. */
  lemma {:induction false} SortSpec(entries: seq<RequestHistoryEntry>)
    ensures Ascending(SortById(entries))
    ensures multiset(SortById(entries)) == multiset(entries)
    decreases |entries|
  {
    if entries != [] {
      var n := |entries| - 1;
      assert entries == entries[..n] + [entries[n]];
      SortSpec(entries[..n]);
      InsertSpec(SortById(entries[..n]), entries[n]);
      InsertKeepsAll(SortById(entries[..n]), entries[n]);
    }
  }

  /** The entries with the id, in order. */
  function WithId(entries: seq<RequestHistoryEntry>, id: nat): seq<RequestHistoryEntry>
    decreases |entries|
  {
    if entries == [] then []
    else
      var n := |entries| - 1;
      WithId(entries[..n], id) + (if entries[n].id == id then [entries[n]] else [])
  }

  lemma WithIdSnoc(entries: seq<RequestHistoryEntry>, e: RequestHistoryEntry, id: nat)
    ensures WithId(entries + [e], id) == WithId(entries, id) + (if e.id == id then [e] else [])
  {
    assert (entries + [e])[..|entries|] == entries;
  }

  lemma {:induction false} InsertStable(sorted: seq<RequestHistoryEntry>, e: RequestHistoryEntry, id: nat)
    ensures WithId(Insert(sorted, e), id) == WithId(sorted, id) + (if e.id == id then [e] else [])
    decreases |sorted|
  {
    hide WithId;
    WithIdSnoc(sorted, e, id);
    if sorted == [] {
      assert [] + [e] == [e];
    } else {
      var front, last := sorted[..|sorted| - 1], sorted[|sorted| - 1];
      assert sorted == front + [last];
      WithIdSnoc(front, last, id);
      if last.id > e.id {
        InsertStable(front, e, id);
        WithIdSnoc(Insert(front, e), last, id);
      }
    }
  }

  /** Entries with equal ids keep their order, so the sort is the only ascending one that does. */
  lemma {:induction false} SortStable(entries: seq<RequestHistoryEntry>, id: nat)
    ensures WithId(SortById(entries), id) == WithId(entries, id)
    decreases |entries|
  {
    if entries != [] {
      var n := |entries| - 1;
      SortStable(entries[..n], id);
      InsertStable(SortById(entries[..n]), entries[n], id);
    }
  }

  class InMemoryRequestHistoryRepository {
    var entries: seq<RequestHistoryEntry>
    var nextId: nat

    ghost predicate Valid()
      reads this
    {
      Ascending(entries) && forall e <- entries :: e.id < nextId
    }

    constructor (seed: seq<RequestHistoryEntry>)
      ensures Valid() && multiset(entries) == multiset(seed)
      ensures entries == SortById(seed)
      ensures nextId > 0 && (nextId == 1 || exists e <- seed :: e.id + 1 == nextId)
    {
      entries := SortById(seed);
      var highest := 0;
      for i := 0 to |seed|
        invariant highest == 0 || exists e <- seed :: e.id == highest
        invariant forall j :: 0 <= j < i ==> seed[j].id <= highest
      {
        if seed[i].id > highest {
          highest := seed[i].id;
        }
      }
      nextId := highest + 1;
      new;
      SortSpec(seed);
      forall e | e in entries ensures e.id < nextId {
        assert e in multiset(entries);
        assert e in seed;
      }
    }

    /** The backward scan that stops at the limit returns the first `limit` entries below the cursor. */
    method List(query: HistoryQuery) returns (r: seq<RequestHistoryEntry>)
      requires query.limit >= 1
      ensures r == Take(Newest(entries, query.before), query.limit)
    {
      r := [];
      var i := |entries|;
      assert entries[..i] == entries;
      ghost var all := Newest(entries, query.before);
      while i > 0
        invariant 0 <= i <= |entries|
        invariant |r| < query.limit
        invariant r + Newest(entries[..i], query.before) == all
      {
        i := i - 1;
        NewestSnoc(entries, i, query.before);
        if Below(entries[i], query.before) {
          ghost var rest := Newest(entries[..i], query.before);
          assert r + ([entries[i]] + rest) == (r + [entries[i]]) + rest;
          r := r + [entries[i]];
          if |r| == query.limit {
            assert all[..|r|] == r;
            return;
          }
        }
      }
    }

    method Create(data: RequestHistoryCreate) returns (entry: RequestHistoryEntry)
      requires Valid()
      modifies this
      ensures Valid()
      ensures entry == RequestHistoryEntry(old(nextId), data) && nextId == old(nextId) + 1
      ensures entries == old(entries) + [entry]
      ensures old(StrictlyAscending(entries)) ==> StrictlyAscending(entries)
    {
      entry := RequestHistoryEntry(nextId, data);
      nextId := nextId + 1;
      entries := entries + [entry];
    }
  }

  lemma NewestSnoc(entries: seq<RequestHistoryEntry>, i: nat, before: Option<nat>)
    requires i < |entries|
    ensures Newest(entries[..i + 1], before) ==
            (if Below(entries[i], before) then [entries[i]] else []) + Newest(entries[..i], before)
  {
    assert entries[..i + 1][..i] == entries[..i];
  }

  // The SQLite table: rows keyed by AUTOINCREMENT id; `bound` is the next id.

  /** Rows written before the `decision_reason` column existed have none. */
  datatype HistoryRow = HistoryRow(data: RequestHistoryCreate, storedReason: Option<DecisionReason>)

  function Deserialize(id: nat, row: HistoryRow): RequestHistoryEntry {
    var reason :=
      if row.storedReason.Some? then row.storedReason.value
      else if row.data.outcome == Simulated then Always else NoMatchingRule;
    RequestHistoryEntry(id, row.data.(reason := reason))
  }

  function Stored(rows: map<nat, HistoryRow>, bound: nat): seq<RequestHistoryEntry> {
    if bound == 0 then []
    else if bound - 1 in rows then Stored(rows, bound - 1) + [Deserialize(bound - 1, rows[bound - 1])]
    else Stored(rows, bound - 1)
  }

  /** WHERE id < cursor ORDER BY id DESC. */
  function Descending(rows: map<nat, HistoryRow>, bound: nat, before: Option<nat>): seq<RequestHistoryEntry> {
    if bound == 0 then []
    else if bound - 1 in rows && (before.None? || bound - 1 < before.value)
    then [Deserialize(bound - 1, rows[bound - 1])] + Descending(rows, bound - 1, before)
    else Descending(rows, bound - 1, before)
  }

  lemma {:induction false} StoredOrder(rows: map<nat, HistoryRow>, bound: nat)
    ensures StrictlyAscending(Stored(rows, bound))
    ensures forall e <- Stored(rows, bound) :: e.id < bound
    decreases bound
  {
    if bound > 0 {
      StoredOrder(rows, bound - 1);
    }
  }

  /** Reasons read back agree with the outcome, for rows from before the reason column too. */
  lemma {:induction false} ReasonsMatchOutcomes(rows: map<nat, HistoryRow>, bound: nat)
    requires forall k <- rows :: rows[k].storedReason.Some? ==>
               (Simulates(rows[k].storedReason.value) <==> rows[k].data.outcome == Simulated)
    ensures forall e <- Stored(rows, bound) :: Simulates(e.data.reason) <==> e.data.outcome == Simulated
    decreases bound
  {
    if bound > 0 {
      ReasonsMatchOutcomes(rows, bound - 1);
    }
  }

  /** What a row reads back as: everything as stored, except that a row from before the reason column gets the reason of
      its outcome: always if simulated, no matching rule if proxied. */
  lemma {:induction false} RowsReadBack(rows: map<nat, HistoryRow>, bound: nat, k: nat)
    requires k < bound && k in rows
    ensures var row := rows[k];
            var reason :=
              match row.storedReason
              case Some(r) => r
              case None => if row.data.outcome == Simulated then Always else NoMatchingRule;
            RequestHistoryEntry(
              k, RequestHistoryCreate(row.data.timestamp, row.data.verb, row.data.path, row.data.outcome, reason,
                                      row.data.status, row.data.ruleId, row.data.durationMs))
            in Stored(rows, bound)
    decreases bound
  {
    if k < bound - 1 {
      RowsReadBack(rows, bound - 1, k);
    }
  }

  /** The SQL query and the in-memory scan return the same page. */
  lemma {:induction false} PagesAgree(rows: map<nat, HistoryRow>, bound: nat, query: HistoryQuery)
    ensures Take(Descending(rows, bound, query.before), query.limit)
            == Take(Newest(Stored(rows, bound), query.before), query.limit)
    ensures Descending(rows, bound, query.before) == Newest(Stored(rows, bound), query.before)
    decreases bound
  {
    if bound > 0 {
      PagesAgree(rows, bound - 1, query);
      if bound - 1 in rows {
        var front := Stored(rows, bound - 1);
        assert (front + [Deserialize(bound - 1, rows[bound - 1])])[..|front|] == front;
      }
    }
  }

  lemma {:induction false} StoredFrame(rows: map<nat, HistoryRow>, bound: nat, key: nat, row: HistoryRow)
    requires bound <= key
    ensures Stored(rows[key := row], bound) == Stored(rows, bound)
    decreases bound
  {
    if bound > 0 {
      StoredFrame(rows, bound - 1, key, row);
    }
  }

  /** An INSERT is the in-memory append with the same id. */
  lemma InsertAgrees(rows: map<nat, HistoryRow>, bound: nat, data: RequestHistoryCreate)
    ensures Stored(rows[bound := HistoryRow(data, Some(data.reason))], bound + 1)
            == Stored(rows, bound) + [RequestHistoryEntry(bound, data)]
  {
    StoredFrame(rows, bound, bound, HistoryRow(data, Some(data.reason)));
  }

  // Pagination.

  /** What the client asks for next and what the data plane appends before the request after it. */
  datatype Turn = Turn(limit: nat, appended: seq<RequestHistoryEntry>)

  /** A client that starts with cursor `before`, follows the last id it saw and stops at an empty page. */
  function Crawl(entries: seq<RequestHistoryEntry>, before: Option<nat>, turns: seq<Turn>): seq<RequestHistoryEntry>
    decreases |turns|
  {
    if turns == [] then []
    else
      var page := Take(Newest(entries, before), turns[0].limit);
      if page == [] then []
      else page + Crawl(entries + turns[0].appended, Some(page[|page| - 1].id), turns[1..])
  }

  function Requested(turns: seq<Turn>): nat
    decreases |turns|
  {
    if turns == [] then 0 else turns[0].limit + Requested(turns[1..])
  }

  /** Limits are positive and every append gets fresh, larger ids. */
  ghost predicate Legal(entries: seq<RequestHistoryEntry>, turns: seq<Turn>)
    decreases |turns|
  {
    turns != [] ==>
      && turns[0].limit >= 1
      && StrictlyAscending(entries + turns[0].appended)
      && Legal(entries + turns[0].appended, turns[1..])
  }

  lemma {:induction false} NewestSpec(entries: seq<RequestHistoryEntry>, before: Option<nat>)
    requires StrictlyAscending(entries)
    ensures forall e :: e in Newest(entries, before) <==> e in entries && Below(e, before)
    ensures forall i, j :: 0 <= i < j < |Newest(entries, before)| ==>
              Newest(entries, before)[i].id > Newest(entries, before)[j].id
    decreases |entries|
  {
    if entries != [] {
      var n := |entries| - 1;
      NewestSpec(entries[..n], before);
      assert entries == entries[..n] + [entries[n]];
      var rest := Newest(entries[..n], before);
      forall j | 0 <= j < |rest| ensures rest[j].id < entries[n].id {
        assert rest[j] in entries[..n];
      }
    }
  }

  /** Below a cursor, appends of larger ids are invisible. */
  lemma {:induction false} AppendsInvisible(entries: seq<RequestHistoryEntry>, more: seq<RequestHistoryEntry>,
                                            before: nat)
    requires forall e <- more :: e.id >= before
    ensures Newest(entries + more, Some(before)) == Newest(entries, Some(before))
    decreases |more|
  {
    if more == [] {
      assert entries + more == entries;
    } else {
      var n := |more| - 1;
      assert (entries + more)[..|entries + more| - 1] == entries + more[..n];
      AppendsInvisible(entries, more[..n], before);
    }
  }

  lemma {:induction false} NewestReverses(entries: seq<RequestHistoryEntry>)
    ensures |Newest(entries, None)| == |entries|
    ensures forall i :: 0 <= i < |entries| ==> Newest(entries, None)[i] == entries[|entries| - 1 - i]
    decreases |entries|
  {
    if entries != [] {
      NewestReverses(entries[..|entries| - 1]);
    }
  }

  /** The cursor cuts an ascending list at one place. */
  lemma {:induction false} CutAt(entries: seq<RequestHistoryEntry>, before: Option<nat>, m: nat)
    requires m <= |entries|
    requires forall i :: 0 <= i < |entries| ==> (Below(entries[i], before) <==> i < m)
    ensures Newest(entries, before) == Newest(entries[..m], None)
    decreases |entries|
  {
    if m < |entries| {
      var n := |entries| - 1;
      CutAt(entries[..n], before, m);
      assert entries[..n][..m] == entries[..m];
    } else {
      assert entries[..m] == entries;
      AllBelow(entries, before);
    }
  }

  lemma {:induction false} AllBelow(entries: seq<RequestHistoryEntry>, before: Option<nat>)
    requires forall i :: 0 <= i < |entries| ==> Below(entries[i], before)
    ensures Newest(entries, before) == Newest(entries, None)
    decreases |entries|
  {
    if entries != [] {
      AllBelow(entries[..|entries| - 1], before);
    }
  }

  lemma {:induction false} CutExists(entries: seq<RequestHistoryEntry>, before: Option<nat>) returns (m: nat)
    requires StrictlyAscending(entries)
    ensures m <= |entries| && forall i :: 0 <= i < |entries| ==> (Below(entries[i], before) <==> i < m)
    decreases |entries|
  {
    if entries == [] || Below(entries[|entries| - 1], before) {
      m := |entries|;
    } else {
      m := CutExists(entries[..|entries| - 1], before);
    }
  }

  /** Moving the cursor to an entry on the way leaves exactly the rest of the way. */
  lemma CursorSplits(entries: seq<RequestHistoryEntry>, before: Option<nat>, k: nat)
    requires StrictlyAscending(entries) && k < |Newest(entries, before)|
    ensures Newest(entries, Some(Newest(entries, before)[k].id)) == Newest(entries, before)[k + 1..]
  {
    hide Newest;
    var m := CutExists(entries, before);
    CutAt(entries, before, m);
    NewestReverses(entries[..m]);
    var rest := m - 1 - k;
    assert Newest(entries, before)[k] == entries[rest];
    CutAt(entries, Some(entries[rest].id), rest);
    NewestReverses(entries[..rest]);
  }

  /** Whatever is appended between pages, the pages are consecutive pieces of what was below the cursor at the
      start, newest first. */
  lemma {:induction false} CrawlFrom(entries: seq<RequestHistoryEntry>, before: Option<nat>, turns: seq<Turn>)
    requires StrictlyAscending(entries) && Legal(entries, turns)
    ensures Crawl(entries, before, turns) == Take(Newest(entries, before), Requested(turns))
    decreases |turns|
  {
    hide Newest;
    var all := Newest(entries, before);
    if turns != [] && all != [] {
      var page := Take(all, turns[0].limit);
      CrawlFrom(entries + turns[0].appended, Some(page[|page| - 1].id), turns[1..]);
      NextPage(entries, before, |page|, turns[0].appended);
    }
  }

  lemma NextPage(entries: seq<RequestHistoryEntry>, before: Option<nat>, n: nat, more: seq<RequestHistoryEntry>)
    requires StrictlyAscending(entries + more) && 0 < n <= |Newest(entries, before)|
    ensures Newest(entries + more, Some(Newest(entries, before)[n - 1].id)) == Newest(entries, before)[n..]
  {
    var last := Newest(entries, before)[n - 1];
    assert StrictlyAscending(entries) by {
      assert forall i :: 0 <= i < |entries| ==> (entries + more)[i] == entries[i];
    }
    NewestSpec(entries, before);
    assert last in entries;
    var i :| 0 <= i < |entries| && entries[i] == last;
    forall e | e in more ensures e.id >= last.id {
      var j :| 0 <= j < |more| && more[j] == e;
      assert (entries + more)[|entries| + j] == e && (entries + more)[i] == last;
    }
    AppendsInvisible(entries, more, last.id);
    CursorSplits(entries, before, n - 1);
  }

  /** Stable cursor pagination: starting without a cursor, enough pages concatenate to exactly the entries present at
      the first page, newest first, each once, in strictly decreasing id order; one positive page per entry
      is enough. */
  lemma StablePagination(entries: seq<RequestHistoryEntry>, turns: seq<Turn>)
    requires StrictlyAscending(entries) && Legal(entries, turns)
    ensures var seen := Crawl(entries, None, turns);
            && (forall i, j :: 0 <= i < j < |seen| ==> seen[i].id > seen[j].id)
            && (forall e <- seen :: e in entries)
            && |seen| == (if |entries| <= Requested(turns) then |entries| else Requested(turns))
            && (|turns| >= |entries| ==> forall e :: e in seen <==> e in entries)
  {
    CrawlFrom(entries, None, turns);
    NewestSpec(entries, None);
    NewestReverses(entries);
    RequestedGrows(entries, turns);
  }

  lemma {:induction false} RequestedGrows(entries: seq<RequestHistoryEntry>, turns: seq<Turn>)
    requires Legal(entries, turns)
    ensures Requested(turns) >= |turns|
    decreases |turns|
  {
    if turns != [] {
      RequestedGrows(entries + turns[0].appended, turns[1..]);
    }
  }
}
