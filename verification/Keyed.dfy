/** Ordered lists addressed by the identity of their elements. */
module Keyed {
  import opened Models

  /** The ids of the elements, in order. */
  function Ids<T>(s: seq<T>, key: T -> Uuid): (r: seq<Uuid>)
    ensures |r| == |s|
    ensures forall i :: 0 <= i < |s| ==> r[i] == key(s[i])
  {
    seq(|s|, i requires 0 <= i < |s| => key(s[i]))
  }

  ghost predicate Distinct<T>(s: seq<T>, key: T -> Uuid) {
    forall i, j :: 0 <= i < j < |s| ==> key(s[i]) != key(s[j])
  }

  /** The first element with the id. */
  function Find<T>(s: seq<T>, key: T -> Uuid, id: Uuid): Option<T> {
    if s == [] then None else if key(s[0]) == id then Some(s[0]) else Find(s[1..], key, id)
  }

  function ReplaceFirst<T>(s: seq<T>, key: T -> Uuid, id: Uuid, x: T): seq<T> {
    if s == [] then [] else if key(s[0]) == id then [x] + s[1..] else [s[0]] + ReplaceFirst(s[1..], key, id, x)
  }

  function RemoveFirst<T>(s: seq<T>, key: T -> Uuid, id: Uuid): seq<T> {
    if s == [] then [] else if key(s[0]) == id then s[1..] else [s[0]] + RemoveFirst(s[1..], key, id)
  }

  /** Index form of the three operations above: what an index lookup followed by an assignment computes. */
  lemma {:induction false} AtFirstIndex<T>(s: seq<T>, key: T -> Uuid, id: Uuid, i: nat, x: T)
    requires i < |s| && key(s[i]) == id && forall j :: 0 <= j < i ==> key(s[j]) != id
    ensures Find(s, key, id) == Some(s[i])
    ensures ReplaceFirst(s, key, id, x) == s[i := x]
    ensures RemoveFirst(s, key, id) == s[..i] + s[i + 1..]
    decreases s
  {
    if i > 0 {
      AtFirstIndex(s[1..], key, id, i - 1, x);
      assert s[i := x] == [s[0]] + s[1..][i - 1 := x];
      assert s[..i] + s[i + 1..] == [s[0]] + (s[1..][..i - 1] + s[1..][i..]);
    }
  }

  lemma {:induction false} Missing<T>(s: seq<T>, key: T -> Uuid, id: Uuid)
    requires forall j :: 0 <= j < |s| ==> key(s[j]) != id
    ensures Find(s, key, id) == None
    decreases s
  {
    if s != [] {
      Missing(s[1..], key, id);
    }
  }

  lemma {:induction false} NothingReplaced<T>(s: seq<T>, key: T -> Uuid, id: Uuid, x: T)
    requires Find(s, key, id).None?
    ensures ReplaceFirst(s, key, id, x) == s
    decreases s
  {
    if s != [] {
      NothingReplaced(s[1..], key, id, x);
    }
  }

  lemma {:induction false} NothingRemoved<T>(s: seq<T>, key: T -> Uuid, id: Uuid)
    requires Find(s, key, id).None?
    ensures RemoveFirst(s, key, id) == s
    decreases s
  {
    if s != [] {
      NothingRemoved(s[1..], key, id);
    }
  }

  lemma {:induction false} FindSpec<T>(s: seq<T>, key: T -> Uuid, id: Uuid)
    ensures Find(s, key, id).Some? <==> id in Ids(s, key)
    ensures Find(s, key, id).Some? ==> Find(s, key, id).value in s && key(Find(s, key, id).value) == id
    decreases s
  {
    if s != [] {
      FindSpec(s[1..], key, id);
      assert Ids(s, key) == [key(s[0])] + Ids(s[1..], key);
    }
  }

  // What a lookup finds after a change.

  lemma {:induction false} FindAfterAppend<T>(s: seq<T>, key: T -> Uuid, id: Uuid, x: T)
    requires Find(s, key, id).Some?
    ensures Find(s + [x], key, id) == Find(s, key, id)
    decreases s
  {
    assert (s + [x])[1..] == s[1..] + [x];
    if key(s[0]) != id {
      FindAfterAppend(s[1..], key, id, x);
    }
  }

  lemma {:induction false} FindAfterReplace<T>(s: seq<T>, key: T -> Uuid, id: Uuid, k: Uuid, x: T)
    requires key(x) == k
    ensures Find(ReplaceFirst(s, key, k, x), key, id)
            == if id == k && Find(s, key, k).Some? then Some(x) else Find(s, key, id)
    decreases s
  {
    if s != [] && key(s[0]) != k {
      FindAfterReplace(s[1..], key, id, k, x);
    }
  }

  lemma {:induction false} FindAfterRemove<T>(s: seq<T>, key: T -> Uuid, id: Uuid, k: Uuid)
    requires id != k
    ensures Find(RemoveFirst(s, key, k), key, id) == Find(s, key, id)
    decreases s
  {
    if s != [] && key(s[0]) != k {
      FindAfterRemove(s[1..], key, id, k);
    }
  }

  /** With distinct ids, a lookup finds any element by its own id. */
  lemma FindOwn<T>(s: seq<T>, key: T -> Uuid, x: T)
    requires Distinct(s, key) && x in s
    ensures Find(s, key, key(x)) == Some(x)
  {
    var i :| 0 <= i < |s| && s[i] == x;
    AtFirstIndex(s, key, key(x), i, x);
  }

  lemma InIds<T>(s: seq<T>, key: T -> Uuid, x: T)
    requires x in s
    ensures key(x) in Ids(s, key)
  {
    var i :| 0 <= i < |s| && s[i] == x;
    assert Ids(s, key)[i] == key(x);
  }

  /** Replacing an element by one with the same id keeps every id in place. */
  lemma {:induction false} ReplaceKeepsIds<T(!new)>(s: seq<T>, key: T -> Uuid, id: Uuid, x: T)
    requires key(x) == id
    ensures Ids(ReplaceFirst(s, key, id, x), key) == Ids(s, key)
    ensures forall y :: y in ReplaceFirst(s, key, id, x) ==> y == x || y in s
    decreases s
  {
    if s != [] && key(s[0]) != id {
      ReplaceKeepsIds(s[1..], key, id, x);
    }
  }

  lemma DistinctIds<T>(s: seq<T>, t: seq<T>, key: T -> Uuid)
    requires Ids(s, key) == Ids(t, key) && Distinct(s, key)
    ensures Distinct(t, key)
  {
    forall i, j | 0 <= i < j < |t| ensures key(t[i]) != key(t[j]) {
      assert Ids(t, key)[i] == Ids(s, key)[i] && Ids(t, key)[j] == Ids(s, key)[j];
    }
  }

  /** In a list of distinct ids, removal takes out exactly the element with the id. */
  lemma {:induction false} RemoveSpec<T(!new)>(s: seq<T>, key: T -> Uuid, id: Uuid)
    requires Distinct(s, key)
    ensures Distinct(RemoveFirst(s, key, id), key)
    ensures forall y :: y in RemoveFirst(s, key, id) <==> y in s && key(y) != id
    decreases s
  {
    if s != [] && key(s[0]) != id {
      RemoveSpec(s[1..], key, id);
      DistinctCons(s[0], RemoveFirst(s[1..], key, id), s[1..], key);
    }
  }

  lemma DistinctCons<T(!new)>(x: T, r: seq<T>, rest: seq<T>, key: T -> Uuid)
    requires Distinct(r, key) && forall y :: y in r ==> y in rest
    requires forall j :: 0 <= j < |rest| ==> key(rest[j]) != key(x)
    ensures Distinct([x] + r, key)
  {
    forall j | 0 <= j < |r| ensures key(x) != key(r[j]) {
      assert r[j] in rest;
    }
  }

  lemma DistinctAppend<T>(s: seq<T>, key: T -> Uuid, x: T)
    requires Distinct(s, key) && key(x) !in Ids(s, key)
    ensures Distinct(s + [x], key)
    ensures Ids(s + [x], key) == Ids(s, key) + [key(x)]
  {
    forall i | 0 <= i < |s| ensures key(s[i]) != key(x) {
      assert Ids(s, key)[i] == key(s[i]);
    }
  }

  /** In a list of distinct ids, the element after a prefix has an id that is not in the prefix. */
  lemma NextIsNew<T>(s: seq<T>, key: T -> Uuid, i: nat)
    requires i < |s| && Distinct(s, key)
    ensures key(s[i]) !in Ids(s[..i], key)
  {
    forall j | 0 <= j < i ensures Ids(s[..i], key)[j] != key(s[i]) {
      assert Ids(s[..i], key)[j] == key(s[j]);
    }
  }

  // The changes by position, for lists of distinct ids.

  /** `now` is `was` without its element with the id; everything else stays in order. */
  predicate RemovedAt<T(==)>(was: seq<T>, now: seq<T>, key: T -> Uuid, id: Uuid) {
    exists i :: 0 <= i < |was| && key(was[i]) == id && now == was[..i] + was[i + 1..]
  }

  /** `now` is `was` with `x` in place of its element with the id. */
  predicate ReplacedAt<T(==)>(was: seq<T>, now: seq<T>, key: T -> Uuid, id: Uuid, x: T) {
    |now| == |was| && forall i :: 0 <= i < |was| ==> now[i] == if key(was[i]) == id then x else was[i]
  }

  lemma IndexOf<T>(s: seq<T>, key: T -> Uuid, id: Uuid) returns (i: nat)
    requires id in Ids(s, key)
    ensures i < |s| && key(s[i]) == id
  {
    i :| 0 <= i < |s| && Ids(s, key)[i] == id;
  }

  lemma ChangesByPosition<T>(s: seq<T>, key: T -> Uuid, id: Uuid, x: T)
    requires Distinct(s, key) && id in Ids(s, key) && key(x) == id
    ensures RemovedAt(s, RemoveFirst(s, key, id), key, id)
    ensures ReplacedAt(s, ReplaceFirst(s, key, id, x), key, id, x)
    ensures Find(s, key, id).Some?
    ensures forall i :: 0 <= i < |s| && key(s[i]) == id ==> Find(s, key, id) == Some(s[i])
  {
    var i := IndexOf(s, key, id);
    AtFirstIndex(s, key, id, i, x);
  }

  lemma FindsNone<T>(s: seq<T>, key: T -> Uuid, id: Uuid)
    requires id !in Ids(s, key)
    ensures Find(s, key, id).None?
  {
    FindSpec(s, key, id);
  }
}
