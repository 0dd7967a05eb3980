/** First-match selection of a rule for a request. */
module Matcher {
  import opened Models
  import opened Validation

  /** The rule can serve the request: enabled, same upper-cased method, same path. */
  predicate Serves(r: FailureRule, verb: string, path: string) {
    r.data.enabled && r.data.target.verb == Upper(verb) && r.data.target.path == path
  }

  function FindMatchingRule(rules: seq<FailureRule>, verb: string, path: string): Option<FailureRule> {
    if rules == [] then None
    else if Serves(rules[0], verb, path) then Some(rules[0])
    else FindMatchingRule(rules[1..], verb, path)
  }

  /** The earliest serving rule in list order, and no rule exactly when none serves. */
  lemma {:induction false} FindsFirst(rules: seq<FailureRule>, verb: string, path: string)
    ensures FindMatchingRule(rules, verb, path).None? <==> forall r <- rules :: !Serves(r, verb, path)
    ensures forall i :: 0 <= i < |rules| && Serves(rules[i], verb, path)
                        && (forall j :: 0 <= j < i ==> !Serves(rules[j], verb, path))
                        ==> FindMatchingRule(rules, verb, path) == Some(rules[i])
    ensures FindMatchingRule(rules, verb, path).Some? ==>
              var r := FindMatchingRule(rules, verb, path).value; r in rules && Serves(r, verb, path)
    decreases rules
  {
    if rules != [] && !Serves(rules[0], verb, path) {
      FindsFirst(rules[1..], verb, path);
      forall i | 0 <= i < |rules| && Serves(rules[i], verb, path)
                 && (forall j :: 0 <= j < i ==> !Serves(rules[j], verb, path))
        ensures FindMatchingRule(rules, verb, path) == Some(rules[i])
      {
        assert rules[1..][i - 1] == rules[i];
        assert forall j :: 0 <= j < i - 1 ==> rules[1..][j] == rules[j + 1];
      }
    }
  }

  /** The match in fields: an enabled rule with exactly the upper-cased method and the path, before which there is no
      such rule; and no rule at all exactly when there is none. */
  lemma {:induction false} MatchExactly(rules: seq<FailureRule>, verb: string, path: string)
    ensures var found, target := FindMatchingRule(rules, verb, path), RequestMatch(Upper(verb), path);
            && (found.None? <==> forall r <- rules :: !(r.data.enabled && r.data.target == target))
            && (found.Some? ==>
                  exists i :: 0 <= i < |rules| && rules[i] == found.value
                              && rules[i].data.enabled && rules[i].data.target == target
                              && forall j :: 0 <= j < i ==> !(rules[j].data.enabled && rules[j].data.target == target))
    decreases rules
  {
    var target := RequestMatch(Upper(verb), path);
    if rules != [] && !(rules[0].data.enabled && rules[0].data.target == target) {
      var rest := rules[1..];
      MatchExactly(rest, verb, path);
      assert forall j :: 0 < j < |rules| ==> rules[j] == rest[j - 1];
      if FindMatchingRule(rules, verb, path).Some? {
        var i :| 0 <= i < |rest| && rest[i] == FindMatchingRule(rules, verb, path).value
                 && rest[i].data.enabled && rest[i].data.target == target
                 && forall j :: 0 <= j < i ==> !(rest[j].data.enabled && rest[j].data.target == target);
        assert rules[i + 1] == rest[i];
      }
    }
  }

  lemma {:induction false} FindInParts(a: seq<FailureRule>, b: seq<FailureRule>, verb: string, path: string)
    ensures FindMatchingRule(a + b, verb, path) ==
            if FindMatchingRule(a, verb, path).Some? then FindMatchingRule(a, verb, path)
            else FindMatchingRule(b, verb, path)
    decreases a
  {
    if a == [] {
      assert a + b == b;
    } else {
      assert (a + b)[1..] == a[1..] + b;
      FindInParts(a[1..], b, verb, path);
    }
  }

  lemma OfOne(r: FailureRule, verb: string, path: string)
    ensures FindMatchingRule([r], verb, path) == if Serves(r, verb, path) then Some(r) else None
    ensures !Serves(r.(data := r.data.(enabled := false)), verb, path)
  {
  }

  /** Taking the rule at position `i` out of service (by disabling it or deleting it) changes the match
      only for requests it owned, and those go to the next rule in the list that serves them. */
  lemma OutOfService(rules: seq<FailureRule>, i: nat, verb: string, path: string)
    requires i < |rules|
    ensures var before := FindMatchingRule(rules, verb, path);
            var disabled := rules[i].(data := rules[i].data.(enabled := false));
            var owned := Serves(rules[i], verb, path) && forall j :: 0 <= j < i ==> !Serves(rules[j], verb, path);
            var after := if owned then FindMatchingRule(rules[i + 1..], verb, path) else before;
            && FindMatchingRule(rules[i := disabled], verb, path) == after
            && FindMatchingRule(rules[..i] + rules[i + 1..], verb, path) == after
  {
    hide FindMatchingRule, Serves;
    var disabled := rules[i].(data := rules[i].data.(enabled := false));
    var front, back := rules[..i], rules[i + 1..];
    OfOne(rules[i], verb, path);
    OfOne(disabled, verb, path);
    FindInParts(front, back, verb, path);
    FindInParts([disabled], back, verb, path);
    FindInParts([rules[i]], back, verb, path);
    FindInParts(front, [disabled] + back, verb, path);
    FindInParts(front, [rules[i]] + back, verb, path);
    assert rules == front + ([rules[i]] + back);
    assert rules[i := disabled] == front + ([disabled] + back);
    NoneInFront(rules, i, verb, path);
  }

  lemma NoneInFront(rules: seq<FailureRule>, i: nat, verb: string, path: string)
    requires i < |rules|
    ensures FindMatchingRule(rules[..i], verb, path).None? <==> forall j :: 0 <= j < i ==> !Serves(rules[j], verb, path)
  {
    hide FindMatchingRule, Serves;
    var front := rules[..i];
    FindsFirst(front, verb, path);
    assert forall j :: 0 <= j < i ==> front[j] == rules[j] && front[j] in front;
  }
}
