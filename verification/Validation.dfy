/** What a rule goes through before it is stored: normalization, range checks and the reserved-path guard. */
module Validation {
  import opened Models
  import Headers

  const CONTROL_PREFIX := "/_simulator"
  const MAX_DELAY_MS := 60_000
  const MAX_BODY_BYTES := 1_048_576
  const BODYLESS_STATUSES: set<int> := {204, 205, 304}

  function UpperChar(c: char): char { if 'a' <= c <= 'z' then c - 32 as char else c }

  function Upper(s: string): (r: string)
    ensures |r| == |s|
    ensures forall i :: 0 <= i < |s| ==> r[i] == UpperChar(s[i])
  {
    seq(|s|, i requires 0 <= i < |s| => UpperChar(s[i]))
  }

  predicate IsReservedPath(path: string) {
    path == CONTROL_PREFIX || CONTROL_PREFIX + "/" <= path
  }

  /** Exactly the control prefix itself and everything below it; a longer first segment is not reserved. */
  lemma ReservedPathsExactly(path: string, rest: string)
    ensures IsReservedPath(CONTROL_PREFIX + rest) <==> rest == "" || rest[0] == '/'
    ensures !(CONTROL_PREFIX <= path) ==> !IsReservedPath(path)
  {
    var slashed := CONTROL_PREFIX + "/";
    assert |slashed| == |CONTROL_PREFIX| + 1 && slashed[|CONTROL_PREFIX|] == '/';
    if rest != "" {
      assert (CONTROL_PREFIX + rest)[|CONTROL_PREFIX|] == rest[0];
      if rest[0] == '/' {
        assert CONTROL_PREFIX + rest == slashed + rest[1..];
      }
    }
    if slashed <= path {
      assert path[..|CONTROL_PREFIX|] == CONTROL_PREFIX;
    }
  }

  predicate ValidBehavior(b: RuleBehavior) {
    && 0.0 < b.probability <= 1.0
    && 0 <= b.skipMatches <= 1_000_000
    && (b.maxSimulations.Some? ==> 1 <= b.maxSimulations.value <= 1_000_000)
  }

  predicate ValidPath(path: string, allowReserved: bool) {
    "/" <= path && (allowReserved || !IsReservedPath(path))
  }

  /** The bytes of a character in UTF-8. */
  function Utf8Size(c: char): nat {
    var code := c as int;
    if code < 0x80 then 1 else if code < 0x800 then 2 else if code < 0x1_0000 then 3 else 4
  }

  function Utf8Length(s: string): nat
    decreases |s|
  {
    if s == [] then 0 else Utf8Length(s[..|s| - 1]) + Utf8Size(s[|s| - 1])
  }

  /** Between one and four bytes per character: a body of at most 262,144 characters is never too long, one of more than
      1,048,576 always is. */
  lemma {:induction false} Utf8AtMostFour(s: string)
    ensures |s| <= Utf8Length(s) <= 4 * |s|
    decreases |s|
  {
    if s != [] {
      Utf8AtMostFour(s[..|s| - 1]);
    }
  }

  /** How many characters have a code of at least `bound`. */
  function CountFrom(s: string, bound: nat): nat
    decreases |s|
  {
    if s == [] then 0 else CountFrom(s[..|s| - 1], bound) + (if s[|s| - 1] as int >= bound then 1 else 0)
  }

  /** One byte per character, one more from code 0x80 on, one more from 0x800 on, and one more from 0x10000 on
      (section 3 of RFC 3629). */
  lemma {:induction false} Utf8Exactly(s: string)
    ensures Utf8Length(s) == |s| + CountFrom(s, 0x80) + CountFrom(s, 0x800) + CountFrom(s, 0x1_0000)
    decreases |s|
  {
    if s != [] {
      Utf8Exactly(s[..|s| - 1]);
    }
  }

  predicate ValidBody(body: Option<Body>) {
    body.Some? ==> body.value.Json? && Utf8Length(body.value.text) <= MAX_BODY_BYTES
  }

  ghost predicate ValidResponse(r: SimulatedResponse) {
    && 200 <= r.status <= 599
    && Headers.Acceptable(r.headers)
    && ValidBody(r.body)
    && 0 <= r.delayMs <= MAX_DELAY_MS
    && (r.status in BODYLESS_STATUSES ==> r.body.None?)
  }

  /** The condition under which a rule payload is accepted. */
  ghost predicate ValidRule(d: RuleCreate, allowReserved: bool) {
    && d.name != ""
    && ValidPath(d.target.path, allowReserved)
    && ValidResponse(d.response)
    && ValidBehavior(d.behavior)
  }

  predicate ValidProject(d: ProjectCreate) {
    1 <= |d.name| <= 100 && |d.description| <= 1000
  }

  function NormalizedTarget(t: RequestMatch): RequestMatch { t.(verb := Upper(t.verb)) }

  /** The stored form of an accepted payload. */
  function NormalizedRule(d: RuleCreate): RuleCreate {
    d.(target := NormalizedTarget(d.target),
       response := d.response.(headers := Headers.Normalized(d.response.headers)))
  }

  /** A payload that validation (with legacy paths allowed) accepts and leaves unchanged. */
  ghost predicate Stored(d: RuleCreate) { ValidRule(d, true) && NormalizedRule(d) == d }

  ghost predicate StoredResponse(r: SimulatedResponse) {
    ValidResponse(r) && Headers.Normalized(r.headers) == r.headers
  }

  /** The validators, run in field order; the result is the normalized payload or a rejection. */
  method ValidateRule(d: RuleCreate, allowReserved: bool) returns (r: Option<RuleCreate>)
    ensures r.Some? <==> ValidRule(d, allowReserved)
    ensures r.Some? ==> r.value == NormalizedRule(d)
  {
    if d.name == "" || !ValidPath(d.target.path, allowReserved) {
      return None;
    }
    if !(200 <= d.response.status <= 599 && 0 <= d.response.delayMs <= MAX_DELAY_MS) {
      return None;
    }
    var headers := Headers.ValidateHeaders(d.response.headers);
    if headers.Failure? {
      return None;
    }
    if !ValidBody(d.response.body) {
      return None;
    }
    if d.response.status in BODYLESS_STATUSES && d.response.body.Some? {
      return None;
    }
    if !ValidBehavior(d.behavior) {
      return None;
    }
    return Some(d.(target := NormalizedTarget(d.target), response := d.response.(headers := headers.value)));
  }

  lemma UpperIdempotent(s: string)
    ensures Upper(Upper(s)) == Upper(s)
  {
  }

  /** Upper-casing identifies exactly the methods that differ in letter case only. */
  lemma UpperIgnoresCaseOnly(s: string, t: string)
    ensures Upper(s) == Upper(t) <==> Headers.EqualIgnoringCase(s, t)
  {
    if Upper(s) == Upper(t) {
      forall i | 0 <= i < |s| ensures Headers.SameLetter(s[i], t[i]) {
        assert Upper(s)[i] == Upper(t)[i];
      }
    }
  }

  /** The result has no lower-case letter and is the same method apart from letter case. */
  lemma UpperIsUpper(s: string)
    ensures forall c <- Upper(s) :: !('a' <= c <= 'z')
    ensures Headers.EqualIgnoringCase(s, Upper(s))
  {
    forall c | c in Upper(s) ensures !('a' <= c <= 'z') {
      var i :| 0 <= i < |s| && Upper(s)[i] == c;
    }
  }

  lemma ValidPathExactly(path: string)
    ensures ValidPath(path, false) <==>
            path != "" && path[0] == '/' && path != "/_simulator" && !("/_simulator/" <= path)
  {
    assert CONTROL_PREFIX + "/" == "/_simulator/";
  }

  /** What a rule payload must satisfy, limit by limit. */
  lemma ValidRuleExactly(d: RuleCreate, allowReserved: bool)
    ensures ValidRule(d, allowReserved) <==>
            && |d.name| >= 1
            && |d.target.path| >= 1 && d.target.path[0] == '/'
            && (allowReserved || (d.target.path != "/_simulator" && !("/_simulator/" <= d.target.path)))
            && 200 <= d.response.status <= 599
            && (d.response.status in {204, 205, 304} ==> d.response.body.None?)
            && (d.response.body.Some? ==>
                  d.response.body.value.Json? && Utf8Length(d.response.body.value.text) <= 1_048_576)
            && 0 <= d.response.delayMs <= 60_000
            && Headers.Acceptable(d.response.headers)
            && 0.0 < d.behavior.probability && d.behavior.probability <= 1.0
            && 0 <= d.behavior.skipMatches <= 1_000_000
            && (d.behavior.maxSimulations.Some? ==> 1 <= d.behavior.maxSimulations.value <= 1_000_000)
  {
    hide Headers.Acceptable, Utf8Length;
    assert CONTROL_PREFIX + "/" == "/_simulator/";
  }

  /** Normalization upper-cases the method, lower-cases the header names and touches nothing else. */
  lemma NormalizedRuleExactly(d: RuleCreate)
    ensures var n := NormalizedRule(d);
            && n == d.(target := n.target, response := n.response)
            && n.target == RequestMatch(Upper(d.target.verb), d.target.path)
            && n.response == d.response.(headers := n.response.headers)
            && |n.response.headers| == |d.response.headers|
            && forall i :: 0 <= i < |d.response.headers| ==>
                 && n.response.headers[i].value == d.response.headers[i].value
                 && n.response.headers[i].name == Headers.Lower(d.response.headers[i].name)
  {
  }

  /** Validating a stored rule again is the identity, so export and import do not drift. */
  lemma ValidationIsIdempotent(d: RuleCreate, allowReserved: bool)
    requires ValidRule(d, allowReserved)
    ensures ValidRule(NormalizedRule(d), allowReserved)
    ensures Stored(NormalizedRule(d))
  {
    Headers.NormalizedIsFixedPoint(d.response.headers);
    UpperIdempotent(d.target.verb);
  }
}
