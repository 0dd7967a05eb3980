/** Response headers: the single-pass validator and the order-free condition it decides. */
module Headers {
  import opened Models

  const MAX_HEADER_COUNT := 100
  const MAX_HEADER_BYTES := 16_384

  const FORBIDDEN: set<string> := {
    "connection", "content-length", "keep-alive", "proxy-authenticate", "proxy-authorization",
    "te", "trailer", "transfer-encoding", "upgrade"
  }

  datatype HeaderError =
    | TooMany
    | InvalidName(name: string)
    | DuplicateName(name: string)
    | ManagedByServer(name: string)
    | InvalidValue(name: string)
    | NotLatin1(name: string)
    | TooLarge

  /** `tchar` of section 5.6.2 of RFC 9110. */
  predicate TokenChar(c: char) {
    'a' <= c <= 'z' || 'A' <= c <= 'Z' || '0' <= c <= '9' || c in "!#$%&'*+-.^_`|~"
  }

  predicate Token(name: string) { name != "" && forall c <- name :: TokenChar(c) }

  predicate Printable(value: string) { '\r' !in value && '\n' !in value && '\0' !in value }

  predicate Latin1(value: string) { forall c <- value :: c as int < 256 }

  function LowerChar(c: char): char { if 'A' <= c <= 'Z' then c + 32 as char else c }

  function Lower(s: string): (r: string)
    ensures |r| == |s|
    ensures forall i :: 0 <= i < |s| ==> r[i] == LowerChar(s[i])
  {
    seq(|s|, i requires 0 <= i < |s| => LowerChar(s[i]))
  }

  /** Equal, or the same ASCII letter in different case. */
  predicate SameLetter(c: char, d: char) {
    || c == d
    || ('a' <= c <= 'z' && c as int - d as int == 32)
    || ('a' <= d <= 'z' && d as int - c as int == 32)
  }

  /** Lower-casing identifies exactly the names that differ in letter case only. */
  lemma LowerIgnoresCaseOnly(s: string, t: string)
    ensures Lower(s) == Lower(t) <==> EqualIgnoringCase(s, t)
  {
    if Lower(s) == Lower(t) {
      forall i | 0 <= i < |s| ensures SameLetter(s[i], t[i]) {
        assert Lower(s)[i] == Lower(t)[i];
      }
    }
  }

  /** The result has no upper-case letter and is the same name apart from letter case. */
  lemma LowerIsLower(s: string)
    ensures forall c <- Lower(s) :: !('A' <= c <= 'Z')
    ensures EqualIgnoringCase(s, Lower(s))
  {
    forall c | c in Lower(s) ensures !('A' <= c <= 'Z') {
      var i :| 0 <= i < |s| && Lower(s)[i] == c;
    }
  }

  /** The same characters apart from the case of ASCII letters. */
  predicate EqualIgnoringCase(s: string, t: string) {
    |s| == |t| && forall i :: 0 <= i < |s| ==> SameLetter(s[i], t[i])
  }

  function Normalized(headers: seq<Header>): (r: seq<Header>)
    ensures |r| == |headers|
    ensures forall i :: 0 <= i < |headers| ==> r[i] == Header(Lower(headers[i].name), headers[i].value)
  {
    seq(|headers|, i requires 0 <= i < |headers| => Header(Lower(headers[i].name), headers[i].value))
  }

  function Bytes(h: Header): nat { |h.name| + |h.value| }

  function TotalBytes(headers: seq<Header>): nat {
    if headers == [] then 0 else TotalBytes(headers[..|headers| - 1]) + Bytes(headers[|headers| - 1])
  }

  predicate AcceptableHeader(h: Header) {
    Token(h.name) && Lower(h.name) !in FORBIDDEN && Printable(h.value) && Latin1(h.value)
  }

  /** Field names are compared case-insensitively (section 5.1 of RFC 9110). */
  ghost predicate DistinctNames(headers: seq<Header>) {
    forall i, j :: 0 <= i < j < |headers| ==> Lower(headers[i].name) != Lower(headers[j].name)
  }

  /** The declarative condition: no order, no running state. */
  ghost predicate Acceptable(headers: seq<Header>) {
    && |headers| <= MAX_HEADER_COUNT
    && (forall h <- headers :: AcceptableHeader(h))
    && DistinctNames(headers)
    && TotalBytes(headers) <= MAX_HEADER_BYTES
  }

  ghost predicate NameUsed(headers: seq<Header>, name: string) {
    exists h <- headers :: Lower(h.name) == Lower(name)
  }

  /** Why `h` cannot follow the acceptable headers `before`: the highest-priority broken condition. */
  ghost predicate Rejects(before: seq<Header>, h: Header, e: HeaderError) {
    match e
    case TooMany => false
    case InvalidName(n) => n == h.name && !Token(n)
    case DuplicateName(n) => n == h.name && Token(n) && NameUsed(before, n)
    case ManagedByServer(n) => n == h.name && Token(n) && !NameUsed(before, n) && Lower(n) in FORBIDDEN
    case InvalidValue(n) =>
      n == h.name && Token(n) && !NameUsed(before, n) && Lower(n) !in FORBIDDEN && !Printable(h.value)
    case NotLatin1(n) =>
      n == h.name && Token(n) && !NameUsed(before, n) && Lower(n) !in FORBIDDEN && Printable(h.value) &&
      !Latin1(h.value)
    case TooLarge =>
      AcceptableHeader(h) && !NameUsed(before, h.name) && TotalBytes(before) + Bytes(h) > MAX_HEADER_BYTES
  }

  /** The loop with its early exits and running byte total decides exactly `Acceptable`,
      and an error names the first header that breaks it. */
  method ValidateHeaders(headers: seq<Header>) returns (r: Result<seq<Header>, HeaderError>)
    ensures r.Success? <==> Acceptable(headers)
    ensures r.Success? ==> r.value == Normalized(headers)
    ensures r.Success? ==> forall i :: 0 <= i < |headers| ==>
              && EqualIgnoringCase(r.value[i].name, headers[i].name) && r.value[i].value == headers[i].value
              && forall c <- r.value[i].name :: !('A' <= c <= 'Z')
    ensures r == Failure(TooMany) <==> |headers| > MAX_HEADER_COUNT
    ensures r.Failure? && r.error != TooMany ==> RejectedSomewhere(headers, r.error)
  {
    if |headers| > MAX_HEADER_COUNT {
      return Failure(TooMany);
    }
    var normalized: seq<Header> := [];
    var totalBytes := 0;
    for i := 0 to |headers|
      invariant Acceptable(headers[..i])
      invariant normalized == Normalized(headers[..i])
      invariant totalBytes == TotalBytes(headers[..i])
    {
      var h := headers[i];
      var lowerName := Lower(h.name);
      var error: Option<HeaderError> := None;
      NormalizedNames(headers[..i], h.name);
      if !Token(h.name) {
        error := Some(InvalidName(h.name));
      } else if HasName(normalized, lowerName) {
        error := Some(DuplicateName(h.name));
      } else if lowerName in FORBIDDEN {
        error := Some(ManagedByServer(h.name));
      } else if !Printable(h.value) {
        error := Some(InvalidValue(h.name));
      } else if !Latin1(h.value) {
        error := Some(NotLatin1(h.name));
      } else {
        totalBytes := totalBytes + |h.name| + |h.value|;
        if totalBytes > MAX_HEADER_BYTES {
          error := Some(TooLarge);
        }
      }
      if error.Some? {
        RejectedAt(headers, i, error.value);
        return Failure(error.value);
      }
      AcceptableSnoc(headers, i);
      normalized := normalized + [Header(lowerName, h.value)];
    }
    assert headers[..|headers|] == headers;
    NormalizedIsLower(headers);
    return Success(normalized);
  }

  lemma NormalizedIsLower(headers: seq<Header>)
    ensures forall i :: 0 <= i < |headers| ==>
              && EqualIgnoringCase(Normalized(headers)[i].name, headers[i].name)
              && Normalized(headers)[i].value == headers[i].value
              && forall c <- Normalized(headers)[i].name :: !('A' <= c <= 'Z')
  {
    forall i | 0 <= i < |headers|
      ensures EqualIgnoringCase(Normalized(headers)[i].name, headers[i].name)
      ensures forall c <- Normalized(headers)[i].name :: !('A' <= c <= 'Z')
    {
      LowerIsLower(headers[i].name);
    }
  }

  predicate HasName(headers: seq<Header>, name: string) {
    exists h <- headers :: h.name == name
  }

  lemma NormalizedNames(before: seq<Header>, name: string)
    ensures HasName(Normalized(before), Lower(name)) <==> NameUsed(before, name)
  {
    var n := Normalized(before);
    if h :| h in before && Lower(h.name) == Lower(name) {
      var k :| 0 <= k < |before| && before[k] == h;
      assert n[k] in n;
    }
    if h :| h in n && h.name == Lower(name) {
      var k :| 0 <= k < |n| && n[k] == h;
      assert before[k] in before;
    }
  }

  /** Some header is the first that breaks the condition, and `e` says how. */
  ghost predicate RejectedSomewhere(headers: seq<Header>, e: HeaderError) {
    exists i :: 0 <= i < |headers| && Acceptable(headers[..i]) && Rejects(headers[..i], headers[i], e)
  }

  lemma RejectedAt(headers: seq<Header>, i: nat, e: HeaderError)
    requires i < |headers| <= MAX_HEADER_COUNT && Acceptable(headers[..i]) && Rejects(headers[..i], headers[i], e)
    ensures RejectedSomewhere(headers, e)
    ensures !Acceptable(headers)
  {
    AcceptableSnoc(headers, i);
    AcceptablePrefix(headers, i + 1);
  }

  lemma AcceptableSnoc(headers: seq<Header>, i: nat)
    requires i < |headers| <= MAX_HEADER_COUNT && Acceptable(headers[..i])
    ensures TotalBytes(headers[..i + 1]) == TotalBytes(headers[..i]) + Bytes(headers[i])
    ensures Acceptable(headers[..i + 1]) <==>
            && AcceptableHeader(headers[i])
            && !NameUsed(headers[..i], headers[i].name)
            && TotalBytes(headers[..i]) + Bytes(headers[i]) <= MAX_HEADER_BYTES
  {
    var before, after := headers[..i], headers[..i + 1];
    assert after[..i] == before && after == before + [headers[i]];
    if Acceptable(after) {
      assert after[i] in after;
      if h :| h in before && Lower(h.name) == Lower(headers[i].name) {
        assert false;
      }
    }
  }

  lemma {:induction false} AcceptablePrefix(headers: seq<Header>, n: nat)
    requires n <= |headers|
    ensures Acceptable(headers) ==> Acceptable(headers[..n])
    decreases |headers|
  {
    if n < |headers| {
      var shorter := headers[..|headers| - 1];
      assert shorter[..n] == headers[..n];
      AcceptablePrefix(shorter, n);
    } else {
      assert headers[..n] == headers;
    }
  }

  // Order independence.

  function Without(headers: seq<Header>, j: nat): seq<Header>
    requires j < |headers|
  {
    headers[..j] + headers[j + 1..]
  }

  lemma {:induction false} TotalBytesWithout(headers: seq<Header>, j: nat)
    requires j < |headers|
    ensures TotalBytes(headers) == TotalBytes(Without(headers, j)) + Bytes(headers[j])
    decreases |headers|
  {
    var n := |headers| - 1;
    if j == n {
      assert Without(headers, j) == headers[..n];
    } else {
      TotalBytesWithout(headers[..n], j);
      assert Without(headers, j)[..n - 1] == Without(headers[..n], j);
    }
  }

  lemma MultisetWithout(headers: seq<Header>, j: nat)
    requires j < |headers|
    ensures multiset(headers) == multiset(Without(headers, j)) + multiset{headers[j]}
  {
    assert headers == headers[..j] + [headers[j]] + headers[j + 1..];
  }

  /** Taking the same header out of two permutations leaves permutations. */
  lemma WithoutSame(a: seq<Header>, i: nat, b: seq<Header>, j: nat)
    requires multiset(a) == multiset(b) && i < |a| && j < |b| && a[i] == b[j]
    ensures multiset(Without(a, i)) == multiset(Without(b, j))
  {
    MultisetWithout(a, i);
    MultisetWithout(b, j);
    hide Without;
    var x, y, z := multiset(Without(a, i)), multiset(Without(b, j)), multiset{a[i]};
    assert x == (x + z) - z && y == (y + z) - z;
  }

  lemma SomewhereIn(x: Header, b: seq<Header>) returns (j: nat)
    requires x in multiset(b)
    ensures j < |b| && b[j] == x
  {
    j :| 0 <= j < |b| && b[j] == x;
  }

  lemma {:induction false} TotalBytesPermutation(a: seq<Header>, b: seq<Header>)
    requires multiset(a) == multiset(b)
    ensures TotalBytes(a) == TotalBytes(b)
    decreases |a|
  {
    hide Bytes, Without;
    if a == [] {
      assert |multiset(b)| == 0;
    } else {
      var n := |a| - 1;
      assert a[n] in multiset(a);
      var j := SomewhereIn(a[n], b);
      WithoutSame(a, n, b, j);
      ShorterWithout(a, n);
      TotalBytesPermutation(Without(a, n), Without(b, j));
      TotalBytesWithout(a, n);
      TotalBytesWithout(b, j);
    }
  }

  lemma ShorterWithout(headers: seq<Header>, j: nat)
    requires j < |headers|
    ensures |Without(headers, j)| == |headers| - 1
  {
  }

  lemma TwiceInMultiset(s: seq<Header>, i: nat, j: nat)
    requires i < j < |s| && s[i] == s[j]
    ensures multiset(s)[s[i]] >= 2
  {
    assert s == s[..j] + [s[j]] + s[j + 1..];
    assert s[i] == s[..j][i];
    assert s[i] in multiset(s[..j]);
  }

  lemma OnceInMultiset(s: seq<Header>, x: Header)
    requires DistinctNames(s)
    ensures multiset(s)[x] <= 1
  {
    if x in s {
      var i :| 0 <= i < |s| && s[i] == x;
      assert s == s[..i] + [x] + s[i + 1..];
      assert x !in multiset(s[..i]) && x !in multiset(s[i + 1..]);
    }
  }

  lemma DistinctNamesPermutation(a: seq<Header>, b: seq<Header>)
    requires multiset(a) == multiset(b) && DistinctNames(a)
    ensures DistinctNames(b)
  {
    forall i, j | 0 <= i < j < |b| ensures Lower(b[i].name) != Lower(b[j].name) {
      assert b[i] in multiset(a) && b[j] in multiset(a);
      if b[i] == b[j] {
        TwiceInMultiset(b, i, j);
        OnceInMultiset(a, b[i]);
      }
      var k :| 0 <= k < |a| && a[k] == b[i];
      var l :| 0 <= l < |a| && a[l] == b[j];
    }
  }

  /** Acceptance does not depend on the order in which the headers are given. */
  lemma AcceptanceIgnoresOrder(a: seq<Header>, b: seq<Header>)
    requires multiset(a) == multiset(b)
    ensures Acceptable(a) <==> Acceptable(b)
  {
    TotalBytesPermutation(a, b);
    assert |a| == |multiset(a)| && |b| == |multiset(b)|;
    forall h ensures h in a <==> h in b {
      assert h in multiset(a) <==> h in multiset(b);
    }
    if DistinctNames(a) { DistinctNamesPermutation(a, b); }
    if DistinctNames(b) { DistinctNamesPermutation(b, a); }
  }

  // The normalized output is a fixed point.

  lemma LowerIdempotent(s: string)
    ensures Lower(Lower(s)) == Lower(s)
    ensures Token(s) ==> Token(Lower(s))
  {
    if Token(s) {
      forall c | c in Lower(s) ensures TokenChar(c) {
        var i :| 0 <= i < |s| && Lower(s)[i] == c;
        assert TokenChar(s[i]);
      }
    }
  }

  lemma {:induction false} TotalBytesNormalized(headers: seq<Header>)
    ensures TotalBytes(Normalized(headers)) == TotalBytes(headers)
    decreases |headers|
  {
    if headers != [] {
      var n := |headers| - 1;
      TotalBytesNormalized(headers[..n]);
      assert Normalized(headers)[..n] == Normalized(headers[..n]);
    }
  }

  /** Validating normalized headers again accepts them and changes nothing. */
  lemma NormalizedIsFixedPoint(headers: seq<Header>)
    requires Acceptable(headers)
    ensures Acceptable(Normalized(headers))
    ensures Normalized(Normalized(headers)) == Normalized(headers)
  {
    var n := Normalized(headers);
    TotalBytesNormalized(headers);
    forall i | 0 <= i < |n| ensures AcceptableHeader(n[i]) && Lower(n[i].name) == n[i].name {
      LowerIdempotent(headers[i].name);
      assert headers[i] in headers;
    }
    assert Normalized(n) == n;
  }

  lemma SingleHeader(h: Header)
    requires AcceptableHeader(h) && Bytes(h) <= MAX_HEADER_BYTES && Lower(h.name) == h.name
    ensures Acceptable([h]) && Normalized([h]) == [h]
  {
    assert [h][..0] == [];
    assert TotalBytes([h]) == Bytes(h);
  }

  // The same condition in the terms of the standards.

  /** Section 5.6.2 of RFC 9110 from the other side: every visible ASCII character that is not a delimiter. */
  lemma TokenCharsExactly(c: char)
    ensures TokenChar(c) <==> 33 <= c as int <= 126 && c !in "\"(),/:;<=>?@[\\]{}"
  {
  }

  /** All names and values written one after the other. */
  function Flattened(headers: seq<Header>): string {
    if headers == [] then "" else headers[0].name + headers[0].value + Flattened(headers[1..])
  }

  lemma {:induction false} FlattenedSnoc(headers: seq<Header>, h: Header)
    ensures |Flattened(headers + [h])| == |Flattened(headers)| + |h.name| + |h.value|
    decreases headers
  {
    if headers == [] {
      assert ([] + [h])[1..] == [];
    } else {
      assert (headers + [h])[1..] == headers[1..] + [h];
      FlattenedSnoc(headers[1..], h);
    }
  }

  /** The byte total is the length of everything written out. */
  lemma {:induction false} TotalBytesExactly(headers: seq<Header>)
    ensures TotalBytes(headers) == |Flattened(headers)|
    decreases |headers|
  {
    if headers != [] {
      var n := |headers| - 1;
      TotalBytesExactly(headers[..n]);
      assert headers == headers[..n] + [headers[n]];
      FlattenedSnoc(headers[..n], headers[n]);
    }
  }

  /** A field the HTTP server writes itself, in whatever letter case. */
  predicate ServerManaged(name: string) {
    || EqualIgnoringCase(name, "connection") || EqualIgnoringCase(name, "content-length")
    || EqualIgnoringCase(name, "keep-alive") || EqualIgnoringCase(name, "proxy-authenticate")
    || EqualIgnoringCase(name, "proxy-authorization") || EqualIgnoringCase(name, "te")
    || EqualIgnoringCase(name, "trailer") || EqualIgnoringCase(name, "transfer-encoding")
    || EqualIgnoringCase(name, "upgrade")
  }

  lemma LowerOfLowerCase(name: string, lower: string)
    requires forall c <- lower :: !('A' <= c <= 'Z')
    ensures Lower(name) == lower <==> EqualIgnoringCase(name, lower)
  {
    forall i | 0 <= i < |lower| ensures Lower(lower)[i] == lower[i] {
      assert lower[i] in lower;
    }
    assert Lower(lower) == lower;
    LowerIgnoresCaseOnly(name, lower);
  }

  lemma ForbiddenAreLowerCase(lower: string)
    requires lower in FORBIDDEN
    ensures forall c <- lower :: !('A' <= c <= 'Z')
  {
  }

  lemma ForbiddenExactly(name: string)
    ensures Lower(name) in FORBIDDEN <==> ServerManaged(name)
  {
    hide Lower, EqualIgnoringCase;
    forall lower | lower in FORBIDDEN ensures Lower(name) == lower <==> EqualIgnoringCase(name, lower) {
      ForbiddenAreLowerCase(lower);
      LowerOfLowerCase(name, lower);
    }
  }

  /** One header on its own: a token that the server does not manage, and a value of latin-1 characters without CR, LF
      and NUL. */
  predicate WellFormed(h: Header) {
    && h.name != ""
    && (forall c <- h.name :: 33 <= c as int <= 126 && c !in "\"(),/:;<=>?@[\\]{}")
    && !ServerManaged(h.name)
    && (forall c <- h.value :: c as int < 256 && c as int != 13 && c as int != 10 && c as int != 0)
  }

  lemma WellFormedExactly(h: Header)
    ensures AcceptableHeader(h) <==> WellFormed(h)
  {
    hide Lower, ServerManaged, FORBIDDEN, TokenChar;
    ForbiddenExactly(h.name);
    forall c ensures TokenChar(c) <==> 33 <= c as int <= 126 && c !in "\"(),/:;<=>?@[\\]{}" {
      TokenCharsExactly(c);
    }
    ValueExactly(h.value);
  }

  lemma ValueExactly(value: string)
    ensures Printable(value) && Latin1(value) <==>
            forall c <- value :: c as int < 256 && c as int != 13 && c as int != 10 && c as int != 0
  {
    assert '\r' as int == 13 && '\n' as int == 10 && '\0' as int == 0;
  }

  /** What the validator accepts, in the terms of the standards: at most 100 well-formed headers, no two with the same
      name ignoring letter case, and at most 16,384 bytes of names and values. */
  lemma AcceptableExactly(headers: seq<Header>)
    ensures Acceptable(headers) <==>
            && |headers| <= 100
            && (forall h <- headers :: WellFormed(h))
            && (forall i, j :: 0 <= i < j < |headers| ==> !EqualIgnoringCase(headers[i].name, headers[j].name))
            && |Flattened(headers)| <= 16_384
  {
    hide Lower, EqualIgnoringCase, WellFormed, AcceptableHeader;
    TotalBytesExactly(headers);
    forall h | h in headers ensures AcceptableHeader(h) <==> WellFormed(h) {
      WellFormedExactly(h);
    }
    forall i, j | 0 <= i < j < |headers|
      ensures Lower(headers[i].name) != Lower(headers[j].name) <==>
              !EqualIgnoringCase(headers[i].name, headers[j].name)
    {
      SameNameExactly(headers[i].name, headers[j].name);
    }
  }

  lemma SameNameExactly(s: string, t: string)
    ensures Lower(s) == Lower(t) <==> EqualIgnoringCase(s, t)
  {
    LowerIgnoresCaseOnly(s, t);
  }
}
