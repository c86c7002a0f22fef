/**
  The e-mail shape test of the sign-up form: the case-insensitive regular
  expression ^[A-Z0-9._%+-]+@[A-Z0-9.-]+\.[A-Z]{2,}$ without the `u` flag.

  Without `u`, case-insensitive matching only relates ASCII letters to one
  another, so the only "letters" are A-Z and a-z; `$` (no `m` flag) means end
  of input. The language is given twice:
    - MatchesPattern: there is a decomposition local + "@" + domain + "." + top;
    - Matches: split at the single '@', then split the rest at its last '.'.
  MatchesIffPattern proves the two agree.
 */
module EmailPattern {
  import opened Wrappers

  predicate IsAsciiLetter(c: char) { 'A' <= c <= 'Z' || 'a' <= c <= 'z' }

  predicate IsAsciiDigit(c: char) { '0' <= c <= '9' }

  /** The class [A-Z0-9._%+-] under the `i` flag. */
  predicate IsLocalChar(c: char) {
    IsAsciiLetter(c) || IsAsciiDigit(c) || c == '.' || c == '_' || c == '%' || c == '+' || c == '-'
  }

  /** The class [A-Z0-9.-] under the `i` flag. */
  predicate IsDomainChar(c: char) {
    IsAsciiLetter(c) || IsAsciiDigit(c) || c == '.' || c == '-'
  }

  /** [A-Z0-9._%+-]+ */
  predicate IsLocalPart(s: string) {
    |s| >= 1 && forall i :: 0 <= i < |s| ==> IsLocalChar(s[i])
  }

  /** [A-Z0-9.-]+ */
  predicate IsDomainPart(s: string) {
    |s| >= 1 && forall i :: 0 <= i < |s| ==> IsDomainChar(s[i])
  }

  /** [A-Z]{2,} */
  predicate IsTopLevel(s: string) {
    |s| >= 2 && forall i :: 0 <= i < |s| ==> IsAsciiLetter(s[i])
  }

  function Join(local: string, domain: string, top: string): string {
    local + "@" + domain + "." + top
  }

  /** The regular expression, read as "some decomposition of the whole input fits". */
  ghost predicate MatchesPattern(s: string) {
    exists local, domain, top ::
      s == Join(local, domain, top) && IsLocalPart(local) && IsDomainPart(domain) && IsTopLevel(top)
  }

  /** Position of the first `c` in `s`. */
  function FirstIndexOf(s: string, c: char): (r: Option<nat>)
    ensures r.None? <==> c !in s
    ensures r.Some? ==> r.value < |s| && s[r.value] == c && c !in s[..r.value]
  {
    if |s| == 0 then None
    else if s[0] == c then Some(0)
    else
      assert s == [s[0]] + s[1..];
      match FirstIndexOf(s[1..], c)
      case None => None
      case Some(i) =>
        assert s[..i + 1] == [s[0]] + s[1..][..i];
        Some(i + 1)
  }

  /** Position of the last `c` in `s`. */
  function LastIndexOf(s: string, c: char): (r: Option<nat>)
    ensures r.None? <==> c !in s
    ensures r.Some? ==> r.value < |s| && s[r.value] == c && c !in s[r.value + 1..]
  {
    if |s| == 0 then None
    else if s[|s| - 1] == c then Some(|s| - 1)
    else
      var init := s[..|s| - 1];
      assert s == init + [s[|s| - 1]];
      match LastIndexOf(init, c)
      case None => None
      case Some(i) =>
        assert s[i + 1..] == init[i + 1..] + [s[|s| - 1]];
        Some(i)
  }

  /** The part after the '@': a domain part, its last '.', and a top-level label. */
  predicate MatchesAfterAt(rest: string) {
    match LastIndexOf(rest, '.')
    case None => false
    case Some(dot) => IsDomainPart(rest[..dot]) && IsTopLevel(rest[dot + 1..])
  }

  /** The executable test: split at the single '@', then split the rest at its last '.'. */
  predicate Matches(s: string) {
    match FirstIndexOf(s, '@')
    case None => false
    case Some(at) => MatchesAroundAt(s[..at], s[at + 1..])
  }

  /** The pieces before and after the first '@': no second '@', a local part
      before, and a domain and top-level label after. */
  predicate MatchesAroundAt(local: string, rest: string) {
    '@' !in rest && IsLocalPart(local) && MatchesAfterAt(rest)
  }

  /** The first occurrence is the unique position with no earlier occurrence. */
  lemma FirstIndexOfAt(s: string, c: char, i: nat)
    requires i < |s| && s[i] == c && c !in s[..i]
    ensures FirstIndexOf(s, c) == Some(i)
  {
    assert s[i] in s;
  }

  /** The last occurrence is the unique position with no later occurrence. */
  lemma LastIndexOfAt(s: string, c: char, i: nat)
    requires i < |s| && s[i] == c && c !in s[i + 1..]
    ensures LastIndexOf(s, c) == Some(i)
  {
    assert s[i] in s;
  }

  lemma AfterAtSound(rest: string) returns (domain: string, top: string)
    requires MatchesAfterAt(rest)
    ensures rest == domain + "." + top && IsDomainPart(domain) && IsTopLevel(top)
  {
    var dot := LastIndexOf(rest, '.').value;
    domain, top := rest[..dot], rest[dot + 1..];
    assert rest == rest[..dot] + [rest[dot]] + rest[dot + 1..];
  }

  lemma SplitAtAt(s: string) returns (at: nat)
    requires Matches(s)
    ensures at < |s| && s[at] == '@' && IsLocalPart(s[..at]) && MatchesAfterAt(s[at + 1..])
  {
    at := FirstIndexOf(s, '@').value;
  }

  /** Every input the checker accepts has a decomposition. */
  lemma MatchesSound(s: string)
    requires Matches(s)
    ensures MatchesPattern(s)
  {
    var at := SplitAtAt(s);
    var local, rest := s[..at], s[at + 1..];
    var domain, top := AfterAtSound(rest);
    JoinAround(s, at, domain, top);
    PatternIntro(local, domain, top);
  }

  lemma JoinAround(s: string, at: nat, domain: string, top: string)
    requires at < |s| && s[at] == '@' && s[at + 1..] == domain + "." + top
    ensures s == Join(s[..at], domain, top)
  {
    assert s == s[..at] + "@" + s[at + 1..];
  }

  lemma PatternIntro(local: string, domain: string, top: string)
    requires IsLocalPart(local) && IsDomainPart(domain) && IsTopLevel(top)
    ensures MatchesPattern(Join(local, domain, top))
  {
  }

  lemma NoDotInTopLevel(top: string)
    requires IsTopLevel(top)
    ensures '.' !in top && '@' !in top
  {
  }

  lemma NoAtInDomain(domain: string)
    requires IsDomainPart(domain)
    ensures '@' !in domain
  {
  }

  lemma NoAtInLocal(local: string)
    requires IsLocalPart(local)
    ensures '@' !in local
  {
  }

  lemma AfterAtComplete(domain: string, top: string)
    requires IsDomainPart(domain) && IsTopLevel(top)
    ensures MatchesAfterAt(domain + "." + top)
    ensures '@' !in domain + "." + top
  {
    NoDotInTopLevel(top);
    NoAtInDomain(domain);
    DotBeforeTop(domain, top);
  }

  lemma MatchesIntro(s: string, at: nat)
    requires FirstIndexOf(s, '@') == Some(at)
    requires MatchesAroundAt(s[..at], s[at + 1..])
    ensures Matches(s)
  {
  }

  /** Every decomposition is the one the checker finds. */
  lemma MatchesComplete(s: string)
    requires MatchesPattern(s)
    ensures Matches(s)
  {
    var local, domain, top :|
      s == Join(local, domain, top) && IsLocalPart(local) && IsDomainPart(domain) && IsTopLevel(top);
    JoinMatches(local, domain, top);
  }

  lemma JoinMatches(local: string, domain: string, top: string)
    requires IsLocalPart(local) && IsDomainPart(domain) && IsTopLevel(top)
    ensures Matches(Join(local, domain, top))
  {
    var rest := domain + "." + top;
    var s := local + "@" + rest;
    AtAfterLocal(s, local, rest);
    AfterAtComplete(domain, top);
    assert MatchesAroundAt(local, rest);
    MatchesIntro(s, |local|);
    JoinRegroups(local, domain, top);
  }

  lemma JoinRegroups(local: string, domain: string, top: string)
    ensures Join(local, domain, top) == local + "@" + (domain + "." + top)
  {
  }

  /** The '@' after a local part is the first one. */
  lemma AtAfterLocal(s: string, local: string, rest: string)
    requires s == local + "@" + rest && IsLocalPart(local)
    ensures FirstIndexOf(s, '@') == Some(|local|)
    ensures s[..|local|] == local && s[|local| + 1..] == rest
  {
    assert s[..|local|] == local;
    NoAtInLocal(local);
    FirstIndexOfAt(s, '@', |local|);
  }

  /** The '.' before a top-level label is the last one. */
  lemma DotBeforeTop(domain: string, top: string)
    requires IsTopLevel(top)
    ensures LastIndexOf(domain + "." + top, '.') == Some(|domain|)
    ensures (domain + "." + top)[..|domain|] == domain && (domain + "." + top)[|domain| + 1..] == top
  {
    CutAround(domain, '.', top);
    NoDotInTopLevel(top);
    LastIndexOfAt(domain + "." + top, '.', |domain|);
  }

  /** The three pieces of `x + [c] + y`, read back by position. */
  lemma CutAround(x: string, c: char, y: string)
    ensures (x + [c] + y)[|x|] == c
    ensures (x + [c] + y)[..|x|] == x
    ensures (x + [c] + y)[|x| + 1..] == y
  {
  }

  /** A fitting decomposition is unique: the checker's '@' is the one after the
      local part, and the last '.' after it is the one after the domain part. */
  lemma DecompositionUnique(s: string, local: string, domain: string, top: string)
    requires s == Join(local, domain, top) && IsLocalPart(local) && IsDomainPart(domain) && IsTopLevel(top)
    ensures FirstIndexOf(s, '@') == Some(|local|)
    ensures s[..|local|] == local && s[|local| + 1..] == domain + "." + top
    ensures LastIndexOf(s[|local| + 1..], '.') == Some(|domain|)
    ensures s[|local| + 1..][..|domain|] == domain && s[|local| + 1..][|domain| + 1..] == top
  {
    assert s == local + "@" + (domain + "." + top);
    AtAfterLocal(s, local, domain + "." + top);
    DotBeforeTop(domain, top);
  }

  /** The split-based checker accepts exactly the language of the pattern. */
  lemma MatchesIffPattern(s: string)
    ensures Matches(s) <==> MatchesPattern(s)
  {
    if Matches(s) {
      MatchesSound(s);
    }
    if MatchesPattern(s) {
      MatchesComplete(s);
    }
  }

  /** Every matching address has at least "a@b.cd": six characters. */
  lemma MatchLength(s: string)
    requires MatchesPattern(s)
    ensures |s| >= 6
  {
    var local, domain, top :|
      s == Join(local, domain, top) && IsLocalPart(local) && IsDomainPart(domain) && IsTopLevel(top);
  }

  /** The empty string, in particular, never matches. */
  lemma EmptyNeverMatches()
    ensures !MatchesPattern("")
  {
    if MatchesPattern("") {
      MatchLength("");
    }
  }

  /** Two sample inputs: "a@b.com" is accepted, "abc" is not. */
  lemma Examples()
    ensures MatchesPattern("a@b.com")
    ensures !MatchesPattern("abc")
  {
    assert IsTopLevel("com");
    assert "a@b.com" == Join("a", "b", "com");
    MatchesIffPattern("abc");
  }

  /** ASCII upper-casing, the canonical form the `i` flag compares under. */
  function Fold(c: char): char {
    if 'a' <= c <= 'z' then (c as int - 32) as char else c
  }

  predicate SameIgnoringCase(a: string, b: string) {
    |a| == |b| && forall i :: 0 <= i < |a| ==> Fold(a[i]) == Fold(b[i])
  }

  /** Characters with the same canonical form fall in the same classes. */
  lemma FoldKeepsClasses(c: char, d: char)
    requires Fold(c) == Fold(d)
    ensures IsAsciiLetter(c) <==> IsAsciiLetter(d)
    ensures IsLocalChar(c) <==> IsLocalChar(d)
    ensures IsDomainChar(c) <==> IsDomainChar(d)
    ensures c == '@' <==> d == '@'
    ensures c == '.' <==> d == '.'
  {
  }

  lemma SliceSameCase(a: string, b: string, i: nat, j: nat)
    requires SameIgnoringCase(a, b) && i <= j <= |a|
    ensures SameIgnoringCase(a[i..j], b[i..j])
  {
  }

  /** Each part of the pattern is closed under changing letter case. */
  lemma PartsTransfer(x: string, y: string)
    requires SameIgnoringCase(x, y)
    ensures IsLocalPart(x) ==> IsLocalPart(y)
    ensures IsDomainPart(x) ==> IsDomainPart(y)
    ensures IsTopLevel(x) ==> IsTopLevel(y)
  {
    forall i | 0 <= i < |x|
      ensures (IsLocalChar(x[i]) ==> IsLocalChar(y[i])) &&
              (IsDomainChar(x[i]) ==> IsDomainChar(y[i])) &&
              (IsAsciiLetter(x[i]) ==> IsAsciiLetter(y[i]))
    {
      FoldKeepsClasses(x[i], y[i]);
    }
  }

  /** Cutting at an '@' and a later '.' gives back the whole string. */
  lemma JoinAtCuts(b: string, at: nat, dot: nat)
    requires at < dot < |b| && b[at] == '@' && b[dot] == '.'
    ensures b == Join(b[..at], b[at + 1..dot], b[dot + 1..])
  {
    assert b == b[..at] + [b[at]] + b[at + 1..dot] + [b[dot]] + b[dot + 1..];
  }

  lemma PatternTransfers(a: string, b: string)
    requires SameIgnoringCase(a, b) && MatchesPattern(a)
    ensures MatchesPattern(b)
  {
    var local, domain, top :|
      a == Join(local, domain, top) && IsLocalPart(local) && IsDomainPart(domain) && IsTopLevel(top);
    var at := |local|;
    var dot := at + 1 + |domain|;
    assert a[..at] == local && a[at + 1..dot] == domain && a[dot + 1..] == top;
    assert a[at] == '@' && a[dot] == '.';
    SliceSameCase(a, b, 0, at);
    SliceSameCase(a, b, at + 1, dot);
    SliceSameCase(a, b, dot + 1, |a|);
    assert a[0..at] == local && b[0..at] == b[..at];
    assert a[dot + 1..|a|] == top && b[dot + 1..|b|] == b[dot + 1..];
    PartsTransfer(local, b[..at]);
    PartsTransfer(domain, b[at + 1..dot]);
    PartsTransfer(top, b[dot + 1..]);
    FoldKeepsClasses(a[at], b[at]);
    FoldKeepsClasses(a[dot], b[dot]);
    JoinAtCuts(b, at, dot);
    PatternIntro(b[..at], b[at + 1..dot], b[dot + 1..]);
  }


  /** Changing the case of ASCII letters never changes the verdict. */
  lemma MatchesIgnoresCase(a: string, b: string)
    requires SameIgnoringCase(a, b)
    ensures Matches(a) <==> Matches(b)
  {
    MatchesIffPattern(a);
    MatchesIffPattern(b);
    if MatchesPattern(a) {
      PatternTransfers(a, b);
    }
    if MatchesPattern(b) {
      PatternTransfers(b, a);
    }
  }
}
