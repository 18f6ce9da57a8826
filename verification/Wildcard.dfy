/** The two iterative '*' / '?' matchers of the server (user names and peer
    addresses) and the list scanners built on them, against a recursive
    definition of the pattern language. */
module Wildcard {

  /** The pattern language: '*' stands for any run of characters, '?' for any
      single one, everything else for itself. */
  predicate Matches(pat: string, val: string)
    decreases |pat| + |val|
  {
    if pat == [] then val == []
    else if pat[0] == '*' then Matches(pat[1..], val) || (val != [] && Matches(pat, val[1..]))
    else val != [] && OneChar(pat[0], val[0]) && Matches(pat[1..], val[1..])
  }

  predicate OneChar(p: char, c: char) {
    p == '?' || p == c
  }

  predicate AllStars(pat: string) {
    forall i | 0 <= i < |pat| :: pat[i] == '*'
  }

  /** Where to resume after a mismatch: the pattern position behind the last
      recorded '*' and the value position that star has been stretched to. */
  datatype Star = NoStar | At(p: nat, v: nat)

  function Stretch(star: Star): nat {
    if star.At? then star.v else 0
  }

  /** One run of the scanning loop, as a function of its variables. */
  predicate Scan(pat: string, val: string, p: nat, v: nat, star: Star)
    requires p <= |pat| && v <= |val|
    requires star.At? ==> star.p <= |pat| && star.v <= v
    decreases |val| - Stretch(star), (|val| - v) + (|pat| - p)
  {
    if v == |val| then AllStars(pat[p..])
    else if p < |pat| && OneChar(pat[p], val[v]) then Scan(pat, val, p + 1, v + 1, star)
    else if p < |pat| && pat[p] == '*' then Scan(pat, val, p + 1, v, At(p + 1, v))
    else if star.At? then Scan(pat, val, star.p, star.v + 1, At(star.p, star.v + 1))
    else false
  }

  /** What both matchers compute. */
  predicate Glob(pat: string, val: string) {
    Scan(pat, val, 0, 0, NoStar)
  }

  /** The matcher for user names: remembers the position behind the star. */
  method UsernamePatternMatches(pattern: string, username: string) returns (r: bool)
    ensures r == Glob(pattern, username)
  {
    var p, u, starP, starU := 0, 0, -1, 0;
    while u < |username|
      invariant 0 <= p <= |pattern| && 0 <= u <= |username|
      invariant -1 <= starP <= |pattern| && 0 <= starU <= u
      invariant starP == -1 ==> starU == 0
      invariant Glob(pattern, username) ==
                Scan(pattern, username, p, u, if starP == -1 then NoStar else At(starP, starU))
      decreases |username| - starU, (|username| - u) + (|pattern| - p)
    {
      if p < |pattern| && (pattern[p] == '?' || pattern[p] == username[u]) {
        p, u := p + 1, u + 1;
        continue;
      }
      if p < |pattern| && pattern[p] == '*' {
        p := p + 1;
        starP, starU := p, u;
        continue;
      }
      if starP != -1 {
        p, starU := starP, starU + 1;
        u := starU;
        continue;
      }
      return false;
    }
    r := TrailingStars(pattern, p);
  }

  /** The matcher for peer addresses: remembers the star itself. */
  method FromPatternMatchesOne(pattern: string, value: string) returns (r: bool)
    ensures r == Glob(pattern, value)
  {
    var pi, vi, starPi, starVi := 0, 0, -1, 0;
    while vi < |value|
      invariant 0 <= pi <= |pattern| && 0 <= vi <= |value|
      invariant -1 <= starPi < |pattern| && 0 <= starVi <= vi
      invariant starPi == -1 ==> starVi == 0
      invariant Glob(pattern, value) ==
                Scan(pattern, value, pi, vi, if starPi == -1 then NoStar else At(starPi + 1, starVi))
      decreases |value| - starVi, (|value| - vi) + (|pattern| - pi)
    {
      if pi < |pattern| && OneChar(pattern[pi], value[vi]) {
        pi, vi := pi + 1, vi + 1;
      } else if pi < |pattern| && pattern[pi] == '*' {
        starPi, pi := pi, pi + 1;
        starVi := vi;
      } else if starPi != -1 {
        pi, starVi := starPi + 1, starVi + 1;
        vi := starVi;
      } else {
        return false;
      }
    }
    r := TrailingStars(pattern, pi);
  }

  /** The closing loop both matchers share. */
  method TrailingStars(pattern: string, start: nat) returns (r: bool)
    requires start <= |pattern|
    ensures r == AllStars(pattern[start..])
  {
    var p := start;
    while p < |pattern| && pattern[p] == '*'
      invariant start <= p <= |pattern|
      invariant forall i | start <= i < p :: pattern[i] == '*'
    {
      p := p + 1;
    }
    r := p == |pattern|;
    if !r { assert pattern[start..][p - start] != '*'; }
  }

  // ---- Acceptance is sound for every value ----

  lemma {:induction false} AllStarsMatchEmpty(pat: string)
    ensures Matches(pat, []) == AllStars(pat)
  {
    if pat != [] {
      AllStarsMatchEmpty(pat[1..]);
      assert AllStars(pat) == (pat[0] == '*' && AllStars(pat[1..])) by {
        assert forall i | 0 <= i < |pat| - 1 :: pat[1..][i] == pat[i + 1];
        if pat[0] == '*' && AllStars(pat[1..]) {
          forall i | 0 <= i < |pat| ensures pat[i] == '*' {
            if i > 0 { assert pat[1..][i - 1] == '*'; }
          }
        }
      }
    }
  }

  /** Accepting from a loop state means the rest matches, or the last star can
      be stretched further. */
  lemma {:induction false} ScanSound(pat: string, val: string, p: nat, v: nat, star: Star)
    requires p <= |pat| && v <= |val|
    requires star.At? ==> star.p <= |pat| && star.v <= v
    requires Scan(pat, val, p, v, star)
    ensures Matches(pat[p..], val[v..]) ||
            (star.At? && Matches("*" + pat[star.p..], val[star.v..]))
    decreases |val| - Stretch(star), (|val| - v) + (|pat| - p)
  {
    if v == |val| {
      AllStarsMatchEmpty(pat[p..]);
    } else if p < |pat| && OneChar(pat[p], val[v]) {
      ScanSound(pat, val, p + 1, v + 1, star);
      assert pat[p..][1..] == pat[p + 1..] && val[v..][1..] == val[v + 1..];
      if pat[p] == '*' && Matches(pat[p + 1..], val[v + 1..]) {
        assert Matches(pat[p..], val[v + 1..]);
      }
    } else if p < |pat| && pat[p] == '*' {
      ScanSound(pat, val, p + 1, v, At(p + 1, v));
      assert pat[p..] == "*" + pat[p + 1..] && pat[p..][1..] == pat[p + 1..];
    } else {
      ScanSound(pat, val, star.p, star.v + 1, At(star.p, star.v + 1));
      var q := "*" + pat[star.p..];
      assert q[1..] == pat[star.p..] && val[star.v..][1..] == val[star.v + 1..];
      assert Matches(q, val[star.v + 1..]);
    }
  }

  lemma GlobSound(pat: string, val: string)
    requires Glob(pat, val)
    ensures Matches(pat, val)
  {
    ScanSound(pat, val, 0, 0, NoStar);
    assert pat[0..] == pat && val[0..] == val;
  }

  // ---- Acceptance is complete when the value holds no '*' ----

  /** Pattern and value agree character by character over n positions, none of
      them a star: what the loop has consumed since the last star. */
  ghost predicate Aligned(pat: string, val: string, p: nat, v: nat, n: nat) {
    p + n <= |pat| && v + n <= |val| &&
    forall i | p <= i < p + n :: pat[i] != '*' && OneChar(pat[i], val[v + (i - p)])
  }

  lemma {:induction false} StripAligned(pat: string, val: string, p: nat, v: nat, n: nat)
    requires Aligned(pat, val, p, v, n)
    ensures Matches(pat[p..], val[v..]) == Matches(pat[p + n..], val[v + n..])
    decreases n
  {
    if n > 0 {
      assert pat[p..][1..] == pat[p + 1..] && val[v..][1..] == val[v + 1..];
      StripAligned(pat, val, p + 1, v + 1, n - 1);
    }
  }

  /** A star-free stretch of n pattern characters consumes exactly n characters. */
  lemma {:induction false} Consume(pat: string, p: nat, n: nat, w: string)
    requires p + n <= |pat|
    requires forall i | p <= i < p + n :: pat[i] != '*'
    requires Matches(pat[p..], w)
    ensures n <= |w| && Matches(pat[p + n..], w[n..])
    decreases n
  {
    if n == 0 {
      assert w[0..] == w;
    } else {
      assert pat[p..][1..] == pat[p + 1..];
      Consume(pat, p + 1, n - 1, w[1..]);
      assert w[1..][n - 1..] == w[n..];
    }
  }

  /** The later star dominates: stretching an earlier star adds nothing. */
  lemma {:induction false} Dominates(pat: string, p: nat, n: nat, w: string)
    requires p + n < |pat| && pat[p + n] == '*'
    requires forall i | p <= i < p + n :: pat[i] != '*'
    requires Matches("*" + pat[p..], w)
    ensures n <= |w| && Matches(pat[p + n..], w[n..])
    decreases |w|
  {
    var q := "*" + pat[p..];
    assert q[1..] == pat[p..];
    if Matches(pat[p..], w) {
      Consume(pat, p, n, w);
    } else {
      Dominates(pat, p, n, w[1..]);
      assert w[1..][n..] == w[n..][1..];
    }
  }

  /** When the value ends exactly where the aligned stretch does, no further
      stretching of the star can help. */
  lemma {:induction false} ExactFit(pat: string, p: nat, n: nat, w: string)
    requires p + n <= |pat| && |w| <= n
    requires forall i | p <= i < p + n :: pat[i] != '*'
    requires Matches("*" + pat[p..], w)
    ensures |w| == n && Matches(pat[p + n..], [])
    decreases |w|
  {
    var q := "*" + pat[p..];
    assert q[1..] == pat[p..];
    if Matches(pat[p..], w) {
      Consume(pat, p, n, w);
    } else {
      ExactFit(pat, p, n, w[1..]);
    }
  }

  /** A loop state from which the pattern can still be satisfied. */
  ghost predicate Promising(pat: string, val: string, p: nat, v: nat, star: Star)
    requires p <= |pat| && v <= |val|
  {
    match star
    case NoStar => Matches(pat[p..], val[v..])
    case At(sp, sv) =>
      sp <= p && sv <= v && p - sp == v - sv && Aligned(pat, val, sp, sv, p - sp) &&
      Matches("*" + pat[sp..], val[sv..])
  }

  lemma PromisingEnd(pat: string, val: string, p: nat, star: Star)
    requires p <= |pat| && Promising(pat, val, p, |val|, star)
    ensures AllStars(pat[p..])
  {
    hide Matches;
    assert val[|val|..] == [];
    if star.At? { ExactFit(pat, star.p, p - star.p, val[star.v..]); }
    AllStarsMatchEmpty(pat[p..]);
  }

  lemma PromisingAdvance(pat: string, val: string, p: nat, v: nat, star: Star)
    requires p < |pat| && v < |val| && pat[p] != '*' && OneChar(pat[p], val[v])
    requires Promising(pat, val, p, v, star)
    ensures Promising(pat, val, p + 1, v + 1, star)
  {
    assert pat[p..][1..] == pat[p + 1..] && val[v..][1..] == val[v + 1..];
  }

  lemma PromisingStar(pat: string, val: string, p: nat, v: nat, star: Star)
    requires p < |pat| && v < |val| && pat[p] == '*'
    requires Promising(pat, val, p, v, star)
    ensures Promising(pat, val, p + 1, v, At(p + 1, v))
  {
    hide Matches;
    assert pat[p..] == "*" + pat[p + 1..];
    if star.At? {
      Dominates(pat, star.p, p - star.p, val[star.v..]);
      assert val[star.v..][p - star.p..] == val[v..];
    }
  }

  /** At a mismatch the last star can only be right one position further on. */
  lemma PromisingBacktrack(pat: string, val: string, p: nat, v: nat, star: Star)
    requires p <= |pat| && v < |val|
    requires p < |pat| ==> !OneChar(pat[p], val[v]) && pat[p] != '*'
    requires Promising(pat, val, p, v, star)
    ensures star.At? && star.p <= |pat| && Promising(pat, val, star.p, star.v + 1, At(star.p, star.v + 1))
  {
    assert !Matches(pat[p..], val[v..]);
    var sp, sv := star.p, star.v;
    StripAligned(pat, val, sp, sv, p - sp);
    var q := "*" + pat[sp..];
    assert q[1..] == pat[sp..] && val[sv..][1..] == val[sv + 1..];
  }

  lemma {:induction false} ScanComplete(pat: string, val: string, p: nat, v: nat, star: Star)
    requires p <= |pat| && v <= |val| && '*' !in val
    requires star.At? ==> star.p <= |pat| && star.v <= v
    requires Promising(pat, val, p, v, star)
    ensures Scan(pat, val, p, v, star)
    decreases |val| - Stretch(star), (|val| - v) + (|pat| - p)
  {
    hide Promising;
    if v == |val| {
      PromisingEnd(pat, val, p, star);
    } else if p < |pat| && OneChar(pat[p], val[v]) {
      PromisingAdvance(pat, val, p, v, star);
      ScanComplete(pat, val, p + 1, v + 1, star);
    } else if p < |pat| && pat[p] == '*' {
      PromisingStar(pat, val, p, v, star);
      ScanComplete(pat, val, p + 1, v, At(p + 1, v));
    } else {
      PromisingBacktrack(pat, val, p, v, star);
      ScanComplete(pat, val, star.p, star.v + 1, At(star.p, star.v + 1));
    }
  }

  /** Without a '*' byte in the value the matchers decide the pattern language. */
  lemma GlobExact(pat: string, val: string)
    requires '*' !in val
    ensures Glob(pat, val) == Matches(pat, val)
  {
    assert pat[0..] == pat && val[0..] == val;
    if Matches(pat, val) {
      ScanComplete(pat, val, 0, 0, NoStar);
    } else if Glob(pat, val) {
      GlobSound(pat, val);
    }
  }

  // ---- ... and only then ----

  /** A pattern the value satisfies but the matchers reject: its '*' meets the
      value's first '*' and is used up as a literal. */
  ghost function Witness(val: string, k: nat): string
    requires k < |val|
  {
    val[..k] + "*" + seq(|val| - k, _ => '?')
  }

  lemma {:induction false} LiteralsMatch(pat: string, val: string)
    requires |pat| == |val|
    requires forall i | 0 <= i < |pat| :: pat[i] != '*' && OneChar(pat[i], val[i])
    ensures Matches(pat, val)
  {
    if pat != [] { LiteralsMatch(pat[1..], val[1..]); }
  }

  lemma {:induction false} WitnessMatches(val: string, k: nat)
    requires k < |val| && '*' !in val[..k]
    ensures Matches(Witness(val, k), val)
  {
    var pat := Witness(val, k);
    assert forall i | 0 <= i < k :: pat[i] == val[i] == val[..k][i];
    StripAligned(pat, val, 0, 0, k);
    assert pat[0..] == pat && val[0..] == val;
    var marks := seq(|val| - k, _ => '?');
    assert pat[k..] == "*" + marks && pat[k..][1..] == marks;
    LiteralsMatch(marks, val[k..]);
  }

  lemma {:induction false} WitnessRejected(val: string, k: nat, i: nat)
    requires k < |val| && val[k] == '*' && i <= |val|
    ensures !Scan(Witness(val, k), val, i, i, NoStar)
    decreases |val| - i
  {
    var pat := Witness(val, k);
    assert |pat| == |val| + 1 && pat[|val|] == '?';
    if i == |val| {
      assert pat[i..][0] == '?';
    } else {
      assert OneChar(pat[i], val[i]);
      WitnessRejected(val, k, i + 1);
    }
  }

  ghost function FirstStar(val: string): (k: nat)
    requires '*' in val
    ensures k < |val| && val[k] == '*' && '*' !in val[..k]
  {
    if val[0] == '*' then 0 else
      assert val == [val[0]] + val[1..];
      var k := FirstStar(val[1..]);
      assert val[..k + 1][1..] == val[1..][..k];
      assert val[..k + 1] == [val[0]] + val[1..][..k];
      k + 1
  }

  /** The shortest disagreement: the star of the pattern is spent on the star of the
      value as if it were an ordinary character. */
  lemma StarValueFails()
    ensures Matches("*?", "*") && !Glob("*?", "*")
  {
    var val := "*";
    assert Witness(val, 0) == "*?";
    WitnessMatches(val, 0);
    WitnessRejected(val, 0, 0);
  }

  /** The matchers agree with the pattern language on every pattern exactly for
      the values without a '*' byte. */
  lemma GlobExactIff(val: string)
    ensures (forall pat :: Glob(pat, val) == Matches(pat, val)) <==> '*' !in val
  {
    if '*' in val {
      var k := FirstStar(val);
      WitnessMatches(val, k);
      WitnessRejected(val, k, 0);
      assert Glob(Witness(val, k), val) != Matches(Witness(val, k), val);
    } else {
      forall pat ensures Glob(pat, val) == Matches(pat, val) { GlobExact(pat, val); }
    }
  }

  // ---- AllowUsers ----

  predicate IsSeparator(ch: char) {
    ch == ' ' || ch == '\t' || ch == ','
  }

  /** Length of the longest prefix free of the characters in stop. */
  function SpanLen(s: string, stop: set<char>): (n: nat)
    ensures n <= |s|
    ensures forall i | 0 <= i < n :: s[i] !in stop
    ensures n < |s| ==> s[n] in stop
  {
    if s == [] || s[0] in stop then 0 else 1 + SpanLen(s[1..], stop)
  }

  const SEPARATORS: set<char> := {' ', '\t', ','}
  const COMMA: set<char> := {','}
  const AT_SIGN: set<char> := {'@'}

  /** The non-empty runs between separators, in order. */
  function Tokens(s: string): seq<string>
    decreases |s|
  {
    if s == [] then []
    else if s[0] in SEPARATORS then Tokens(s[1..])
    else var n := SpanLen(s, SEPARATORS); [s[..n]] + Tokens(s[n..])
  }

  /** The part of a token the server compares: everything before '@'. */
  function UserPart(token: string): string {
    token[..SpanLen(token, AT_SIGN)]
  }

  predicate Admits(token: string, username: string) {
    UserPart(token) != [] && Glob(UserPart(token), username)
  }

  predicate AnyAdmits(tokens: seq<string>, username: string) {
    tokens != [] && (Admits(tokens[0], username) || AnyAdmits(tokens[1..], username))
  }

  predicate Allowed(allowUsers: string, username: string) {
    allowUsers == [] || (username != [] && AnyAdmits(Tokens(allowUsers), username))
  }

  lemma SpanUnique(s: string, stop: set<char>, n: nat)
    requires n <= |s|
    requires forall i | 0 <= i < n :: s[i] !in stop
    requires n == |s| || s[n] in stop
    ensures SpanLen(s, stop) == n
  {
  }

  /** One token of the list, as the scan finds it. */
  lemma TokensStep(s: string, start: nat, end: nat)
    requires start < end <= |s|
    requires forall i | start <= i < end :: s[i] !in SEPARATORS
    requires end == |s| || s[end] in SEPARATORS
    ensures Tokens(s[start..]) == [s[start..end]] + Tokens(s[end..])
  {
    var rest := s[start..];
    SpanUnique(rest, SEPARATORS, end - start);
    assert rest[..end - start] == s[start..end] && rest[end - start..] == s[end..];
  }

  /** The next position of a non-separator. */
  method SkipSeparators(s: string, start: nat) returns (p: nat)
    requires start <= |s|
    ensures start <= p <= |s| && (p < |s| ==> s[p] !in SEPARATORS)
    ensures Tokens(s[start..]) == Tokens(s[p..])
  {
    p := start;
    while p < |s| && IsSeparator(s[p])
      invariant start <= p <= |s|
      invariant Tokens(s[start..]) == Tokens(s[p..])
    {
      assert s[p..][1..] == s[p + 1..];
      p := p + 1;
    }
  }

  method TokenEnd(s: string, start: nat) returns (p: nat)
    requires start < |s| && s[start] !in SEPARATORS
    ensures start < p <= |s|
    ensures Tokens(s[start..]) == [s[start..p]] + Tokens(s[p..])
  {
    p := start;
    while p < |s| && !IsSeparator(s[p])
      invariant start <= p <= |s|
      invariant forall i | start <= i < p :: s[i] !in SEPARATORS
    {
      p := p + 1;
    }
    TokensStep(s, start, p);
  }

  method UserPartOf(token: string) returns (user: string)
    ensures user == UserPart(token)
  {
    var at := 0;
    while at < |token| && token[at] != '@'
      invariant 0 <= at <= |token|
      invariant forall i | 0 <= i < at :: token[i] != '@'
    {
      at := at + 1;
    }
    SpanUnique(token, AT_SIGN, at);
    user := token[..at];
  }

  /** The scan over the AllowUsers list. */
  method UsernameAllowedByAllowUsers(allowUsers: string, username: string) returns (r: bool)
    ensures r == Allowed(allowUsers, username)
  {
    if |allowUsers| == 0 { return true; }
    if |username| == 0 { return false; }
    var p := 0;
    assert allowUsers[0..] == allowUsers;
    while p < |allowUsers|
      invariant 0 <= p <= |allowUsers|
      invariant AnyAdmits(Tokens(allowUsers), username) == AnyAdmits(Tokens(allowUsers[p..]), username)
    {
      p := SkipSeparators(allowUsers, p);
      if p == |allowUsers| { break; }
      var tokenStart := p;
      p := TokenEnd(allowUsers, p);
      var user := UserPartOf(allowUsers[tokenStart..p]);
      if |user| == 0 { continue; }
      var hit := UsernamePatternMatches(user, username);
      if hit { return true; }
    }
    return false;
  }

  /** Joining two lists with a separator joins their tokens. */
  lemma {:induction false} TokensJoin(a: string, sep: char, b: string)
    requires sep in SEPARATORS
    ensures Tokens(a + [sep] + b) == Tokens(a) + Tokens(b)
    decreases |a|
  {
    var s := a + [sep] + b;
    if a == [] {
      assert s[1..] == b;
    } else if a[0] in SEPARATORS {
      assert s[1..] == a[1..] + [sep] + b;
      TokensJoin(a[1..], sep, b);
    } else {
      var n := SpanLen(a, SEPARATORS);
      SpanUnique(s, SEPARATORS, n);
      assert s[..n] == a[..n] && s[n..] == a[n..] + [sep] + b;
      TokensJoin(a[n..], sep, b);
      assert [a[..n]] + (Tokens(a[n..]) + Tokens(b)) == ([a[..n]] + Tokens(a[n..])) + Tokens(b);
    }
  }

  /** An allow list admits exactly the union of what its parts admit, whatever
      separator joins them. */
  lemma AllowedJoin(a: string, sep: char, b: string, username: string)
    requires (sep == ' ' || sep == '\t' || sep == ',') && a != [] && b != []
    ensures Allowed(a + [sep] + b, username) == (Allowed(a, username) || Allowed(b, username))
  {
    TokensJoin(a, sep, b);
    AnyAdmitsJoin(Tokens(a), Tokens(b), username);
  }

  lemma {:induction false} AnyAdmitsJoin(a: seq<string>, b: seq<string>, username: string)
    ensures AnyAdmits(a + b, username) == (AnyAdmits(a, username) || AnyAdmits(b, username))
  {
    if a == [] {
      assert a + b == b;
    } else {
      assert (a + b)[1..] == a[1..] + b;
      AnyAdmitsJoin(a[1..], b, username);
    }
  }

  /** One entry admits the users its part in front of an '@' matches, and nobody when
      that part is empty. Lists longer than one entry follow from AllowedJoin. */
  lemma AllowedEntry(user: string, rest: string, username: string)
    requires forall i | 0 <= i < |user| :: user[i] !in {' ', '\t', ',', '@'}
    requires rest == [] || rest[0] == '@'
    requires forall i | 0 <= i < |rest| :: rest[i] !in {' ', '\t', ','}
    requires user + rest != []
    ensures Allowed(user + rest, username) <==> user != [] && username != [] && Glob(user, username)
  {
    hide Glob;
    var token := user + rest;
    SpanUnique(token, SEPARATORS, |token|);
    assert token[..|token|] == token && token[|token|..] == [];
    assert Tokens(token) == [token];
    SpanUnique(token, AT_SIGN, |user|);
    assert UserPart(token) == user;
    assert AnyAdmits([], username) == false && [token][1..] == [];
  }

  /** An empty list admits everybody. */
  lemma AllowedByDefault(username: string)
    ensures Allowed("", username)
  {
  }

  // ---- from="..." patterns of an authorized key ----

  /** The fields between commas; there is always at least one. */
  function Fields(s: string): (fs: seq<string>)
    ensures fs != []
    decreases |s|
  {
    var n := SpanLen(s, COMMA);
    if n == |s| then [s] else [s[..n]] + Fields(s[n + 1..])
  }

  predicate Positive(field: string, peer: string) {
    field != [] && field[0] != '!' && Glob(field, peer)
  }

  predicate Negative(field: string, peer: string) {
    1 < |field| && field[0] == '!' && Glob(field[1..], peer)
  }

  /** A peer is admitted when some field matches it and no negated one does. */
  predicate FromAdmits(patterns: string, peer: string) {
    peer != [] &&
    (exists f | f in Fields(patterns) :: Positive(f, peer)) &&
    (forall f | f in Fields(patterns) :: !Negative(f, peer))
  }

  /** The scan's left-to-right verdict: a negated match ends it at once. */
  predicate Verdict(fields: seq<string>, matched: bool, peer: string) {
    if fields == [] then matched
    else !Negative(fields[0], peer) && Verdict(fields[1..], matched || Positive(fields[0], peer), peer)
  }

  lemma {:induction false} VerdictMeaning(fields: seq<string>, matched: bool, peer: string)
    ensures Verdict(fields, matched, peer) <==>
            (matched || exists f | f in fields :: Positive(f, peer)) &&
            (forall f | f in fields :: !Negative(f, peer))
  {
    if fields != [] {
      VerdictMeaning(fields[1..], matched || Positive(fields[0], peer), peer);
      assert forall f :: f in fields <==> f == fields[0] || f in fields[1..];
    }
  }

  lemma FieldsStep(s: string, start: nat, end: nat)
    requires start <= end <= |s|
    requires forall i | start <= i < end :: s[i] != ','
    requires end == |s| || s[end] == ','
    ensures Fields(s[start..]) == [s[start..end]] + if end == |s| then [] else Fields(s[end + 1..])
  {
    hide SpanLen;
    var rest, n := s[start..], end - start;
    SpanUnique(rest, COMMA, n);
    SpanSplits(rest);
    assert rest[..n] == s[start..end];
    if end < |s| { assert rest[n + 1..] == s[end + 1..]; }
  }

  lemma SpanSplits(s: string)
    ensures var n := SpanLen(s, COMMA);
            Fields(s) == [s[..n]] + if n == |s| then [] else Fields(s[n + 1..])
  {
    hide SpanLen;
    if SpanLen(s, COMMA) == |s| { assert s[..|s|] == s && [s] + [] == [s]; }
  }

  lemma VerdictStep(s: string, start: nat, end: nat, matched: bool, peer: string)
    requires start <= end <= |s|
    requires forall i | start <= i < end :: s[i] != ','
    requires end == |s| || s[end] == ','
    ensures Verdict(Fields(s[start..]), matched, peer) ==
            (!Negative(s[start..end], peer) &&
             var m := matched || Positive(s[start..end], peer);
             if end == |s| then m else Verdict(Fields(s[end + 1..]), m, peer))
  {
    hide Fields, Negative, Positive;
    FieldsStep(s, start, end);
    var fs := Fields(s[start..]);
    assert fs[0] == s[start..end];
    assert fs[1..] == if end == |s| then [] else Fields(s[end + 1..]);
  }

  /** One field of the list: does it veto the peer, or match it? */
  method TestField(field: string, peer: string) returns (vetoed: bool, hit: bool)
    ensures vetoed == Negative(field, peer) && hit == Positive(field, peer)
  {
    vetoed, hit := false, false;
    var negated := |field| > 0 && field[0] == '!';
    var pattern := if negated then field[1..] else field;
    if |pattern| > 0 {
      var matches := FromPatternMatchesOne(pattern, peer);
      vetoed, hit := matches && negated, matches && !negated;
    }
  }

  method FromPatternsMatch(patterns: string, peer: string) returns (r: bool)
    ensures r == FromAdmits(patterns, peer)
  {
    if |peer| == 0 { return false; }
    r := ScanFields(patterns, peer);
    VerdictMeaning(Fields(patterns), false, peer);
  }

  method FieldEnd(s: string, start: nat) returns (p: nat)
    requires start <= |s|
    ensures start <= p <= |s| && (p < |s| ==> s[p] == ',')
    ensures forall i | start <= i < p :: s[i] != ','
  {
    p := start;
    while p < |s| && s[p] != ','
      invariant start <= p <= |s|
      invariant forall i | start <= i < p :: s[i] != ','
    {
      p := p + 1;
    }
  }

  method ScanFields(patterns: string, peer: string) returns (r: bool)
    ensures r == Verdict(Fields(patterns), false, peer)
  {
    hide Verdict, Fields, Negative, Positive;
    var start, matched := 0, false;
    assert patterns[0..] == patterns;
    while true
      invariant 0 <= start <= |patterns|
      invariant Verdict(Fields(patterns), false, peer) == Verdict(Fields(patterns[start..]), matched, peer)
      decreases |patterns| - start
    {
      var p := FieldEnd(patterns, start);
      VerdictStep(patterns, start, p, matched, peer);
      var vetoed, hit := TestField(patterns[start..p], peer);
      if vetoed { return false; }
      matched := matched || hit;
      if p == |patterns| { return matched; }
      start := p + 1;
    }
  }

  lemma {:induction false} FieldsJoin(a: string, b: string)
    ensures Fields(a + "," + b) == Fields(a) + Fields(b)
    decreases |a|
  {
    hide SpanLen;
    var s := a + "," + b;
    var n := SpanLen(a, COMMA);
    SpanUnique(s, COMMA, n);
    assert s[..n] == a[..n];
    if n == |a| {
      assert s[n + 1..] == b && a[..n] == a;
      assert Fields(a) == [a];
    } else {
      assert s[n + 1..] == a[n + 1..] + "," + b;
      FieldsJoin(a[n + 1..], b);
      assert [a[..n]] + (Fields(a[n + 1..]) + Fields(b)) == ([a[..n]] + Fields(a[n + 1..])) + Fields(b);
    }
  }

  /** A negated field vetoes a peer wherever it stands in the list. */
  lemma NegationVetoes(before: string, neg: string, after: string, peer: string)
    requires ',' !in neg && Negative(neg, peer)
    ensures !FromAdmits(before + "," + neg + "," + after, peer)
  {
    FieldsJoin(before + "," + neg, after);
    FieldsJoin(before, neg);
    SpanUnique(neg, COMMA, |neg|);
    assert Fields(neg) == [neg];
    assert neg in Fields(before + "," + neg + "," + after);
  }

  /** A pattern with a negated one behind it: the peer has to match the first and must
      not match the second; an empty address matches nothing. */
  lemma FromPair(pattern: string, negated: string, peer: string)
    requires pattern != [] && pattern[0] != '!' && ',' !in pattern && ',' !in negated
    ensures FromAdmits(pattern, peer) <==> peer != [] && Glob(pattern, peer)
    ensures FromAdmits(pattern + "," + ("!" + negated), peer) <==>
            peer != [] && Glob(pattern, peer) && (negated != [] ==> !Glob(negated, peer))
    ensures !FromAdmits("!" + negated, peer)
  {
    hide Glob;
    var n := "!" + negated;
    SpanUnique(pattern, COMMA, |pattern|);
    SpanUnique(n, COMMA, |n|);
    assert Fields(pattern) == [pattern] && Fields(n) == [n];
    FieldsJoin(pattern, n);
    assert Fields(pattern + "," + n) == [pattern, n];
    assert n[1..] == negated;
    assert pattern in [pattern] && pattern in [pattern, n] && n in [pattern, n];
  }
}
