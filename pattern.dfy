/** The restricted regular expressions of the script's dialect rewrite, and
    `re.sub` over them.

    A pattern is a chain of tokens: a literal character, a letter matched
    without regard to case (IGNORECASE), one whitespace character (`\s`) or a
    run of whitespace (`\s*`). When every run of whitespace is followed by a
    token that cannot match whitespace, a greedy run never has to give
    characters back, so matching without backtracking finds exactly the
    matches of the regular expression (`MatchIsRegexMatch`). */
module Patterns {
  import opened Text

  datatype Option<T> = None | Some(value: T)

  /** One token. `Letter` matches either case; `Space` is `\s` and `Spaces`
      is `\s*`. */
  datatype Token = Exact(c: char) | Letter(upper: char, lower: char) | Space | Spaces

  datatype Pattern = End | Then(head: Token, tail: Pattern)

  /** LATIN SMALL LETTER LONG S, which a case-insensitive `S` also matches. */
  const LongS: char := '\U{017F}'

  /** Which characters a token accepts: a letter matches its upper and its
      lower case, and `s` also matches the long s. */
  predicate Accepts(t: Token, c: char) {
    match t
    case Exact(e) => c == e
    case Letter(u, l) => c == u || c == l || (l == 's' && c == LongS)
    case Space => IsSpace(c)
    case Spaces => IsSpace(c)
  }

  /** A token that never accepts whitespace. */
  predicate Blocker(t: Token) {
    match t
    case Exact(e) => !IsSpace(e)
    case Letter(u, l) => !IsSpace(u) && !IsSpace(l)
    case Space => false
    case Spaces => false
  }

  lemma {:induction false} BlockerRejectsSpace(t: Token, c: char)
    requires Blocker(t) && IsSpace(c)
    ensures !Accepts(t, c)
  {
  }

  /** Every run of whitespace is followed by a token that cannot match whitespace. */
  predicate Deterministic(pat: Pattern) {
    match pat
    case End => true
    case Then(t, rest) => (t.Spaces? ==> rest.Then? && Blocker(rest.head)) && Deterministic(rest)
  }

  /** No token of the pattern accepts `c`. */
  predicate Rejects(pat: Pattern, c: char) {
    match pat
    case End => true
    case Then(t, rest) => !Accepts(t, c) && Rejects(rest, c)
  }

  /** The pattern starts with a literal character, so every match does too. */
  predicate Anchored(pat: Pattern) {
    pat.Then? && pat.head.Exact?
  }

  /** Text that matches `pat` as a whole, with every possible split of the
      whitespace runs: the meaning of the pattern as a regular expression. */
  ghost predicate Matches(w: string, pat: Pattern) {
    match pat
    case End => w == []
    case Then(t, rest) =>
      if t.Spaces? then
        exists k :: 0 <= k <= |w| && AllSpace(w[..k]) && Matches(w[k..], rest)
      else
        w != [] && Accepts(t, w[0]) && Matches(w[1..], rest)
  }

  /** The length of the match of `pat` at the start of `s`, taking every run of
      whitespace greedily and never backtracking. */
  function MatchLength(s: string, pat: Pattern): (r: Option<nat>)
    ensures r.Some? ==> r.value <= |s|
  {
    match pat
    case End => Some(0)
    case Then(t, rest) =>
      if t.Spaces? then
        var after := TrimStart(s, Whitespace);
        match MatchLength(after, rest)
        case None => None
        case Some(m) => Some(|s| - |after| + m)
      else if s != [] && Accepts(t, s[0]) then
        match MatchLength(s[1..], rest)
        case None => None
        case Some(m) => Some(m + 1)
      else None
  }

  /** An upper-case ASCII word, as the script writes its keywords. */
  predicate Keyword(w: string) {
    forall i :: 0 <= i < |w| ==> 'A' <= w[i] <= 'Z'
  }

  /** The lower case of an upper-case ASCII letter. */
  function Lower(c: char): (r: char)
    requires 'A' <= c <= 'Z'
    ensures 'a' <= r <= 'z'
  {
    (c as int + 32) as char
  }

  /** A keyword matched letter by letter without regard to case, then `rest`. */
  function Word(w: string, rest: Pattern): (r: Pattern)
    requires Keyword(w)
    ensures w != [] ==> r.Then? && r.head == Letter(w[0], Lower(w[0]))
    ensures w == [] ==> r == rest
    decreases |w|
  {
    if w == [] then rest else Then(Letter(w[0], Lower(w[0])), Word(w[1..], rest))
  }

  /** A keyword never has to stop a run of whitespace, and adds none of its own. */
  lemma {:induction false} WordDeterministic(w: string, rest: Pattern)
    requires Keyword(w) && Deterministic(rest)
    ensures Deterministic(Word(w, rest))
    ensures w != [] ==> Blocker(Word(w, rest).head)
    decreases |w|
  {
    if w != [] {
      WordDeterministic(w[1..], rest);
    }
  }

  /** `c` is none of the keyword's letters in either case, nor the long s. */
  predicate Unspelled(w: string, c: char) {
    Keyword(w) && c != LongS && forall i :: 0 <= i < |w| ==> c != w[i] && c != Lower(w[i])
  }

  /** A character that spells no letter of the keyword is accepted by none of its tokens. */
  lemma {:induction false} WordRejects(w: string, rest: Pattern, c: char)
    requires Unspelled(w, c) && Rejects(rest, c)
    ensures Rejects(Word(w, rest), c)
    decreases |w|
  {
    if w != [] {
      assert c != w[0] && c != Lower(w[0]);
      assert forall i :: 0 <= i < |w[1..]| ==> w[1..][i] == w[i + 1];
      WordRejects(w[1..], rest, c);
    }
  }

  /** `s` spells the keyword `w` in any mix of upper and lower case. */
  predicate Spells(s: string, w: string) {
    Keyword(w) && |s| == |w| && forall i :: 0 <= i < |w| ==> s[i] == w[i] || s[i] == Lower(w[i])
  }

  lemma {:induction false} FrontSplit(s: string, after: string)
    requires s != []
    ensures s + after == [s[0]] + (s[1..] + after)
  {
  }

  /** A spelling of the keyword, in front of text that matches `rest`. */
  lemma {:induction false} WordFront(w: string, s: string, after: string, rest: Pattern)
    requires Spells(s, w)
    requires MatchLength(after, rest) == Some(|after|)
    ensures MatchLength(s + after, Word(w, rest)) == Some(|s + after|)
    decreases |w|
  {
    if w == [] {
      assert s + after == after;
    } else {
      assert Spells(s[1..], w[1..]);
      WordFront(w[1..], s[1..], after, rest);
      FrontSplit(s, after);
      TokenFront(s[0], s[1..] + after, Word(w, rest), |s[1..] + after|);
    }
  }

  /** A match of an anchored pattern is never empty and starts with the anchor. */
  lemma {:induction false} AnchoredMatch(s: string, pat: Pattern)
    requires Anchored(pat)
    ensures MatchLength(s, pat).Some? ==> 1 <= MatchLength(s, pat).value && s[0] == pat.head.c
  {
  }

  /** For a deterministic pattern, the greedy matcher finds a match of length
      `n` exactly when the first `n` characters match the regular expression;
      in particular there is at most one such `n`. */
  lemma {:induction false} MatchIsRegexMatch(s: string, pat: Pattern, n: nat)
    requires Deterministic(pat)
    ensures MatchLength(s, pat) == Some(n) <==> n <= |s| && Matches(s[..n], pat)
    decreases pat, 2
  {
    match pat
    case End =>
    case Then(t, rest) =>
      if t.Spaces? {
        RunMatchIsRegexMatch(s, pat, n);
      } else if s != [] && Accepts(t, s[0]) && 1 <= n <= |s| {
        MatchIsRegexMatch(s[1..], rest, n - 1);
        assert s[..n][1..] == s[1..][..n - 1];
      }
  }

  /** The case of `MatchIsRegexMatch` where the pattern starts with a run of
      whitespace: the greedy run is the only split that can succeed. */
  lemma {:induction false} RunMatchIsRegexMatch(s: string, pat: Pattern, n: nat)
    requires Deterministic(pat) && pat.Then? && pat.head.Spaces?
    ensures MatchLength(s, pat) == Some(n) <==> n <= |s| && Matches(s[..n], pat)
    decreases pat, 1
  {
    if MatchLength(s, pat) == Some(n) {
      GreedyRunMatches(s, pat, n);
    }
    if n <= |s| && Matches(s[..n], pat) {
      MatchingRunIsGreedy(s, pat, n);
    }
  }

  lemma {:induction false} GreedyRunMatches(s: string, pat: Pattern, n: nat)
    requires Deterministic(pat) && pat.Then? && pat.head.Spaces?
    requires MatchLength(s, pat) == Some(n)
    ensures n <= |s| && Matches(s[..n], pat)
    decreases pat, 0
  {
    var after := TrimStart(s, Whitespace);
    var k0 := |s| - |after|;
    var m := n - k0;
    MatchIsRegexMatch(after, pat.tail, m);
    var w := s[..n];
    TrimStartDropsStripped(s, Whitespace);
    assert w[..k0] == s[..k0];
    assert w[k0..] == after[..m];
    assert AllSpace(w[..k0]);
  }

  lemma {:induction false} MatchingRunIsGreedy(s: string, pat: Pattern, n: nat)
    requires Deterministic(pat) && pat.Then? && pat.head.Spaces?
    requires n <= |s| && Matches(s[..n], pat)
    ensures MatchLength(s, pat) == Some(n)
    decreases pat, 0
  {
    var rest := pat.tail;
    var w := s[..n];
    var k :| 0 <= k <= |w| && AllSpace(w[..k]) && Matches(w[k..], rest);
    Slices(s, n, k);
    MatchesStartWithBlocker(w[k..], rest);
    SpacesBeforeBlocker(s, k, rest.head);
    MatchIsRegexMatch(s[k..], rest, n - k);
    RunStep(s, pat, n - k);
  }

  lemma {:induction false} MatchesStartWithBlocker(w: string, pat: Pattern)
    requires pat.Then? && Blocker(pat.head) && Matches(w, pat)
    ensures w != [] && Accepts(pat.head, w[0])
  {
  }

  lemma {:induction false} Slices(s: string, n: nat, k: nat)
    requires k <= n <= |s|
    ensures s[..n][..k] == s[..k]
    ensures s[..n][k..] == s[k..][..n - k]
    ensures k < n ==> s[..n][k..][0] == s[k]
  {
  }

  /** A run of whitespace at the head of the pattern takes the leading
      whitespace of the text, and the rest of the pattern matches after it. */
  lemma {:induction false} RunStep(s: string, pat: Pattern, m: nat)
    requires pat.Then? && pat.head.Spaces?
    requires MatchLength(TrimStart(s, Whitespace), pat.tail) == Some(m)
    ensures MatchLength(s, pat) == Some(|s| - |TrimStart(s, Whitespace)| + m)
  {
  }

  /** A single-character token that accepts `c`, in front of text that
      matches the rest of the pattern. */
  lemma {:induction false} TokenFront(c: char, rest: string, pat: Pattern, m: nat)
    requires pat.Then? && !pat.head.Spaces? && Accepts(pat.head, c)
    requires MatchLength(rest, pat.tail) == Some(m)
    ensures MatchLength([c] + rest, pat) == Some(m + 1)
  {
    assert ([c] + rest)[1..] == rest;
  }

  /** A run of whitespace, in front of text that does not start with whitespace
      and matches the rest of the pattern. */
  lemma {:induction false} RunFront(ws: string, rest: string, pat: Pattern, m: nat)
    requires pat.Then? && pat.head.Spaces? && AllSpace(ws)
    requires rest == [] || !IsSpace(rest[0])
    requires MatchLength(rest, pat.tail) == Some(m)
    ensures MatchLength(ws + rest, pat) == Some(|ws| + m)
  {
    assert TrimStart(ws + rest, Whitespace) == rest by {
      assert forall i :: 0 <= i < |ws| ==> Strips(Whitespace, ws[i]);
      assert rest == [] || !Strips(Whitespace, rest[0]);
      TrimStartExactly(ws, rest, Whitespace);
    }
    RunStep(ws + rest, pat, m);
  }

  /** A character the first token accepts, a run of whitespace for the `\s*`
      that follows it, and text that matches the rest in full match the whole
      pattern in full. */
  lemma {:induction false} CharThenRun(c: char, ws: string, v: string, pat: Pattern)
    requires pat.Then? && !pat.head.Spaces? && Accepts(pat.head, c)
    requires pat.tail.Then? && pat.tail.head.Spaces?
    requires AllSpace(ws) && v != [] && !IsSpace(v[0])
    requires MatchLength(v, pat.tail.tail) == Some(|v|)
    ensures MatchLength([c] + (ws + v), pat) == Some(|[c] + (ws + v)|)
  {
    RunFront(ws, v, pat.tail, |v|);
    TokenFront(c, ws + v, pat, |ws| + |v|);
  }

  /** A run of whitespace ended by a character that a blocker accepts is
      exactly the run the greedy matcher takes. */
  lemma {:induction false} SpacesBeforeBlocker(s: string, k: nat, b: Token)
    requires k < |s| && AllSpace(s[..k]) && Blocker(b) && Accepts(b, s[k])
    ensures TrimStart(s, Whitespace) == s[k..]
  {
    assert !IsSpace(s[k]) by {
      if IsSpace(s[k]) {
        BlockerRejectsSpace(b, s[k]);
      }
    }
    assert s == s[..k] + s[k..];
    assert forall i :: 0 <= i < k ==> Strips(Whitespace, s[..k][i]);
    TrimStartExactly(s[..k], s[k..], Whitespace);
  }

  /** What follows the matched characters plays no part: any text that starts
      with the same `n` characters has the same match. */
  lemma {:induction false} MatchDependsOnMatchedText(s: string, t: string, pat: Pattern, n: nat)
    requires Deterministic(pat)
    requires MatchLength(s, pat) == Some(n)
    requires n <= |t| && t[..n] == s[..n]
    ensures MatchLength(t, pat) == Some(n)
  {
    MatchIsRegexMatch(s, pat, n);
    MatchIsRegexMatch(t, pat, n);
  }

  /** A text matched in full matches again at the start of any text it begins. */
  lemma {:induction false} FullMatchInPrefix(s: string, t: string, pat: Pattern)
    requires Deterministic(pat)
    requires MatchLength(s, pat) == Some(|s|) && s <= t
    ensures MatchLength(t, pat) == Some(|s|)
  {
    assert s[..|s|] == s;
    MatchDependsOnMatchedText(s, t, pat, |s|);
  }

  /** A character that no token accepts never appears in a match. */
  lemma {:induction false} MatchAvoids(s: string, pat: Pattern, c: char)
    requires Rejects(pat, c)
    requires MatchLength(s, pat).Some?
    ensures c !in s[..MatchLength(s, pat).value]
    decreases pat, 1
  {
    match pat
    case End =>
    case Then(t, rest) =>
      if t.Spaces? {
        RunAvoids(s, t, rest, c);
      } else {
        MatchAvoids(s[1..], rest, c);
        var m := MatchLength(s[1..], rest).value;
        assert s[..m + 1] == [s[0]] + s[1..][..m];
      }
  }

  /** The run of whitespace a match starts with holds no rejected character,
      and neither does the rest of the match. */
  lemma {:induction false} RunAvoids(s: string, t: Token, rest: Pattern, c: char)
    requires t.Spaces? && Rejects(Then(t, rest), c)
    requires MatchLength(s, Then(t, rest)).Some?
    ensures c !in s[..MatchLength(s, Then(t, rest)).value]
    decreases Then(t, rest), 0
  {
    var after := TrimStart(s, Whitespace);
    var k0 := |s| - |after|;
    TrimStartDropsStripped(s, Whitespace);
    MatchAvoids(after, rest, c);
    var m := MatchLength(after, rest).value;
    assert s[..k0 + m] == s[..k0] + after[..m];
  }

  /** `re.sub(pat, rep, s)`: scan left to right; where a match starts, write
      `rep` and go on after the match, otherwise copy one character. Text
      without the anchor character holds no match and comes back unchanged. */
  function Substitute(s: string, pat: Pattern, rep: string): (r: string)
    requires Anchored(pat)
    ensures pat.head.c !in s ==> r == s
    decreases |s|
  {
    if s == [] then []
    else match MatchLength(s, pat)
      case Some(n) =>
        AnchoredMatch(s, pat);
        rep + Substitute(s[n..], pat, rep)
      case None => [s[0]] + Substitute(s[1..], pat, rep)
  }

  /** Text before the first anchor character is copied. */
  lemma {:induction false} SubstituteSkips(x: string, y: string, pat: Pattern, rep: string)
    requires Anchored(pat) && pat.head.c !in x
    ensures Substitute(x + y, pat, rep) == x + Substitute(y, pat, rep)
    decreases |x|
  {
    if x != [] {
      assert (x + y)[0] == x[0];
      AnchoredMatch(x + y, pat);
      assert (x + y)[1..] == x[1..] + y;
      SubstituteSkips(x[1..], y, pat, rep);
      assert [x[0]] + (x[1..] + Substitute(y, pat, rep)) == x + Substitute(y, pat, rep);
    } else {
      assert x + y == y;
    }
  }

  /** Text at none of whose positions a match starts is copied, whatever
      characters it holds. */
  lemma {:induction false} SubstituteCopiesUnmatched(x: string, y: string, pat: Pattern, rep: string)
    requires Anchored(pat)
    requires forall i :: 0 <= i < |x| ==> MatchLength((x + y)[i..], pat).None?
    ensures Substitute(x + y, pat, rep) == x + Substitute(y, pat, rep)
    decreases |x|
  {
    if x != [] {
      assert (x + y)[0..] == x + y;
      ConsSplit(x, y);
      SubstituteUnmatchedStep(x + y, pat, rep);
      forall i | 0 <= i < |x[1..]|
        ensures MatchLength((x[1..] + y)[i..], pat).None?
      {
        assert (x[1..] + y)[i..] == (x + y)[i + 1..];
      }
      SubstituteCopiesUnmatched(x[1..], y, pat, rep);
      ConsJoin(x, Substitute(y, pat, rep));
    } else {
      assert x + y == y;
    }
  }

  /** Where no match starts, the scan copies one character. */
  lemma {:induction false} SubstituteUnmatchedStep(s: string, pat: Pattern, rep: string)
    requires Anchored(pat) && s != [] && MatchLength(s, pat).None?
    ensures Substitute(s, pat, rep) == [s[0]] + Substitute(s[1..], pat, rep)
  {
  }

  lemma ConsSplit(x: string, y: string)
    requires x != []
    ensures (x + y)[0] == x[0] && (x + y)[1..] == x[1..] + y
  {
  }

  lemma ConsJoin(x: string, z: string)
    requires x != []
    ensures [x[0]] + (x[1..] + z) == x + z
  {
    assert x == [x[0]] + x[1..];
  }

  /** A match at the start is replaced, and the scan goes on after it. */
  lemma {:induction false} SubstituteAtMatch(m: string, y: string, pat: Pattern, rep: string)
    requires Anchored(pat) && Deterministic(pat)
    requires MatchLength(m, pat) == Some(|m|)
    ensures Substitute(m + y, pat, rep) == rep + Substitute(y, pat, rep)
  {
    assert (m + y)[..|m|] == m == m[..|m|];
    MatchDependsOnMatchedText(m, m + y, pat, |m|);
    assert (m + y)[|m|..] == y;
  }

  /** Text with no match anywhere comes back unchanged. */
  lemma {:induction false} NoMatchUnchanged(s: string, pat: Pattern, rep: string)
    requires Anchored(pat)
    requires forall i :: 0 <= i <= |s| ==> MatchLength(s[i..], pat).None?
    ensures Substitute(s, pat, rep) == s
    decreases |s|
  {
    if s != [] {
      assert s[0..] == s;
      assert forall i :: 0 <= i <= |s[1..]| ==> s[1..][i..] == s[i + 1..];
      NoMatchUnchanged(s[1..], pat, rep);
    }
  }

  /** Output text that does not hold the first character of the replacement is
      copied from the input: no replacement starts inside it. */
  lemma {:induction false} CopiedPrefix(s: string, pat: Pattern, rep: string, k: nat)
    requires Anchored(pat) && rep != []
    requires k <= |Substitute(s, pat, rep)| && rep[0] !in Substitute(s, pat, rep)[..k]
    ensures k <= |s| && Substitute(s, pat, rep)[..k] == s[..k]
    decreases |s|
  {
    if k > 0 {
      var r := Substitute(s, pat, rep);
      assert r[..k][0] == r[0];
      assert MatchLength(s, pat).None?;
      var tail := Substitute(s[1..], pat, rep);
      assert r[..k][1..] == tail[..k - 1];
      CopiedPrefix(s[1..], pat, rep, k - 1);
      assert r[..k] == [s[0]] + tail[..k - 1];
      assert s[..k] == [s[0]] + s[1..][..k - 1];
    }
  }

  /** A match that would start at a copied character was already a match of the
      input at that position, provided no match can take in the replacement's
      first character. */
  lemma {:induction false} CopiedMatch(s: string, pat: Pattern, rep: string)
    requires Anchored(pat) && Deterministic(pat)
    requires rep != [] && Rejects(pat, rep[0])
    requires s != []
    ensures MatchLength([s[0]] + Substitute(s[1..], pat, rep), pat).Some? ==> MatchLength(s, pat).Some?
  {
    var out := [s[0]] + Substitute(s[1..], pat, rep);
    if MatchLength(out, pat).Some? {
      var m := MatchLength(out, pat).value;
      assert out[..m] == s[..m] by {
        MatchAvoids(out, pat, rep[0]);
        CopiedHead(s, pat, rep, m);
      }
      MatchDependsOnMatchedText(out, s, pat, m);
    }
  }

  /** The first `m` output characters after a copied first character, when
      they do not hold the replacement's first character, are the input's. */
  lemma {:induction false} CopiedHead(s: string, pat: Pattern, rep: string, m: nat)
    requires Anchored(pat) && rep != [] && s != []
    requires 1 <= m <= 1 + |Substitute(s[1..], pat, rep)|
    requires rep[0] !in ([s[0]] + Substitute(s[1..], pat, rep))[..m]
    ensures m <= |s| && ([s[0]] + Substitute(s[1..], pat, rep))[..m] == s[..m]
  {
    var tail := Substitute(s[1..], pat, rep);
    var out := [s[0]] + tail;
    assert out[..m] == [s[0]] + tail[..m - 1];
    assert tail[..m - 1] == out[..m][1..];
    CopiedPrefix(s[1..], pat, rep, m - 1);
    assert s[..m] == [s[0]] + s[1..][..m - 1];
  }

  /** A replacement that cannot take part in a match: it holds no anchor
      character, and no match can take in its first character. */
  predicate Inert(pat: Pattern, rep: string)
    requires Anchored(pat)
  {
    rep != [] && pat.head.c !in rep && Rejects(pat, rep[0])
  }

  /** With an inert replacement, no match is left anywhere in the output: a
      match in the output would have been a match in the input. */
  lemma {:induction false} NoMatchLeft(s: string, pat: Pattern, rep: string)
    requires Anchored(pat) && Deterministic(pat) && Inert(pat, rep)
    ensures forall i :: 0 <= i <= |Substitute(s, pat, rep)| ==>
              MatchLength(Substitute(s, pat, rep)[i..], pat).None?
    decreases |s|
  {
    var r := Substitute(s, pat, rep);
    if s != [] {
      match MatchLength(s, pat)
      case Some(n) =>
        NoMatchLeft(s[n..], pat, rep);
        var tail := Substitute(s[n..], pat, rep);
        assert r == rep + tail;
        forall i | 0 <= i <= |r|
          ensures MatchLength(r[i..], pat).None?
        {
          if i < |rep| {
            assert r[i..][0] == rep[i] != pat.head.c;
          } else {
            assert r[i..] == tail[i - |rep|..];
          }
        }
      case None =>
        NoMatchLeft(s[1..], pat, rep);
        var tail := Substitute(s[1..], pat, rep);
        assert r == [s[0]] + tail;
        CopiedMatch(s, pat, rep);
        forall i | 1 <= i <= |r|
          ensures MatchLength(r[i..], pat).None?
        {
          assert r[i..] == tail[i - 1..];
        }
        assert r[0..] == r;
    }
  }

  /** With an inert replacement the substitution is idempotent. */
  lemma {:induction false} SubstituteIdempotent(s: string, pat: Pattern, rep: string)
    requires Anchored(pat) && Deterministic(pat) && Inert(pat, rep)
    ensures Substitute(Substitute(s, pat, rep), pat, rep) == Substitute(s, pat, rep)
  {
    NoMatchLeft(s, pat, rep);
    NoMatchUnchanged(Substitute(s, pat, rep), pat, rep);
  }

  /** A literal replace-all whose replacement is inert for the pattern creates
      no match: text in which the pattern matches nowhere still has no match
      after every occurrence of `find` becomes `rep`. */
  lemma {:induction false} ReplaceLeavesNoMatch(s: string, find: string, rep: string, pat: Pattern)
    requires Anchored(pat) && Deterministic(pat) && Inert(pat, rep) && find != []
    requires forall i :: 0 <= i <= |s| ==> MatchLength(s[i..], pat).None?
    ensures forall i :: 0 <= i <= |ReplaceAll(s, find, rep)| ==>
              MatchLength(ReplaceAll(s, find, rep)[i..], pat).None?
    decreases |s|
  {
    var r := ReplaceAll(s, find, rep);
    if s == [] {
      assert r[0..] == s[0..];
    } else if find <= s {
      var rest := s[|find|..];
      forall i | 0 <= i <= |rest|
        ensures MatchLength(rest[i..], pat).None?
      {
        assert rest[i..] == s[|find| + i..];
      }
      ReplaceLeavesNoMatch(rest, find, rep, pat);
      var tail := ReplaceAll(rest, find, rep);
      assert r == rep + tail;
      forall i | 0 <= i <= |r|
        ensures MatchLength(r[i..], pat).None?
      {
        if i < |rep| {
          assert r[i..][0] == rep[i] != pat.head.c;
        } else {
          assert r[i..] == tail[i - |rep|..];
        }
      }
    } else {
      forall i | 0 <= i <= |s[1..]|
        ensures MatchLength(s[1..][i..], pat).None?
      {
        assert s[1..][i..] == s[i + 1..];
      }
      ReplaceLeavesNoMatch(s[1..], find, rep, pat);
      var tail := ReplaceAll(s[1..], find, rep);
      assert r == [s[0]] + tail;
      forall i | 1 <= i <= |r|
        ensures MatchLength(r[i..], pat).None?
      {
        assert r[i..] == tail[i - 1..];
      }
      assert s[0..] == s;
      if MatchLength(r, pat).Some? {
        var m := MatchLength(r, pat).value;
        MatchAvoids(r, pat, rep[0]);
        ReplaceCopiesPrefix(s, find, rep, m);
        MatchDependsOnMatchedText(r, s, pat, m);
        assert false;
      }
      assert r[0..] == r;
    }
  }
}
