/** The SQL dialect rewrites. The script applies them to every file after the
    bare-string and `{ sql, args }` call shapes and before the `{ sql }` shape:
    the case-insensitive substitution of `= ? COLLATE NOCASE` (with any
    whitespace) by `ILIKE ?`, then two literal replace-alls that turn the
    `json_extract(power, '$[0]')` comparison into `power->>0 ILIKE ?`. */
module Dialect {
  import opened Text
  import opened Patterns

  /** `=\s*\?\s*FIRST\s+SECOND` under IGNORECASE, for two keywords; `\s+` is
      one `\s` followed by `\s*`. */
  function Comparison(first: string, second: string): (pat: Pattern)
    requires Keyword(first) && Keyword(second)
    ensures Anchored(pat) && pat.head.c == '='
  {
    Then(Exact('='), Then(Spaces, Then(Exact('?'), Then(Spaces,
      Word(first, Then(Space, Then(Spaces, Word(second, End))))))))
  }

  /** The pattern of line 51: `=\s*\?\s*COLLATE\s+NOCASE`. */
  const CollateNocase: Pattern := Comparison("COLLATE", "NOCASE")

  /** The replacement text of line 51. */
  const Ilike := "ILIKE ?"

  /** Every run of whitespace in the pattern is followed by a letter or by `?`. */
  lemma {:induction false} ComparisonIsDeterministic(first: string, second: string)
    requires Keyword(first) && Keyword(second) && first != [] && second != []
    ensures Deterministic(Comparison(first, second))
  {
    var p2 := Word(second, End);
    WordDeterministic(second, End);
    var q := Then(Space, Then(Spaces, p2));
    assert Deterministic(Then(Spaces, p2));
    assert Deterministic(q);
    var p1 := Word(first, q);
    WordDeterministic(first, q);
    assert Deterministic(Then(Spaces, p1));
    assert !IsSpace('?');
    assert Deterministic(Then(Exact('?'), Then(Spaces, p1)));
    assert Deterministic(Then(Spaces, Then(Exact('?'), Then(Spaces, p1))));
    assert Comparison(first, second) == Then(Exact('='), Then(Spaces, Then(Exact('?'), Then(Spaces, p1))));
  }

  /** No token of the pattern accepts a character other than `=`, `?` and
      whitespace that spells no letter of either keyword. */
  lemma {:induction false} ComparisonRejects(first: string, second: string, c: char)
    requires Unspelled(first, c) && Unspelled(second, c)
    requires c != '=' && c != '?' && !IsSpace(c)
    ensures Rejects(Comparison(first, second), c)
  {
    var p2 := Word(second, End);
    WordRejects(second, End, c);
    var q := Then(Space, Then(Spaces, p2));
    assert Rejects(Then(Spaces, p2), c);
    assert Rejects(q, c);
    var p1 := Word(first, q);
    WordRejects(first, q, c);
    assert Rejects(Then(Spaces, p1), c);
    assert Rejects(Then(Exact('?'), Then(Spaces, p1)), c);
    assert Rejects(Then(Spaces, Then(Exact('?'), Then(Spaces, p1))), c);
    assert Comparison(first, second) == Then(Exact('='), Then(Spaces, Then(Exact('?'), Then(Spaces, p1))));
  }

  /** The two keywords, spelled in any case and separated by at least one
      whitespace character, match the end of the pattern in full. */
  lemma {:induction false} KeywordsMatch(first: string, second: string,
      w1: string, sp: char, ws3: string, w2: string)
    requires Keyword(first) && Keyword(second) && second != []
    requires IsSpace(sp) && AllSpace(ws3)
    requires Spells(w1, first) && Spells(w2, second)
    ensures var u := w1 + ([sp] + (ws3 + w2));
            MatchLength(u, Word(first, Then(Space, Then(Spaces, Word(second, End))))) == Some(|u|)
  {
    var p2 := Word(second, End);
    var t := [sp] + (ws3 + w2);
    assert MatchLength(t, Then(Space, Then(Spaces, p2))) == Some(|t|) by {
      assert MatchLength(w2, p2) == Some(|w2|) by {
        WordFront(second, w2, [], End);
        assert w2 + [] == w2;
      }
      assert w2[0] == second[0] || w2[0] == Lower(second[0]);
      CharThenRun(sp, ws3, w2, Then(Space, Then(Spaces, p2)));
    }
    WordFront(first, w1, t, Then(Space, Then(Spaces, p2)));
  }

  /** Every comparison the pattern describes matches in full: `=`, any
      whitespace, `?`, any whitespace, the first keyword in any case, at least
      one whitespace character, the second keyword in any case. */
  lemma {:induction false} ComparisonMatches(first: string, second: string,
      ws1: string, ws2: string, w1: string, sp: char, ws3: string, w2: string)
    requires Keyword(first) && Keyword(second) && first != [] && second != []
    requires AllSpace(ws1) && AllSpace(ws2) && IsSpace(sp) && AllSpace(ws3)
    requires Spells(w1, first) && Spells(w2, second)
    ensures var s := ['='] + (ws1 + (['?'] + (ws2 + (w1 + ([sp] + (ws3 + w2))))));
            MatchLength(s, Comparison(first, second)) == Some(|s|)
  {
    var p1 := Word(first, Then(Space, Then(Spaces, Word(second, End))));
    var u := w1 + ([sp] + (ws3 + w2));
    KeywordsMatch(first, second, w1, sp, ws3, w2);
    assert u[0] == w1[0];
    assert u[0] == first[0] || u[0] == Lower(first[0]);
    CharThenRun('?', ws2, u, Then(Exact('?'), Then(Spaces, p1)));
    CharThenRun('=', ws1, ['?'] + (ws2 + u), Comparison(first, second));
  }

  lemma {:induction false} Keywords()
    ensures Keyword("COLLATE") && Keyword("NOCASE")
  {
  }

  /** The pattern starts with `=`, never has to backtrack, and cannot take in
      any part of `ILIKE ?`. */
  lemma {:induction false} CollatePatternFacts()
    ensures Anchored(CollateNocase) && CollateNocase.head.c == '='
    ensures Deterministic(CollateNocase)
    ensures Inert(CollateNocase, Ilike)
  {
    Keywords();
    ComparisonIsDeterministic("COLLATE", "NOCASE");
    KeywordsUnspelled('I');
    ComparisonRejects("COLLATE", "NOCASE", 'I');
  }

  /** `I` and `p` spell no letter of `COLLATE` or `NOCASE`. */
  lemma {:induction false} KeywordsUnspelled(c: char)
    requires c == 'I' || c == 'p'
    ensures Unspelled("COLLATE", c) && Unspelled("NOCASE", c)
  {
  }

  /** Line 51: `re.sub` of the COLLATE NOCASE pattern by `ILIKE ?`. Text
      without `=` comes back unchanged. */
  function CollateToIlike(s: string): (r: string)
    ensures '=' !in s ==> r == s
  {
    CollatePatternFacts();
    Substitute(s, CollateNocase, Ilike)
  }

  /** After line 51 no match of its pattern is left anywhere. */
  lemma {:induction false} NoCollateLeft(s: string)
    ensures forall i :: 0 <= i <= |CollateToIlike(s)| ==>
              MatchLength(CollateToIlike(s)[i..], CollateNocase).None?
  {
    CollatePatternFacts();
    NoMatchLeft(s, CollateNocase, Ilike);
  }

  /** Line 51 is idempotent: running it again changes nothing. */
  lemma {:induction false} CollateIdempotent(s: string)
    ensures CollateToIlike(CollateToIlike(s)) == CollateToIlike(s)
  {
    CollatePatternFacts();
    SubstituteIdempotent(s, CollateNocase, Ilike);
  }

  /** The column both `json_extract` texts start with, up to the comparison. */
  const JsonPath := "json_extract(power, '$[0]') "

  /** The comparison as the queries write it. */
  const CollateText := "= ? COLLATE NOCASE"

  /** The search text of line 54: `json_extract(power, '$[0]') = ? COLLATE NOCASE`. */
  const JsonCollate := JsonPath + CollateText

  /** The replacement text of lines 54 and 58. */
  const Arrow := "power->>0 ILIKE ?"

  /** The search text of line 58: `json_extract(power, '$[0]') ILIKE ?`. */
  const JsonIlike := JsonPath + Ilike

  lemma {:induction false} PathHasNoComparison()
    ensures '=' !in JsonPath
  {
  }

  /** The comparison as the queries write it is one whole match. */
  lemma {:induction false} CollateTextMatches()
    ensures MatchLength(CollateText, CollateNocase) == Some(|CollateText|)
  {
    assert CollateText == "=" + (" " + ("?" + (" " + ("COLLATE" + (" " + ([] + "NOCASE"))))));
    Keywords();
    ComparisonMatches("COLLATE", "NOCASE", " ", " ", "COLLATE", ' ', [], "NOCASE");
  }

  /** The match ignores case and takes any whitespace, including none around `?`. */
  lemma {:induction false} CollateIgnoresCaseAndSpacing()
    ensures MatchLength("=?collate\tnocase", CollateNocase) == Some(16)
  {
    LowerCaseSpacing();
    LowerCaseSpellings();
    Keywords();
    ComparisonMatches("COLLATE", "NOCASE", [], [], "collate", '\t', [], "nocase");
  }

  lemma LowerCaseSpacing()
    ensures "=?collate\tnocase" == "=" + ([] + ("?" + ([] + ("collate" + ("\t" + ([] + "nocase"))))))
  {
  }

  lemma LowerCaseSpellings()
    ensures Spells("collate", "COLLATE") && Spells("nocase", "NOCASE")
  {
  }

  /** Line 51 replaces the comparison by `ILIKE ?` wherever no match starts
      in the text before it, and goes on with the text after it. */
  lemma {:induction false} ComparisonBecomesIlike(x: string, y: string)
    requires forall i :: 0 <= i < |x| ==> MatchLength((x + (CollateText + y))[i..], CollateNocase).None?
    ensures CollateToIlike(x + (CollateText + y)) == x + (Ilike + CollateToIlike(y))
  {
    CollatePatternFacts();
    CollateTextMatches();
    SubstituteCopiesUnmatched(x, CollateText + y, CollateNocase, Ilike);
    SubstituteAtMatch(CollateText, y, CollateNocase, Ilike);
  }

  /** No match starts inside text that holds no `=`, whatever follows it. */
  lemma {:induction false} NoComparisonInside(x: string, z: string)
    requires '=' !in x
    ensures forall i :: 0 <= i < |x| ==> MatchLength((x + z)[i..], CollateNocase).None?
  {
    CollatePatternFacts();
    forall i | 0 <= i < |x|
      ensures MatchLength((x + z)[i..], CollateNocase).None?
    {
      AnchoredMatch((x + z)[i..], CollateNocase);
      assert (x + z)[i..][0] == x[i];
    }
  }

  /** Every match of a comparison holds its `?`. */
  lemma {:induction false} MatchHoldsPlaceholder(first: string, second: string, s: string)
    requires Keyword(first) && Keyword(second)
    ensures MatchLength(s, Comparison(first, second)).Some? ==> '?' in s
  {
    var pat := Comparison(first, second);
    if MatchLength(s, pat).Some? {
      var t := s[1..];
      var after := TrimStart(t, Whitespace);
      assert MatchLength(t, pat.tail).Some?;
      assert MatchLength(after, pat.tail.tail).Some?;
      assert after[0] == '?';
      assert s[1 + |t| - |after|] == '?';
    }
  }

  /** Line 51 leaves text without `?` unchanged, `COLLATE NOCASE` included: a
      placeholder already bound to its argument no longer takes part in the
      comparison. */
  lemma {:induction false} QuestionFreeUnchanged(s: string)
    requires '?' !in s
    ensures CollateToIlike(s) == s
  {
    Keywords();
    forall i | 0 <= i <= |s|
      ensures MatchLength(s[i..], CollateNocase).None?
    {
      assert '?' !in s[i..] by {
        assert forall j :: 0 <= j < |s[i..]| ==> s[i..][j] == s[i + j];
      }
      MatchHoldsPlaceholder("COLLATE", "NOCASE", s[i..]);
    }
    CollatePatternFacts();
    NoMatchUnchanged(s, CollateNocase, Ilike);
  }

  /** A text that starts with `a + b` has `b` where `a` ends. */
  lemma {:induction false} PrefixAfter(a: string, b: string, y: string)
    requires a + b <= y
    ensures |a| <= |y| && b <= y[|a|..]
  {
    assert y[..|a + b|][|a|..] == b;
  }

  /** Any text holding the search text of line 54 holds a match of line 51
      where its `=` is. */
  lemma {:induction false} JsonCollateHoldsMatch(x: string, i: nat)
    requires i <= |x| && JsonCollate <= x[i..]
    ensures i + |JsonPath| <= |x| && MatchLength(x[i + |JsonPath|..], CollateNocase).Some?
  {
    var j := i + |JsonPath|;
    assert CollateText <= x[j..] by {
      PrefixAfter(JsonPath, CollateText, x[i..]);
      assert x[i..][|JsonPath|..] == x[j..];
    }
    CollatePatternFacts();
    CollateTextMatches();
    FullMatchInPrefix(CollateText, x[j..], CollateNocase);
  }

  /** A text with no match of line 51 anywhere holds no search text of line 54. */
  lemma {:induction false} NoMatchNoJsonCollate(r: string)
    requires forall i :: 0 <= i <= |r| ==> MatchLength(r[i..], CollateNocase).None?
    ensures !Contains(r, JsonCollate)
  {
    ContainsAt(r, JsonCollate);
    forall i | 0 <= i <= |r|
      ensures !(JsonCollate <= r[i..])
    {
      if JsonCollate <= r[i..] {
        JsonCollateHoldsMatch(r, i);
        assert false;
      }
    }
  }

  /** Line 54 never fires: it runs after line 51, which has already rewritten
      the `= ? COLLATE NOCASE` inside every occurrence of its search text. */
  lemma {:induction false} Line54IsNoOp(s: string)
    ensures !Contains(CollateToIlike(s), JsonCollate)
    ensures ReplaceAll(CollateToIlike(s), JsonCollate, Arrow) == CollateToIlike(s)
  {
    NoCollateLeft(s);
    NoMatchNoJsonCollate(CollateToIlike(s));
  }

  /** `power->>0 ILIKE ?` cannot recreate `json_extract(power, '$[0]') ILIKE ?`. */
  lemma {:induction false} ArrowCannotRecreateJsonIlike()
    ensures CannotRecreate(JsonIlike, Arrow)
  {
    assert JsonIlike == "json_extract(power, '$[0]') ILIKE ?";
    assert forall k :: 1 <= k < |JsonIlike| && k != 13 ==> JsonIlike[k] != 'p';
    assert JsonIlike[13 + 5] != Arrow[5];
    forall k | 1 <= k < |JsonIlike|
      ensures !LinesUp(JsonIlike[k..], Arrow)
    {
      if k == 13 {
        assert JsonIlike[k..][5] != Arrow[5];
      } else {
        assert JsonIlike[k..][0] != Arrow[0];
      }
    }
  }

  /** The `json_extract` comparison by itself, through line 51 then line 58. */
  lemma {:induction false} JsonComparisonAlone()
    ensures CollateToIlike(JsonCollate) == JsonIlike
    ensures ReplaceAll(JsonIlike, JsonIlike, Arrow) == Arrow
  {
    PathHasNoComparison();
    NoComparisonInside(JsonPath, CollateText + []);
    ComparisonBecomesIlike(JsonPath, []);
    assert CollateText + [] == CollateText;
    assert Ilike + [] == Ilike;
    ReplaceWhole(JsonIlike, Arrow);
  }

  /** `json_extract(power, '$[0]') ILIKE ?` has its `j` only at the start, so
      in front of it no occurrence can start that the text before did not
      already hold. */
  lemma {:induction false} JsonIlikeStartsOnlyAfter(x: string, z: string)
    requires !Contains(x, JsonIlike)
    ensures forall i :: 0 <= i < |x| ==> !(JsonIlike <= (x + (JsonIlike + z))[i..])
  {
    assert JsonIlike == "json_extract(power, '$[0]') ILIKE ?";
    assert forall k :: 1 <= k < |JsonIlike| ==> JsonIlike[k] != 'j';
    ContainsAt(x, JsonIlike);
    var t := x + (JsonIlike + z);
    forall i | 0 <= i < |x|
      ensures !(JsonIlike <= t[i..])
    {
      var n := |JsonIlike|;
      if i + n <= |x| {
        assert x[i..][..n] == t[i..][..n];
        assert !(JsonIlike <= x[i..]);
      } else {
        var k := |x| - i;
        assert t[i..][k] == JsonIlike[0];
        assert JsonIlike[k] != t[i..][k];
      }
    }
  }

  /** Line 51 on a comparison whose left-hand side `path` follows text `x`,
      neither of them holding `=`: the text in front is kept, the comparison
      becomes `ILIKE ?`, and the rest is rewritten on its own. */
  lemma {:induction false} ComparisonAfterPath(x: string, path: string, y: string)
    requires '=' !in x && '=' !in path
    ensures CollateToIlike(x + ((path + CollateText) + y)) == x + ((path + Ilike) + CollateToIlike(y))
  {
    var front := x + path;
    Reassociate(x, path, CollateText, y);
    NoComparisonInside(front, CollateText + y);
    ComparisonBecomesIlike(front, y);
    Reassociate(x, path, Ilike, CollateToIlike(y));
  }

  /** Moves the comparison's left-hand side from the comparison to the text in front. */
  lemma Reassociate(x: string, path: string, c: string, y: string)
    ensures x + ((path + c) + y) == (x + path) + (c + y)
  {
  }

  /** Line 51 on a text holding the `json_extract` comparison after text with
      no `=`: the comparison becomes `json_extract(power, '$[0]') ILIKE ?`. */
  lemma {:induction false} JsonComparisonBecomesIlike(x: string, y: string)
    requires '=' !in x
    ensures CollateToIlike(x + (JsonCollate + y)) == x + (JsonIlike + CollateToIlike(y))
  {
    PathHasNoComparison();
    ComparisonAfterPath(x, JsonPath, y);
  }

  /** Lines 51 to 61 on a text holding the `json_extract` comparison, after
      text with no `=` and no `json_extract(power, '$[0]') ILIKE ?`: the text in
      front is kept, the comparison becomes `power->>0 ILIKE ?`, and the rest
      is rewritten on its own. */
  lemma {:induction false} JsonComparisonBecomesArrow(x: string, y: string)
    requires '=' !in x && !Contains(x, JsonIlike)
    ensures var s := x + (JsonCollate + y);
            ReplaceAll(ReplaceAll(CollateToIlike(s), JsonCollate, Arrow), JsonIlike, Arrow)
            == x + (Arrow + ReplaceAll(CollateToIlike(y), JsonIlike, Arrow))
  {
    var s := x + (JsonCollate + y);
    var rest := CollateToIlike(y);
    JsonComparisonBecomesIlike(x, y);
    Line54IsNoOp(s);
    JsonIlikeStartsOnlyAfter(x, rest);
    ReplaceAllAt(x, rest, JsonIlike, Arrow);
  }

  /** `power->>0 ILIKE ?` holds no `=`, and no token of the pattern of line 51
      accepts its first character `p`. */
  lemma {:induction false} ArrowIsInert()
    ensures Inert(CollateNocase, Arrow)
  {
    Keywords();
    KeywordsUnspelled('p');
    ComparisonRejects("COLLATE", "NOCASE", 'p');
    assert Arrow[0] == 'p';
  }

  /** A second pass of lines 51 to 61 changes nothing: after the first pass no
      match of line 51 is left (the arrow text holds no `=`, and `p` stops
      every token), so line 51 and line 54 leave the text alone, and line 58
      finds no occurrence left to replace. */
  lemma {:induction false} DialectIdempotent(s: string)
    ensures var b := ReplaceAll(CollateToIlike(s), JsonIlike, Arrow);
            ReplaceAll(ReplaceAll(CollateToIlike(b), JsonCollate, Arrow), JsonIlike, Arrow) == b
  {
    var c := CollateToIlike(s);
    var b := ReplaceAll(c, JsonIlike, Arrow);
    CollatePatternFacts();
    ArrowIsInert();
    NoCollateLeft(s);
    ReplaceLeavesNoMatch(c, JsonIlike, Arrow, CollateNocase);
    NoMatchUnchanged(b, CollateNocase, Ilike);
    assert CollateToIlike(b) == b;
    NoMatchNoJsonCollate(b);
    ArrowCannotRecreateJsonIlike();
    NothingLeftAfterReplace(c, JsonIlike, Arrow);
  }

  /** Lines 51 and 54 do not commute: with line 54 first, the comparison goes
      straight to `power->>0 ILIKE ?`; with line 51 first, line 54 finds
      nothing and `json_extract(power, '$[0]') ILIKE ?` is left for line 58. */
  lemma {:induction false} Lines51And54DoNotCommute()
    ensures ReplaceAll(CollateToIlike(JsonCollate), JsonCollate, Arrow) == JsonIlike
    ensures CollateToIlike(ReplaceAll(JsonCollate, JsonCollate, Arrow)) == Arrow
  {
    JsonComparisonAlone();
    Line54IsNoOp(JsonCollate);
    ReplaceWhole(JsonCollate, Arrow);
    assert '=' !in Arrow;
  }

  /** Lines 51 to 61 on the text of one file, in the order of the script. The
      result is line 58 applied after line 51 (line 54 changes nothing), and
      no `json_extract(power, '$[0]') ILIKE ?` remains in it. */
  method RewriteDialect(content: string) returns (newContent: string)
    ensures newContent == ReplaceAll(ReplaceAll(CollateToIlike(content), JsonCollate, Arrow), JsonIlike, Arrow)
    ensures newContent == ReplaceAll(CollateToIlike(content), JsonIlike, Arrow)
    ensures !Contains(newContent, JsonIlike)
  {
    newContent := CollateToIlike(content);
    newContent := ReplaceAll(newContent, JsonCollate, Arrow);
    newContent := ReplaceAll(newContent, JsonIlike, Arrow);
    Line54IsNoOp(content);
    ArrowCannotRecreateJsonIlike();
    NothingLeftAfterReplace(CollateToIlike(content), JsonIlike, Arrow);
  }
}
