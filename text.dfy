/** String primitives of Python's `str` that the migration script relies on:
    whitespace, `strip`, substring search, counting and `replace` (all occurrences). */
module Text {

  /** Python's `str.isspace()`, which is also what `\s` matches in a `re`
      pattern over `str`. */
  predicate IsSpace(c: char) {
    || c == ' '
    || ('\t' <= c <= '\r')
    || ('\U{1C}' <= c <= '\U{1F}')
    || c == '\U{85}' || c == '\U{A0}' || c == '\U{1680}'
    || ('\U{2000}' <= c <= '\U{200A}')
    || c == '\U{2028}' || c == '\U{2029}' || c == '\U{202F}' || c == '\U{205F}' || c == '\U{3000}'
  }

  /** The argument of Python's `strip`: no argument strips whitespace, a string
      argument strips the characters it holds. */
  datatype StripSet = Whitespace | Only(chars: set<char>)

  predicate Strips(which: StripSet, c: char) {
    match which
    case Whitespace => IsSpace(c)
    case Only(chars) => c in chars
  }

  /** `s.lstrip(...)`: the longest suffix of `s` not starting with a stripped character. */
  function TrimStart(s: string, drop: StripSet): (r: string)
    ensures |r| <= |s| && r == s[|s| - |r|..]
    ensures r == [] || !Strips(drop, r[0])
    decreases |s|
  {
    if s != [] && Strips(drop, s[0]) then TrimStart(s[1..], drop) else s
  }

  /** Everything `lstrip` removes is a stripped character. */
  lemma {:induction false} TrimStartDropsStripped(s: string, drop: StripSet)
    ensures forall i :: 0 <= i < |s| - |TrimStart(s, drop)| ==> Strips(drop, s[i])
    decreases |s|
  {
    if s != [] && Strips(drop, s[0]) {
      TrimStartDropsStripped(s[1..], drop);
      assert forall i :: 1 <= i < |s| ==> s[1..][i - 1] == s[i];
    }
  }

  /** `s.rstrip(...)`: the longest prefix of `s` not ending with a stripped character. */
  function TrimEnd(s: string, drop: StripSet): (r: string)
    ensures |r| <= |s| && r == s[..|r|]
    ensures r == [] || !Strips(drop, r[|r| - 1])
    ensures forall i :: |r| <= i < |s| ==> Strips(drop, s[i])
    decreases |s|
  {
    if s != [] && Strips(drop, s[|s| - 1]) then TrimEnd(s[..|s| - 1], drop) else s
  }

  /** Text made of whitespace only (possibly none). */
  predicate AllSpace(w: string) {
    forall i :: 0 <= i < |w| ==> IsSpace(w[i])
  }

  /** `s.strip(...)`: drop the leading and the trailing stripped characters.
      The result neither starts nor ends with a stripped character. */
  function Strip(s: string, drop: StripSet): (r: string)
    ensures |r| <= |s|
    ensures r == [] || (!Strips(drop, r[0]) && !Strips(drop, r[|r| - 1]))
  {
    var t := TrimStart(s, drop);
    var r := TrimEnd(t, drop);
    assert r != [] ==> r[0] == t[0];
    r
  }

  /** Text holding no stripped character comes back whole. */
  lemma {:induction false} StripNothing(s: string, drop: StripSet)
    requires forall i :: 0 <= i < |s| ==> !Strips(drop, s[i])
    ensures Strip(s, drop) == s
  {
    var t := TrimStart(s, drop);
    assert t == s;
    assert TrimEnd(t, drop) == t;
  }

  /** Stripping only removes characters: a character absent from `s` is absent
      from the stripped text. */
  lemma {:induction false} StripKeepsOut(s: string, drop: StripSet, c: char)
    ensures c !in s ==> c !in Strip(s, drop)
  {
    var t := TrimStart(s, drop);
    var r := TrimEnd(t, drop);
    assert forall j :: 0 <= j < |r| ==> r[j] == t[j] == s[|s| - |t| + j];
  }

  /** Left-stripping removes exactly a leading run of stripped characters that is
      followed by a kept character (or by nothing). */
  lemma {:induction false} TrimStartExactly(front: string, rest: string, drop: StripSet)
    requires forall i :: 0 <= i < |front| ==> Strips(drop, front[i])
    requires rest == [] || !Strips(drop, rest[0])
    ensures TrimStart(front + rest, drop) == rest
  {
    var s := front + rest;
    var t := TrimStart(s, drop);
    assert forall i :: 0 <= i < |front| ==> s[i] == front[i];
    TrimStartDropsStripped(s, drop);
    if rest == [] {
      assert forall i :: 0 <= i < |s| ==> Strips(drop, s[i]);
    } else {
      assert s[|front|] == rest[0];
      assert t != [] ==> t[0] == s[|s| - |t|];
    }
    assert |t| == |rest|;
  }

  /** Left-stripping text followed by a kept character (or by nothing) strips
      only the text. */
  lemma {:induction false} TrimStartAppend(x: string, y: string, drop: StripSet)
    requires y == [] || !Strips(drop, y[0])
    ensures TrimStart(x + y, drop) == TrimStart(x, drop) + y
    decreases |x|
  {
    if x == [] {
      assert x + y == y;
    } else if Strips(drop, x[0]) {
      assert TrimStart(x + y, drop) == TrimStart(x[1..] + y, drop) by {
        assert (x + y)[0] == x[0];
        assert (x + y)[1..] == x[1..] + y;
      }
      TrimStartAppend(x[1..], y, drop);
    } else {
      assert TrimStart(x + y, drop) == x + y by {
        assert (x + y)[0] == x[0];
      }
    }
  }

  /** Stripping removes exactly the outer run of droppable characters: for any
      split `s == front + core + back` whose outer parts are all droppable and
      whose core neither starts nor ends with a droppable character, the result
      is `core`. */
  lemma {:induction false} StripExactly(front: string, core: string, back: string, drop: StripSet)
    requires forall i :: 0 <= i < |front| ==> Strips(drop, front[i])
    requires forall i :: 0 <= i < |back| ==> Strips(drop, back[i])
    requires core == [] || (!Strips(drop, core[0]) && !Strips(drop, core[|core| - 1]))
    ensures Strip(front + core + back, drop) == core
  {
    assert front + core + back == front + (core + back);
    if core == [] {
      assert TrimStart(front + (core + back), drop) == [] by {
        assert core + back == back;
        AllStripped(front, back, drop);
        TrimStartExactly(front + back, [], drop);
        assert front + back + [] == front + back;
      }
    } else {
      assert TrimStart(front + (core + back), drop) == core + back by {
        assert (core + back)[0] == core[0];
        TrimStartExactly(front, core + back, drop);
      }
      TrimEndExactly(core, back, drop);
    }
  }

  /** Two runs of stripped characters make one. */
  lemma AllStripped(x: string, y: string, drop: StripSet)
    requires forall i :: 0 <= i < |x| ==> Strips(drop, x[i])
    requires forall i :: 0 <= i < |y| ==> Strips(drop, y[i])
    ensures forall i :: 0 <= i < |x + y| ==> Strips(drop, (x + y)[i])
  {
  }

  /** Right-stripping removes exactly a trailing run of stripped characters that
      follows a kept character (or nothing). */
  lemma {:induction false} TrimEndExactly(rest: string, back: string, drop: StripSet)
    requires forall i :: 0 <= i < |back| ==> Strips(drop, back[i])
    requires rest == [] || !Strips(drop, rest[|rest| - 1])
    ensures TrimEnd(rest + back, drop) == rest
  {
    var s := rest + back;
    var t := TrimEnd(s, drop);
    assert forall i :: |rest| <= i < |s| ==> s[i] == back[i - |rest|];
    if rest == [] {
      assert forall i :: 0 <= i < |s| ==> Strips(drop, s[i]);
    } else {
      assert s[|rest| - 1] == rest[|rest| - 1];
      assert t != [] ==> t[|t| - 1] == s[|t| - 1];
    }
    assert |t| == |rest|;
    assert t == s[..|rest|] == rest;
  }

  /** `p in t` for strings: `p` occurs somewhere in `t`. */
  predicate Contains(t: string, p: string)
    decreases |t|
  {
    p <= t || (t != [] && Contains(t[1..], p))
  }

  /** The search above finds exactly the positions where `p` starts in `t`. */
  lemma {:induction false} ContainsAt(t: string, p: string)
    ensures Contains(t, p) <==> exists i :: 0 <= i <= |t| && p <= t[i..]
    decreases |t|
  {
    assert t[0..] == t;
    if t != [] {
      ContainsAt(t[1..], p);
      if Contains(t, p) && !(p <= t) {
        var i :| 0 <= i <= |t[1..]| && p <= t[1..][i..];
        assert t[1..][i..] == t[i + 1..];
      }
      if i :| 0 <= i <= |t| && p <= t[i..] {
        if i > 0 {
          assert t[1..][i - 1..] == t[i..];
        }
      }
    }
  }

  /** Number of occurrences of the character `c` in `s`. */
  function Count(s: string, c: char): (n: nat)
    ensures n <= |s|
    ensures n == 0 <==> c !in s
    decreases |s|
  {
    if s == [] then 0 else (if s[0] == c then 1 else 0) + Count(s[1..], c)
  }

  lemma {:induction false} CountConcat(x: string, y: string, c: char)
    ensures Count(x + y, c) == Count(x, c) + Count(y, c)
    decreases |x|
  {
    if x != [] {
      assert (x + y)[1..] == x[1..] + y;
      CountConcat(x[1..], y, c);
    } else {
      assert x + y == y;
    }
  }

  /** Python's `s.replace(pat, rep)`: scan left to right and replace every
      non-overlapping occurrence of `pat` by `rep`. A text that does not contain
      `pat` comes back unchanged. */
  function ReplaceAll(s: string, pat: string, rep: string): (r: string)
    requires pat != []
    ensures !Contains(s, pat) ==> r == s
    decreases |s|
  {
    if s == [] then []
    else if pat <= s then rep + ReplaceAll(s[|pat|..], pat, rep)
    else [s[0]] + ReplaceAll(s[1..], pat, rep)
  }

  /** Replacing a whole text gives the replacement. */
  lemma {:induction false} ReplaceWhole(pat: string, rep: string)
    requires pat != []
    ensures ReplaceAll(pat, pat, rep) == rep
  {
    assert pat[|pat|..] == [];
    assert rep + [] == rep;
  }

  /** Text at none of whose positions the search text starts is copied as it
      is, whatever follows it. */
  lemma {:induction false} ReplaceCopiesFront(x: string, z: string, pat: string, rep: string)
    requires pat != []
    requires forall i :: 0 <= i < |x| ==> !(pat <= (x + z)[i..])
    ensures ReplaceAll(x + z, pat, rep) == x + ReplaceAll(z, pat, rep)
    decreases |x|
  {
    if x != [] {
      var s := x + z;
      assert ReplaceAll(s, pat, rep) == [x[0]] + ReplaceAll(x[1..] + z, pat, rep) by {
        assert s[0..] == s && s[0] == x[0] && s[1..] == x[1..] + z;
      }
      forall i | 0 <= i < |x[1..]|
        ensures !(pat <= (x[1..] + z)[i..])
      {
        assert (x[1..] + z)[i..] == s[i + 1..];
      }
      ReplaceCopiesFront(x[1..], z, pat, rep);
      var r := ReplaceAll(z, pat, rep);
      assert [x[0]] + (x[1..] + r) == x + r by {
        assert x == [x[0]] + x[1..];
      }
    } else {
      assert x + z == z;
    }
  }

  /** Every occurrence is replaced where it stands: the text in front of the
      first occurrence is kept, the occurrence becomes the replacement, and the
      scan goes on right after it. */
  lemma {:induction false} ReplaceAllAt(x: string, y: string, pat: string, rep: string)
    requires pat != []
    requires forall i :: 0 <= i < |x| ==> !(pat <= (x + (pat + y))[i..])
    ensures ReplaceAll(x + (pat + y), pat, rep) == x + (rep + ReplaceAll(y, pat, rep))
  {
    ReplaceCopiesFront(x, pat + y, pat, rep);
    assert (pat + y)[|pat|..] == y;
  }

  /** As long as the output holds no first character of the replacement, it
      is a copy of the input. */
  lemma {:induction false} ReplaceCopiesPrefix(s: string, pat: string, rep: string, k: nat)
    requires pat != [] && rep != []
    requires k <= |ReplaceAll(s, pat, rep)| && rep[0] !in ReplaceAll(s, pat, rep)[..k]
    ensures k <= |s| && ReplaceAll(s, pat, rep)[..k] == s[..k]
    decreases |s|
  {
    if k > 0 {
      var r := ReplaceAll(s, pat, rep);
      assert r[..k][0] == r[0];
      assert !(pat <= s);
      var tail := ReplaceAll(s[1..], pat, rep);
      assert r[..k][1..] == tail[..k - 1];
      ReplaceCopiesPrefix(s[1..], pat, rep, k - 1);
      assert r[..k] == [s[0]] + tail[..k - 1];
      assert s[..k] == [s[0]] + s[1..][..k - 1];
    }
  }

  /** `a` and `b` agree on their common length. */
  predicate LinesUp(a: string, b: string) {
    a <= b || b <= a
  }

  /** A replacement that can never help form a fresh occurrence of the search
      text: it does not contain the search text's first character, and no
      proper suffix of the search text lines up with the replacement's start. */
  predicate CannotRecreate(pat: string, rep: string) {
    && pat != []
    && pat[0] !in rep
    && forall k :: 1 <= k < |pat| ==> !LinesUp(pat[k..], rep)
  }

  /** If a tail of the search text is a prefix of the rewritten text, the same
      tail was already a prefix of the original text. */
  lemma {:induction false} TailSurvivesReplace(u: string, pat: string, rep: string, k: nat)
    requires CannotRecreate(pat, rep)
    requires 1 <= k < |pat|
    ensures pat[k..] <= ReplaceAll(u, pat, rep) ==> pat[k..] <= u
    decreases |u|
  {
    var r := ReplaceAll(u, pat, rep);
    if pat[k..] <= r {
      assert pat <= u ==> rep <= r;
      assert !(pat <= u);
      var tail := ReplaceAll(u[1..], pat, rep);
      assert r == [u[0]] + tail;
      if k + 1 < |pat| {
        assert pat[k + 1..] == pat[k..][1..];
        TailSurvivesReplace(u[1..], pat, rep, k + 1);
        assert pat[k..] == [pat[k]] + pat[k + 1..];
      }
    }
  }

  /** A text that starts with a character and then continues with text free of
      `p` contains `p` only when `p` starts right at that front. */
  lemma {:induction false} ContainsAfterFront(x: string, t: string, p: string)
    requires p != []
    requires p[0] !in x
    requires !Contains(t, p)
    ensures !Contains(x + t, p)
    decreases |x|
  {
    if x != [] {
      assert (x + t)[1..] == x[1..] + t;
      ContainsAfterFront(x[1..], t, p);
    } else {
      assert x + t == t;
    }
  }

  /** After a replace-all whose replacement cannot recreate the search text,
      the search text occurs nowhere in the result. */
  lemma {:induction false} NothingLeftAfterReplace(s: string, pat: string, rep: string)
    requires CannotRecreate(pat, rep)
    ensures !Contains(ReplaceAll(s, pat, rep), pat)
    decreases |s|
  {
    if s == [] {
    } else if pat <= s {
      NothingLeftAfterReplace(s[|pat|..], pat, rep);
      ContainsAfterFront(rep, ReplaceAll(s[|pat|..], pat, rep), pat);
    } else {
      var tail := ReplaceAll(s[1..], pat, rep);
      NothingLeftAfterReplace(s[1..], pat, rep);
      var r := [s[0]] + tail;
      assert r[1..] == tail;
      if |pat| > 1 {
        TailSurvivesReplace(s[1..], pat, rep, 1);
        assert pat[1..] <= s[1..] && pat[0] == s[0] ==> pat <= s;
      }
      assert !(pat <= r);
    }
  }
}
