/** `repl_complex`: the positional `?` placeholders of the captured SQL become
    `${arg}` interpolations of a tagged template, one argument per loop step,
    each step replacing the first `?` still in the text. */
module Placeholders {
  import opened Text
  import opened Arguments
  import opened CallShapes

  /** The positional placeholder of the SQL text. */
  const Placeholder: char := '?'

  /** The interpolation `${arg}` written for one argument. */
  function Interpolation(arg: string): (r: string)
    ensures Placeholder in r <==> Placeholder in arg
  {
    assert "${" + arg + "}" == "${" + (arg + "}");
    "${" + arg + "}"
  }

  /** Python's `s.replace('?', rep, 1)`. A text without `?` comes back unchanged. */
  function ReplaceFirst(s: string, rep: string): (r: string)
    ensures Placeholder !in s ==> r == s
    decreases |s|
  {
    if s == [] then []
    else if s[0] == Placeholder then rep + s[1..]
    else [s[0]] + ReplaceFirst(s[1..], rep)
  }

  /** Text before the first `?` is left alone. */
  lemma {:induction false} ReplaceFirstSkips(x: string, y: string, rep: string)
    requires Placeholder !in x
    ensures ReplaceFirst(x + y, rep) == x + ReplaceFirst(y, rep)
    decreases |x|
  {
    if x != [] {
      assert (x + y)[0] == x[0];
      assert (x + y)[1..] == x[1..] + y;
      ReplaceFirstSkips(x[1..], y, rep);
      assert [x[0]] + (x[1..] + ReplaceFirst(y, rep)) == x + ReplaceFirst(y, rep);
    } else {
      assert x + y == y;
    }
  }

  /** Exactly the first `?` becomes `rep`; everything else is kept. */
  lemma {:induction false} ReplaceFirstAt(before: string, after: string, rep: string)
    requires Placeholder !in before
    ensures ReplaceFirst(before + [Placeholder] + after, rep) == before + rep + after
  {
    assert before + [Placeholder] + after == before + ([Placeholder] + after);
    ReplaceFirstSkips(before, [Placeholder] + after, rep);
    assert ([Placeholder] + after)[1..] == after;
  }

  /** Any text holding a `?` splits at its first `?`. */
  lemma {:induction false} SplitAtFirstPlaceholder(s: string) returns (before: string, after: string)
    requires Placeholder in s
    ensures s == before + [Placeholder] + after
    ensures Placeholder !in before
    decreases |s|
  {
    if s[0] == Placeholder {
      before, after := [], s[1..];
    } else {
      var b, a := SplitAtFirstPlaceholder(s[1..]);
      before, after := [s[0]] + b, a;
      assert s == [s[0]] + s[1..];
    }
  }

  /** The SQL text after the loop of `repl_complex`: one `replace('?', '${arg}', 1)`
      per argument, in order. SQL without `?` comes back unchanged whatever the
      arguments. */
  function SubstituteAll(sql: string, args: seq<string>): (r: string)
    ensures Placeholder !in sql ==> r == sql
    decreases |args|
  {
    if args == [] then sql
    else SubstituteAll(ReplaceFirst(sql, Interpolation(args[0])), args[1..])
  }

  /** The reference meaning of positional binding: a single left-to-right scan in
      which the i-th `?` becomes `${args[i]}`, `?` marks beyond the last argument
      stay, and every other character is copied. */
  function Bind(sql: string, args: seq<string>): (r: string)
    ensures args == [] ==> r == sql
    decreases |sql|
  {
    if sql == [] then []
    else if sql[0] == Placeholder && args != [] then Interpolation(args[0]) + Bind(sql[1..], args[1..])
    else [sql[0]] + Bind(sql[1..], args)
  }

  /** No argument text holds a `?` of its own. */
  predicate NoPlaceholderIn(args: seq<string>) {
    forall i :: 0 <= i < |args| ==> Placeholder !in args[i]
  }

  lemma {:induction false} BindSkips(x: string, y: string, args: seq<string>)
    requires Placeholder !in x
    ensures Bind(x + y, args) == x + Bind(y, args)
    decreases |x|
  {
    if x != [] {
      assert Bind(x + y, args) == [x[0]] + Bind(x[1..] + y, args) by {
        assert x + y == [x[0]] + (x[1..] + y);
        BindCons(x[0], x[1..] + y, args);
      }
      BindSkips(x[1..], y, args);
      assert [x[0]] + (x[1..] + Bind(y, args)) == x + Bind(y, args);
    } else {
      assert x + y == y;
    }
  }

  /** A character other than `?` is copied as it is. */
  lemma BindCons(c: char, t: string, args: seq<string>)
    requires c != Placeholder
    ensures Bind([c] + t, args) == [c] + Bind(t, args)
  {
    assert ([c] + t)[1..] == t;
  }

  lemma {:induction false} SubstituteAllSkips(x: string, y: string, args: seq<string>)
    requires Placeholder !in x
    ensures SubstituteAll(x + y, args) == x + SubstituteAll(y, args)
    decreases |args|
  {
    if args != [] {
      ReplaceFirstSkips(x, y, Interpolation(args[0]));
      SubstituteAllSkips(x, ReplaceFirst(y, Interpolation(args[0])), args[1..]);
    }
  }

  /** When no argument holds a `?`, the replace-first loop is positional binding:
      the i-th `?` is bound to the i-th argument. */
  lemma {:induction false} SubstituteAllIsBind(sql: string, args: seq<string>)
    requires NoPlaceholderIn(args)
    ensures SubstituteAll(sql, args) == Bind(sql, args)
    decreases |args|
  {
    if args != [] && Placeholder in sql {
      var before, after := SplitAtFirstPlaceholder(sql);
      var i := Interpolation(args[0]);
      var tail := Bind(after, args[1..]);
      assert SubstituteAll(sql, args) == (before + i) + tail by {
        assert Placeholder !in args[0];
        ReplaceFirstAt(before, after, i);
        assert Placeholder !in before + i;
        SubstituteAllSkips(before + i, after, args[1..]);
        assert NoPlaceholderIn(args[1..]);
        SubstituteAllIsBind(after, args[1..]);
      }
      assert Bind(sql, args) == (before + i) + tail by {
        assert sql == before + ([Placeholder] + after);
        BindSkips(before, [Placeholder] + after, args);
        assert ([Placeholder] + after)[1..] == after;
        assert Bind([Placeholder] + after, args) == i + tail;
      }
    } else if args != [] {
      assert Bind(sql, args) == sql by {
        BindSkips(sql, [], args);
        assert sql + [] == sql;
      }
    }
  }

  /** With k arguments free of `?` and n placeholders, the result keeps exactly
      n - min(k, n) placeholders: all are used up when k >= n. */
  lemma {:induction false} BindLeavesPlaceholders(sql: string, args: seq<string>)
    requires NoPlaceholderIn(args)
    ensures var n := Count(sql, Placeholder);
            Count(Bind(sql, args), Placeholder) == n - (if |args| < n then |args| else n)
    decreases |sql|
  {
    if sql != [] {
      var m := Count(sql[1..], Placeholder);
      if sql[0] == Placeholder && args != [] {
        assert Count(Bind(sql, args), Placeholder) == m - (if |args| - 1 < m then |args| - 1 else m) by {
          assert NoPlaceholderIn(args[1..]);
          BindLeavesPlaceholders(sql[1..], args[1..]);
          assert Placeholder !in args[0];
          CountConcat(Interpolation(args[0]), Bind(sql[1..], args[1..]), Placeholder);
        }
      } else {
        assert Count(Bind(sql, args), Placeholder)
               == (if sql[0] == Placeholder then 1 else 0) + m - (if |args| < m then |args| else m) by {
          BindLeavesPlaceholders(sql[1..], args);
          CountConcat([sql[0]], Bind(sql[1..], args), Placeholder);
        }
      }
    }
  }

  /** Arguments beyond the number of placeholders are ignored. */
  lemma {:induction false} BindIgnoresExtraArguments(sql: string, args: seq<string>)
    requires |args| >= Count(sql, Placeholder)
    ensures Bind(sql, args) == Bind(sql, args[..Count(sql, Placeholder)])
    decreases |sql|
  {
    if sql != [] {
      var n := Count(sql, Placeholder);
      assert sql == [sql[0]] + sql[1..];
      CountConcat([sql[0]], sql[1..], Placeholder);
      if sql[0] == Placeholder {
        BindIgnoresExtraArguments(sql[1..], args[1..]);
        assert args[..n][1..] == args[1..][..n - 1];
      } else {
        BindIgnoresExtraArguments(sql[1..], args);
        BindIgnoresExtraArguments(sql[1..], args[..n]);
        assert args[..n][..n] == args[..n];
      }
    }
  }

  /** An argument holding a `?` (optional chaining such as `user?.id`) is caught
      by the next step: the second argument lands inside the first interpolation,
      and the second placeholder of the SQL stays. */
  lemma {:induction false} ArgumentPlaceholderIsCaptured(x: string, y: string, z: string, u: string, v: string, w: string)
    requires Placeholder !in x && Placeholder !in y && Placeholder !in z
    requires Placeholder !in u
    ensures SubstituteAll(x + [Placeholder] + y + [Placeholder] + z, [u + [Placeholder] + v, w])
            == (x + "${" + u) + Interpolation(w) + (v + "}" + y + [Placeholder] + z)
  {
    var sql := x + [Placeholder] + y + [Placeholder] + z;
    var a := u + [Placeholder] + v;
    var front := x + "${" + u;
    var back := v + "}" + y + [Placeholder] + z;
    var step2 := front + Interpolation(w) + back;
    var step1 := front + [Placeholder] + back;
    assert ReplaceFirst(sql, Interpolation(a)) == step1 by {
      FirstStepInsertsPlaceholder(x, y, z, u, v);
    }
    assert ReplaceFirst(step1, Interpolation(w)) == step2 by {
      assert Placeholder !in "${";
      assert Placeholder !in front;
      ReplaceFirstAt(front, back, Interpolation(w));
    }
    assert [a, w][1..] == [w] && [w][1..] == [];
    assert SubstituteAll(sql, [a, w]) == SubstituteAll(step1, [w]);
    assert SubstituteAll(step1, [w]) == SubstituteAll(step2, []);
  }

  /** For such an argument the replace-first loop and positional binding differ:
      right after the `${` of the first interpolation, one has the `$` of the
      second interpolation where the other has the argument's own `?`. */
  lemma {:induction false} CapturedArgumentDiffersFromBind(x: string, y: string, z: string, u: string, v: string, w: string)
    requires Placeholder !in x && Placeholder !in y && Placeholder !in z
    requires Placeholder !in u
    ensures SubstituteAll(x + [Placeholder] + y + [Placeholder] + z, [u + [Placeholder] + v, w])
            != Bind(x + [Placeholder] + y + [Placeholder] + z, [u + [Placeholder] + v, w])
  {
    var a := u + [Placeholder] + v;
    var k := |x| + 2 + |u|;
    var head := x + "${" + u;
    ArgumentPlaceholderIsCaptured(x, y, z, u, v, w);
    var captured := head + Interpolation(w) + (v + "}" + y + [Placeholder] + z);
    assert captured[k] == '$' by {
      assert |head| == k;
      assert captured[k] == (head + Interpolation(w))[k] == Interpolation(w)[0];
    }
    BindTwoOf(x, y, z, a, w);
    var bound := x + Interpolation(a) + y + Interpolation(w) + z;
    assert bound[k] == Placeholder by {
      var ia := Interpolation(a);
      assert |x + ia| > k;
      assert bound[k] == (x + ia + y + Interpolation(w))[k] == (x + ia + y)[k] == (x + ia)[k];
      assert (x + ia)[k] == ia[2 + |u|];
      assert ia == "${" + a + "}";
      assert ia[2 + |u|] == ("${" + a)[2 + |u|] == a[|u|];
    }
  }

  lemma {:induction false} FirstStepInsertsPlaceholder(x: string, y: string, z: string, u: string, v: string)
    requires Placeholder !in x
    ensures ReplaceFirst(x + [Placeholder] + y + [Placeholder] + z, Interpolation(u + [Placeholder] + v))
            == (x + "${" + u) + [Placeholder] + (v + "}" + y + [Placeholder] + z)
  {
    var tail := y + [Placeholder] + z;
    assert x + [Placeholder] + y + [Placeholder] + z == x + [Placeholder] + tail;
    ReplaceFirstAt(x, tail, Interpolation(u + [Placeholder] + v));
    InterpolationRegroup(x, u, v, tail);
  }

  /** The placeholder inside an interpolated argument, regrouped around it; a
      separate lemma keeps the sequence reasoning out of the caller's proof. */
  lemma {:induction false} InterpolationRegroup(x: string, u: string, v: string, tail: string)
    ensures x + ("${" + (u + [Placeholder] + v) + "}") + tail
            == (x + "${" + u) + [Placeholder] + (v + "}" + tail)
  {
  }

  /** The first placeholder, after text without `?`, takes the first argument. */
  lemma {:induction false} BindAt(before: string, after: string, args: seq<string>)
    requires Placeholder !in before && args != []
    ensures Bind(before + [Placeholder] + after, args) == before + Interpolation(args[0]) + Bind(after, args[1..])
  {
    assert before + [Placeholder] + after == before + ([Placeholder] + after);
    BindSkips(before, [Placeholder] + after, args);
    assert ([Placeholder] + after)[1..] == after;
  }

  /** Positional binding of two placeholders separated by text without `?`. */
  lemma {:induction false} BindTwoOf(x: string, y: string, z: string, a: string, b: string)
    requires Placeholder !in x && Placeholder !in y && Placeholder !in z
    ensures Bind(x + [Placeholder] + y + [Placeholder] + z, [a, b])
            == x + Interpolation(a) + y + Interpolation(b) + z
  {
    var tail := y + [Placeholder] + z;
    var ia, ib := Interpolation(a), Interpolation(b);
    assert Bind(x + [Placeholder] + y + [Placeholder] + z, [a, b]) == x + ia + Bind(tail, [b]) by {
      assert x + [Placeholder] + y + [Placeholder] + z == x + [Placeholder] + tail;
      BindAt(x, tail, [a, b]);
      assert [a, b][1..] == [b];
    }
    assert Bind(tail, [b]) == y + ib + z by {
      BindAt(y, z, [b]);
      assert [b][1..] == [];
    }
    assert x + ia + (y + ib + z) == x + ia + y + ib + z;
  }

  /** `repl_complex` on the captured SQL text and `[...]` argument text: parse the
      arguments, replace the first remaining `?` once per argument, and wrap the
      result in the tagged template. When no argument holds a `?`, the i-th
      placeholder is bound to the i-th argument. */
  method RewriteComplex(sql: string, argsText: string) returns (out: string)
    ensures out == TaggedTemplate(SubstituteAll(sql, ParseArgs(argsText)))
    ensures NoPlaceholderIn(ParseArgs(argsText)) ==>
              out == TaggedTemplate(Bind(sql, ParseArgs(argsText)))
  {
    var args := ParseArgs(argsText);
    var resultSql := sql;
    var i := 0;
    while i < |args|
      invariant 0 <= i <= |args|
      invariant SubstituteAll(resultSql, args[i..]) == SubstituteAll(sql, args)
    {
      assert args[i..][1..] == args[i + 1..];
      resultSql := ReplaceFirst(resultSql, Interpolation(args[i]));
      i := i + 1;
    }
    out := TaggedTemplate(resultSql);
    if NoPlaceholderIn(args) {
      SubstituteAllIsBind(sql, args);
    }
  }

  /** `[]` (or a list holding only whitespace) passes the SQL through unchanged. */
  lemma {:induction false} EmptyListKeepsSql(sql: string, blank: string)
    requires forall i :: 0 <= i < |blank| ==> IsSpace(blank[i])
    ensures SubstituteAll(sql, ParseArgs("[" + blank + "]")) == sql
  {
    BlankListHasNoArguments(blank);
  }
}
