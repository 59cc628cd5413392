/** The order in which the script applies its rewrites to one file: the
    bare-string call shape (line 17), the `{ sql, args }` shape (line 40), the
    dialect rewrites (lines 51 to 61), then the `{ sql }` shape (line 68).
    The `COLLATE NOCASE` rewrite needs a `?`, so it still reaches the SQL of a
    bare-string call, but not the SQL of a `{ sql, args }` call whose
    placeholders have all been bound. */
module Driver {
  import opened Text
  import opened CallShapes
  import opened Placeholders
  import opened Dialect

  /** A template whose SQL holds no `?` holds no `?`. */
  lemma {:induction false} TemplateKeepsQuestionOut(sql: string)
    requires '?' !in sql
    ensures '?' !in TaggedTemplate(sql)
  {
    var t := TaggedTemplate(sql);
    forall j | 0 <= j < |t|
      ensures t[j] != '?'
    {
      if j < 7 {
        assert t[j] == t[..7][j];
      } else if j < |t| - 1 {
        assert t[j] == t[7..|t| - 1][j - 7];
      }
    }
  }

  /** A `{ sql, args }` call whose arguments hold no `?` and cover every
      placeholder has no `?` left by the time line 51 runs, so line 51 leaves
      its template alone, `COLLATE NOCASE` included. */
  lemma {:induction false} BoundCallSkipsCollate(sql: string, args: seq<string>)
    requires NoPlaceholderIn(args) && |args| >= Count(sql, Placeholder)
    ensures CollateToIlike(TaggedTemplate(SubstituteAll(sql, args))) == TaggedTemplate(SubstituteAll(sql, args))
  {
    var bound := SubstituteAll(sql, args);
    assert '?' !in bound by {
      SubstituteAllIsBind(sql, args);
      BindLeavesPlaceholders(sql, args);
    }
    TemplateKeepsQuestionOut(bound);
    QuestionFreeUnchanged(TaggedTemplate(bound));
  }

  /** A bare-string call has already become a template when line 51 runs, and
      line 51 still rewrites the comparison inside it. */
  lemma {:induction false} SimpleCallGetsIlike(quote: char, x: string, y: string)
    requires '=' !in x
    ensures CollateToIlike(ReplSimple(quote, x + (CollateText + y)))
            == "client`" + x + (Ilike + CollateToIlike(y + "`"))
  {
    var head := "client`" + x;
    assert ReplSimple(quote, x + (CollateText + y)) == head + (CollateText + (y + "`"));
    assert '=' !in head by {
      forall j | 0 <= j < |head|
        ensures head[j] != '='
      {
        if j >= 7 {
          assert head[j] == x[j - 7];
        }
      }
    }
    NoComparisonInside(head, CollateText + (y + "`"));
    ComparisonBecomesIlike(head, y + "`");
  }
}
