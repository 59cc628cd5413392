/** The three call shapes `convert_client_execute` and the driver rewrite, taken
    after the regular expression has captured their parts:
    `client.execute("...")` (`repl_simple`), `client.execute({ sql: "..." })`
    (`repl_no_args`) and, for its final step, `client.execute({ sql: "...", args: [...] })`
    (`repl_complex`). Each becomes the tagged template `client`...``. */
module CallShapes {
  import opened Text

  /** The call the migration removes. */
  const ExecuteCall := "client.execute("

  /** `f"client`{sql}`"`: the SQL text between the tag's backticks, verbatim. */
  function TaggedTemplate(sql: string): (r: string)
    ensures |r| == |sql| + 8
    ensures r[..7] == "client`" && r[|r| - 1] == '`'
    ensures r[7..|r| - 1] == sql
  {
    "client`" + sql + "`"
  }

  /** `repl_simple`: the quote character captured around the literal (`'`, `"` or
      a backtick) makes no difference; the literal goes into the template as it is. */
  function ReplSimple(quote: char, val: string): (r: string)
    ensures r == TaggedTemplate(val)
  {
    if quote == '`' then "client`" + val + "`"
    else "client`" + val + "`"
  }

  /** `repl_no_args`: a `{ sql: ... }` object without arguments gives the same
      template as the bare-string call. */
  function ReplNoArgs(sql: string): (r: string)
    ensures r == ReplSimple('"', sql)
  {
    "client`" + sql + "`"
  }

  /** An occurrence of the call text inside the template lies inside the SQL:
      the only 'c' of "client`" starts a different word, and the closing backtick
      is not part of the call text. */
  lemma {:induction false} OccurrenceInTemplate(sql: string, i: nat)
    requires i <= |TaggedTemplate(sql)| && ExecuteCall <= TaggedTemplate(sql)[i..]
    ensures 7 <= i <= |sql| + 7 && ExecuteCall <= sql[i - 7..]
  {
    var t := TaggedTemplate(sql);
    var p := ExecuteCall;
    assert t == "client`" + (sql + "`");
    assert '`' !in p;
    assert forall j :: 1 <= j < 7 ==> "client`"[j] != 'c';
    assert t[i] == p[0] == 'c';
    assert t[6] != p[6];
    assert t[i..] == sql[i - 7..] + "`";
    assert forall m :: 0 <= m < |p| ==> p[m] != '`';
    assert |p| <= |sql[i - 7..]|;
  }

  /** The template adds no `client.execute(` of its own: the result holds that
      text exactly when the captured SQL already did. */
  lemma {:induction false} TemplateAddsNoExecuteCall(sql: string)
    ensures Contains(TaggedTemplate(sql), ExecuteCall) <==> Contains(sql, ExecuteCall)
  {
    var t := TaggedTemplate(sql);
    var p := ExecuteCall;
    ContainsAt(t, p);
    ContainsAt(sql, p);
    forall i | 0 <= i <= |sql| && p <= sql[i..]
      ensures p <= t[7 + i..]
    {
      assert t[7 + i..] == sql[i..] + "`";
    }
    forall i | 0 <= i <= |t| && p <= t[i..]
      ensures 7 <= i <= |sql| + 7 && p <= sql[i - 7..]
    {
      OccurrenceInTemplate(sql, i);
    }
  }
}
