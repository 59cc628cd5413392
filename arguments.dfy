/** Parsing of the argument list captured from `client.execute({ sql: ..., args: [...] })`:
    `args_str.strip('[] \n')`, then `re.split(r',\s*', ...)`, then the comprehension
    that strips every piece and keeps the non-empty ones. The split is not aware of
    brackets or quotes: every comma separates two arguments. */
module Arguments {
  import opened Text

  /** The characters removed by `args_str.strip('[] \n')`. */
  const ListDelimiters := Only({'[', ']', ' ', '\n'})

  /** No comma anywhere in `s`. */
  predicate CommaFree(s: string) {
    ',' !in s
  }

  /** `re.split(r',\s*', s)`: cut at every comma and swallow the run of whitespace
      that follows it. There is always at least one piece, and the first is
      where `s` starts. */
  function SplitAtCommas(s: string): (pieces: seq<string>)
    ensures |pieces| >= 1
    ensures pieces[0] <= s
    decreases |s|
  {
    if s == [] then [[]]
    else if s[0] == ',' then [[]] + SplitAtCommas(TrimStart(s[1..], Whitespace))
    else
      var rest := SplitAtCommas(s[1..]);
      [[s[0]] + rest[0]] + rest[1..]
  }

  /** No piece holds a comma, and every piece after the first starts with
      something other than whitespace. */
  lemma {:induction false} SplitPieces(s: string)
    ensures forall i :: 0 <= i < |SplitAtCommas(s)| ==> CommaFree(SplitAtCommas(s)[i])
    ensures forall i :: 1 <= i < |SplitAtCommas(s)| ==>
              SplitAtCommas(s)[i] == [] || !IsSpace(SplitAtCommas(s)[i][0])
    decreases |s|
  {
    if s != [] && s[0] == ',' {
      var t := TrimStart(s[1..], Whitespace);
      SplitPieces(t);
      assert t == [] || !IsSpace(t[0]);
      assert SplitAtCommas(t)[0] <= t;
    } else if s != [] {
      SplitPieces(s[1..]);
      var rest := SplitAtCommas(s[1..]);
      assert CommaFree(rest[0]);
    }
  }

  /** Non-empty, and neither starting nor ending with whitespace. */
  predicate Trimmed(a: string) {
    a != [] && !IsSpace(a[0]) && !IsSpace(a[|a| - 1])
  }

  /** What every parsed argument looks like: trimmed and free of commas. */
  predicate IsArgument(a: string) {
    Trimmed(a) && CommaFree(a)
  }

  /** `[a.strip() for a in pieces if a.strip()]`: every result is non-empty and
      has no whitespace at either end. */
  function StrippedNonEmpty(pieces: seq<string>): (args: seq<string>)
    ensures |args| <= |pieces|
    ensures forall i :: 0 <= i < |args| ==> Trimmed(args[i])
  {
    if pieces == [] then []
    else
      var a := Strip(pieces[0], Whitespace);
      var rest := StrippedNonEmpty(pieces[1..]);
      if a == [] then rest else [a] + rest
  }

  /** Stripping and filtering cannot bring in a comma. */
  lemma {:induction false} StrippedStayCommaFree(pieces: seq<string>)
    requires forall i :: 0 <= i < |pieces| ==> CommaFree(pieces[i])
    ensures forall i :: 0 <= i < |StrippedNonEmpty(pieces)| ==> CommaFree(StrippedNonEmpty(pieces)[i])
    decreases |pieces|
  {
    if pieces != [] {
      StrippedStayCommaFree(pieces[1..]);
      StripKeepsOut(pieces[0], Whitespace, ',');
      assert CommaFree(pieces[0]);
    }
  }

  /** The arguments `repl_complex` extracts from the captured `[...]` text: each
      non-empty, comma-free and trimmed. */
  function ParseArgs(argsText: string): (args: seq<string>)
    ensures forall i :: 0 <= i < |args| ==> IsArgument(args[i])
  {
    var pieces := SplitAtCommas(Strip(argsText, ListDelimiters));
    var args := StrippedNonEmpty(pieces);
    assert forall i :: 0 <= i < |args| ==> IsArgument(args[i]) by {
      SplitPieces(Strip(argsText, ListDelimiters));
      StrippedStayCommaFree(pieces);
    }
    args
  }

  /** The text between two arguments of a list as it is written in the source:
      whitespace, a comma, whitespace. */
  datatype Separator = Separator(before: string, after: string)

  predicate Blank(sep: Separator) {
    AllSpace(sep.before) && AllSpace(sep.after)
  }

  /** The arguments written out one after the other, with `seps[i]` between
      `args[i]` and `args[i + 1]`. */
  function Layout(args: seq<string>, seps: seq<Separator>): (text: string)
    requires args != [] && |seps| == |args| - 1
    ensures |text| >= |args[0]|
    decreases |args|
  {
    if |args| == 1 then args[0]
    else args[0] + seps[0].before + "," + seps[0].after + Layout(args[1..], seps[1..])
  }

  /** What may follow the last argument inside the brackets: whitespace, or a
      trailing comma with whitespace on either side of it. */
  function Closing(before: string, comma: bool, after: string): string {
    if comma then before + "," + after else before
  }

  /** Written-out arguments start where the first argument starts and end where
      the last one ends. */
  lemma {:induction false} LayoutEnds(args: seq<string>, seps: seq<Separator>)
    requires args != [] && |seps| == |args| - 1
    requires forall i :: 0 <= i < |args| ==> args[i] != []
    ensures Layout(args, seps) != []
    ensures Layout(args, seps)[0] == args[0][0]
    ensures Layout(args, seps)[|Layout(args, seps)| - 1] == args[|args| - 1][|args[|args| - 1]| - 1]
    decreases |args|
  {
    if |args| > 1 {
      LayoutEnds(args[1..], seps[1..]);
    }
  }

  /** Text without a comma is carried whole into the first piece. */
  lemma {:induction false} SplitAfterCommaFree(x: string, y: string)
    requires CommaFree(x)
    ensures SplitAtCommas(x + y) == [x + SplitAtCommas(y)[0]] + SplitAtCommas(y)[1..]
    decreases |x|
  {
    var p := SplitAtCommas(y);
    if x != [] {
      assert CommaFree(x[1..]);
      SplitAfterCommaFree(x[1..], y);
      SplitCommaFreeStep(x, y);
    } else {
      assert x + y == y;
      assert [] + p[0] == p[0];
      assert p == [p[0]] + p[1..];
    }
  }

  /** One step of the above: a first character other than a comma joins the
      first piece. */
  lemma {:induction false} SplitCommaFreeStep(x: string, y: string)
    requires x != [] && x[0] != ','
    requires SplitAtCommas(x[1..] + y) == [x[1..] + SplitAtCommas(y)[0]] + SplitAtCommas(y)[1..]
    ensures SplitAtCommas(x + y) == [x + SplitAtCommas(y)[0]] + SplitAtCommas(y)[1..]
  {
    var p := SplitAtCommas(y);
    var r := SplitAtCommas(x[1..] + y);
    assert SplitAtCommas(x + y) == [[x[0]] + r[0]] + r[1..] by {
      assert x + y == [x[0]] + (x[1..] + y);
      SplitCons(x[0], x[1..] + y);
    }
    Uncons(r, x[1..] + p[0], p[1..]);
    assert [x[0]] + (x[1..] + p[0]) == x + p[0] by {
      assert x == [x[0]] + x[1..];
    }
  }

  /** A character other than a comma joins the first piece of what follows. */
  lemma SplitCons(c: char, t: string)
    requires c != ','
    ensures SplitAtCommas([c] + t) == [[c] + SplitAtCommas(t)[0]] + SplitAtCommas(t)[1..]
  {
    assert ([c] + t)[1..] == t;
  }

  /** The head and the tail of a sequence built by prepending one element. */
  lemma Uncons<T>(r: seq<T>, h: T, t: seq<T>)
    requires r == [h] + t
    ensures r[0] == h && r[1..] == t
  {
  }

  /** Text without a comma is a single piece. */
  lemma {:induction false} SplitCommaFree(x: string)
    requires CommaFree(x)
    ensures SplitAtCommas(x) == [x]
  {
    SplitAfterCommaFree(x, []);
    assert SplitAtCommas([]) == [[]];
    assert x + [] == x;
  }

  /** Stripping well-formed arguments changes nothing and drops none of them. */
  lemma {:induction false} StrippedArguments(args: seq<string>)
    requires forall i :: 0 <= i < |args| ==> IsArgument(args[i])
    ensures StrippedNonEmpty(args) == args
    decreases |args|
  {
    if args != [] {
      assert IsArgument(args[0]);
      StripExactly([], args[0], [], Whitespace);
      assert [] + args[0] + [] == args[0];
      StrippedArguments(args[1..]);
    }
  }

  /** Filtering one piece in front of the others. */
  lemma {:induction false} StrippedCons(a: string, rest: seq<string>)
    ensures StrippedNonEmpty([a] + rest)
            == (if Strip(a, Whitespace) == [] then [] else [Strip(a, Whitespace)]) + StrippedNonEmpty(rest)
  {
    assert ([a] + rest)[0] == a;
    assert ([a] + rest)[1..] == rest;
  }

  /** What follows the last argument adds whitespace to the last piece and, with
      a trailing comma, one more piece that the filter drops. */
  lemma {:induction false} ClosingPieces(before: string, comma: bool, after: string)
    requires AllSpace(before) && AllSpace(after)
    ensures AllSpace(SplitAtCommas(Closing(before, comma, after))[0])
    ensures StrippedNonEmpty(SplitAtCommas(Closing(before, comma, after))[1..]) == []
  {
    assert CommaFree(before);
    if comma {
      assert SplitAtCommas("," + after) == [[], []] by {
        assert ("," + after)[1..] == after;
        TrimStartExactly(after, [], Whitespace);
        assert after + [] == after;
      }
      SplitAfterCommaFree(before, "," + after);
      assert before + "," + after == before + ("," + after);
      assert before + [] == before;
      assert SplitAtCommas(Closing(before, comma, after))[1..] == [[]];
      assert Strip([], Whitespace) == [];
    } else {
      SplitCommaFree(before);
    }
  }

  /** One argument, after leading whitespace and before a closing text whose
      pieces hold nothing, is all the filter keeps. */
  lemma {:induction false} PiecesOfOne(lead: string, a: string, w: string)
    requires AllSpace(lead) && IsArgument(a)
    requires AllSpace(SplitAtCommas(w)[0]) && StrippedNonEmpty(SplitAtCommas(w)[1..]) == []
    ensures StrippedNonEmpty(SplitAtCommas(lead + a + w)) == [a]
  {
    var p := SplitAtCommas(w);
    var x := lead + a;
    assert SplitAtCommas(x + w) == [x + p[0]] + p[1..] by {
      assert CommaFree(x);
      SplitAfterCommaFree(x, w);
    }
    assert Strip(x + p[0], Whitespace) == a by {
      StripExactly(lead, a, p[0], Whitespace);
    }
    StrippedCons(x + p[0], p[1..]);
    assert [a] + [] == [a];
  }

  /** A comma and whitespace in front of text that does not start with
      whitespace make one empty piece in front of that text's pieces. */
  lemma {:induction false} CommaSplit(after: string, tail: string)
    requires AllSpace(after) && tail != [] && !IsSpace(tail[0])
    ensures SplitAtCommas("," + (after + tail)) == [[]] + SplitAtCommas(tail)
  {
    assert ("," + (after + tail))[1..] == after + tail;
    TrimStartExactly(after, tail, Whitespace);
  }

  /** Comma-free text, a comma and whitespace in front of text that does not
      start with whitespace: the comma-free text is a piece of its own. */
  lemma {:induction false} SeparatorSplit(x: string, after: string, tail: string)
    requires CommaFree(x) && AllSpace(after) && tail != [] && !IsSpace(tail[0])
    ensures SplitAtCommas(x + "," + after + tail) == [x] + SplitAtCommas(tail)
  {
    var y := "," + (after + tail);
    assert x + "," + after + tail == x + y;
    CommaSplit(after, tail);
    SplitAfterCommaFree(x, y);
    assert x + [] == x;
  }

  /** An argument and a separator in front of text that does not start with
      whitespace add that argument in front of the text's arguments. */
  lemma {:induction false} PiecesStep(lead: string, a: string, sep: Separator, tail: string, rest: seq<string>)
    requires AllSpace(lead) && IsArgument(a) && Blank(sep)
    requires tail != [] && !IsSpace(tail[0])
    requires StrippedNonEmpty(SplitAtCommas(tail)) == rest
    ensures StrippedNonEmpty(SplitAtCommas(lead + a + sep.before + "," + sep.after + tail)) == [a] + rest
  {
    var x := lead + a + sep.before;
    SpacedArgumentCommaFree(lead, a, sep.before);
    SeparatorSplit(x, sep.after, tail);
    FilterStep(lead, a, sep.before, SplitAtCommas(tail));
  }

  /** Whitespace holds no comma, so an argument with whitespace around it holds none. */
  lemma {:induction false} SpacedArgumentCommaFree(lead: string, a: string, trail: string)
    requires AllSpace(lead) && CommaFree(a) && AllSpace(trail)
    ensures CommaFree(lead + a + trail)
  {
    assert !IsSpace(',');
    forall i | 0 <= i < |lead + a + trail|
      ensures (lead + a + trail)[i] != ','
    {
      if i < |lead| {
        assert (lead + a + trail)[i] == lead[i];
      } else if i < |lead + a| {
        assert (lead + a + trail)[i] == a[i - |lead|];
      } else {
        assert (lead + a + trail)[i] == trail[i - |lead + a|];
      }
    }
  }

  /** An argument with whitespace around it, in front of other pieces, is kept
      as the argument itself. */
  lemma {:induction false} FilterStep(lead: string, a: string, trail: string, pieces: seq<string>)
    requires AllSpace(lead) && IsArgument(a) && AllSpace(trail)
    ensures StrippedNonEmpty([lead + a + trail] + pieces) == [a] + StrippedNonEmpty(pieces)
  {
    StripExactly(lead, a, trail, Whitespace);
    StrippedCons(lead + a + trail, pieces);
  }

  /** The pieces of written-out arguments, after leading whitespace and before
      a closing text whose pieces hold nothing, strip back to the arguments. */
  lemma {:induction false} PiecesOfLayout(lead: string, args: seq<string>, seps: seq<Separator>, w: string)
    requires AllSpace(lead)
    requires args != [] && |seps| == |args| - 1
    requires forall i :: 0 <= i < |args| ==> IsArgument(args[i])
    requires forall i :: 0 <= i < |seps| ==> Blank(seps[i])
    requires AllSpace(SplitAtCommas(w)[0]) && StrippedNonEmpty(SplitAtCommas(w)[1..]) == []
    ensures StrippedNonEmpty(SplitAtCommas(lead + Layout(args, seps) + w)) == args
    decreases |args|
  {
    assert IsArgument(args[0]);
    if |args| == 1 {
      PiecesOfOne(lead, args[0], w);
      assert [args[0]] == args;
    } else {
      assert forall i :: 0 <= i < |args[1..]| ==> IsArgument(args[1..][i]);
      assert forall i :: 0 <= i < |seps[1..]| ==> Blank(seps[1..][i]);
      PiecesOfLayout([], args[1..], seps[1..], w);
      EmptyLead(Layout(args[1..], seps[1..]), w);
      LayoutStep(lead, args, seps, w);
    }
  }

  /** One step of the above: the first argument and separator in front of the
      other arguments, whose pieces are known. */
  lemma {:induction false} LayoutStep(lead: string, args: seq<string>, seps: seq<Separator>, w: string)
    requires AllSpace(lead)
    requires |args| > 1 && |seps| == |args| - 1
    requires forall i :: 0 <= i < |args| ==> IsArgument(args[i])
    requires Blank(seps[0])
    requires StrippedNonEmpty(SplitAtCommas(Layout(args[1..], seps[1..]) + w)) == args[1..]
    ensures StrippedNonEmpty(SplitAtCommas(lead + Layout(args, seps) + w)) == args
  {
    LayoutTailStartsArgument(args, seps, w);
    LayoutCons(lead, args, seps, w);
    assert IsArgument(args[0]);
    PiecesStep(lead, args[0], seps[0], Layout(args[1..], seps[1..]) + w, args[1..]);
    HeadTail(args);
  }

  lemma HeadTail<T>(s: seq<T>)
    requires s != []
    ensures [s[0]] + s[1..] == s
  {
  }

  /** What follows the first separator starts with the second argument's first
      character, which is not whitespace. */
  lemma {:induction false} LayoutTailStartsArgument(args: seq<string>, seps: seq<Separator>, w: string)
    requires |args| > 1 && |seps| == |args| - 1
    requires forall i :: 0 <= i < |args| ==> IsArgument(args[i])
    ensures Layout(args[1..], seps[1..]) + w != []
    ensures !IsSpace((Layout(args[1..], seps[1..]) + w)[0])
  {
    assert forall i :: 0 <= i < |args[1..]| ==> IsArgument(args[1..][i]);
    LayoutStartsArgument(args[1..], seps[1..], w);
  }

  /** Written-out arguments followed by anything start with the first character
      of the first argument, which is not whitespace. */
  lemma {:induction false} LayoutStartsArgument(args: seq<string>, seps: seq<Separator>, w: string)
    requires args != [] && |seps| == |args| - 1
    requires forall i :: 0 <= i < |args| ==> IsArgument(args[i])
    ensures Layout(args, seps) + w != [] && !IsSpace((Layout(args, seps) + w)[0])
  {
    assert IsArgument(args[0]);
    assert forall i :: 0 <= i < |args| ==> args[i] != [] by {
      forall i | 0 <= i < |args| ensures args[i] != [] {
        assert IsArgument(args[i]);
      }
    }
    LayoutEnds(args, seps);
  }

  /** The first argument and separator in front of the rest of the layout. */
  lemma {:induction false} LayoutCons(lead: string, args: seq<string>, seps: seq<Separator>, w: string)
    requires |args| > 1 && |seps| == |args| - 1
    ensures lead + Layout(args, seps) + w
            == lead + args[0] + seps[0].before + "," + seps[0].after + (Layout(args[1..], seps[1..]) + w)
  {
    var text := Layout(args[1..], seps[1..]);
    assert Layout(args, seps) == args[0] + seps[0].before + "," + seps[0].after + text;
    Regroup(lead, args[0] + seps[0].before + "," + seps[0].after, text, w);
    Regroup(lead, args[0] + seps[0].before + ",", seps[0].after, text + w);
  }

  /** Nothing in front changes nothing. */
  lemma EmptyLead(x: string, w: string)
    ensures [] + x + w == x + w
  {
    assert [] + x == x;
  }

  /** Concatenation is associative. */
  lemma Regroup(x: string, y: string, z: string, w: string)
    ensures x + (y + z) + w == x + y + (z + w)
  {
  }

  /** `strip('[] \n')` keeps what follows the last argument in the same form:
      it only shortens the whitespace at its end. */
  lemma {:induction false} TrimmedClosing(before: string, comma: bool, after: string)
    returns (before': string, after': string)
    requires AllSpace(before) && AllSpace(after)
    ensures AllSpace(before') && AllSpace(after')
    ensures TrimEnd(Closing(before, comma, after), ListDelimiters) == Closing(before', comma, after')
  {
    var c := Closing(before, comma, after);
    var t := TrimEnd(c, ListDelimiters);
    if comma {
      assert c[|before|] == ',';
      assert |t| > |before|;
      before', after' := before, t[|before| + 1..];
      assert forall i :: 0 <= i < |after'| ==> after'[i] == after[i];
      assert t == before + "," + after';
    } else {
      before', after' := t, after;
      assert forall i :: 0 <= i < |t| ==> t[i] == before[i];
    }
  }

  /** Order and contents are kept: an argument list written out inside brackets,
      with any whitespace around each separating comma, any whitespace after `[`
      and before `]` and an optional trailing comma (the multi-line layout),
      parses back to exactly the arguments written, as long as the first does
      not begin and the last does not end with a bracket. */
  lemma {:induction false} ParseWrittenList(args: seq<string>, seps: seq<Separator>, lead: string,
      before: string, comma: bool, after: string)
    requires args != [] && |seps| == |args| - 1
    requires forall i :: 0 <= i < |args| ==> IsArgument(args[i])
    requires forall i :: 0 <= i < |seps| ==> Blank(seps[i])
    requires args[0] != [] && !Strips(ListDelimiters, args[0][0])
    requires args[|args| - 1] != [] && !Strips(ListDelimiters, args[|args| - 1][|args[|args| - 1]| - 1])
    requires AllSpace(lead) && AllSpace(before) && AllSpace(after)
    ensures ParseArgs("[" + lead + Layout(args, seps) + Closing(before, comma, after) + "]") == args
  {
    var c := Closing(before, comma, after);
    var lead' := TrimStart(lead, ListDelimiters);
    var c' := TrimEnd(c, ListDelimiters);
    assert forall i :: 0 <= i < |args| ==> args[i] != [] by {
      forall i | 0 <= i < |args| ensures args[i] != [] {
        assert IsArgument(args[i]);
      }
    }
    WrittenListStrip(args, seps, lead, c);
    ParseStripped("[" + lead + Layout(args, seps) + c + "]", lead' + Layout(args, seps) + c');
    StrippedLeadIsBlank(lead);
    var before', after' := TrimmedClosing(before, comma, after);
    ClosingPieces(before', comma, after');
    PiecesOfLayout(lead', args, seps, c');
  }

  /** Parsing is splitting and filtering what the outer strip leaves. */
  lemma ParseStripped(s: string, t: string)
    requires Strip(s, ListDelimiters) == t
    ensures ParseArgs(s) == StrippedNonEmpty(SplitAtCommas(t))
  {
  }

  /** What the outer strip leaves of leading whitespace is whitespace. */
  lemma {:induction false} StrippedLeadIsBlank(lead: string)
    requires AllSpace(lead)
    ensures AllSpace(TrimStart(lead, ListDelimiters))
  {
    var lead' := TrimStart(lead, ListDelimiters);
    var k := |lead| - |lead'|;
    forall i | 0 <= i < |lead'|
      ensures IsSpace(lead'[i])
    {
      assert lead'[i] == lead[k + i];
    }
  }

  /** The outer strip of a written-out list keeps the arguments and what lies
      between them, and shortens only the whitespace at either end. */
  lemma {:induction false} WrittenListStrip(args: seq<string>, seps: seq<Separator>, lead: string, c: string)
    requires args != [] && |seps| == |args| - 1
    requires forall i :: 0 <= i < |args| ==> args[i] != []
    requires !Strips(ListDelimiters, args[0][0])
    requires !Strips(ListDelimiters, args[|args| - 1][|args[|args| - 1]| - 1])
    ensures Strip("[" + lead + Layout(args, seps) + c + "]", ListDelimiters)
            == TrimStart(lead, ListDelimiters) + Layout(args, seps) + TrimEnd(c, ListDelimiters)
  {
    LayoutEnds(args, seps);
    OuterStrip(lead, Layout(args, seps), c);
  }

  /** The outer strip removes `[` and the spaces and newlines after it, and stops
      at the first character it keeps. */
  lemma {:induction false} StripOpening(lead: string, text: string, c: string)
    requires text != [] && !Strips(ListDelimiters, text[0])
    ensures TrimStart("[" + lead + text + c + "]", ListDelimiters)
            == TrimStart(lead, ListDelimiters) + text + c + "]"
  {
    var r := text + c + "]";
    BracketRegroup(lead, text, c);
    DropOpening(lead + r);
    assert r[0] == text[0];
    TrimStartAppend(lead, r, ListDelimiters);
    TailRegroup(TrimStart(lead, ListDelimiters), text, c);
  }

  /** The bracketed text, grouped after the opening bracket and after the
      leading whitespace. */
  lemma BracketRegroup(lead: string, text: string, c: string)
    ensures "[" + lead + text + c + "]" == "[" + (lead + (text + c + "]"))
  {
  }

  /** What follows the leading whitespace, regrouped. */
  lemma TailRegroup(l: string, text: string, c: string)
    ensures l + (text + c + "]") == l + text + c + "]"
  {
  }

  /** `[` is stripped from the front. */
  lemma {:induction false} DropOpening(rest: string)
    ensures TrimStart("[" + rest, ListDelimiters) == TrimStart(rest, ListDelimiters)
  {
    assert ("[" + rest)[0] == '[';
    assert ("[" + rest)[1..] == rest;
  }

  /** The outer strip removes `]` and the spaces and newlines before it, and stops
      at the last character it keeps. */
  lemma {:induction false} StripClosing(lead: string, text: string, c: string)
    requires text != [] && !Strips(ListDelimiters, text[|text| - 1])
    ensures TrimEnd(lead + text + c + "]", ListDelimiters) == lead + text + TrimEnd(c, ListDelimiters)
  {
    var l := lead + text;
    var c' := TrimEnd(c, ListDelimiters);
    var back := c[|c'|..];
    assert c == c' + back;
    ClosingRegroup(l, c', back);
    assert forall i :: 0 <= i < |back + "]"| ==> Strips(ListDelimiters, (back + "]")[i]) by {
      assert forall i :: 0 <= i < |back| ==> back[i] == c[|c'| + i];
    }
    assert !Strips(ListDelimiters, (l + c')[|l + c'| - 1]) by {
      if c' == [] {
        assert (l + c')[|l + c'| - 1] == text[|text| - 1];
      } else {
        assert (l + c')[|l + c'| - 1] == c'[|c'| - 1];
      }
    }
    TrimEndExactly(l + c', back + "]", ListDelimiters);
  }

  /** The bracketed text, grouped before the trailing stripped characters. */
  lemma ClosingRegroup(l: string, c': string, back: string)
    ensures l + (c' + back) + "]" == (l + c') + (back + "]")
  {
  }

  /** The outer strip removes `[`, `]` and the spaces and newlines next to them,
      and stops at the text inside or at the whitespace around it. */
  lemma {:induction false} OuterStrip(lead: string, text: string, c: string)
    requires text != [] && !Strips(ListDelimiters, text[0]) && !Strips(ListDelimiters, text[|text| - 1])
    ensures Strip("[" + lead + text + c + "]", ListDelimiters)
            == TrimStart(lead, ListDelimiters) + text + TrimEnd(c, ListDelimiters)
  {
    StripOpening(lead, text, c);
    StripClosing(TrimStart(lead, ListDelimiters), text, c);
  }

  /** `[]`, or a list holding only whitespace, gives no arguments at all. */
  lemma {:induction false} BlankListHasNoArguments(blank: string)
    requires forall i :: 0 <= i < |blank| ==> IsSpace(blank[i])
    ensures ParseArgs("[" + blank + "]") == []
  {
    BracketedBlankStripsToSpace("[" + blank + "]", blank);
    SpaceRunHasNoArguments(Strip("[" + blank + "]", ListDelimiters));
  }

  /** What is left of a bracketed run of whitespace after the outer strip is
      whitespace. */
  lemma {:induction false} BracketedBlankStripsToSpace(s: string, blank: string)
    requires s == "[" + blank + "]"
    requires forall i :: 0 <= i < |blank| ==> IsSpace(blank[i])
    ensures forall j :: 0 <= j < |Strip(s, ListDelimiters)| ==> IsSpace(Strip(s, ListDelimiters)[j])
  {
    var t := TrimStart(s, ListDelimiters);
    var r := TrimEnd(t, ListDelimiters);
    assert s[0] == '[' && s[|s| - 1] == ']';
    assert |t| < |s|;
    assert t != [] ==> t[|t| - 1] == ']';
    assert |r| < |t| || t == [];
    assert forall j :: 0 <= j < |r| ==> r[j] == s[|s| - |t| + j];
  }

  /** A run of whitespace splits into one blank piece, which the filter drops. */
  lemma {:induction false} SpaceRunHasNoArguments(r: string)
    requires forall j :: 0 <= j < |r| ==> IsSpace(r[j])
    ensures StrippedNonEmpty(SplitAtCommas(r)) == []
  {
    assert SplitAtCommas(r) == [r] by {
      assert CommaFree(r);
      SplitAfterCommaFree(r, []);
      assert r + [] == r;
    }
    assert Strip(r, Whitespace) == [] by {
      StripExactly(r, [], [], Whitespace);
      assert r + [] + [] == r;
    }
  }

  /** The split ignores brackets: one call with two arguments becomes two
      arguments `f(a` and `b)`. */
  lemma {:induction false} SplitIgnoresBrackets()
    ensures ParseArgs("[f(a, b)]") == ["f(a", "b)"]
  {
    var args := ["f(a", "b)"];
    var seps := [Separator([], " ")];
    assert Layout(args, seps) == "f(a, b)" by {
      assert Layout(args[1..], seps[1..]) == "b)";
    }
    assert "[" + [] + "f(a, b)" + Closing([], false, []) + "]" == "[f(a, b)]";
    assert IsArgument(args[0]) && IsArgument(args[1]);
    ParseWrittenList(args, seps, [], [], false, []);
  }

  /** The multi-line layout with a trailing comma parses to its two arguments. */
  lemma {:induction false} MultiLineList()
    ensures ParseArgs("[\n  name,\n  type,\n]") == ["name", "type"]
  {
    var args := ["name", "type"];
    var seps := [Separator([], "\n  ")];
    assert Layout(args, seps) == "name,\n  type" by {
      assert Layout(args[1..], seps[1..]) == "type";
    }
    assert "[" + "\n  " + "name,\n  type" + Closing([], true, "\n") + "]" == "[\n  name,\n  type,\n]";
    assert IsArgument(args[0]) && IsArgument(args[1]);
    ParseWrittenList(args, seps, "\n  ", [], true, "\n");
  }
}
