/** The `ollama_mysql` AI backend of `ai_ollama_mysql.py`: reading the
    `[ai.xxx.mysql]` block into a `Config`, deciding whether the backend
    has a database step at all, adding the comparison to the prompt, and
    appending it to the AI comment.

    The Ollama base backend is outside the model: its prompt and its
    response are parameters, and so is its "not evaluated" marker.
 */
module OllamaMySql {

  import opened Wrappers
  import opened Text
  import opened Extract
  import opened Compare
  import opened Upsert

  // ---------------------------------------------------------------------------
  // get_mysql_config

  /** A scalar TOML value. */
  datatype Value = Str(s: string) | Int(i: int) | Bool(b: bool)

  /** Python truthiness of a scalar. */
  predicate Truthy(v: Value) {
    match v
    case Str(s) => s != []
    case Int(i) => i != 0
    case Bool(b) => b
  }

  /** A decimal integer literal as Python's `int(str)` accepts it once the
      surrounding whitespace is stripped: an optional sign and a digit run
      of at most `IntMaxStrDigits` digits (underscores and the sign do not
      count). */
  predicate IntLiteral(t: string) {
    || DecimalDigits(t)
    || (|t| > 1 && IsSign(t[0]) && DecimalDigits(t[1..]))
  }

  predicate DecimalDigits(d: string) {
    DigitRun(d) && |DropUnderscores(d)| <= IntMaxStrDigits
  }

  /** Python's `int(v)`; a text that is not an integer literal raises. */
  function PyInt(v: Value): (r: Outcome<int>)
    ensures v.Int? ==> r == Returned(v.i)
    ensures v.Bool? ==> r == Returned(if v.b then 1 else 0)
    ensures v.Str? ==> (r.Returned? <==> IntLiteral(Strip(v.s)))
    ensures v.Str? && r.Returned? && DigitRun(Strip(v.s)) ==> r.value >= 0
  {
    match v
    case Int(i) => Returned(i)
    case Bool(b) => Returned(if b then 1 else 0)
    case Str(s) =>
      var t := Strip(s);
      if !IntLiteral(t) then Raised
      else if DecimalDigits(t) then
        DropUnderscoresDigits(t);
        Returned(DigitsValue(DropUnderscores(t)))
      else
        DropUnderscoresDigits(t[1..]);
        var n: int := DigitsValue(DropUnderscores(t[1..]));
        if t[0] == '-' then Returned(-n) else Returned(n)
  }

  /** Underscores between digit groups are ignored: `int("10_000")` is
      10000. */
  lemma PyIntUnderscore(a: string, b: string)
    requires |a| > 0 && AllDigits(a) && |b| > 0 && AllDigits(b) && |a| + |b| <= IntMaxStrDigits
    ensures PyInt(Str(a + "_" + b)) == Returned(DigitsValue(a + b))
  {
    var t := a + "_" + b;
    DigitGroupsJoin(a, b);
    StripUnchanged(t);
    DigitsValueAppend(a, b);
  }

  /** A doubled, leading or trailing underscore makes `int()` raise. */
  lemma PyIntBadUnderscore(a: string, b: string)
    requires |a| > 0 && AllDigits(a) && |b| > 0 && AllDigits(b)
    ensures PyInt(Str(a + "__" + b)).Raised?
    ensures PyInt(Str("_" + a)).Raised?
    ensures PyInt(Str(a + "_")).Raised?
  {
    var t := a + "__" + b;
    assert t[|a|] == '_' && t[|a| + 1] == '_';
    StripUnchanged(t);
    var u := "_" + a;
    StripUnchanged(u);
    var w := a + "_";
    assert w[|w| - 1] == '_';
    StripUnchanged(w);
  }

  /** A number written out in decimal, with no more digits than `int()`
      converts, reads back as itself. */
  lemma PyIntRoundTrip(i: int)
    requires |IntToString(if i < 0 then -i else i)| <= IntMaxStrDigits
    ensures PyInt(Str(IntToString(i))) == Returned(i)
  {
    if i < 0 {
      PyIntOfNegative(i);
    } else {
      PyIntOfDigits(IntToString(i));
    }
  }

  /** The negative half of the round trip: `-` and the digits of `-i`. */
  lemma PyIntOfNegative(i: int)
    requires i < 0 && |IntToString(-i)| <= IntMaxStrDigits
    ensures PyInt(Str(IntToString(i))) == Returned(i)
  {
    var s := IntToString(i);
    assert s == "-" + IntToString(-i);
    PyIntMinusDigits(s, i);
  }

  /** `-` followed by the plain digits of `-i` reads as `i`. */
  lemma PyIntMinusDigits(s: string, i: int)
    requires |s| > 1 && s[0] == '-' && AllDigits(s[1..]) && |s| - 1 <= IntMaxStrDigits
    requires DigitsValue(s[1..]) == -i
    ensures PyInt(Str(s)) == Returned(i)
  {
    var d := s[1..];
    DigitsAreDecimal(d);
    assert Strip(s) == s by {
      assert s[|s| - 1] == d[|d| - 1];
      StripUnchanged(s);
    }
    PyIntNegative(s);
  }

  /** A plain digit string within the cap reads as its value. */
  lemma PyIntOfDigits(d: string)
    requires |d| > 0 && AllDigits(d) && |d| <= IntMaxStrDigits
    ensures PyInt(Str(d)) == Returned(DigitsValue(d))
  {
    DigitsAreDecimal(d);
    assert Strip(d) == d by { StripUnchanged(d); }
  }

  /** A stripped text of a minus sign and convertible plain digits reads
      as the negated value of its digits. */
  lemma PyIntNegative(t: string)
    requires Strip(t) == t && |t| > 1 && t[0] == '-' && AllDigits(t[1..])
    requires DecimalDigits(t[1..]) && DropUnderscores(t[1..]) == t[1..]
    ensures PyInt(Str(t)) == Returned(-(DigitsValue(t[1..]) as int))
  {
    assert !DecimalDigits(t) by { assert !IsDigit(t[0]); }
  }

  /** A plain digit string within the cap is a convertible digit run with
      no underscore to drop. */
  lemma DigitsAreDecimal(d: string)
    requires |d| > 0 && AllDigits(d) && |d| <= IntMaxStrDigits
    ensures DecimalDigits(d) && DropUnderscores(d) == d
  {
    assert DigitsOrUnderscores(d) by {
      forall k | 0 <= k < |d| ensures IsDigit(d[k]) || d[k] == '_' { }
    }
    DropUnderscoresDigits(d);
    assert forall k :: 0 <= k < |d| - 1 ==> d[k] != '_';
  }

  /** More digits than `int()` converts make it raise, although the text
      is a well-formed literal. */
  lemma PyIntTooManyDigits(d: string)
    requires AllDigits(d) && |d| > IntMaxStrDigits
    ensures PyInt(Str(d)).Raised?
    ensures PyInt(Str("-" + d)).Raised?
  {
    TooManyDigits(d);
    assert Strip(d) == d by { StripUnchanged(d); }
    assert !IntLiteral(d) by { assert !IsSign(d[0]); }
    var n := "-" + d;
    assert n[0] == '-' && n[1..] == d;
    assert Strip(n) == n by {
      assert n[|n| - 1] == d[|d| - 1];
      StripUnchanged(n);
    }
    assert !IntLiteral(n) by { assert !IsDigit(n[0]); }
  }

  /** The bed count read from a `(\d+)` group is what `int()` returns for
      it, and is unset exactly when `int()` raises. */
  lemma BedsValueIsPyInt(g: string)
    requires |g| > 0 && AllDigits(g)
    ensures BedsValue(g).Some? <==> PyInt(Str(g)).Returned?
    ensures BedsValue(g).Some? ==> PyInt(Str(g)) == Returned(BedsValue(g).value)
  {
    if |g| <= IntMaxStrDigits {
      PyIntOfDigits(g);
    } else {
      PyIntTooManyDigits(g);
    }
  }

  predicate IsSign(c: char) { c == '+' || c == '-' }

  /** A digit string longer than the cap is not a convertible digit run. */
  lemma TooManyDigits(d: string)
    requires AllDigits(d) && |d| > IntMaxStrDigits
    ensures !DecimalDigits(d)
  {
    assert DigitsOrUnderscores(d) by {
      forall k | 0 <= k < |d| ensures IsDigit(d[k]) || d[k] == '_' { }
    }
    DropUnderscoresDigits(d);
  }

  /** The decimal text of a number has no surrounding whitespace. */
  lemma IntToStringStripped(i: int)
    ensures Strip(IntToString(i)) == IntToString(i)
  {
    var s := IntToString(i);
    assert !IsSpace(s[0]) && !IsSpace(s[|s| - 1]) by {
      if i < 0 { assert s[|s| - 1] == s[1..][|s| - 2]; }
    }
    StripUnchanged(s);
  }

  /** The keys of the `mysql` table that `get_mysql_config` reads, each
      absent or present, and the set of any other keys it holds. */
  datatype MySqlTable = MySqlTable(
    host: Option<string>,
    port: Option<Value>,
    user: Option<string>,
    password: Option<string>,
    database: Option<string>,
    enabled: Option<Value>,
    comparisonQuery: Option<string>,
    comparisonTable: Option<string>,
    maxRows: Option<Value>,
    outputFormat: Option<string>,
    otherKeys: set<string>)

  predicate IsEmptyTable(t: MySqlTable) {
    && t.host.None? && t.port.None? && t.user.None? && t.password.None? && t.database.None?
    && t.enabled.None? && t.comparisonQuery.None? && t.comparisonTable.None? && t.maxRows.None?
    && t.outputFormat.None? && t.otherKeys == {}
  }

  /** The `mysql` attribute: missing, some value that is not a table, or a
      table. */
  datatype MySqlBlock = Absent | NotATable | Table(table: MySqlTable)

  /** Every key the block sets is taken from it, and every key it leaves
      out keeps its default. */
  predicate ReadsBlock(t: MySqlTable, c: Config) {
    && c.host == t.host.GetOr(DefaultConfig.host)
    && (t.port.None? ==> c.port == DefaultConfig.port)
    && c.user == t.user.GetOr(DefaultConfig.user)
    && c.password == t.password.GetOr(DefaultConfig.password)
    && c.database == t.database.GetOr(DefaultConfig.database)
    && c.enabled == (t.enabled.None? || Truthy(t.enabled.value))
    && c.comparisonQuery == t.comparisonQuery.GetOr("")
    && c.comparisonTable == t.comparisonTable.GetOr("")
    && (t.maxRows.None? ==> c.maxRows == DefaultConfig.maxRows)
    && c.outputFormat == t.outputFormat.GetOr(DefaultConfig.outputFormat)
  }

  /** Every setting the block cannot reach keeps its default: in
      particular neither sales comps nor the listings upsert are ever on. */
  predicate OnlyBlockSettings(c: Config) {
    c == DefaultConfig.(host := c.host, port := c.port, user := c.user, password := c.password,
                        database := c.database, enabled := c.enabled, comparisonQuery := c.comparisonQuery,
                        comparisonTable := c.comparisonTable, maxRows := c.maxRows, outputFormat := c.outputFormat)
  }

  /** `get_mysql_config`: `None` unless the block is a non-empty table;
      otherwise a configuration built from the ten keys it reads. `int()`
      of a port or row cap that is not an integer raises. */
  function GetMySqlConfig(block: MySqlBlock): (r: Outcome<Option<Config>>)
    ensures (block.Absent? || block.NotATable? || (block.Table? && IsEmptyTable(block.table))) ==> r == Returned(None)
    ensures block.Table? && !IsEmptyTable(block.table) ==> r != Returned(None)
    ensures r.Raised? <==>
      block.Table? && !IsEmptyTable(block.table)
      && ((block.table.port.Some? && PyInt(block.table.port.value).Raised?)
          || (block.table.maxRows.Some? && PyInt(block.table.maxRows.value).Raised?))
    ensures r.Returned? && r.value.Some? ==>
      && ReadsBlock(block.table, r.value.value)
      && OnlyBlockSettings(r.value.value)
      && (block.table.port.Some? ==> Returned(r.value.value.port) == PyInt(block.table.port.value))
      && (block.table.maxRows.Some? ==> Returned(r.value.value.maxRows) == PyInt(block.table.maxRows.value))
  {
    if !block.Table? || IsEmptyTable(block.table) then Returned(None)
    else
      var t := block.table;
      var port := PyInt(t.port.GetOr(Int(DefaultConfig.port)));
      var maxRows := PyInt(t.maxRows.GetOr(Int(DefaultConfig.maxRows)));
      if port.Raised? || maxRows.Raised? then Raised
      else
        Returned(Some(DefaultConfig.(
          host := t.host.GetOr(DefaultConfig.host),
          port := port.value,
          user := t.user.GetOr(DefaultConfig.user),
          password := t.password.GetOr(DefaultConfig.password),
          database := t.database.GetOr(DefaultConfig.database),
          enabled := t.enabled.None? || Truthy(t.enabled.value),
          comparisonQuery := t.comparisonQuery.GetOr(""),
          comparisonTable := t.comparisonTable.GetOr(""),
          maxRows := maxRows.value,
          outputFormat := t.outputFormat.GetOr(DefaultConfig.outputFormat))))
  }

  /** A table holding only keys the backend does not read yields the
      defaults. */
  lemma UnknownKeysGiveDefaults(t: MySqlTable)
    requires t.otherKeys != {}
    requires t == MySqlTable(None, None, None, None, None, None, None, None, None, None, t.otherKeys)
    ensures GetMySqlConfig(Table(t)) == Returned(Some(DefaultConfig))
  {
  }

  // ---------------------------------------------------------------------------
  // OllamaMySQLBackend.__init__

  /** The configuration of the backend's `MySQLCompare`, `None` when the
      backend has no database step: the block yields a configuration that
      is enabled and names a custom query or a comparison table. */
  function BackendCompare(block: MySqlBlock): (r: Outcome<Option<Config>>)
    ensures r.Raised? <==> GetMySqlConfig(block).Raised?
    ensures r.Returned? && r.value.Some? <==>
      && GetMySqlConfig(block).Returned? && GetMySqlConfig(block).value.Some?
      && var c := GetMySqlConfig(block).value.value;
         c.enabled && (c.comparisonQuery != "" || c.comparisonTable != "")
    ensures r.Returned? && r.value.Some? ==> r.value == GetMySqlConfig(block).value
  {
    match GetMySqlConfig(block)
    case Raised => Raised
    case Returned(c) =>
      if c.Some? && c.value.enabled && (c.value.comparisonQuery != "" || c.value.comparisonTable != "")
      then Returned(c) else Returned(None)
  }

  /** The backend never inserts listings, and the comparison it fetches
      never depends on the sales oracle or the location tables: a block can
      turn neither sales comps nor the upsert on. */
  lemma BackendNeverUsesSalesOrInsert(block: MySqlBlock, l: Listing, itemName: string, connected: bool, db1: Db, db2: Db)
    requires BackendCompare(block).Returned? && BackendCompare(block).value.Some?
    requires forall q :: db1.sql(q) == db2.sql(q)
    requires forall q :: db1.similar(q) == db2.similar(q)
    ensures var c := BackendCompare(block).value.value;
      && !c.useSalesComps && !InsertEnabled(c)
      && FetchComparison(c, l, itemName, connected, db1) == FetchComparison(c, l, itemName, connected, db2)
  {
    var c := BackendCompare(block).value.value;
    assert OnlyBlockSettings(c);
    assert !c.useSalesComps && !c.insertIntoFb;
    if c.comparisonQuery != "" {
      CustomQueryTakesPrecedence(c, l, itemName, connected, db1, db2);
    } else {
      var q := SimilarQueryFor(c, l);
      if q.Some? { assert db1.similar(q.value) == db2.similar(q.value); }
      assert RunBuiltinComparison(c, l, db1.similar) == RunBuiltinComparison(c, l, db2.similar);
      assert SummaryParts(c, l, itemName, db1) == SummaryParts(c, l, itemName, db2);
    }
  }

  // ---------------------------------------------------------------------------
  // get_prompt

  const PromptHeader: string := "\n\n--- Comparison data from your database " + "(use this to compare prices/conditions): ---\n"
  const PromptFooter: string := "\n--- End of comparison data ---\n"

  /** The comparison block added to a prompt, if any. */
  function Decoration(comparison: Option<Comparison>): string {
    if comparison.Some? && comparison.value.summary != [] then PromptHeader + comparison.value.summary + PromptFooter
    else ""
  }

  /** `get_prompt`: the base prompt, followed, when the backend has a
      database step and the fetch yields a non-empty summary, by that
      summary between a header and a footer. */
  function GetPrompt(base: string, compare: Option<Config>, l: Listing, itemName: string, connected: bool, db: Db)
    : (p: string)
    ensures base <= p
    ensures compare.None? ==> p == base
    ensures compare.Some? ==>
      var f := FetchComparison(compare.value, l, itemName, connected, db);
      && (f.Some? ==> p == base + PromptHeader + f.value.summary + PromptFooter)
      && (f.None? ==> p == base)
  {
    if compare.None? then base
    else
      var f := FetchComparison(compare.value, l, itemName, connected, db);
      assert f.Some? ==> f.value.summary != [];
      var d := Decoration(f);
      PrefixOfAppend(base, d);
      if f.Some? then
        Regroup(base, PromptHeader, f.value.summary, PromptFooter);
        base + d
      else
        assert base + d == base;
        base + d
  }

  lemma PrefixOfAppend(a: string, b: string)
    ensures a <= a + b
  {
    assert (a + b)[..|a|] == a;
  }

  lemma Regroup(a: string, b: string, c: string, d: string)
    ensures a + (b + c + d) == a + b + c + d
  {
  }

  /** The summary can be read back out of a decorated prompt. */
  lemma PromptRoundTrip(base: string, summary: string)
    ensures var p := base + PromptHeader + summary + PromptFooter;
      && |p| == |base| + |PromptHeader| + |summary| + |PromptFooter|
      && p[..|base|] == base
      && p[|base| + |PromptHeader|..|p| - |PromptFooter|] == summary
      && p[|p| - |PromptFooter|..] == PromptFooter
  {
    FourPieces(base, PromptHeader, summary, PromptFooter);
  }

  /** Each piece of a four-piece concatenation is found back by position. */
  lemma FourPieces(a: string, b: string, c: string, d: string)
    ensures var p := a + b + c + d;
      && |p| == |a| + |b| + |c| + |d|
      && p[..|a|] == a
      && p[|a| + |b|..|p| - |d|] == c
      && p[|p| - |d|..] == d
  {
    var p := a + b + c + d;
    assert p == a + (b + (c + d));
  }

  // ---------------------------------------------------------------------------
  // evaluate

  datatype AIResponse = AIResponse(name: string, score: int, comment: string)

  const DbSeparator: string := " | DB: "

  /** `(output_format or "full")`. */
  function OutputFormat(c: Config): string {
    if c.outputFormat != [] then c.outputFormat else "full"
  }

  /** The comparison as it goes into the comment: each `\n` replaced by a
      space (other line separators such as `\r` stay), stripped, and in the
      short format cut to 120 characters plus an ellipsis. */
  function DbText(summary: string, format: string): (r: string)
    ensures '\n' !in r
    ensures format == "short" ==> |r| <= 123
    ensures format == "short" ==> r == Ellipsize(Strip(Replace(summary, "\n", " ")), 120)
    ensures var t := Strip(Replace(summary, "\n", " "));
      format == "short" && |t| > 120 ==> r == t[..120] + "..."
    ensures var t := Strip(Replace(summary, "\n", " "));
      format == "short" && |t| <= 120 ==> r == t
    ensures format != "short" ==> r == Strip(Replace(summary, "\n", " "))
  {
    var t := Strip(Replace(summary, "\n", " "));
    assert '\n' !in t by {
      ReplaceCharRemovesIt(summary, '\n', " ");
      StripKeepsAbsent(Replace(summary, "\n", " "), '\n');
    }
    if format == "short" then
      var r := Ellipsize(t, 120);
      assert '\n' !in r by {
        if |t| > 120 {
          forall k | 0 <= k < |r| ensures r[k] != '\n' {
            if k < 120 { assert r[k] == r[..120][k] == t[..120][k] == t[k]; }
            else { assert r[k] == r[120..][k - 120]; }
          }
        }
      }
      r
    else t
  }

  /** `evaluate`: the base response, with ` | DB: ` and the comparison
      appended to its comment when the backend has a database step, the
      fetch yields a non-empty summary, the response was evaluated and the
      output format is not `none`. The name and score never change. */
  function Evaluate(response: AIResponse, notEvaluated: string, compare: Option<Config>,
                    l: Listing, itemName: string, connected: bool, db: Db): (r: AIResponse)
    ensures r.name == response.name && r.score == response.score
    ensures response.comment <= r.comment
    ensures r.comment != response.comment <==>
      && compare.Some? && response.comment != notEvaluated && OutputFormat(compare.value) != "none"
      && var f := FetchComparison(compare.value, l, itemName, connected, db); f.Some? && f.value.summary != []
    ensures r.comment != response.comment ==>
      var f := FetchComparison(compare.value, l, itemName, connected, db);
      r.comment == response.comment + DbSeparator + DbText(f.value.summary, OutputFormat(compare.value))
  {
    if compare.None? then response
    else
      var f := FetchComparison(compare.value, l, itemName, connected, db);
      if f.Some? && f.value.summary != [] && response.comment != notEvaluated && OutputFormat(compare.value) != "none"
      then AIResponse(response.name, response.score,
                      response.comment + DbSeparator + DbText(f.value.summary, OutputFormat(compare.value)))
      else response
  }

  /** The text `evaluate` appends to a comment adds no `\n`, and in the
      short format at most 130 characters. */
  lemma DbSuffixHasNoNewline(comment: string, summary: string, format: string)
    ensures var c := comment + DbSeparator + DbText(summary, format);
      && c[..|comment|] == comment
      && '\n' !in c[|comment|..]
      && (format == "short" ==> |c| <= |comment| + 130)
  {
    var d := DbText(summary, format);
    var tail := DbSeparator + d;
    assert comment + DbSeparator + d == comment + tail;
    assert |DbSeparator| == 7 && '\n' !in DbSeparator;
    forall k | 0 <= k < |tail| ensures tail[k] != '\n' {
      if k < 7 { assert tail[k] == DbSeparator[k]; } else { assert tail[k] == d[k - 7]; }
    }
  }
}
