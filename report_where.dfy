/** The SQL half of the report filter engine (internal/repository/report.go):
    base-column filters become a WHERE fragment. Each kept filter yields one
    clause over a fixed column; consecutive clauses are joined by the
    connector of the filter just before the kept one in the ORIGINAL chain;
    the whole list is wrapped in one pair of parentheses, with no parentheses
    per clause. The fragment is modelled as the list of its tokens. */
module ReportWhere {
  import opened Common
  import opened Strings
  import opened ReportFilter

  /** The field names a client may filter on in SQL, and their columns. */
  const ColumnMap: map<string, string> := map[
    "ID" := "a.id",
    "Name" := "a.name",
    "AssetTypeName" := "at.name",
    "Model" := "a.model",
    "SerialNumber" := "a.serial_number",
    "OrderNo" := "a.order_no",
    "LicenseNumber" := "a.license_number",
    "Notes" := "a.notes",
    "PurchasedAt" := "a.purchased_at",
    "CurrentAssignee" := "p.name",
    "Email" := "p.email",
    "Phone" := "p.phone",
    "PersonName" := "p.name",
    "PersonEmail" := "p.email",
    "PersonPhone" := "p.phone"
  ]

  /** sanitizeFieldName: the column of a known field, "" for every other name,
      in particular for every custom-field name. */
  function SanitizeFieldName(field: string): (column: string)
    ensures column == "" <==> field !in ColumnMap
  {
    if field in ColumnMap then ColumnMap[field] else ""
  }

  /** Custom-field names never reach SQL: every known field starts with an
      upper-case letter, and `prop_` and `attr_` do not. */
  lemma CustomFieldHasNoColumn(field: string)
    ensures IsCustomField(field) ==> SanitizeFieldName(field) == ""
  {
    if IsCustomField(field) {
      assert field[..5][0] == field[0];
      assert field[0] == 'p' || field[0] == 'a';
    }
  }

  /** The operators that compare against a bound argument (`?`). */
  const ParameterisedOperators: set<string> := {"=", "!=", ">", "<", ">=", "<=", "LIKE", "NOT LIKE"}

  /** One clause: `column operator ?` or `column IS [NOT] NULL`. */
  datatype Clause = Clause(column: string, operator: string)

  datatype Token = Condition(clause: Clause) | Keyword(connector: Connector)

  /** The SQL text of one token. */
  function TokenText(t: Token): string {
    match t
    case Condition(c) =>
      if c.operator in ParameterisedOperators then c.column + " " + c.operator + " ?"
      else c.column + " " + c.operator
    case Keyword(And) => "AND"
    case Keyword(Or) => "OR"
  }

  /** What buildWhereClause yields for one filter: nothing, or a clause with
      the argument it binds (None when there is no argument or it is nil). */
  datatype ClauseOutcome = Dropped | Emitted(clause: Clause, arg: Option<string>)

  /** buildWhereClause */
  function BuildWhereClause(f: Filter): ClauseOutcome {
    var column := SanitizeFieldName(f.field);
    if column == "" then Dropped
    else
      match f.operator
      case "=" => Emitted(Clause(column, "="), f.value)
      case "!=" => Emitted(Clause(column, "!="), f.value)
      case ">" => Emitted(Clause(column, ">"), f.value)
      case "<" => Emitted(Clause(column, "<"), f.value)
      case ">=" => Emitted(Clause(column, ">="), f.value)
      case "<=" => Emitted(Clause(column, "<="), f.value)
      case "LIKE" => Emitted(Clause(column, "LIKE"), Some("%" + Show(f.value) + "%"))
      case "NOT LIKE" => Emitted(Clause(column, "NOT LIKE"), Some("%" + Show(f.value) + "%"))
      case "IS NULL" => Emitted(Clause(column, "IS NULL"), None)
      case "IS NOT NULL" => Emitted(Clause(column, "IS NOT NULL"), None)
      case _ => Dropped
  }

  /** A filter is dropped exactly when its field has no column or its operator
      is unknown; otherwise its clause is over the field's column with the
      filter's operator. IS [NOT] NULL binds nothing, LIKE and NOT LIKE bind the
      value wrapped in `%`, the comparisons bind the value itself (nil included). */
  lemma BuildWhereClauseCases(f: Filter)
    ensures var r := BuildWhereClause(f);
            && (r.Dropped? <==> f.field !in ColumnMap || f.operator !in Operators)
            && (r.Emitted? ==> r.clause == Clause(ColumnMap[f.field], f.operator))
            && (r.Emitted? && (f.operator == "IS NULL" || f.operator == "IS NOT NULL") ==> r.arg == None)
            && (r.Emitted? && (f.operator == "LIKE" || f.operator == "NOT LIKE") ==> r.arg == Some("%" + Show(f.value) + "%"))
            && (r.Emitted? && f.operator in ParameterisedOperators - {"LIKE", "NOT LIKE"} ==> r.arg == f.value)
  {
  }

  /** What buildWhereClause yields for each filter of the chain. */
  function Outcomes(filters: seq<Filter>): (outs: seq<ClauseOutcome>)
    ensures |outs| == |filters|
    ensures forall i :: 0 <= i < |filters| ==> outs[i] == BuildWhereClause(filters[i])
  {
    seq(|filters|, i requires 0 <= i < |filters| => BuildWhereClause(filters[i]))
  }

  /** The connector each filter stores for joining the next one. */
  function Conns(filters: seq<Filter>): (cs: seq<Connector>)
    ensures |cs| == |filters|
    ensures forall i :: 0 <= i < |filters| ==> cs[i] == ConnectorOf(filters[i].logicOperator)
  {
    seq(|filters|, i requires 0 <= i < |filters| => ConnectorOf(filters[i].logicOperator))
  }

  /** Only a parameterised clause binds an argument. */
  predicate ArgsParameterised(outs: seq<ClauseOutcome>) {
    forall i :: 0 <= i < |outs| && outs[i].Emitted? && outs[i].arg.Some? ==>
      outs[i].clause.operator in ParameterisedOperators
  }

  lemma OutcomesArgsParameterised(filters: seq<Filter>)
    ensures ArgsParameterised(Outcomes(filters))
  {
    var outs := Outcomes(filters);
    forall i | 0 <= i < |outs| && outs[i].Emitted? && outs[i].arg.Some?
      ensures outs[i].clause.operator in ParameterisedOperators
    {
      BuildWhereClauseCases(filters[i]);
    }
  }

  /** How much buildWhereClause bumps the argument counter: one per parameterised clause. */
  function Bump(o: ClauseOutcome): nat {
    if o.Emitted? && o.clause.operator in ParameterisedOperators then 1 else 0
  }

  /** The tokens, arguments and counter bumps after a prefix of the chain. */
  datatype Compiled = Compiled(tokens: seq<Token>, args: seq<string>, bumps: nat)

  /** The specification of buildWhereClauseWithLogic's loop after `n` filters,
      given each filter's outcome and stored connector. */
  function CompileUpTo(outs: seq<ClauseOutcome>, conns: seq<Connector>, n: nat): (r: Compiled)
    requires |outs| == |conns| && n <= |outs|
    ensures |r.tokens| > 0 ==> n > 0
  {
    if n == 0 then Compiled([], [], 0)
    else
      var prev := CompileUpTo(outs, conns, n - 1);
      match outs[n - 1]
      case Dropped => prev
      case Emitted(c, arg) =>
        var joint := if |prev.tokens| > 0 then [Keyword(conns[n - 2])] else [];
        Compiled(prev.tokens + joint + [Condition(c)],
                 prev.args + (if arg.Some? then [arg.value] else []),
                 prev.bumps + Bump(outs[n - 1]))
  }

  /** The WHERE fragment, arguments and counter bumps of a whole chain. */
  function Compile(filters: seq<Filter>): Compiled {
    CompileUpTo(Outcomes(filters), Conns(filters), |filters|)
  }

  /** buildWhereClauseWithLogic. An empty token list stands for the empty string
      (no WHERE fragment); a non-empty one for "(" + the tokens joined by spaces + ")".
      The argument counter is passed in and its final value returned. */
  method BuildWhereClauseWithLogic(filters: seq<Filter>, argCounter: int)
    returns (clauses: seq<Token>, args: seq<string>, counter: int)
    ensures clauses == Compile(filters).tokens
    ensures args == Compile(filters).args
    ensures counter == argCounter + Compile(filters).bumps
  {
    clauses, args, counter := [], [], argCounter;
    if |filters| == 0 {
      return;
    }
    ghost var outs, conns := Outcomes(filters), Conns(filters);
    for i := 0 to |filters|
      invariant clauses == CompileUpTo(outs, conns, i).tokens
      invariant args == CompileUpTo(outs, conns, i).args
      invariant counter == argCounter + CompileUpTo(outs, conns, i).bumps
    {
      var outcome := BuildWhereClause(filters[i]);
      assert outcome == outs[i];
      if outcome.Dropped? {
        continue;
      }
      if outcome.clause.operator in ParameterisedOperators {
        counter := counter + 1;
      }
      if |clauses| > 0 {
        var logicOp := if filters[i - 1].logicOperator == "OR" then Or else And;
        assert logicOp == conns[i - 1];
        clauses := clauses + [Keyword(logicOp)];
      }
      clauses := clauses + [Condition(outcome.clause)];
      if outcome.arg.Some? {
        args := args + [outcome.arg.value];
      }
    }
  }

  // -----------------------------------------------------------------------
  // The shape of the fragment.

  /** The positions of the outcomes that are clauses, in order. */
  function KeptIndices(outs: seq<ClauseOutcome>, n: nat): (ks: seq<nat>)
    requires n <= |outs|
    ensures forall k :: 0 <= k < |ks| ==> ks[k] < n && outs[ks[k]].Emitted?
    ensures forall k, l :: 0 <= k < l < |ks| ==> ks[k] < ks[l]
    ensures forall i :: 0 <= i < n && outs[i].Emitted? ==> i in ks
  {
    if n == 0 then []
    else KeptIndices(outs, n - 1) + (if outs[n - 1].Emitted? then [n - 1] else [])
  }

  /** The fragment alternates clause, connector, clause, ...: it is empty exactly
      when no filter is kept; otherwise its k-th clause is that of the k-th kept
      filter, and the connector before it is the one stored on the filter just
      before that one in the original chain, whether or not that filter was kept. */
  ghost predicate Shape(tokens: seq<Token>, ks: seq<nat>, outs: seq<ClauseOutcome>, conns: seq<Connector>)
    requires |outs| == |conns|
    requires forall k :: 0 <= k < |ks| ==> ks[k] < |outs| && outs[ks[k]].Emitted?
  {
    && (|ks| == 0 <==> tokens == [])
    && (|ks| > 0 ==> |tokens| == 2 * |ks| - 1)
    && (forall k :: 0 <= k < |ks| ==> tokens[2 * k] == Condition(outs[ks[k]].clause))
    && (forall k :: 1 <= k < |ks| ==> ks[k] >= 1 && tokens[2 * k - 1] == Keyword(conns[ks[k] - 1]))
  }

  lemma {:induction false} CompileShape(outs: seq<ClauseOutcome>, conns: seq<Connector>, n: nat)
    requires |outs| == |conns| && n <= |outs|
    ensures var c, ks := CompileUpTo(outs, conns, n), KeptIndices(outs, n);
            && (|ks| == 0 <==> c.tokens == [])
            && (|ks| > 0 ==> |c.tokens| == 2 * |ks| - 1)
            && (forall k :: 0 <= k < |ks| ==> c.tokens[2 * k] == Condition(outs[ks[k]].clause))
            && (forall k :: 1 <= k < |ks| ==> ks[k] >= 1 && c.tokens[2 * k - 1] == Keyword(conns[ks[k] - 1]))
  {
    ShapeUpTo(outs, conns, n);
  }

  lemma {:induction false} ShapeUpTo(outs: seq<ClauseOutcome>, conns: seq<Connector>, n: nat)
    requires |outs| == |conns| && n <= |outs|
    ensures Shape(CompileUpTo(outs, conns, n).tokens, KeptIndices(outs, n), outs, conns)
  {
    if n > 0 {
      ShapeUpTo(outs, conns, n - 1);
      if outs[n - 1].Emitted? {
        ShapeStep(outs, conns, n);
      } else {
        assert CompileUpTo(outs, conns, n) == CompileUpTo(outs, conns, n - 1);
        assert KeptIndices(outs, n) == KeptIndices(outs, n - 1);
      }
    }
  }

  /** One kept filter more keeps the shape. */
  lemma ShapeStep(outs: seq<ClauseOutcome>, conns: seq<Connector>, n: nat)
    requires |outs| == |conns| && 0 < n <= |outs| && outs[n - 1].Emitted?
    requires Shape(CompileUpTo(outs, conns, n - 1).tokens, KeptIndices(outs, n - 1), outs, conns)
    ensures Shape(CompileUpTo(outs, conns, n).tokens, KeptIndices(outs, n), outs, conns)
  {
    var prev, ks := CompileUpTo(outs, conns, n - 1), KeptIndices(outs, n - 1);
    assert |prev.tokens| > 0 ==> |ks| > 0 && ks[0] < n - 1;
    ShapeAppend(prev.tokens, ks, outs, conns, n - 1);
    var joint := if |prev.tokens| > 0 then [Keyword(conns[n - 2])] else [];
    var tokens, kept := prev.tokens + joint + [Condition(outs[n - 1].clause)], ks + [n - 1];
    assert Shape(tokens, kept, outs, conns);
    assert CompileUpTo(outs, conns, n).tokens == tokens;
    assert KeptIndices(outs, n) == kept;
  }

  /** Appending the clause of kept position `m` (with its connector, when it
      is not the first) keeps the shape. */
  lemma ShapeAppend(tokens: seq<Token>, ks: seq<nat>, outs: seq<ClauseOutcome>, conns: seq<Connector>, m: nat)
    requires |outs| == |conns| && m < |outs| && outs[m].Emitted?
    requires forall k :: 0 <= k < |ks| ==> ks[k] < m && outs[ks[k]].Emitted?
    requires Shape(tokens, ks, outs, conns)
    requires |tokens| > 0 ==> m > 0
    ensures var joint := if |tokens| > 0 then [Keyword(conns[m - 1])] else [];
            Shape(tokens + joint + [Condition(outs[m].clause)], ks + [m], outs, conns)
  {
    var ks' := ks + [m];
    if |ks| > 0 {
      var t := tokens + [Keyword(conns[m - 1])] + [Condition(outs[m].clause)];
      forall k | 0 <= k < |ks'| ensures t[2 * k] == Condition(outs[ks'[k]].clause) {
        if k < |ks| {
          assert t[2 * k] == tokens[2 * k];
        }
      }
      forall k | 1 <= k < |ks'| ensures ks'[k] >= 1 && t[2 * k - 1] == Keyword(conns[ks'[k] - 1]) {
        if k < |ks| {
          assert t[2 * k - 1] == tokens[2 * k - 1];
        } else {
          assert ks[0] < m;
        }
      }
    }
  }

  /** Every `?` of the fragment has an argument unless its filter's value was
      nil: the placeholders number the counter bumps, which number the bound
      arguments plus the nil-valued comparisons. */
  lemma {:induction false} PlaceholderAccounting(outs: seq<ClauseOutcome>, conns: seq<Connector>, n: nat)
    requires |outs| == |conns| && n <= |outs|
    requires ArgsParameterised(outs)
    ensures Placeholders(CompileUpTo(outs, conns, n).tokens) == CompileUpTo(outs, conns, n).bumps
    ensures CompileUpTo(outs, conns, n).bumps == |CompileUpTo(outs, conns, n).args| + NilComparisons(outs, n)
  {
    if n > 0 {
      PlaceholderAccounting(outs, conns, n - 1);
      var prev := CompileUpTo(outs, conns, n - 1);
      match outs[n - 1]
      case Dropped =>
      case Emitted(c, arg) =>
        var joint := if |prev.tokens| > 0 then [Keyword(conns[n - 2])] else [];
        PlaceholdersAppend(prev.tokens, joint + [Condition(c)]);
        PlaceholdersAppend(joint, [Condition(c)]);
        assert prev.tokens + joint + [Condition(c)] == prev.tokens + (joint + [Condition(c)]);
    }
  }

  /** The number of `?` placeholders in a token list. */
  function Placeholders(tokens: seq<Token>): nat {
    if |tokens| == 0 then 0
    else
      (if tokens[0].Condition? && tokens[0].clause.operator in ParameterisedOperators then 1 else 0)
      + Placeholders(tokens[1..])
  }

  lemma {:induction false} PlaceholdersAppend(a: seq<Token>, b: seq<Token>)
    ensures Placeholders(a + b) == Placeholders(a) + Placeholders(b)
  {
    if |a| > 0 {
      PlaceholdersAppend(a[1..], b);
      assert (a + b)[1..] == a[1..] + b;
    } else {
      assert a + b == b;
    }
  }

  /** Kept comparisons whose value is nil: they get a `?` but no argument. */
  function NilComparisons(outs: seq<ClauseOutcome>, n: nat): nat
    requires n <= |outs|
  {
    if n == 0 then 0
    else NilComparisons(outs, n - 1) + (if Bump(outs[n - 1]) == 1 && outs[n - 1].arg.None? then 1 else 0)
  }

  // -----------------------------------------------------------------------
  // How the database reads the fragment, against the in-memory fold.

  /** The clauses' connectors, in order, of an alternating token list. */
  function Keywords(tokens: seq<Token>): (cs: seq<Connector>)
    requires Alternates(tokens)
    ensures |cs| == |tokens| / 2
  {
    seq(|tokens| / 2, k requires 0 <= k < |tokens| / 2 => tokens[2 * k + 1].connector)
  }

  /** The database's reading of b0 c0 b1 c1 ... : AND binds tighter than OR.
      The pair is (some finished AND-run held, the current AND-run holds). */
  function SqlRuns(bs: seq<bool>, cs: seq<Connector>): (bool, bool)
    requires |bs| == |cs| + 1
  {
    if |cs| == 0 then (false, bs[0])
    else
      var (done, run) := SqlRuns(bs[..|bs| - 1], cs[..|cs| - 1]);
      match cs[|cs| - 1]
      case And => (done, run && bs[|bs| - 1])
      case Or => (done || run, bs[|bs| - 1])
  }

  function SqlEval(bs: seq<bool>, cs: seq<Connector>): bool
    requires |bs| == |cs| + 1
  {
    var (done, run) := SqlRuns(bs, cs);
    done || run
  }

  lemma {:induction false} SqlAllAnd(bs: seq<bool>, cs: seq<Connector>)
    requires |bs| == |cs| + 1
    requires forall i :: 0 <= i < |cs| ==> cs[i] == And
    ensures SqlRuns(bs, cs) == (false, forall i :: 0 <= i < |bs| ==> bs[i])
  {
    if |cs| > 0 {
      SqlAllAnd(bs[..|bs| - 1], cs[..|cs| - 1]);
    }
  }

  lemma {:induction false} SqlAllOr(bs: seq<bool>, cs: seq<Connector>)
    requires |bs| == |cs| + 1
    requires forall i :: 0 <= i < |cs| ==> cs[i] == Or
    ensures SqlRuns(bs, cs).0 || SqlRuns(bs, cs).1 <==> exists i :: 0 <= i < |bs| && bs[i]
  {
    if |cs| > 0 {
      var n := |bs| - 1;
      SqlAllOr(bs[..n], cs[..|cs| - 1]);
      if SqlRuns(bs[..n], cs[..|cs| - 1]).0 || SqlRuns(bs[..n], cs[..|cs| - 1]).1 {
        var k :| 0 <= k < n && bs[..n][k];
        assert bs[k];
      }
    }
  }

  /** Every connector of the chain is the same. */
  predicate Uniform(cs: seq<Connector>) {
    forall i :: 0 <= i < |cs| ==> cs[i] == cs[0]
  }

  /** When every connector of a chain is the same, the database's precedence
      reading and the strict left fold agree. */
  lemma UniformChainParity(bs: seq<bool>, cs: seq<Connector>)
    requires |bs| == |cs| + 1
    requires Uniform(cs)
    ensures SqlEval(bs, cs) == FoldChain(bs, cs)
  {
    if |cs| == 0 {
    } else if cs[0] == And {
      SqlAllAnd(bs, cs);
      FoldAllAnd(bs, cs);
    } else {
      SqlAllOr(bs, cs);
      FoldAllOr(bs, cs);
    }
  }

  /** With mixed connectors they can disagree: `T OR F AND F` is true for the
      database and false for the left fold `(T OR F) AND F`. */
  lemma MixedChainDisagrees()
    ensures SqlEval([true, false, false], [Or, And])
    ensures !FoldChain([true, false, false], [Or, And])
  {
  }

  /** The fragment alternates clause, connector, clause, ... */
  predicate Alternates(tokens: seq<Token>) {
    |tokens| % 2 == 1 && forall k :: 0 <= k < |tokens| / 2 ==> tokens[2 * k + 1].Keyword?
  }

  /** For a chain in which every filter is kept and all connectors agree, the
      compiled fragment carries exactly the chain's connectors, and read by the
      database with the truth value of each clause it accepts exactly the rows
      the in-memory fold accepts with the same truth values. */
  lemma WhereParity(filters: seq<Filter>, holds: seq<bool>)
    requires |filters| > 0 && |holds| == |filters|
    requires forall i :: 0 <= i < |filters| ==> BuildWhereClause(filters[i]).Emitted?
    requires Uniform(Links(filters))
    ensures Alternates(Compile(filters).tokens)
    ensures Alternates(Compile(filters).tokens) ==> Keywords(Compile(filters).tokens) == Links(filters)
    ensures Alternates(Compile(filters).tokens) ==>
              SqlEval(holds, Keywords(Compile(filters).tokens)) == FoldChain(holds, Links(filters))
  {
    CompiledConnectors(filters);
    var links := Links(filters);
    UniformChainParity(holds, links);
  }

  lemma CompiledConnectors(filters: seq<Filter>)
    requires |filters| > 0
    requires forall i :: 0 <= i < |filters| ==> BuildWhereClause(filters[i]).Emitted?
    ensures Alternates(Compile(filters).tokens)
    ensures Keywords(Compile(filters).tokens) == Links(filters)
  {
    LinksAreConns(filters);
    ConnectorsOfAllKept(Outcomes(filters), Conns(filters), |filters|);
  }

  lemma LinksAreConns(filters: seq<Filter>)
    requires |filters| > 0
    ensures Links(filters) == Conns(filters)[..|filters| - 1]
  {
  }

  /** When every outcome is a clause, the fragment's connectors are exactly the
      stored connectors of all filters but the last. */
  lemma ConnectorsOfAllKept(outs: seq<ClauseOutcome>, conns: seq<Connector>, n: nat)
    requires |outs| == |conns| && 0 < n <= |outs|
    requires forall i :: 0 <= i < n ==> outs[i].Emitted?
    ensures |CompileUpTo(outs, conns, n).tokens| == 2 * n - 1
    ensures Alternates(CompileUpTo(outs, conns, n).tokens)
    ensures Keywords(CompileUpTo(outs, conns, n).tokens) == conns[..n - 1]
  {
    ShapeUpTo(outs, conns, n);
    AllKept(outs, n);
    var tokens := CompileUpTo(outs, conns, n).tokens;
    ShapeKeywords(tokens, KeptIndices(outs, n), outs, conns);
  }

  /** With every position kept, the keyword before clause k + 1 is the
      connector stored on filter k. */
  lemma ShapeKeywords(tokens: seq<Token>, ks: seq<nat>, outs: seq<ClauseOutcome>, conns: seq<Connector>)
    requires |outs| == |conns| && 0 < |ks| <= |outs|
    requires forall k :: 0 <= k < |ks| ==> ks[k] == k && outs[k].Emitted?
    requires Shape(tokens, ks, outs, conns)
    ensures |tokens| == 2 * |ks| - 1
    ensures Alternates(tokens)
    ensures Keywords(tokens) == conns[..|ks| - 1]
  {
    var n := |ks|;
    assert |tokens| == 2 * n - 1;
    assert |tokens| / 2 == n - 1 && |tokens| % 2 == 1;
    forall k | 0 <= k < n - 1 ensures tokens[2 * k + 1] == Keyword(conns[k]) {
      assert tokens[2 * (k + 1) - 1] == Keyword(conns[ks[k + 1] - 1]);
    }
    forall k | 0 <= k < |tokens| / 2 ensures tokens[2 * k + 1].Keyword? {
      assert tokens[2 * k + 1] == Keyword(conns[k]);
    }
    var cs := Keywords(tokens);
    assert |cs| == n - 1;
    forall k | 0 <= k < n - 1 ensures cs[k] == conns[k] {
      assert cs[k] == tokens[2 * k + 1].connector;
    }
  }

  /** When every outcome is a clause, the kept positions are 0, 1, ..., n - 1. */
  lemma {:induction false} AllKept(outs: seq<ClauseOutcome>, n: nat)
    requires n <= |outs|
    requires forall i :: 0 <= i < n ==> outs[i].Emitted?
    ensures |KeptIndices(outs, n)| == n
    ensures forall k :: 0 <= k < n ==> KeptIndices(outs, n)[k] == k
  {
    if n > 0 {
      AllKept(outs, n - 1);
    }
  }
}
