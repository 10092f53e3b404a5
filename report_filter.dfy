/** The in-memory half of the report filter engine (internal/repository/report.go):
    a client filter chain is split into base-column filters and custom-field
    filters; the custom-field filters are evaluated against each merged result
    row as a strict left fold, each condition joined to the previous result by
    the connector stored on the PRECEDING condition. */
module ReportFilter {
  import opened Common
  import opened Strings

  /** One client condition (FilterCondition). `value` is None when the client
      sent JSON null, i.e. Go's nil interface value. */
  datatype Filter = Filter(field: string, operator: string, value: Option<string>, logicOperator: string)

  /** A result row: column or custom-field name to value; None is SQL NULL (Go nil). */
  type Row = map<string, Option<string>>

  datatype Connector = And | Or

  /** The operators the engine knows; any other string is "unknown". */
  const Operators: set<string> :=
    {"=", "!=", ">", "<", ">=", "<=", "LIKE", "NOT LIKE", "IS NULL", "IS NOT NULL"}

  /** A connector string other than exactly "OR" means AND. */
  function ConnectorOf(logic: string): (c: Connector)
    ensures c == Or <==> logic == "OR"
  {
    if logic == "OR" then Or else And
  }

  function Combine(acc: bool, c: Connector, b: bool): bool {
    match c
    case Or => acc || b
    case And => acc && b
  }

  /** fmt.Sprintf("%v", v) for a string or nil value. */
  function Show(v: Option<string>): string {
    match v
    case None => "<nil>"
    case Some(s) => s
  }

  /** A present field whose value is nil or the empty string. */
  predicate NullOrEmpty(v: Option<string>) {
    v == None || v == Some("")
  }

  /** matchesFilter: one condition against one row. */
  function MatchesFilter(row: Row, f: Filter): bool {
    var present := f.field in row;
    if f.operator == "IS NULL" then !present || NullOrEmpty(row[f.field])
    else if f.operator == "IS NOT NULL" then present && !NullOrEmpty(row[f.field])
    else if !present then false
    else
      var fieldStr, filterStr := Show(row[f.field]), Show(f.value);
      match f.operator
      case "=" => fieldStr == filterStr
      case "!=" => fieldStr != filterStr
      case "LIKE" => Contains(ToLower(fieldStr), ToLower(filterStr))
      case "NOT LIKE" => !Contains(ToLower(fieldStr), ToLower(filterStr))
      case ">" => Compare(fieldStr, filterStr) > 0
      case "<" => Compare(fieldStr, filterStr) < 0
      case ">=" => Compare(fieldStr, filterStr) >= 0
      case "<=" => Compare(fieldStr, filterStr) <= 0
      case _ => false
  }

  /** IS NULL holds exactly when the field is absent, nil or empty, and
      IS NOT NULL is its complement; every other operator fails on an absent field. */
  lemma NullOperators(row: Row, f: Filter)
    ensures MatchesFilter(row, f.(operator := "IS NULL"))
            <==> f.field !in row || row[f.field] == None || row[f.field] == Some("")
    ensures MatchesFilter(row, f.(operator := "IS NOT NULL")) <==> !MatchesFilter(row, f.(operator := "IS NULL"))
    ensures f.field !in row && f.operator != "IS NULL" && f.operator != "IS NOT NULL" ==> !MatchesFilter(row, f)
  {
  }

  /** On a present field: `=`/`!=`, `LIKE`/`NOT LIKE`, `<`/`>=` and `>`/`<=` are
      complementary pairs; LIKE is a case-insensitive substring test; an unknown
      operator never matches. */
  lemma PresentFieldOperators(row: Row, f: Filter)
    requires f.field in row
    ensures MatchesFilter(row, f.(operator := "=")) <==> Show(row[f.field]) == Show(f.value)
    ensures MatchesFilter(row, f.(operator := "!=")) <==> !MatchesFilter(row, f.(operator := "="))
    ensures MatchesFilter(row, f.(operator := "LIKE"))
            <==> Contains(ToLower(Show(row[f.field])), ToLower(Show(f.value)))
    ensures MatchesFilter(row, f.(operator := "NOT LIKE")) <==> !MatchesFilter(row, f.(operator := "LIKE"))
    ensures MatchesFilter(row, f.(operator := "<")) <==> !MatchesFilter(row, f.(operator := ">="))
    ensures MatchesFilter(row, f.(operator := ">")) <==> !MatchesFilter(row, f.(operator := "<="))
    ensures f.operator !in Operators ==> !MatchesFilter(row, f)
  {
  }

  /** LIKE ignores the case of both the stored value and the pattern. */
  lemma LikeIgnoresCase(row: Row, f: Filter, s: string)
    requires f.operator == "LIKE" && f.value.Some?
    requires f.field in row && row[f.field] == Some(s)
    ensures MatchesFilter(row, f) == MatchesFilter(row[f.field := Some(ToLower(s))], f.(value := Some(ToLower(f.value.value))))
  {
    ToLowerIdempotent(s);
    ToLowerIdempotent(f.value.value);
  }

  /** LIKE folds case beyond ASCII: an accented, Greek or Cyrillic capital
      in the pattern matches its small letter in the stored value. */
  lemma LikeFoldsNonAsciiCapitals()
    ensures MatchesFilter(map["prop_x" := Some("caf\U{00E9}")], Filter("prop_x", "LIKE", Some("CAF\U{00C9}"), "AND"))
    ensures MatchesFilter(map["prop_x" := Some("\U{03B1}\U{03B2}")], Filter("prop_x", "LIKE", Some("\U{0391}\U{0392}"), "AND"))
    ensures MatchesFilter(map["prop_x" := Some("\U{0434}\U{0430}")], Filter("prop_x", "LIKE", Some("\U{0414}\U{0410}"), "AND"))
  {
    LikeLowerCopy("caf\U{00E9}", "CAF\U{00C9}");
    LikeLowerCopy("\U{03B1}\U{03B2}", "\U{0391}\U{0392}");
    LikeLowerCopy("\U{0434}\U{0430}", "\U{0414}\U{0410}");
  }

  /** A stored value matches LIKE against any pattern that lower-cases to it. */
  lemma LikeLowerCopy(s: string, pattern: string)
    requires ToLower(pattern) == ToLower(s)
    ensures MatchesFilter(map["prop_x" := Some(s)], Filter("prop_x", "LIKE", Some(pattern), "AND"))
  {
    var t := ToLower(s);
    assert t[0..|t|] == t;
    assert OccursAt(t, t, 0);
  }

  // -----------------------------------------------------------------------
  // The chain.

  /** The truth value of each condition of the chain on `row`. */
  function Leaves(row: Row, filters: seq<Filter>): (bs: seq<bool>)
    ensures |bs| == |filters|
  {
    seq(|filters|, i requires 0 <= i < |filters| => MatchesFilter(row, filters[i]))
  }

  /** The connectors that join the chain: the i-th joins condition i to
      condition i + 1 and is read from condition i. The last condition's
      connector is not among them. */
  function Links(filters: seq<Filter>): (cs: seq<Connector>)
    requires |filters| > 0
    ensures |cs| == |filters| - 1
  {
    seq(|filters| - 1, i requires 0 <= i < |filters| - 1 => ConnectorOf(filters[i].logicOperator))
  }

  /** The strict left fold b0 c0 b1 c1 b2 ... = ((b0 c0 b1) c1 b2) ... */
  function FoldChain(bs: seq<bool>, cs: seq<Connector>): bool
    requires |bs| == |cs| + 1
  {
    if |cs| == 0 then bs[0]
    else Combine(FoldChain(bs[..|bs| - 1], cs[..|cs| - 1]), cs[|cs| - 1], bs[|bs| - 1])
  }

  /** What matchesPostFilters computes: the empty chain accepts every row. */
  function ChainMatches(row: Row, filters: seq<Filter>): bool {
    if |filters| == 0 then true else FoldChain(Leaves(row, filters), Links(filters))
  }

  /** matchesPostFilters */
  method MatchesPostFilters(record: Row, filters: seq<Filter>) returns (matched: bool)
    ensures matched == ChainMatches(record, filters)
  {
    if |filters| == 0 {
      return true;
    }
    ghost var bs, cs := Leaves(record, filters), Links(filters);
    var currentMatch := true;
    var nextOperator := "AND";
    for i := 0 to |filters|
      invariant i > 0 ==> currentMatch == FoldChain(bs[..i], cs[..i - 1])
      invariant i > 0 ==> nextOperator == (if filters[i - 1].logicOperator == "OR" then "OR" else "AND")
    {
      var fieldMatch := MatchesFilter(record, filters[i]);
      if i == 0 {
        currentMatch := fieldMatch;
      } else {
        assert bs[..i + 1][..i] == bs[..i] && cs[..i][..i - 1] == cs[..i - 1];
        if nextOperator == "OR" {
          currentMatch := currentMatch || fieldMatch;
        } else {
          currentMatch := currentMatch && fieldMatch;
        }
      }
      nextOperator := filters[i].logicOperator;
      if nextOperator != "OR" {
        nextOperator := "AND";
      }
    }
    assert bs[..|filters|] == bs && cs[..|filters| - 1] == cs;
    matched := currentMatch;
  }

  /** A chain joined only by AND accepts exactly when every condition holds. */
  lemma {:induction false} FoldAllAnd(bs: seq<bool>, cs: seq<Connector>)
    requires |bs| == |cs| + 1
    requires forall i :: 0 <= i < |cs| ==> cs[i] == And
    ensures FoldChain(bs, cs) <==> forall i :: 0 <= i < |bs| ==> bs[i]
  {
    if |cs| > 0 {
      FoldAllAnd(bs[..|bs| - 1], cs[..|cs| - 1]);
    }
  }

  /** A chain joined only by OR accepts exactly when some condition holds. */
  lemma {:induction false} FoldAllOr(bs: seq<bool>, cs: seq<Connector>)
    requires |bs| == |cs| + 1
    requires forall i :: 0 <= i < |cs| ==> cs[i] == Or
    ensures FoldChain(bs, cs) <==> exists i :: 0 <= i < |bs| && bs[i]
  {
    if |cs| > 0 {
      var n := |bs| - 1;
      FoldAllOr(bs[..n], cs[..|cs| - 1]);
      if FoldChain(bs[..n], cs[..|cs| - 1]) {
        var k :| 0 <= k < n && bs[..n][k];
        assert bs[k];
      }
    }
  }

  /** The last condition's connector is never read, and any connector other
      than "OR" acts as "AND". */
  lemma ConnectorsRead(row: Row, filters: seq<Filter>, i: nat, logic: string)
    requires i < |filters|
    requires i == |filters| - 1 || (filters[i].logicOperator != "OR" && logic != "OR")
    ensures ChainMatches(row, filters[i := filters[i].(logicOperator := logic)]) == ChainMatches(row, filters)
  {
    var g := filters[i := filters[i].(logicOperator := logic)];
    assert Leaves(row, g) == Leaves(row, filters);
    assert Links(g) == Links(filters);
  }

  /** The chain is evaluated strictly left to right: its first condition alone
      decides a one-element chain, and appending a condition combines the
      previous result with it through the connector of the previous last. */
  lemma {:induction false} ChainAppend(row: Row, filters: seq<Filter>, f: Filter)
    requires |filters| > 0
    ensures ChainMatches(row, [f]) == MatchesFilter(row, f)
    ensures ChainMatches(row, filters + [f])
            == Combine(ChainMatches(row, filters), ConnectorOf(filters[|filters| - 1].logicOperator), MatchesFilter(row, f))
  {
    var g := filters + [f];
    assert Leaves(row, g)[..|g| - 1] == Leaves(row, filters);
    assert Links(g)[..|g| - 2] == Links(filters);
  }

  // -----------------------------------------------------------------------
  // separateFilters

  /** A custom-field name: an asset property or a person attribute. */
  predicate IsCustomField(field: string) {
    HasPrefix(field, "prop_") || HasPrefix(field, "attr_")
  }

  /** The base-column filters of a chain, in order. */
  function BaseFilters(filters: seq<Filter>): seq<Filter> {
    if |filters| == 0 then []
    else
      var last := filters[|filters| - 1];
      BaseFilters(filters[..|filters| - 1]) + (if IsCustomField(last.field) then [] else [last])
  }

  /** The custom-field filters of a chain, in order. */
  function CustomFilters(filters: seq<Filter>): seq<Filter> {
    if |filters| == 0 then []
    else
      var last := filters[|filters| - 1];
      CustomFilters(filters[..|filters| - 1]) + (if IsCustomField(last.field) then [last] else [])
  }

  /** separateFilters; the entity type is not consulted. */
  method SeparateFilters(filters: seq<Filter>, entityType: string) returns (sqlFilters: seq<Filter>, postFilters: seq<Filter>)
    ensures sqlFilters == BaseFilters(filters)
    ensures postFilters == CustomFilters(filters)
  {
    sqlFilters, postFilters := [], [];
    for i := 0 to |filters|
      invariant sqlFilters == BaseFilters(filters[..i])
      invariant postFilters == CustomFilters(filters[..i])
    {
      assert filters[..i + 1][..i] == filters[..i];
      var filter := filters[i];
      if HasPrefix(filter.field, "prop_") || HasPrefix(filter.field, "attr_") {
        postFilters := postFilters + [filter];
      } else {
        sqlFilters := sqlFilters + [filter];
      }
    }
    assert filters[..|filters|] == filters;
  }

  /** The split is a partition: every base filter is a non-custom condition of
      the chain, every custom filter a custom one, and together they hold each
      condition of the chain exactly once. */
  lemma {:induction false} SeparateIsPartition(filters: seq<Filter>)
    ensures forall f :: f in BaseFilters(filters) ==> !IsCustomField(f.field)
    ensures forall f :: f in CustomFilters(filters) ==> IsCustomField(f.field)
    ensures multiset(BaseFilters(filters)) + multiset(CustomFilters(filters)) == multiset(filters)
  {
    SeparateSides(filters);
    SeparateCounts(filters);
  }

  lemma {:induction false} SeparateSides(filters: seq<Filter>)
    ensures forall f :: f in BaseFilters(filters) ==> !IsCustomField(f.field)
    ensures forall f :: f in CustomFilters(filters) ==> IsCustomField(f.field)
  {
    if |filters| > 0 {
      SeparateSides(filters[..|filters| - 1]);
    }
  }

  lemma {:induction false} SeparateCounts(filters: seq<Filter>)
    ensures multiset(BaseFilters(filters)) + multiset(CustomFilters(filters)) == multiset(filters)
  {
    if |filters| > 0 {
      var init, last := filters[..|filters| - 1], filters[|filters| - 1];
      SeparateCounts(init);
      if IsCustomField(last.field) {
        assert BaseFilters(filters) == BaseFilters(init);
        assert CustomFilters(filters) == CustomFilters(init) + [last];
      } else {
        assert BaseFilters(filters) == BaseFilters(init) + [last];
        assert CustomFilters(filters) == CustomFilters(init);
      }
      MultisetInitLast(filters);
    }
  }

  lemma MultisetInitLast<T>(s: seq<T>)
    requires |s| > 0
    ensures multiset(s) == multiset(s[..|s| - 1]) + multiset{s[|s| - 1]}
  {
    assert s == s[..|s| - 1] + [s[|s| - 1]];
  }

  // -----------------------------------------------------------------------
  // applyPostFilters

  /** The rows that satisfy the chain, in their original order. */
  function Selected(rows: seq<Row>, filters: seq<Filter>): seq<Row> {
    if |rows| == 0 then []
    else
      var last := rows[|rows| - 1];
      Selected(rows[..|rows| - 1], filters) + (if ChainMatches(last, filters) then [last] else [])
  }

  /** applyPostFilters */
  method ApplyPostFilters(results: seq<Row>, filters: seq<Filter>) returns (filtered: seq<Row>)
    ensures filtered == Selected(results, filters)
  {
    filtered := [];
    for i := 0 to |results|
      invariant filtered == Selected(results[..i], filters)
    {
      assert results[..i + 1][..i] == results[..i];
      var matched := MatchesPostFilters(results[i], filters);
      if matched {
        filtered := filtered + [results[i]];
      }
    }
    assert results[..|results|] == results;
  }

  /** Selection keeps exactly the rows that satisfy the chain, and never more rows than it was given. */
  lemma {:induction false} SelectedRows(rows: seq<Row>, filters: seq<Filter>)
    ensures |Selected(rows, filters)| <= |rows|
    ensures forall r :: r in Selected(rows, filters) <==> r in rows && ChainMatches(r, filters)
  {
    if |rows| > 0 {
      SelectedRows(rows[..|rows| - 1], filters);
      assert rows == rows[..|rows| - 1] + [rows[|rows| - 1]];
    }
  }

  /** Selection preserves order: it distributes over concatenation. */
  lemma {:induction false} SelectedAppend(rows: seq<Row>, more: seq<Row>, filters: seq<Filter>)
    ensures Selected(rows + more, filters) == Selected(rows, filters) + Selected(more, filters)
  {
    if |more| > 0 {
      var init := more[..|more| - 1];
      SelectedAppend(rows, init, filters);
      assert (rows + more)[..|rows + more| - 1] == rows + init;
    } else {
      assert rows + more == rows;
    }
  }

  /** The empty chain keeps every row. */
  lemma {:induction false} SelectedEmptyChain(rows: seq<Row>)
    ensures Selected(rows, []) == rows
  {
    if |rows| > 0 {
      SelectedEmptyChain(rows[..|rows| - 1]);
      assert rows == rows[..|rows| - 1] + [rows[|rows| - 1]];
    }
  }
}
