/** Report execution (ExecuteAssetReport and ExecutePersonReport in
    internal/repository/report.go): split the filter chain, send the
    base-column part to the database as a WHERE fragment, merge each returned
    row with its custom fields (asset properties or person attributes), and
    filter the merged rows in memory with the custom-field part.

    The database is a parameter: `database` answers the compiled fragment and
    its arguments with the rows or an error, and `lookup` answers an entity id
    with the (name, value) rows of its custom fields or an error. */
module ReportEngine {
  import opened Common
  import opened Strings
  import opened ReportFilter
  import opened ReportWhere

  datatype Entity = Asset | Person

  /** The key prefix of an entity's custom fields. */
  function Prefix(e: Entity): (p: string)
    ensures IsCustomField(p + "x")
  {
    match e
    case Asset => "prop_"
    case Person => "attr_"
  }

  /** One row of the custom-field query: a name and the value's bytes read as
      text (a NULL value reads as ""), or a row that failed to scan. */
  datatype Scanned = Scanned(name: string, value: string) | ScanFailed

  /** The custom-field map of one entity: each scanned row sets
      prefix + name; a later row with the same name wins; unscannable rows are
      skipped. */
  function CustomFields(prefix: string, scanned: seq<Scanned>): map<string, Option<string>> {
    if |scanned| == 0 then map[]
    else
      var fields := CustomFields(prefix, scanned[..|scanned| - 1]);
      match scanned[|scanned| - 1]
      case ScanFailed => fields
      case Scanned(name, value) => fields[prefix + name := Some(value)]
  }

  /** getAssetProperties / getPersonAttributes once the query has answered. */
  method CollectCustomFields(prefix: string, scanned: seq<Scanned>) returns (fields: map<string, Option<string>>)
    ensures fields == CustomFields(prefix, scanned)
  {
    fields := map[];
    for i := 0 to |scanned|
      invariant fields == CustomFields(prefix, scanned[..i])
    {
      assert scanned[..i + 1][..i] == scanned[..i];
      match scanned[i]
      case ScanFailed =>
      case Scanned(name, value) =>
        fields := fields[prefix + name := Some(value)];
    }
    assert scanned[..|scanned|] == scanned;
  }

  /** Row `i` is a scanned row and no later scanned row has its name. */
  predicate LastWithItsName(scanned: seq<Scanned>, i: nat)
    requires i < |scanned|
  {
    scanned[i].Scanned? && forall j :: i < j < |scanned| && scanned[j].Scanned? ==> scanned[j].name != scanned[i].name
  }

  /** Every key of the map is prefix + the name of a scanned row, and every
      scanned row's name has a key. */
  lemma {:induction false} CustomFieldsKeys(prefix: string, scanned: seq<Scanned>)
    ensures forall k :: k in CustomFields(prefix, scanned) ==>
              exists i :: 0 <= i < |scanned| && scanned[i].Scanned? && k == prefix + scanned[i].name
    ensures forall i :: 0 <= i < |scanned| && scanned[i].Scanned? ==>
              prefix + scanned[i].name in CustomFields(prefix, scanned)
  {
    if |scanned| > 0 {
      var init := scanned[..|scanned| - 1];
      CustomFieldsKeys(prefix, init);
      var fields := CustomFields(prefix, scanned);
      forall k | k in fields
        ensures exists i :: 0 <= i < |scanned| && scanned[i].Scanned? && k == prefix + scanned[i].name
      {
        if k !in CustomFields(prefix, init) {
          assert scanned[|scanned| - 1].Scanned?;
        } else {
          var i :| 0 <= i < |init| && init[i].Scanned? && k == prefix + init[i].name;
          assert scanned[i] == init[i];
        }
      }
    }
  }

  /** Each key holds the value of the LAST scanned row with that name. */
  lemma {:induction false} CustomFieldsLastWins(prefix: string, scanned: seq<Scanned>, i: nat)
    requires i < |scanned| && LastWithItsName(scanned, i)
    ensures prefix + scanned[i].name in CustomFields(prefix, scanned)
    ensures CustomFields(prefix, scanned)[prefix + scanned[i].name] == Some(scanned[i].value)
  {
    var init, last := scanned[..|scanned| - 1], scanned[|scanned| - 1];
    if i < |scanned| - 1 {
      assert scanned[i] == init[i];
      assert LastWithItsName(init, i);
      CustomFieldsLastWins(prefix, init, i);
      if last.Scanned? {
        assert last.name != scanned[i].name;
        assert (prefix + last.name)[|prefix|..] == last.name;
        assert (prefix + scanned[i].name)[|prefix|..] == scanned[i].name;
      }
    }
  }

  /** Every custom-field key carries the prefix, so merging never touches a
      base column whose name lacks it. */
  lemma {:induction false} CustomFieldsPrefixed(prefix: string, scanned: seq<Scanned>)
    ensures forall k :: k in CustomFields(prefix, scanned) ==> HasPrefix(k, prefix)
  {
    if |scanned| > 0 {
      CustomFieldsPrefixed(prefix, scanned[..|scanned| - 1]);
      match scanned[|scanned| - 1]
      case ScanFailed =>
      case Scanned(name, value) =>
        assert (prefix + name)[..|prefix|] == prefix;
    }
  }

  /** The id a row is looked up by; a row without one is looked up by nil. */
  function IdOf(row: Row): Option<string> {
    if "id" in row then row["id"] else None
  }

  /** One row after the merge: unchanged when the custom-field query failed,
      otherwise with every custom field set on top of the row. */
  function MergeRow(row: Row, prefix: string, lookup: Option<string> -> Option<seq<Scanned>>): Row {
    match lookup(IdOf(row))
    case None => row
    case Some(scanned) => row + CustomFields(prefix, scanned)
  }

  /** A merged row keeps every base column that does not carry the prefix, and
      gains exactly the custom fields looked up for it, when the lookup succeeds. */
  lemma MergeRowContent(row: Row, prefix: string, lookup: Option<string> -> Option<seq<Scanned>>)
    ensures forall k :: k in row && !HasPrefix(k, prefix) ==> k in MergeRow(row, prefix, lookup) && MergeRow(row, prefix, lookup)[k] == row[k]
    ensures lookup(IdOf(row)).None? ==> MergeRow(row, prefix, lookup) == row
    ensures lookup(IdOf(row)).Some? ==>
              var fields := CustomFields(prefix, lookup(IdOf(row)).value);
              && MergeRow(row, prefix, lookup).Keys == row.Keys + fields.Keys
              && forall k :: k in fields ==> MergeRow(row, prefix, lookup)[k] == fields[k]
  {
    if lookup(IdOf(row)).Some? {
      CustomFieldsPrefixed(prefix, lookup(IdOf(row)).value);
    }
  }

  /** The merge loop of the report: every row, in order, merged with its custom fields. */
  method MergeCustomFields(results: seq<Row>, prefix: string, lookup: Option<string> -> Option<seq<Scanned>>)
    returns (merged: seq<Row>)
    ensures |merged| == |results|
    ensures forall i :: 0 <= i < |results| ==> merged[i] == MergeRow(results[i], prefix, lookup)
  {
    merged := [];
    for i := 0 to |results|
      invariant |merged| == i
      invariant forall j :: 0 <= j < i ==> merged[j] == MergeRow(results[j], prefix, lookup)
    {
      var result := results[i];
      var fetched := lookup(IdOf(result));
      if fetched.None? {
        merged := merged + [result];
        continue;
      }
      var fields := CollectCustomFields(prefix, fetched.value);
      result := result + fields;
      merged := merged + [result];
    }
  }

  /** The merged rows of a query answer. */
  function Merged(rows: seq<Row>, prefix: string, lookup: Option<string> -> Option<seq<Scanned>>): (merged: seq<Row>)
    ensures |merged| == |rows|
    ensures forall i :: 0 <= i < |rows| ==> merged[i] == MergeRow(rows[i], prefix, lookup)
  {
    seq(|rows|, i requires 0 <= i < |rows| => MergeRow(rows[i], prefix, lookup))
  }

  /** ExecuteAssetReport (entity Asset) and ExecutePersonReport (entity Person).
      The fragment sent to the database is that of the base-column filters, the
      arguments are the ones it binds, and the answer is the database's error or
      the merged rows that satisfy the custom-field filters, in the database's
      order. */
  method ExecuteReport(entity: Entity, filters: seq<Filter>,
                       database: (seq<Token>, seq<string>) -> Result<seq<Row>>,
                       lookup: Option<string> -> Option<seq<Scanned>>)
    returns (whereClause: seq<Token>, args: seq<string>, results: Result<seq<Row>>)
    ensures whereClause == Compile(BaseFilters(filters)).tokens
    ensures args == Compile(BaseFilters(filters)).args
    ensures database(whereClause, args).Err? ==> results == Err(database(whereClause, args).error)
    ensures database(whereClause, args).Ok? ==>
              results == Ok(Selected(Merged(database(whereClause, args).value, Prefix(entity), lookup), CustomFilters(filters)))
  {
    var sqlFilters, postFilters := SeparateFilters(filters, if entity == Asset then "asset" else "person");
    var argCounter := 1;
    whereClause, args, argCounter := BuildWhereClauseWithLogic(sqlFilters, argCounter);
    var answer := database(whereClause, args);
    if answer.Err? {
      return whereClause, args, Err(answer.error);
    }
    var rows := MergeCustomFields(answer.value, Prefix(entity), lookup);
    assert rows == Merged(answer.value, Prefix(entity), lookup);
    if |postFilters| > 0 {
      rows := ApplyPostFilters(rows, postFilters);
    } else {
      SelectedEmptyChain(rows);
    }
    results := Ok(rows);
  }

  /** What a successful report returns: exactly the merged rows that satisfy the
      custom-field chain, never more rows than the database answered; with no
      custom-field filter, every merged row. */
  lemma ReportRows(rows: seq<Row>, entity: Entity, filters: seq<Filter>, lookup: Option<string> -> Option<seq<Scanned>>)
    ensures var report := Selected(Merged(rows, Prefix(entity), lookup), CustomFilters(filters));
            && |report| <= |rows|
            && (forall r :: r in report <==> r in Merged(rows, Prefix(entity), lookup) && ChainMatches(r, CustomFilters(filters)))
            && (CustomFilters(filters) == [] ==> report == Merged(rows, Prefix(entity), lookup))
  {
    var merged := Merged(rows, Prefix(entity), lookup);
    SelectedRows(merged, CustomFilters(filters));
    if CustomFilters(filters) == [] {
      SelectedEmptyChain(merged);
    }
  }
}
