/** CSV serialisation of report rows (shared/utils/csvExport.js): field quoting
    as in section 2 of RFC 4180, a header made of the union of the rows' keys,
    and one line of cells per row. */
module CsvExport {
  import opened Common
  import opened Strings

  /** One property of a row object: its key and its value, already converted
      to text; None stands for null and undefined. */
  datatype Field = Field(key: string, value: Option<string>)

  /** A row object, as its properties in Object.keys order. */
  type Record = seq<Field>

  // ---------------------------------------------------------------------
  // escapeCSVValue

  /** Rule 6 of section 2 of RFC 4180 as the code applies it: a comma, a double
      quote or a line feed (but not a lone carriage return) forces quoting. */
  predicate NeedsQuoting(s: string) {
    ',' in s || '"' in s || '\n' in s
  }

  /** Every double quote doubled (rule 7). */
  function DoubleQuotes(s: string): (r: string)
    ensures |r| >= |s|
  {
    if |s| == 0 then ""
    else (if s[0] == '"' then "\"\"" else [s[0]]) + DoubleQuotes(s[1..])
  }

  /** The reader's side of rule 7: every pair of double quotes read as one. */
  function CollapseQuotes(s: string): string {
    if |s| == 0 then ""
    else if |s| >= 2 && s[0] == '"' && s[1] == '"' then "\"" + CollapseQuotes(s[2..])
    else [s[0]] + CollapseQuotes(s[1..])
  }

  /** escapeCSVValue: null and undefined become the empty field; text that
      needs quoting is wrapped in double quotes with its quotes doubled; any
      other text is kept as it is. */
  function EscapeCSVValue(v: Option<string>): (r: string)
    ensures v.None? ==> r == ""
    ensures v.Some? && !NeedsQuoting(v.value) ==> r == v.value && ',' !in r && '"' !in r && '\n' !in r
    ensures v.Some? && NeedsQuoting(v.value) ==>
              |r| >= 2 && r[0] == '"' && r[|r| - 1] == '"' && r[1..|r| - 1] == DoubleQuotes(v.value)
  {
    match v
    case None => ""
    case Some(s) =>
      if NeedsQuoting(s) then
        var r := "\"" + DoubleQuotes(s) + "\"";
        assert r[1..|r| - 1] == DoubleQuotes(s);
        r
      else s
  }

  /** How a reader decodes one field: a quoted field loses its outer quotes and
      has its doubled quotes collapsed; any other field is read as it is. */
  function Unescape(field: string): string {
    if |field| >= 2 && field[0] == '"' && field[|field| - 1] == '"' then CollapseQuotes(field[1..|field| - 1])
    else field
  }

  /** Collapsing undoes doubling. */
  lemma {:induction false} CollapseDoubleQuotes(s: string)
    ensures CollapseQuotes(DoubleQuotes(s)) == s
  {
    if |s| > 0 {
      CollapseDoubleQuotes(s[1..]);
      var rest := DoubleQuotes(s[1..]);
      if s[0] == '"' {
        assert DoubleQuotes(s) == "\"\"" + rest;
        assert ("\"\"" + rest)[2..] == rest;
      } else {
        assert DoubleQuotes(s) == [s[0]] + rest;
        assert ([s[0]] + rest)[1..] == rest;
      }
      assert s == [s[0]] + s[1..];
    }
  }

  /** Round trip: a reader decodes every escaped text back to the text. */
  lemma EscapeRoundTrip(s: string)
    ensures Unescape(EscapeCSVValue(Some(s))) == s
  {
    if NeedsQuoting(s) {
      CollapseDoubleQuotes(s);
    } else if |s| >= 2 {
      assert s[0] in s;
    }
  }

  /** Doubling quotes adds no other character. */
  lemma {:induction false} DoubleQuotesAvoids(s: string, c: char)
    requires c != '"' && c !in s
    ensures c !in DoubleQuotes(s)
  {
    if |s| > 0 {
      DoubleQuotesAvoids(s[1..], c);
    }
  }

  /** Escaping never introduces a line feed. */
  lemma EscapeAvoidsNewline(v: Option<string>)
    requires v.Some? ==> '\n' !in v.value
    ensures '\n' !in EscapeCSVValue(v)
  {
    if v.Some? && NeedsQuoting(v.value) {
      DoubleQuotesAvoids(v.value, '\n');
      assert EscapeCSVValue(v) == "\"" + DoubleQuotes(v.value) + "\"";
    }
  }

  // ---------------------------------------------------------------------
  // The header: the union of the rows' keys.

  function Keys(row: Record): (ks: seq<string>)
    ensures |ks| == |row| && forall i :: 0 <= i < |row| ==> ks[i] == row[i].key
  {
    seq(|row|, i requires 0 <= i < |row| => row[i].key)
  }

  /** Every row's keys, one row after the other. */
  function AllKeys(data: seq<Record>): seq<string> {
    if |data| == 0 then [] else AllKeys(data[..|data| - 1]) + Keys(data[|data| - 1])
  }

  predicate Distinct(s: seq<string>) {
    forall i, j :: 0 <= i < j < |s| ==> s[i] != s[j]
  }

  /** What a Set built by adding the elements of `s` in order holds, in its
      iteration order: each element once, where it was first added. */
  function Dedup(s: seq<string>): (d: seq<string>)
    ensures forall x :: x in d <==> x in s
    ensures Distinct(d)
  {
    if |s| == 0 then []
    else
      var d := Dedup(s[..|s| - 1]);
      assert forall x :: x in s <==> x in s[..|s| - 1] || x == s[|s| - 1];
      if s[|s| - 1] in d then d else d + [s[|s| - 1]]
  }

  /** The header of the export. */
  function Headers(data: seq<Record>): seq<string> {
    Dedup(AllKeys(data))
  }

  /** The allKeys loop of exportToCSV: every key of every row added to an
      insertion-ordered set. */
  method CollectHeaders(data: seq<Record>) returns (headers: seq<string>)
    ensures headers == Headers(data)
  {
    headers := [];
    for i := 0 to |data|
      invariant headers == Dedup(AllKeys(data[..i]))
    {
      var row := data[i];
      ghost var seen := AllKeys(data[..i]);
      assert seen + Keys(row)[..0] == seen;
      for j := 0 to |row|
        invariant headers == Dedup(seen + Keys(row)[..j])
      {
        var key := row[j].key;
        KeysSnoc(seen, row, j);
        DedupSnoc(seen + Keys(row)[..j], key);
        if key !in headers {
          headers := headers + [key];
        }
      }
      assert Keys(row)[..|row|] == Keys(row);
      AllKeysSnoc(data, i);
    }
    assert data[..|data|] == data;
  }

  /** Adding one more element to the set. */
  lemma DedupSnoc(s: seq<string>, x: string)
    ensures Dedup(s + [x]) == if x in Dedup(s) then Dedup(s) else Dedup(s) + [x]
  {
    assert (s + [x])[..|s|] == s;
  }

  lemma KeysSnoc(seen: seq<string>, row: Record, j: nat)
    requires j < |row|
    ensures seen + Keys(row)[..j + 1] == seen + Keys(row)[..j] + [row[j].key]
  {
  }

  lemma AllKeysSnoc(data: seq<Record>, i: nat)
    requires i < |data|
    ensures AllKeys(data[..i + 1]) == AllKeys(data[..i]) + Keys(data[i])
  {
    assert data[..i + 1][..i] == data[..i];
  }

  /** Every key in AllKeys comes from some row, and every row's keys are in it. */
  lemma {:induction false} AllKeysMembers(data: seq<Record>, x: string)
    ensures x in AllKeys(data) <==> exists i :: 0 <= i < |data| && x in Keys(data[i])
  {
    if |data| > 0 {
      var init := data[..|data| - 1];
      AllKeysMembers(init, x);
      if x in AllKeys(init) {
        var i :| 0 <= i < |init| && x in Keys(init[i]);
        assert data[i] == init[i];
      }
      if exists i :: 0 <= i < |data| && x in Keys(data[i]) {
        var i :| 0 <= i < |data| && x in Keys(data[i]);
        if i < |data| - 1 {
          assert data[i] == init[i];
        }
      }
    }
  }

  /** The position where `x` first occurs in `s`. */
  function FirstIndex(s: seq<string>, x: string): (k: nat)
    requires x in s
    ensures k < |s| && s[k] == x && x !in s[..k]
  {
    if s[0] == x then 0
    else
      var k := FirstIndex(s[1..], x);
      assert s[..k + 1] == [s[0]] + s[1..][..k];
      k + 1
  }

  /** Appending leaves the first occurrences already present where they were. */
  lemma FirstIndexAppend(s: seq<string>, y: string, x: string)
    requires x in s
    ensures FirstIndex(s + [y], x) == FirstIndex(s, x)
  {
    var k := FirstIndex(s, x);
    assert (s + [y])[k] == x;
  }

  /** The header is the union of all rows' keys, without duplicates, in the
      order the keys were first seen. */
  lemma HeadersAreUnion(data: seq<Record>)
    ensures Distinct(Headers(data))
    ensures forall x :: x in Headers(data) <==> exists i :: 0 <= i < |data| && x in Keys(data[i])
    ensures forall i, j :: 0 <= i < j < |Headers(data)| ==>
              FirstIndex(AllKeys(data), Headers(data)[i]) < FirstIndex(AllKeys(data), Headers(data)[j])
  {
    forall x ensures x in Headers(data) <==> exists i :: 0 <= i < |data| && x in Keys(data[i]) {
      AllKeysMembers(data, x);
    }
    DedupFirstSeen(AllKeys(data));
  }

  lemma {:induction false} DedupFirstSeen(s: seq<string>)
    ensures forall i, j :: 0 <= i < j < |Dedup(s)| ==> FirstIndex(s, Dedup(s)[i]) < FirstIndex(s, Dedup(s)[j])
  {
    if |s| > 0 {
      var n := |s| - 1;
      var init, last := s[..n], s[n];
      assert s == init + [last];
      DedupFirstSeen(init);
      var d, d' := Dedup(init), Dedup(s);
      forall x | x in d ensures FirstIndex(s, x) == FirstIndex(init, x) {
        FirstIndexAppend(init, last, x);
      }
      if last !in d {
        assert d' == d + [last];
        assert FirstIndex(s, last) == n by {
          assert s[n] == last && last !in init;
        }
        forall i, j | 0 <= i < j < |d'|
          ensures FirstIndex(s, d'[i]) < FirstIndex(s, d'[j])
        {
          if j == |d'| - 1 {
            assert d'[i] == d[i];
          } else {
            assert d'[i] == d[i] && d'[j] == d[j];
          }
        }
      }
    }
  }

  // ---------------------------------------------------------------------
  // Rows to cells and lines.

  /** row[key] for an own property: the value of the property with that key;
      None when the row has no own property of that name or the value is null
      or undefined. (JavaScript would read a key such as `toString` from
      Object.prototype instead; that lookup is not modelled.) */
  function Lookup(row: Record, key: string): (v: Option<string>)
    ensures v.Some? ==> Field(key, v) in row
    ensures (forall f :: f in row ==> f.key != key) ==> v.None?
  {
    if |row| == 0 then None
    else if row[0].key == key then row[0].value
    else Lookup(row[1..], key)
  }

  /** One data row as its cells, one per header. */
  function RowCells(row: Record, headers: seq<string>): (cells: seq<string>)
    ensures |cells| == |headers|
  {
    seq(|headers|, i requires 0 <= i < |headers| => EscapeCSVValue(Lookup(row, headers[i])))
  }

  /** A reader recovers every value of the row under its header, and an empty
      field where the row has no own property of that name or the value is null. */
  lemma RowCellsDecode(row: Record, headers: seq<string>)
    ensures forall i :: 0 <= i < |headers| ==>
              Unescape(RowCells(row, headers)[i]) == (if Lookup(row, headers[i]).Some? then Lookup(row, headers[i]).value else "")
    ensures forall i :: 0 <= i < |headers| && (forall f :: f in row ==> f.key != headers[i]) ==> RowCells(row, headers)[i] == ""
  {
    forall i | 0 <= i < |headers| && Lookup(row, headers[i]).Some? {
      EscapeRoundTrip(Lookup(row, headers[i]).value);
    }
  }

  function HeaderLine(headers: seq<string>): string {
    Join(seq(|headers|, i requires 0 <= i < |headers| => EscapeCSVValue(Some(headers[i]))), ",")
  }

  function RowLine(row: Record, headers: seq<string>): string {
    Join(RowCells(row, headers), ",")
  }

  /** The lines of the export: the header line, then one line per row. */
  function Lines(data: seq<Record>): (lines: seq<string>)
    ensures |lines| == |data| + 1
  {
    var headers := Headers(data);
    [HeaderLine(headers)] + seq(|data|, i requires 0 <= i < |data| => RowLine(data[i], headers))
  }

  /** The text exportToCSV hands to the download: none for absent or empty
      data, otherwise the lines joined by line feeds. */
  function CsvText(data: Option<seq<Record>>): Option<string> {
    if data.None? || |data.value| == 0 then None
    else Some(Join(Lines(data.value), "\n"))
  }

  /** exportToCSV up to the download. */
  method ExportToCSV(data: Option<seq<Record>>) returns (csv: Option<string>)
    ensures csv.None? <==> data.None? || data.value == []
    ensures csv == CsvText(data)
  {
    if data.None? || |data.value| == 0 {
      return None;
    }
    var rows := data.value;
    var headers := CollectHeaders(rows);
    var csvHeaders := HeaderLine(headers);
    var csvRows := seq(|rows|, i requires 0 <= i < |rows| => RowLine(rows[i], headers));
    csv := Some(Join([csvHeaders] + csvRows, "\n"));
  }

  /** No key and no value holds a line feed. */
  predicate SingleLineValues(data: seq<Record>) {
    forall r, f :: r in data && f in r ==> '\n' !in f.key && (f.value.Some? ==> '\n' !in f.value.value)
  }

  /** Joining line-feed-free parts with a line-feed-free separator gives
      line-feed-free text. */
  lemma {:induction false} JoinAvoids(parts: seq<string>, sep: string, c: char)
    requires c !in sep
    requires forall i :: 0 <= i < |parts| ==> c !in parts[i]
    ensures c !in Join(parts, sep)
  {
    if |parts| > 1 {
      JoinAvoids(parts[1..], sep, c);
    }
  }

  /** When no key or value holds a line feed, the text splits at its line
      feeds into exactly the header line and one line per row. */
  lemma CsvLines(data: seq<Record>)
    requires |data| > 0 && SingleLineValues(data)
    ensures Split(CsvText(Some(data)).value, '\n') == Lines(data)
    ensures |Split(CsvText(Some(data)).value, '\n')| == |data| + 1
  {
    var headers := Headers(data);
    var lines := Lines(data);
    forall i | 0 <= i < |headers| ensures '\n' !in headers[i] {
      AllKeysMembers(data, headers[i]);
      var k :| 0 <= k < |data| && headers[i] in Keys(data[k]);
      var j :| 0 <= j < |data[k]| && Keys(data[k])[j] == headers[i];
      assert data[k] in data && data[k][j] in data[k];
    }
    var headerCells := seq(|headers|, i requires 0 <= i < |headers| => EscapeCSVValue(Some(headers[i])));
    forall i | 0 <= i < |headers| ensures '\n' !in headerCells[i] {
      EscapeAvoidsNewline(Some(headers[i]));
    }
    JoinAvoids(headerCells, ",", '\n');
    forall l | 1 <= l < |lines| ensures '\n' !in lines[l] {
      var k := l - 1;
      assert data[k] in data;
      var cells := RowCells(data[k], headers);
      forall i | 0 <= i < |headers| ensures '\n' !in cells[i] {
        var v := Lookup(data[k], headers[i]);
        if v.Some? {
          assert Field(headers[i], v) in data[k];
        }
        EscapeAvoidsNewline(v);
      }
      JoinAvoids(cells, ",", '\n');
    }
    SplitJoin(lines, '\n');
  }
}
