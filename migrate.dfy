/** The migration runner (cmd/migrate/main.go): comment removal, the choice
    of pending migrations, statement splitting, and the order in which the
    statements are executed and the versions recorded.

    The database and the file system are parameters: `applied` is the answer
    of the schema_migrations query, `files` the directory listing, `contents`
    the text of a migration file and `exec` whether the database accepts a
    statement. */
module Migrate {
  import opened Strings

  // ---------------------------------------------------------------------
  // removeComments

  /** One line after comment removal: everything from the first "--" on is
      dropped, then the rest is trimmed. */
  function CleanLine(line: string): (r: string)
    ensures Trimmed(r) && !Contains(r, "--")
  {
    var idx := Index(line, "--");
    var kept := if idx >= 0 then line[..idx] else line;
    assert !Contains(kept, "--") by {
      if idx >= 0 && Contains(kept, "--") {
        var j :| 0 <= j <= |kept| && OccursAt(kept, "--", j);
        OccursInSlice(line, 0, idx, "--", j);
      }
    }
    TrimSpaceKeepsAbsence(kept, "--");
    TrimSpace(kept)
  }

  /** The images of the lines under `clean` that are not empty, in order. */
  function NonEmptyImages(lines: seq<string>, clean: string -> string): seq<string> {
    if |lines| == 0 then []
    else
      var kept := NonEmptyImages(lines[..|lines| - 1], clean);
      var line := clean(lines[|lines| - 1]);
      if line != "" then kept + [line] else kept
  }

  /** The lines removeComments keeps: the cleaned lines that are not empty. */
  function CleanedLines(lines: seq<string>): seq<string> {
    NonEmptyImages(lines, CleanLine)
  }

  /** Each line followed by a line feed. */
  function Terminated(lines: seq<string>): string {
    if |lines| == 0 then "" else Terminated(lines[..|lines| - 1]) + lines[|lines| - 1] + "\n"
  }

  /** What removeComments returns. */
  function RemovedComments(content: string): string {
    Terminated(CleanedLines(Split(content, '\n')))
  }

  /** removeComments: the builder loop over the lines of the content. */
  method RemoveComments(content: string) returns (result: string)
    ensures result == RemovedComments(content)
  {
    result := "";
    var lines := Split(content, '\n');
    ghost var kept: seq<string> := [];
    for i := 0 to |lines|
      invariant kept == CleanedLines(lines[..i])
      invariant result == Terminated(kept)
    {
      assert lines[..i + 1][..i] == lines[..i];
      var line := lines[i];
      var idx := Index(line, "--");
      if idx >= 0 {
        line := line[..idx];
      }
      line := TrimSpace(line);
      if line != "" {
        result := result + line + "\n";
        kept := kept + [line];
      }
    }
    assert lines[..|lines|] == lines;
  }

  /** Every kept line is non-empty, trimmed, free of "--" and of line feeds. */
  predicate CleanLines(lines: seq<string>) {
    forall i :: 0 <= i < |lines| ==> lines[i] != "" && Trimmed(lines[i]) && !Contains(lines[i], "--") && '\n' !in lines[i]
  }

  /** Cleaning a line keeps only characters of the line. */
  lemma CleanLineChars(line: string, c: char)
    requires c in CleanLine(line)
    ensures c in line
  {
    var idx := Index(line, "--");
    var kept := if idx >= 0 then line[..idx] else line;
    TrimSpaceChars(kept, c);
  }

  lemma {:induction false} CleanedLinesClean(lines: seq<string>)
    requires forall i :: 0 <= i < |lines| ==> '\n' !in lines[i]
    ensures CleanLines(CleanedLines(lines))
  {
    if |lines| > 0 {
      var n := |lines| - 1;
      CleanedLinesClean(lines[..n]);
      var kept, line := CleanedLines(lines[..n]), CleanLine(lines[n]);
      if line != "" {
        assert '\n' !in line by {
          if '\n' in line {
            CleanLineChars(lines[n], '\n');
          }
        }
        CleanLinesAppend(kept, line);
        assert CleanedLines(lines) == kept + [line];
      } else {
        assert CleanedLines(lines) == kept;
      }
    }
  }

  lemma CleanLinesAppend(lines: seq<string>, line: string)
    requires CleanLines(lines)
    requires line != "" && Trimmed(line) && !Contains(line, "--") && '\n' !in line
    ensures CleanLines(lines + [line])
  {
  }

  lemma CleanedLinesEmpty(lines: seq<string>)
    ensures CleanedLines(lines) == [] <==> forall i :: 0 <= i < |lines| ==> CleanLine(lines[i]) == ""
  {
    NonEmptyImagesEmpty(lines, CleanLine);
  }

  lemma {:induction false} NonEmptyImagesEmpty(lines: seq<string>, clean: string -> string)
    ensures NonEmptyImages(lines, clean) == [] <==> forall i :: 0 <= i < |lines| ==> clean(lines[i]) == ""
  {
    if |lines| > 0 {
      var n := |lines| - 1;
      NonEmptyImagesEmpty(lines[..n], clean);
      assert forall i :: 0 <= i < n ==> lines[..n][i] == lines[i];
    }
  }

  /** Terminating the lines is joining them, and an empty last piece, with line feeds. */
  lemma {:induction false} TerminatedIsJoin(lines: seq<string>)
    ensures Terminated(lines) == Join(lines + [""], "\n")
  {
    if |lines| > 0 {
      var n := |lines| - 1;
      TerminatedIsJoin(lines[..n]);
      JoinSnoc(lines[..n], lines[n]);
      assert lines[..n] + [lines[n]] == lines;
    }
  }

  lemma {:induction false} JoinSnoc(init: seq<string>, last: string)
    ensures Join(init + [last] + [""], "\n") == Join(init + [""], "\n") + last + "\n"
  {
    if |init| > 0 {
      JoinSnoc(init[1..], last);
      assert (init + [last] + [""])[1..] == init[1..] + [last] + [""];
      assert (init + [""])[1..] == init[1..] + [""];
    }
  }

  /** removeComments emits the kept lines, each followed by a line feed: its
      text splits at line feeds into exactly those lines and a final empty
      piece, every one non-empty, trimmed and free of "--"; input whose every
      line is blank or a comment gives the empty text. */
  lemma RemovedCommentsLines(content: string)
    ensures var kept := CleanedLines(Split(content, '\n'));
            && CleanLines(kept)
            && Split(RemovedComments(content), '\n') == kept + [""]
            && (RemovedComments(content) == "" <==> kept == [])
            && (kept == [] <==> forall i :: 0 <= i < |Split(content, '\n')| ==> CleanLine(Split(content, '\n')[i]) == "")
  {
    var lines := Split(content, '\n');
    var kept := CleanedLines(lines);
    CleanedLinesClean(lines);
    CleanedLinesEmpty(lines);
    TerminatedIsJoin(kept);
    SplitJoin(kept + [""], '\n');
    if kept != [] {
      assert |Terminated(kept)| > 0;
    }
  }

  /** A clean line is its own cleaning. */
  lemma CleanLineFixed(line: string)
    requires Trimmed(line) && !Contains(line, "--")
    ensures CleanLine(line) == line
  {
  }

  lemma {:induction false} CleanedLinesFixed(lines: seq<string>)
    requires CleanLines(lines)
    ensures CleanedLines(lines) == lines
  {
    if |lines| > 0 {
      var n := |lines| - 1;
      var init, last := lines[..n], lines[n];
      assert CleanLines(init) && last != "";
      CleanedLinesFixed(init);
      CleanLineFixed(last);
      assert CleanedLines(lines) == CleanedLines(init) + [CleanLine(last)];
      InitLast(lines);
    }
  }

  /** The empty piece after the last line feed is dropped again. */
  lemma CleanedLinesPadded(lines: seq<string>)
    requires CleanLines(lines)
    ensures CleanedLines(lines + [""]) == lines
  {
    CleanedLinesFixed(lines);
    CleanLineFixed("");
    assert (lines + [""])[..|lines|] == lines;
  }

  /** removeComments is idempotent. */
  lemma RemoveCommentsIdempotent(content: string)
    ensures RemovedComments(RemovedComments(content)) == RemovedComments(content)
  {
    RemovedCommentsLines(content);
    var kept := CleanedLines(Split(content, '\n'));
    CleanedLinesPadded(kept);
  }

  /** Text before the first "--" is kept even when the "--" sits inside a
      string literal. */
  lemma CommentMarkerInLiteralCuts()
    ensures CleanLine("SELECT '--'") == "SELECT '"
  {
    var line := "SELECT '--'";
    assert OccursAt(line, "--", 8);
    assert forall j :: 0 <= j < 8 ==> !OccursAt(line, "--", j) by {
      forall j | 0 <= j < 8 ensures !OccursAt(line, "--", j) {
        assert line[j..j + 2][0] == line[j] != '-';
      }
    }
    assert line[..8] == "SELECT '";
    assert Trimmed("SELECT '");
  }

  // ---------------------------------------------------------------------
  // Statements

  /** The statements of a cleaned text: its ";"-separated pieces, trimmed,
      empty pieces skipped. */
  function StatementsOf(pieces: seq<string>): (stmts: seq<string>)
    ensures forall i :: 0 <= i < |stmts| ==> stmts[i] != "" && Trimmed(stmts[i])
    ensures forall s :: s in stmts <==> s != "" && exists i :: 0 <= i < |pieces| && TrimSpace(pieces[i]) == s
  {
    if |pieces| == 0 then []
    else
      var init := StatementsOf(pieces[..|pieces| - 1]);
      var stmt := TrimSpace(pieces[|pieces| - 1]);
      assert forall i :: 0 <= i < |pieces| - 1 ==> pieces[..|pieces| - 1][i] == pieces[i];
      if stmt == "" then init else init + [stmt]
  }

  /** Trimming and skipping pieces adds no character. */
  lemma {:induction false} StatementsAvoid(pieces: seq<string>, c: char)
    requires forall i :: 0 <= i < |pieces| ==> c !in pieces[i]
    ensures forall i :: 0 <= i < |StatementsOf(pieces)| ==> c !in StatementsOf(pieces)[i]
  {
    if |pieces| > 0 {
      var n := |pieces| - 1;
      StatementsAvoid(pieces[..n], c);
      if c in TrimSpace(pieces[n]) {
        TrimSpaceChars(pieces[n], c);
      }
    }
  }

  /** The statements main executes for a migration file, in order. */
  function Statements(content: string): (stmts: seq<string>)
    ensures forall i :: 0 <= i < |stmts| ==> stmts[i] != "" && Trimmed(stmts[i]) && ';' !in stmts[i]
  {
    var pieces := Split(RemovedComments(content), ';');
    StatementsAvoid(pieces, ';');
    StatementsOf(pieces)
  }

  // ---------------------------------------------------------------------
  // Choosing the pending migrations.

  /** One entry of the migrations directory. */
  datatype DirEntry = DirEntry(name: string, isDir: bool)

  predicate IsMigration(f: DirEntry) {
    !f.isDir && HasSuffix(f.name, ".sql")
  }

  /** strings.TrimSuffix(name, ".sql") */
  function Version(name: string): (v: string)
    ensures HasSuffix(name, ".sql") ==> v + ".sql" == name
    ensures !HasSuffix(name, ".sql") ==> v == name
  {
    if HasSuffix(name, ".sql") then
      assert name[..|name| - 4] + name[|name| - 4..] == name;
      name[..|name| - 4]
    else name
  }

  /** Ascending in byte order, each name no greater than the next. */
  predicate Ascending(s: seq<string>) {
    forall i :: 0 < i < |s| ==> LessOrEqual(s[i - 1], s[i])
  }

  function InsertAscending(x: string, s: seq<string>): (r: seq<string>)
    requires Ascending(s)
    ensures Ascending(r) && multiset(r) == multiset(s) + multiset{x}
    ensures |r| > 0 && (r[0] == x || (|s| > 0 && r[0] == s[0]))
  {
    if |s| == 0 then [x]
    else if LessOrEqual(x, s[0]) then [x] + s
    else
      CompareAntisymmetric(x, s[0]);
      var rest := InsertAscending(x, s[1..]);
      assert s == [s[0]] + s[1..];
      [s[0]] + rest
  }

  /** sort.Strings */
  function SortStrings(s: seq<string>): (r: seq<string>)
    ensures Ascending(r) && multiset(r) == multiset(s)
  {
    if |s| == 0 then []
    else
      assert s == s[..|s| - 1] + [s[|s| - 1]];
      InsertAscending(s[|s| - 1], SortStrings(s[..|s| - 1]))
  }

  /** Ascending by neighbours means ascending between any two positions. */
  lemma {:induction false} AscendingPairwise(s: seq<string>, i: nat, j: nat)
    requires Ascending(s) && i <= j < |s|
    ensures LessOrEqual(s[i], s[j])
    decreases j - i
  {
    if i < j {
      AscendingPairwise(s, i + 1, j);
      CompareTransitive(s[i], s[i + 1], s[j]);
    }
  }

  /** The names of the migration files in the listing, in listing order. */
  function Candidates(files: seq<DirEntry>): (names: seq<string>)
    ensures forall n :: n in names <==> exists f :: f in files && IsMigration(f) && f.name == n
  {
    if |files| == 0 then []
    else
      var init := Candidates(files[..|files| - 1]);
      var f := files[|files| - 1];
      assert forall g :: g in files <==> g in files[..|files| - 1] || g == f;
      if IsMigration(f) then init + [f.name] else init
  }

  /** The migrations to apply, in the order main applies them: the sorted
      candidates whose version is not yet recorded. */
  function Pending(migrations: seq<string>, applied: set<string>): (pending: seq<string>)
    ensures forall m :: m in pending <==> m in migrations && Version(m) !in applied
  {
    if |migrations| == 0 then []
    else
      var init := Pending(migrations[..|migrations| - 1], applied);
      var m := migrations[|migrations| - 1];
      assert forall x :: x in migrations <==> x in migrations[..|migrations| - 1] || x == m;
      if Version(m) in applied then init else init + [m]
  }

  /** Keeping some elements of an ascending list in order leaves it ascending. */
  lemma {:induction false} PendingAscending(migrations: seq<string>, applied: set<string>)
    requires Ascending(migrations)
    ensures Ascending(Pending(migrations, applied))
  {
    if |migrations| > 0 {
      var n := |migrations| - 1;
      var init := migrations[..n];
      assert Ascending(init);
      PendingAscending(init, applied);
      var p, m := Pending(init, applied), migrations[n];
      if Version(m) in applied {
        assert Pending(migrations, applied) == p;
      } else {
        if |p| > 0 {
          var last := p[|p| - 1];
          assert last in init;
          var k :| 0 <= k < n && init[k] == last;
          AscendingPairwise(migrations, k, n);
        }
        AscendingSnoc(p, m);
        assert Pending(migrations, applied) == p + [m];
      }
    }
  }

  lemma AscendingSnoc(s: seq<string>, x: string)
    requires Ascending(s) && (|s| > 0 ==> LessOrEqual(s[|s| - 1], x))
    ensures Ascending(s + [x])
  {
    var r := s + [x];
    forall i | 0 < i < |r| ensures LessOrEqual(r[i - 1], r[i]) {
      assert r[i - 1] == s[i - 1];
      if i < |s| {
        assert r[i] == s[i];
      }
    }
  }

  /** The set-up of main: appliedMap from the recorded versions, the
      migration files of the listing, sorted, and the ones still to apply. */
  method PlanMigrations(applied: seq<string>, files: seq<DirEntry>) returns (pending: seq<string>)
    ensures pending == Pending(SortStrings(Candidates(files)), set v | v in applied)
  {
    var appliedMap: set<string> := {};
    for i := 0 to |applied|
      invariant appliedMap == set v | v in applied[..i]
    {
      assert applied[..i + 1] == applied[..i] + [applied[i]];
      appliedMap := appliedMap + {applied[i]};
    }
    assert applied[..|applied|] == applied;
    var migrations: seq<string> := [];
    for i := 0 to |files|
      invariant migrations == Candidates(files[..i])
    {
      assert files[..i + 1][..i] == files[..i];
      if !files[i].isDir && HasSuffix(files[i].name, ".sql") {
        migrations := migrations + [files[i].name];
      }
    }
    assert files[..|files|] == files;
    migrations := SortStrings(migrations);
    pending := [];
    for i := 0 to |migrations|
      invariant pending == Pending(migrations[..i], appliedMap)
    {
      assert migrations[..i + 1][..i] == migrations[..i];
      var version := Version(migrations[i]);
      if version in appliedMap {
        continue;
      }
      pending := pending + [migrations[i]];
    }
    assert migrations[..|migrations|] == migrations;
  }

  /** What PlanMigrations chooses: exactly the non-directory ".sql" files whose
      version is not recorded, in ascending order, each once per listing entry. */
  lemma PlanChoosesPending(applied: seq<string>, files: seq<DirEntry>)
    ensures var pending := Pending(SortStrings(Candidates(files)), set v | v in applied);
            && Ascending(pending)
            && forall m :: m in pending <==>
                 (exists f :: f in files && IsMigration(f) && f.name == m) && Version(m) !in applied
  {
    var sorted := SortStrings(Candidates(files));
    PendingAscending(sorted, set v | v in applied);
    forall m ensures m in sorted <==> m in Candidates(files) {
      assert m in sorted <==> m in multiset(sorted);
      assert m in Candidates(files) <==> m in multiset(Candidates(files));
    }
  }

  // ---------------------------------------------------------------------
  // Applying.

  /** Every statement of the migrations, one file after the other. */
  function AllStatements(pending: seq<string>, contents: string -> string): seq<string> {
    if |pending| == 0 then []
    else AllStatements(pending[..|pending| - 1], contents) + Statements(contents(pending[|pending| - 1]))
  }

  function Versions(pending: seq<string>): (vs: seq<string>)
    ensures |vs| == |pending| && forall i :: 0 <= i < |pending| ==> vs[i] == Version(pending[i])
  {
    if |pending| == 0 then []
    else Versions(pending[..|pending| - 1]) + [Version(pending[|pending| - 1])]
  }

  /** The database accepted every one of the statements. */
  predicate Accepted(statements: seq<string>, exec: string -> bool) {
    forall k :: 0 <= k < |statements| ==> exec(statements[k])
  }

  lemma AcceptedAppend(a: seq<string>, b: seq<string>, exec: string -> bool)
    requires Accepted(a, exec) && Accepted(b, exec)
    ensures Accepted(a + b, exec)
  {
    assert forall k :: |a| <= k < |a + b| ==> (a + b)[k] == b[k - |a|];
  }

  /** Taking one migration more adds its statements and its version. */
  lemma NextMigration(pending: seq<string>, i: nat, contents: string -> string)
    requires i < |pending|
    ensures AllStatements(pending[..i + 1], contents) == AllStatements(pending[..i], contents) + Statements(contents(pending[i]))
    ensures Versions(pending[..i + 1]) == Versions(pending[..i]) + [Version(pending[i])]
  {
    assert pending[..i + 1][..i] == pending[..i];
  }

  lemma InitLast<T>(s: seq<T>)
    requires |s| > 0
    ensures s[..|s| - 1] + [s[|s| - 1]] == s
  {
  }

  lemma DropLastOfAppend<T>(a: seq<T>, b: seq<T>)
    requires |b| > 0
    ensures (a + b)[..|a + b| - 1] == a + b[..|b| - 1]
  {
  }

  /** The database accepted every statement but the last, which it refused. */
  predicate Refused(statements: seq<string>, exec: string -> bool) {
    |statements| > 0 && !exec(statements[|statements| - 1]) && Accepted(statements[..|statements| - 1], exec)
  }

  /** A failed run: every statement of the first `n` migrations, then the
      statements of migration `n` up to and including the refused one. That
      migration is not recorded, so the next run starts it again from its
      first statement. */
  predicate PartlyRan(executed: seq<string>, pending: seq<string>, n: nat, contents: string -> string)
    requires n < |pending|
  {
    exists m :: 0 < m <= |Statements(contents(pending[n]))| &&
      executed == AllStatements(pending[..n], contents) + Statements(contents(pending[n]))[..m]
  }

  /** Migration `i` is refused part-way: what has run is the earlier
      migrations' statements and the refused prefix of its own. */
  lemma MigrationRefused(executed: seq<string>, ran: seq<string>, pending: seq<string>, i: nat, contents: string -> string, exec: string -> bool)
    requires i < |pending|
    requires executed == AllStatements(pending[..i], contents) && Accepted(executed, exec)
    requires 0 < |ran| <= |Statements(contents(pending[i]))| && ran == Statements(contents(pending[i]))[..|ran|]
    requires Refused(ran, exec)
    ensures Refused(executed + ran, exec)
    ensures PartlyRan(executed + ran, pending, i, contents)
  {
    AcceptedAppend(executed, ran[..|ran| - 1], exec);
    DropLastOfAppend(executed, ran);
  }

  /** The statement loop for one migration file: statements run in order
      until the database refuses one. */
  method RunStatements(statements: seq<string>, exec: string -> bool) returns (ran: seq<string>, ok: bool)
    ensures ok ==> ran == statements && Accepted(ran, exec)
    ensures !ok ==> 0 < |ran| <= |statements| && ran == statements[..|ran|]
    ensures !ok ==> Refused(ran, exec)
  {
    ran := [];
    for j := 0 to |statements|
      invariant ran == statements[..j] && Accepted(ran, exec)
    {
      if !exec(statements[j]) {
        assert (ran + [statements[j]])[..j] == ran;
        return ran + [statements[j]], false;
      }
      ran := ran + [statements[j]];
    }
    ok := true;
  }

  /** The apply loop of main. Each pending migration's statements run in
      order and then its version is recorded; the first statement the
      database refuses stops the run (log.Fatalf) before its migration is
      recorded. */
  method ApplyPending(pending: seq<string>, contents: string -> string, exec: string -> bool)
    returns (executed: seq<string>, recorded: seq<string>, failed: bool)
    ensures !failed ==> executed == AllStatements(pending, contents) && recorded == Versions(pending)
    ensures !failed ==> Accepted(executed, exec)
    ensures failed ==> |recorded| < |pending| && recorded == Versions(pending[..|recorded|])
    ensures failed ==> Refused(executed, exec)
    ensures failed ==> |recorded| < |pending| && PartlyRan(executed, pending, |recorded|, contents)
  {
    executed, recorded, failed := [], [], false;
    for i := 0 to |pending|
      invariant executed == AllStatements(pending[..i], contents) && recorded == Versions(pending[..i])
      invariant Accepted(executed, exec) && !failed
    {
      NextMigration(pending, i, contents);
      var ran, ok := RunStatements(Statements(contents(pending[i])), exec);
      if !ok {
        MigrationRefused(executed, ran, pending, i, contents, exec);
        executed := executed + ran;
        failed := true;
        return;
      }
      AcceptedAppend(executed, ran, exec);
      executed := executed + ran;
      recorded := recorded + [Version(pending[i])];
    }
    assert pending[..|pending|] == pending;
  }
}
