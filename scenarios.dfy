/** Concrete groups that show what generateSQL does when counts differ between directions
    of one dialect, a full run over one generic and one dialect-specific source, and a
    filename the grammar refuses. */
module Scenarios {
  import opened Errors
  import opened Classifier
  import opened Splitter
  import opened Scanner
  import opened FragmentNames
  import opened Writer
  import opened Balance

  const Id: string := "20230101000000"

  /** Two postgres migrations, up and down, of one group. */
  const PgUp: Migration := Migration("up.sql", Id, "init", "postgres", "up")
  const PgDown: Migration := Migration("down.sql", Id, "init", "postgres", "down")
  const PgGroup: MigrationGroup := MigrationGroup(Id, "init", [PgUp, PgDown], None, None)

  function PairSources(upSource: string, downSource: string): map<string, string> {
    map["up.sql" := upSource, "down.sql" := downSource]
  }

  /** Counts and maximum after the first pass over two migrations. */
  lemma TwoCounts(m1: Migration, m2: Migration, sources: map<string, string>)
    ensures Counts([m1, m2], sources) == map[m1.dialect := FragmentCount(m1, sources)][m2.dialect := FragmentCount(m2, sources)]
    ensures var c1 := FragmentCount(m1, sources); var c2 := FragmentCount(m2, sources);
      MaxCount([m1, m2], sources) == if c1 < c2 then c2 else c1
  {
    var ms := [m1, m2];
    assert ms[..|ms| - 1] == [m1];
    assert [m1][..|[m1]| - 1] == [];
    assert Counts([m1], sources) == map[m1.dialect := FragmentCount(m1, sources)];
    assert MaxCount([m1], sources) == FragmentCount(m1, sources);
  }

  /** Into an empty directory, the up migration's fragment i ends as Expected says. */
  lemma PairOutcome(upSource: string, downSource: string, cmdline: string, i: nat)
    ensures var sources := PairSources(upSource, downSource);
      var ms := [PgUp, PgDown];
      var out := Execute(map[], {}, Plan(PgGroup, sources, cmdline));
      && out.1 == None
      && Lookup(out.0, FragmentName(PgGroup, PgUp, i))
           == Expected(map[], PgGroup, ms, sources, Counts(ms, sources), MaxCount(ms, sources), cmdline, 0, i)
  {
    var sources := PairSources(upSource, downSource);
    assert Members(PgGroup) == [PgUp, PgDown];
    PlanOutcome(map[], {}, PgGroup, sources, cmdline);
  }

  /** Counts are kept per dialect, so the down migration's single fragment sets the count the
      up migration pads from: the up migration's own second fragment, written in the first
      pass, is overwritten by a blank. */
  lemma PaddingOverwritesRealFragment(cmdline: string)
    ensures var sources := PairSources("a--splitb", "c");
      var out := Execute(map[], {}, Plan(PgGroup, sources, cmdline));
      && FragmentCount(PgUp, sources) == 2
      && Fragments("a--splitb", cmdline)[1] == FragmentHeader(cmdline) + "b"
      && out.1 == None
      && Lookup(out.0, FragmentName(PgGroup, PgUp, 1)) == Some(BlankFragment(cmdline))
  {
    var sources := PairSources("a--splitb", "c");
    SplitAtMarker("a", SplitMarker, "b");
    FreeWithoutLead("b", SplitMarker);
    SplitWithoutMarker("b", SplitMarker);
    FreeWithoutLead("c", SplitMarker);
    SplitWithoutMarker("c", SplitMarker);
    assert FragmentCount(PgUp, sources) == 2;
    assert FragmentCount(PgDown, sources) == 1;
    TwoCounts(PgUp, PgDown, sources);
    PairOutcome("a--splitb", "c", cmdline, 1);
  }

  /** The converse: the down migration has two fragments and sets the count to two, so the up
      migration with one fragment is not padded and its second fragment is never written. */
  lemma PaddingLeavesGap(cmdline: string)
    ensures var sources := PairSources("a", "c--splitd");
      var out := Execute(map[], {}, Plan(PgGroup, sources, cmdline));
      && MaxCount(Members(PgGroup), sources) == 2
      && FragmentCount(PgUp, sources) == 1
      && out.1 == None
      && FragmentName(PgGroup, PgUp, 1) !in out.0
  {
    var sources := PairSources("a", "c--splitd");
    FreeWithoutLead("a", SplitMarker);
    SplitWithoutMarker("a", SplitMarker);
    SplitAtMarker("c", SplitMarker, "d");
    FreeWithoutLead("d", SplitMarker);
    SplitWithoutMarker("d", SplitMarker);
    assert FragmentCount(PgUp, sources) == 1;
    assert FragmentCount(PgDown, sources) == 2;
    TwoCounts(PgUp, PgDown, sources);
    assert Members(PgGroup) == [PgUp, PgDown];
    PairOutcome("a", "c--splitd", cmdline, 1);
  }

  // ---------------------------------------------------------------------------
  // A full run: one generic up source with one statement, one postgres up source with two.

  const GenericUpPath: string := SourceFileName(Id, "init", "", "up")
  const PostgresUpPath: string := SourceFileName(Id, "init", ".postgres", "up")
  const GenericUp: Migration := Migration(GenericUpPath, Id, "init", GenericDialect, "up")
  const PostgresUp: Migration := Migration(PostgresUpPath, Id, "init", "postgres", "up")
  const InitGroup: MigrationGroup := MigrationGroup(Id, "init", [PostgresUp], Some(GenericUp), None)

  /** The directory walk visits names in lexical order; the postgres source sorts first. */
  const InitEntries: seq<WalkEntry> := [WalkEntry(PostgresUpPath, false, false), WalkEntry(GenericUpPath, false, false)]

  const CreateTable: string := "CREATE TABLE a;"
  const CreateIndex: string := "CREATE INDEX ix;"
  const InitSources: map<string, string> :=
    map[GenericUpPath := CreateTable, PostgresUpPath := CreateTable + SplitMarker + CreateIndex]

  /** A name the grammar describes, built from slash-free parts, is its own base name. */
  lemma SourceNameKept(id: string, name: string, seg: string, dir: string)
    requires '/' !in id && '/' !in name && '/' !in seg && '/' !in dir
    ensures !Skipped(WalkEntry(SourceFileName(id, name, seg, dir), false, false))
  {
    var f := SourceFileName(id, name, seg, dir);
    assert '/' !in f by {
      forall c | c in f ensures c != '/' {
        assert c in id || c in "000000_" || c in name || c in seg || c in "." || c in dir || c in ".sql";
      }
    }
    BaseFixpoint(f);
  }

  /** Two walked files that are kept and classify are grouped as the callback would. */
  lemma ScanTwo(e1: WalkEntry, e2: WalkEntry, m1: Migration, m2: Migration)
    requires !Skipped(e1) && !Skipped(e2)
    requires ParseMigration(e1.path) == Ok(m1) && ParseMigration(e2.path) == Ok(m2)
    ensures Scan([e1, e2]) == Ok(Insert(Insert(map[], m1), m2))
  {
    AcceptedTwo(e1, e2);
    ClassifyTwo(e1.path, e2.path);
    CollectTwo(Ok(m1), Ok(m2));
    GroupTwo(m1, m2);
  }

  lemma AcceptedTwo(e1: WalkEntry, e2: WalkEntry)
    requires !Skipped(e1) && !Skipped(e2)
    ensures Accepted([e1, e2]) == [e1.path, e2.path]
  {
    AcceptedAppend([e1], [e2]);
    assert [e1] + [e2] == [e1, e2];
    assert Accepted([e1]) == [e1.path] by { assert [e1][..0] == []; }
    assert Accepted([e2]) == [e2.path] by { assert [e2][..0] == []; }
  }

  lemma ClassifyTwo(p1: string, p2: string)
    ensures Classify([p1, p2]) == [ParseMigration(p1), ParseMigration(p2)]
  {
  }

  lemma CollectTwo(r1: Result<Migration>, r2: Result<Migration>)
    requires r1.Ok? && r2.Ok?
    ensures Collect([r1, r2]) == Ok([r1.value, r2.value])
  {
    assert Collect([r1]) == Ok([r1.value]) by {
      var one := [r1];
      assert one[..|one| - 1] == [];
      assert Collect(one[..|one| - 1]) == Ok([]);
      assert one[|one| - 1] == r1;
      assert [] + [r1.value] == [r1.value];
    }
    var two := [r1, r2];
    assert two[..|two| - 1] == [r1];
    assert two[|two| - 1] == r2;
    assert [r1.value] + [r2.value] == [r1.value, r2.value];
  }

  lemma GroupTwo(m1: Migration, m2: Migration)
    ensures Group([m1, m2]) == Insert(Insert(map[], m1), m2)
  {
    assert Group([m1]) == Insert(map[], m1) by { assert [m1][..0] == []; }
    assert [m1, m2][..1] == [m1];
  }

  lemma InitParses()
    ensures ParseMigration(PostgresUpPath) == Ok(PostgresUp)
    ensures ParseMigration(GenericUpPath) == Ok(GenericUp)
  {
    assert WellFormedParts(Id, "init", ".postgres", "up");
    assert WellFormedParts(Id, "init", "", "up");
    ParseMigrationOfParts(Id, "init", ".postgres", "up");
    ParseMigrationOfParts(Id, "init", "", "up");
  }

  /** Both names classify, and the walk groups them under their shared ID: the postgres source
      as the only child, the generic one as the up fallback. */
  lemma InitScan()
    ensures Scan(InitEntries) == Ok(map[Id := InitGroup])
  {
    SourceNameKept(Id, "init", ".postgres", "up");
    SourceNameKept(Id, "init", "", "up");
    InitParses();
    ScanTwo(InitEntries[0], InitEntries[1], PostgresUp, GenericUp);
    InitGrouped();
  }

  lemma InitGrouped()
    ensures Insert(Insert(map[], PostgresUp), GenericUp) == map[Id := InitGroup]
  {
    var first := MigrationGroup(Id, "init", [PostgresUp], None, None);
    assert [] + [PostgresUp] == [PostgresUp];
    assert Insert(map[], PostgresUp) == map[Id := first];
    assert first.(fallbackUp := Some(GenericUp)) == InitGroup;
    assert map[Id := first][Id := InitGroup] == map[Id := InitGroup];
  }

  lemma InitSourcesAt()
    ensures InitSources[GenericUpPath] == CreateTable
    ensures InitSources[PostgresUpPath] == CreateTable + SplitMarker + CreateIndex
  {
    assert |GenericUpPath| < |PostgresUpPath|;
  }

  /** Text without a dash is one piece; two such texts around a marker are two. */
  lemma DashFreePieces(a: string, b: string)
    requires '-' !in a && '-' !in b
    ensures Split(a, SplitMarker) == [a]
    ensures Split(a + SplitMarker + b, SplitMarker) == [a, b]
  {
    assert SplitMarker[0] == '-';
    SplitAtMarker(a, SplitMarker, b);
    FreeWithoutLead(a, SplitMarker);
    SplitWithoutMarker(a, SplitMarker);
    FreeWithoutLead(b, SplitMarker);
    SplitWithoutMarker(b, SplitMarker);
  }

  lemma InitSplits()
    ensures Split(CreateTable, SplitMarker) == [CreateTable]
    ensures Split(CreateTable + SplitMarker + CreateIndex, SplitMarker) == [CreateTable, CreateIndex]
  {
    DashFreePieces(CreateTable, CreateIndex);
  }

  /** The sources split into one and two fragments, giving the counts and the maximum. */
  lemma InitCounts()
    ensures Members(InitGroup) == [PostgresUp, GenericUp]
    ensures FragmentCount(PostgresUp, InitSources) == 2 && FragmentCount(GenericUp, InitSources) == 1
    ensures Counts(Members(InitGroup), InitSources) == map["postgres" := 2, GenericDialect := 1]
    ensures MaxCount(Members(InitGroup), InitSources) == 2
  {
    InitSourcesAt();
    InitSplits();
    TwoCounts(PostgresUp, GenericUp, InitSources);
  }

  lemma IdDigits()
    ensures |Id| == 14 && AllDigits(Id)
  {
  }

  lemma InitWellFormed()
    ensures WellFormedGroup(InitGroup)
  {
    IdDigits();
    assert DotFree("init");
    assert DotFree("postgres");
  }

  lemma InitPlanFits()
    ensures WellFormedGroup(InitGroup) && DistinctKeys(Members(InitGroup)) && Readable(Members(InitGroup), InitSources)
  {
    InitWellFormed();
    assert Members(InitGroup) == [PostgresUp, GenericUp];
    assert GenericUpPath in InitSources && PostgresUpPath in InitSources;
  }

  /** What the run leaves under the name of fragment i of member k. */
  lemma InitPoint(cmdline: string, k: nat, i: nat)
    requires k < 2
    ensures var ms := Members(InitGroup);
      var out := Execute(map[], {}, Plan(InitGroup, InitSources, cmdline));
      && out.1 == None
      && Lookup(out.0, FragmentName(InitGroup, ms[k], i))
           == Expected(map[], InitGroup, ms, InitSources, Counts(ms, InitSources), MaxCount(ms, InitSources), cmdline, k, i)
  {
    InitPlanFits();
    assert |Members(InitGroup)| == 2;
    PlanOutcome(map[], {}, InitGroup, InitSources, cmdline);
  }

  /** The run writes nothing but the first two fragments of each member. */
  lemma InitOnly(cmdline: string)
    ensures var out := Execute(map[], {}, Plan(InitGroup, InitSources, cmdline));
      forall n :: n in out.0 ==>
        || n == FragmentName(InitGroup, PostgresUp, 0) || n == FragmentName(InitGroup, PostgresUp, 1)
        || n == FragmentName(InitGroup, GenericUp, 0) || n == FragmentName(InitGroup, GenericUp, 1)
  {
    InitPlanFits();
    InitCounts();
    var ms := Members(InitGroup);
    var out := Execute(map[], {}, Plan(InitGroup, InitSources, cmdline));
    PlanOutcome(map[], {}, InitGroup, InitSources, cmdline);
    forall n | n in out.0
      ensures || n == FragmentName(InitGroup, PostgresUp, 0) || n == FragmentName(InitGroup, PostgresUp, 1)
              || n == FragmentName(InitGroup, GenericUp, 0) || n == FragmentName(InitGroup, GenericUp, 1)
    {
      assert Lookup(out.0, n) != Lookup(map[], n);
      var k: nat, i: nat :| k < |ms| && i < 2 && n == FragmentName(InitGroup, ms[k], i);
      assert ms[k] == PostgresUp || ms[k] == GenericUp;
      assert i == 0 || i == 1;
    }
  }

  /** Fragment 0 of each member keeps its source's name. */
  lemma InitFirstNames()
    ensures FragmentName(InitGroup, PostgresUp, 0) == PostgresUpPath
    ensures FragmentName(InitGroup, GenericUp, 0) == GenericUpPath
  {
    FirstFragmentName(InitGroup, PostgresUp);
    FirstFragmentName(InitGroup, GenericUp);
    assert "." + "postgres" == ".postgres";
  }

  lemma InitPostgresFiles(cmdline: string)
    ensures var out := Execute(map[], {}, Plan(InitGroup, InitSources, cmdline));
      && Lookup(out.0, PostgresUpPath) == Some(FragmentHeader(cmdline) + CreateTable)
      && Lookup(out.0, FragmentName(InitGroup, PostgresUp, 1)) == Some(FragmentHeader(cmdline) + CreateIndex)
  {
    InitCounts();
    InitSourcesAt();
    InitSplits();
    InitFirstNames();
    InitPoint(cmdline, 0, 0);
    InitPoint(cmdline, 0, 1);
  }

  lemma InitGenericFiles(cmdline: string)
    ensures var out := Execute(map[], {}, Plan(InitGroup, InitSources, cmdline));
      && Lookup(out.0, GenericUpPath) == Some(FragmentHeader(cmdline) + CreateTable)
      && Lookup(out.0, FragmentName(InitGroup, GenericUp, 1)) == Some(BlankFragment(cmdline))
  {
    InitCounts();
    InitSourcesAt();
    InitSplits();
    InitFirstNames();
    InitPoint(cmdline, 1, 0);
    InitPoint(cmdline, 1, 1);
  }

  /** Into an empty directory the run writes four files: both fragments of the postgres source,
      the generic source's one fragment under its own name, and a blank second generic
      fragment, because the generic migration has fewer fragments than the maximum. */
  lemma InitOutcome(cmdline: string)
    ensures var out := Execute(map[], {}, Plan(InitGroup, InitSources, cmdline));
      var postgres1 := FragmentName(InitGroup, PostgresUp, 1);
      var generic1 := FragmentName(InitGroup, GenericUp, 1);
      && out.1 == None
      && Lookup(out.0, PostgresUpPath) == Some(FragmentHeader(cmdline) + CreateTable)
      && Lookup(out.0, postgres1) == Some(FragmentHeader(cmdline) + CreateIndex)
      && Lookup(out.0, GenericUpPath) == Some(FragmentHeader(cmdline) + CreateTable)
      && Lookup(out.0, generic1) == Some(BlankFragment(cmdline))
      && forall n :: n in out.0 ==> n == PostgresUpPath || n == postgres1 || n == GenericUpPath || n == generic1
  {
    InitPoint(cmdline, 0, 0);
    InitPostgresFiles(cmdline);
    InitGenericFiles(cmdline);
    InitOnly(cmdline);
    InitFirstNames();
    assert Members(InitGroup) == [PostgresUp, GenericUp];
  }

  /** A filename with only the 14-digit ID before the underscore does not match the grammar,
      which requires six zeros between the ID and the underscore. */
  lemma UnpaddedNameRejected()
    ensures ParseMigration("20230101000000_init.up.sql") == Err(ParseError("20230101000000_init.up.sql"))
  {
    var f := "20230101000000_init.up.sql";
    assert f[14] == '_';
    assert f[14..20][0] != "000000"[0];
  }
}
