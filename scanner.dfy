/** The source scanner: walks the entries of the source tree in order, keeps the files
    that sit directly under the root, classifies them and groups them by ID. */
module Scanner {
  import opened Errors
  import opened Classifier

  /** All sources that share one ID. Generic up and down sources are the fallbacks;
      every other source is a child, in walk order. */
  datatype MigrationGroup = MigrationGroup(
    id: string,
    name: string,
    children: seq<Migration>,
    fallbackUp: Option<Migration>,
    fallbackDown: Option<Migration>)

  /** One entry reported by the directory walk: its slash-separated path relative to the
      root, whether it is a directory, and whether the walk reported an error for it. */
  datatype WalkEntry = WalkEntry(path: string, isDir: bool, walkErr: bool)

  predicate IsGenericUp(m: Migration) { m.dialect == GenericDialect && m.direction == "up" }

  predicate IsGenericDown(m: Migration) { m.dialect == GenericDialect && m.direction == "down" }

  predicate IsFallback(m: Migration) { IsGenericUp(m) || IsGenericDown(m) }

  // ---------------------------------------------------------------------------
  // filepath.Base on slash-separated paths.

  /** p without the slashes at its end. */
  function TrimTrailingSlashes(p: string): (q: string)
    ensures q <= p
    ensures q == [] || q[|q| - 1] != '/'
    ensures forall i :: |q| <= i < |p| ==> p[i] == '/'
  {
    if p != [] && p[|p| - 1] == '/' then TrimTrailingSlashes(p[..|p| - 1]) else p
  }

  /** The part of p after its last slash; all of p when it has none. */
  function AfterLastSlash(p: string): (q: string)
    ensures '/' !in q
    ensures '/' !in p ==> q == p
  {
    if p == [] then []
    else if p[|p| - 1] == '/' then []
    else
      var q := AfterLastSlash(p[..|p| - 1]);
      assert '/' !in p ==> p == p[..|p| - 1] + [p[|p| - 1]];
      q + [p[|p| - 1]]
  }

  /** The last element of a path (Go's filepath.Base with '/' as the separator). */
  function Base(p: string): string {
    if p == "" then "."
    else
      var q := TrimTrailingSlashes(p);
      if q == "" then "/" else AfterLastSlash(q)
  }

  /** A path is its own base exactly when it is "/" or a non-empty path without a slash. */
  lemma BaseFixpoint(p: string)
    ensures p == Base(p) <==> p == "/" || (p != "" && '/' !in p)
  {
    if p != "" {
      var q := TrimTrailingSlashes(p);
      if '/' !in p {
        assert q == p;
      } else if q == "" {
        assert p[0] == '/';
        if p != "/" { assert |p| > 1; }
      }
    }
  }

  /** The walk callback returns early, without error, for these entries. */
  predicate Skipped(e: WalkEntry) {
    e.walkErr || e.isDir || e.path != Base(e.path)
  }

  /** The paths that reach the classifier, in walk order. */
  function Accepted(entries: seq<WalkEntry>): seq<string> {
    if entries == [] then []
    else
      var e := entries[|entries| - 1];
      Accepted(entries[..|entries| - 1]) + (if Skipped(e) then [] else [e.path])
  }

  /** The classification of every path, in order. */
  function Classify(paths: seq<string>): seq<Result<Migration>> {
    seq(|paths|, k requires 0 <= k < |paths| => ParseMigration(paths[k]))
  }

  /** The first failure among the results, or all their values in order. */
  function Collect(rs: seq<Result<Migration>>): Result<seq<Migration>> {
    if rs == [] then Ok([])
    else
      match Collect(rs[..|rs| - 1])
      case Err(e) => Err(e)
      case Ok(ms) =>
        match rs[|rs| - 1]
        case Err(e) => Err(e)
        case Ok(m) => Ok(ms + [m])
  }

  /** The group map after the walk callback has seen m. */
  function Insert(mgs: map<string, MigrationGroup>, m: Migration): map<string, MigrationGroup> {
    var g := if m.id in mgs then mgs[m.id] else MigrationGroup(m.id, m.name, [], None, None);
    var g' :=
      if IsGenericUp(m) then g.(fallbackUp := Some(m))
      else if IsGenericDown(m) then g.(fallbackDown := Some(m))
      else g.(children := g.children + [m]);
    mgs[m.id := g']
  }

  /** The group map after the callback has seen the migrations ms, in order. */
  function Group(ms: seq<Migration>): map<string, MigrationGroup> {
    if ms == [] then map[] else Insert(Group(ms[..|ms| - 1]), ms[|ms| - 1])
  }

  /** What the walk produces: the first parse error, or the groups of all accepted files. */
  function Scan(entries: seq<WalkEntry>): Result<map<string, MigrationGroup>> {
    match Collect(Classify(Accepted(entries)))
    case Err(e) => Err(e)
    case Ok(ms) => Ok(Group(ms))
  }

  /** The walk of readMigrations: every entry is visited in order, skipped entries are
      passed over, the first file that does not classify aborts the walk. */
  method ScanMigrations(entries: seq<WalkEntry>) returns (r: Result<map<string, MigrationGroup>>)
    ensures r == Scan(entries)
  {
    var mgs: map<string, MigrationGroup> := map[];
    ghost var ms: seq<Migration> := [];
    for i := 0 to |entries|
      invariant Collect(Classify(Accepted(entries[..i]))) == Ok(ms)
      invariant mgs == Group(ms)
    {
      var e := entries[i];
      if e.walkErr || e.isDir || e.path != Base(e.path) {
        SkipNext(entries, i);
        continue;
      }
      var p := ParseMigration(e.path);
      if p.Err? {
        ScanStopsAtBadName(entries, i);
        return Err(p.error);
      }
      var m := p.value;
      mgs := AddToGroup(mgs, m);
      CollectNext(entries, i, ms);
      assert (ms + [m])[..|ms|] == ms;
      ms := ms + [m];
    }
    assert entries[..|entries|] == entries;
    return Ok(mgs);
  }

  /** The update the walk callback makes for one classified file: the group of its ID is
      created on first sight with that file's name, then the file becomes the up fallback,
      the down fallback or the next child. */
  method AddToGroup(mgs: map<string, MigrationGroup>, m: Migration) returns (mgs': map<string, MigrationGroup>)
    ensures mgs' == Insert(mgs, m)
  {
    mgs' := mgs;
    if m.id !in mgs' {
      mgs' := mgs'[m.id := MigrationGroup(m.id, m.name, [], None, None)];
    }
    if m.dialect == GenericDialect && m.direction == "up" {
      mgs' := mgs'[m.id := mgs'[m.id].(fallbackUp := Some(m))];
    } else if m.dialect == GenericDialect && m.direction == "down" {
      mgs' := mgs'[m.id := mgs'[m.id].(fallbackDown := Some(m))];
    } else {
      mgs' := mgs'[m.id := mgs'[m.id].(children := mgs'[m.id].children + [m])];
    }
  }

  // ---------------------------------------------------------------------------
  // Lemmas about the walk.

  lemma SkipNext(entries: seq<WalkEntry>, i: nat)
    requires i < |entries| && Skipped(entries[i])
    ensures Accepted(entries[..i + 1]) == Accepted(entries[..i])
  {
    assert entries[..i + 1][..i] == entries[..i];
  }

  lemma CollectNext(entries: seq<WalkEntry>, i: nat, ms: seq<Migration>)
    requires i < |entries| && !Skipped(entries[i])
    requires Collect(Classify(Accepted(entries[..i]))) == Ok(ms)
    requires ParseMigration(entries[i].path).Ok?
    ensures Collect(Classify(Accepted(entries[..i + 1]))) == Ok(ms + [ParseMigration(entries[i].path).value])
  {
    ClassifyNext(entries, i);
  }

  /** Visiting one accepted entry adds its classification to the results. */
  lemma ClassifyNext(entries: seq<WalkEntry>, i: nat)
    requires i < |entries| && !Skipped(entries[i])
    ensures var rs := Classify(Accepted(entries[..i + 1]));
      && rs == Classify(Accepted(entries[..i])) + [ParseMigration(entries[i].path)]
      && rs[..|rs| - 1] == Classify(Accepted(entries[..i]))
  {
    assert entries[..i + 1] == entries[..i] + [entries[i]];
    assert entries[..i + 1][..i] == entries[..i];
    assert Accepted(entries[..i + 1]) == Accepted(entries[..i]) + [entries[i].path];
  }

  lemma ScanStopsAtBadName(entries: seq<WalkEntry>, i: nat)
    requires i < |entries| && !Skipped(entries[i])
    requires Collect(Classify(Accepted(entries[..i]))).Ok?
    requires ParseMigration(entries[i].path).Err?
    ensures Scan(entries) == Err(ParseMigration(entries[i].path).error)
  {
    ClassifyNext(entries, i);
    ClassifySplit(entries, i);
    CollectStops(Classify(Accepted(entries[..i])), ParseMigration(entries[i].path), Classify(Accepted(entries[i + 1..])));
  }

  /** The results of the walk are those before entry i, entry i's own and those after it. */
  lemma ClassifySplit(entries: seq<WalkEntry>, i: nat)
    requires i < |entries|
    ensures Classify(Accepted(entries)) == Classify(Accepted(entries[..i + 1])) + Classify(Accepted(entries[i + 1..]))
  {
    AcceptedSplit(entries, i + 1);
    ClassifyAppend(Accepted(entries[..i + 1]), Accepted(entries[i + 1..]));
  }

  lemma AcceptedSplit(entries: seq<WalkEntry>, k: nat)
    requires k <= |entries|
    ensures Accepted(entries) == Accepted(entries[..k]) + Accepted(entries[k..])
  {
    CutRejoins(entries, k);
    AcceptedAppend(entries[..k], entries[k..]);
  }

  /** A failure after successes decides the outcome, whatever follows. */
  lemma CollectStops(a: seq<Result<Migration>>, r: Result<Migration>, b: seq<Result<Migration>>)
    requires Collect(a).Ok? && r.Err?
    ensures Collect(a + [r] + b) == Err(r.error)
  {
    assert (a + [r])[..|a|] == a;
    CollectErrorSticks(a + [r], b);
  }

  lemma {:induction false} AcceptedAppend(a: seq<WalkEntry>, b: seq<WalkEntry>)
    ensures Accepted(a + b) == Accepted(a) + Accepted(b)
    decreases |b|
  {
    if b != [] {
      var b' := b[..|b| - 1];
      assert (a + b)[..|a + b| - 1] == a + b';
      AcceptedAppend(a, b');
    } else {
      assert a + b == a;
    }
  }

  lemma ClassifyAppend(a: seq<string>, b: seq<string>)
    ensures Classify(a + b) == Classify(a) + Classify(b)
  {
  }

  lemma {:induction false} CollectErrorSticks(a: seq<Result<Migration>>, b: seq<Result<Migration>>)
    requires Collect(a).Err?
    ensures Collect(a + b) == Collect(a)
    decreases |b|
  {
    if b == [] {
      assert a + b == a;
    } else {
      var b' := b[..|b| - 1];
      assert (a + b)[..|a + b| - 1] == a + b';
      CollectErrorSticks(a, b');
    }
  }

  /** Collecting succeeds with every value, in order. */
  lemma {:induction false} CollectOk(rs: seq<Result<Migration>>)
    requires Collect(rs).Ok?
    ensures |Collect(rs).value| == |rs|
    ensures forall k :: 0 <= k < |rs| ==> rs[k] == Ok(Collect(rs).value[k])
  {
    if rs != [] {
      var init := rs[..|rs| - 1];
      CollectOk(init);
      assert Collect(rs).value == Collect(init).value + [rs[|rs| - 1].value];
      forall k | 0 <= k < |rs| ensures rs[k] == Ok(Collect(rs).value[k]) {
        if k < |init| { assert rs[k] == init[k]; }
      }
    }
  }

  /** Collecting fails with the first failure. */
  lemma {:induction false} CollectErr(rs: seq<Result<Migration>>)
    requires Collect(rs).Err?
    ensures exists k :: (0 <= k < |rs| && rs[k].Err? && Collect(rs).error == rs[k].error
      && forall j :: 0 <= j < k ==> rs[j].Ok?)
  {
    var init := rs[..|rs| - 1];
    assert forall j :: 0 <= j < |init| ==> rs[j] == init[j];
    if Collect(init).Err? {
      CollectErr(init);
      var k :| 0 <= k < |init| && init[k].Err? && Collect(init).error == init[k].error
        && forall j :: 0 <= j < k ==> init[j].Ok?;
      assert rs[k] == init[k];
    } else {
      CollectOk(init);
      var k := |rs| - 1;
      assert forall j :: 0 <= j < k ==> rs[j].Ok?;
    }
  }

  /** An entry the callback returns early for leaves the result of the walk unchanged. */
  lemma ScanIgnoresSkipped(before: seq<WalkEntry>, e: WalkEntry, after: seq<WalkEntry>)
    requires Skipped(e)
    ensures Scan(before + [e] + after) == Scan(before + after)
  {
    AcceptedAppend(before + [e], after);
    AcceptedAppend(before, [e]);
    AcceptedAppend(before, after);
    assert Accepted([e]) == [] by { assert [e][..0] == []; }
    assert Accepted(before + [e] + after) == Accepted(before + after);
  }

  /** The walk fails exactly when some accepted file does not classify, and then reports
      the first such file. */
  lemma ScanFailsOnFirstBadName(entries: seq<WalkEntry>)
    ensures var paths := Accepted(entries);
      Scan(entries).Err? <==> exists k :: 0 <= k < |paths| && ParseMigration(paths[k]).Err?
    ensures var paths := Accepted(entries);
      Scan(entries).Err? ==> exists k :: (0 <= k < |paths| && Scan(entries).error == ParseError(paths[k])
        && ParseMigration(paths[k]).Err? && forall j :: 0 <= j < k ==> ParseMigration(paths[j]).Ok?)
  {
    var paths := Accepted(entries);
    if Collect(Classify(paths)).Err? {
      var k := ClassifiedFailure(paths);
      assert Scan(entries).Err? && Scan(entries).error == ParseError(paths[k]);
      assert 0 <= k < |paths| && ParseMigration(paths[k]).Err?;
    } else {
      ClassifiedSuccess(paths);
    }
  }

  /** A failed collection of classifications reports the first name that does not classify. */
  lemma ClassifiedFailure(paths: seq<string>) returns (k: nat)
    requires Collect(Classify(paths)).Err?
    ensures k < |paths| && Collect(Classify(paths)).error == ParseError(paths[k])
    ensures ParseMigration(paths[k]).Err? && forall j :: 0 <= j < k ==> ParseMigration(paths[j]).Ok?
  {
    var rs := Classify(paths);
    CollectErr(rs);
    k :| 0 <= k < |rs| && rs[k].Err? && Collect(rs).error == rs[k].error
      && forall j :: 0 <= j < k ==> rs[j].Ok?;
    assert rs[k] == ParseMigration(paths[k]);
    assert forall j :: 0 <= j < k ==> rs[j] == ParseMigration(paths[j]);
  }

  /** A successful collection means every name classifies. */
  lemma ClassifiedSuccess(paths: seq<string>)
    requires Collect(Classify(paths)).Ok?
    ensures forall k :: 0 <= k < |paths| ==> ParseMigration(paths[k]).Ok?
  {
    var rs := Classify(paths);
    CollectOk(rs);
    assert forall k :: 0 <= k < |paths| ==> rs[k] == ParseMigration(paths[k]);
  }

  // ---------------------------------------------------------------------------
  // Lemmas about the grouping.

  /** The members of ms with this ID that are not fallbacks, in order. */
  function ChildrenOf(ms: seq<Migration>, id: string): seq<Migration> {
    if ms == [] then []
    else (if ms[0].id == id && !IsFallback(ms[0]) then [ms[0]] else []) + ChildrenOf(ms[1..], id)
  }

  lemma {:induction false} ChildrenOfSnoc(ms: seq<Migration>, m: Migration, id: string)
    ensures ChildrenOf(ms + [m], id) == ChildrenOf(ms, id) + (if m.id == id && !IsFallback(m) then [m] else [])
  {
    if ms == [] {
      assert [m][1..] == [];
    } else {
      assert (ms + [m])[1..] == ms[1..] + [m];
      ChildrenOfSnoc(ms[1..], m, id);
    }
  }

  /** There is a group for an ID exactly when some migration has that ID, and it is keyed by its own ID. */
  lemma {:induction false} GroupKeys(ms: seq<Migration>)
    ensures forall id :: id in Group(ms) <==> exists k :: 0 <= k < |ms| && ms[k].id == id
    ensures forall id :: id in Group(ms) ==> Group(ms)[id].id == id
  {
    if ms != [] {
      var init := ms[..|ms| - 1];
      GroupKeys(init);
      forall id | exists k :: 0 <= k < |ms| && ms[k].id == id
        ensures id in Group(ms)
      {
        var k :| 0 <= k < |ms| && ms[k].id == id;
        if k < |ms| - 1 { assert init[k] == ms[k]; }
      }
      forall id | id in Group(ms)
        ensures exists k :: 0 <= k < |ms| && ms[k].id == id
      {
        if id != ms[|ms| - 1].id {
          assert id in Group(init);
          var k :| 0 <= k < |init| && init[k].id == id;
          assert ms[k] == init[k];
        }
      }
    }
  }

  /** A group takes its name from the first migration with its ID. */
  lemma {:induction false} GroupName(ms: seq<Migration>, id: string)
    requires id in Group(ms)
    ensures exists k :: (0 <= k < |ms| && ms[k].id == id && Group(ms)[id].name == ms[k].name
      && forall j :: 0 <= j < k ==> ms[j].id != id)
  {
    var init := ms[..|ms| - 1];
    var m := ms[|ms| - 1];
    if id in Group(init) {
      GroupName(init, id);
      var k :| 0 <= k < |init| && init[k].id == id && Group(init)[id].name == init[k].name
        && forall j :: 0 <= j < k ==> init[j].id != id;
      assert ms[k] == init[k];
      assert forall j :: 0 <= j < k ==> ms[j] == init[j];
    } else {
      GroupKeys(init);
      assert forall j :: 0 <= j < |init| ==> init[j].id != id;
      assert forall j :: 0 <= j < |init| ==> ms[j] == init[j];
    }
  }

  /** A group's children are exactly the non-fallback migrations with its ID, in order. */
  lemma {:induction false} GroupChildren(ms: seq<Migration>, id: string)
    requires id in Group(ms)
    ensures Group(ms)[id].children == ChildrenOf(ms, id)
  {
    var init := ms[..|ms| - 1];
    var m := ms[|ms| - 1];
    assert ms == init + [m];
    ChildrenOfSnoc(init, m, id);
    if id in Group(init) {
      GroupChildren(init, id);
    } else {
      GroupKeys(init);
      GroupChildrenAbsent(init, id);
    }
  }

  lemma {:induction false} GroupChildrenAbsent(ms: seq<Migration>, id: string)
    requires forall k :: 0 <= k < |ms| ==> ms[k].id != id
    ensures ChildrenOf(ms, id) == []
  {
    if ms != [] {
      GroupChildrenAbsent(ms[1..], id);
    }
  }

  /** The up fallback of a group is the last generic up migration with its ID, if any. */
  lemma {:induction false} GroupFallbackUp(ms: seq<Migration>, id: string)
    requires id in Group(ms)
    ensures var up := Group(ms)[id].fallbackUp;
      && (up.None? <==> forall k :: 0 <= k < |ms| ==> !(ms[k].id == id && IsGenericUp(ms[k])))
      && (up.Some? ==> exists k :: (0 <= k < |ms| && ms[k] == up.value && ms[k].id == id && IsGenericUp(ms[k])
            && forall j :: k < j < |ms| ==> !(ms[j].id == id && IsGenericUp(ms[j]))))
  {
    var init := ms[..|ms| - 1];
    var m := ms[|ms| - 1];
    assert forall j :: 0 <= j < |init| ==> ms[j] == init[j];
    if !(m.id == id && IsGenericUp(m)) {
      if id in Group(init) {
        GroupFallbackUp(init, id);
      } else {
        GroupKeys(init);
      }
    }
  }

  /** The down fallback of a group is the last generic down migration with its ID, if any. */
  lemma {:induction false} GroupFallbackDown(ms: seq<Migration>, id: string)
    requires id in Group(ms)
    ensures var down := Group(ms)[id].fallbackDown;
      && (down.None? <==> forall k :: 0 <= k < |ms| ==> !(ms[k].id == id && IsGenericDown(ms[k])))
      && (down.Some? ==> exists k :: (0 <= k < |ms| && ms[k] == down.value && ms[k].id == id && IsGenericDown(ms[k])
            && forall j :: k < j < |ms| ==> !(ms[j].id == id && IsGenericDown(ms[j]))))
  {
    var init := ms[..|ms| - 1];
    var m := ms[|ms| - 1];
    assert forall j :: 0 <= j < |init| ==> ms[j] == init[j];
    if !(m.id == id && IsGenericDown(m)) {
      if id in Group(init) {
        GroupFallbackDown(init, id);
      } else {
        GroupKeys(init);
      }
    }
  }

  /** After a successful walk, every accepted file is classified into the group of its ID;
      the groups hold only classified files, a child is never generic, and every child and
      fallback has the group's ID. */
  lemma ScanGroupsAccepted(entries: seq<WalkEntry>)
    requires Scan(entries).Ok?
    ensures var mgs := Scan(entries).value;
      var paths := Accepted(entries);
      && (forall k :: 0 <= k < |paths| ==> ParseMigration(paths[k]).Ok? && ParseMigration(paths[k]).value.id in mgs)
      && (forall id :: id in mgs ==> (mgs[id].id == id
            && mgs[id].children == ChildrenOf(Collect(Classify(paths)).value, id)
            && forall c :: c in mgs[id].children ==>
                 c.id == id && c.dialect != GenericDialect && c.path in paths && IsDirection(c.direction)))
  {
    var paths := Accepted(entries);
    var ms := Collect(Classify(paths)).value;
    assert Scan(entries).value == Group(ms);
    ClassifiedInGroups(paths);
    forall id | id in Group(ms)
      ensures Group(ms)[id].id == id
      ensures Group(ms)[id].children == ChildrenOf(ms, id)
      ensures forall c :: c in Group(ms)[id].children ==>
        c.id == id && c.dialect != GenericDialect && c.path in paths && IsDirection(c.direction)
    {
      GroupKeys(ms);
      ClassifiedChildren(paths, id);
    }
  }

  /** Every name classifies and lands in a group of its ID. */
  lemma ClassifiedInGroups(paths: seq<string>)
    requires Collect(Classify(paths)).Ok?
    ensures var ms := Collect(Classify(paths)).value;
      forall k :: 0 <= k < |paths| ==> ParseMigration(paths[k]).Ok? && ParseMigration(paths[k]).value.id in Group(ms)
  {
    var rs := Classify(paths);
    var ms := Collect(rs).value;
    CollectOk(rs);
    forall k | 0 <= k < |paths| ensures ParseMigration(paths[k]).Ok? && ParseMigration(paths[k]).value.id in Group(ms) {
      assert rs[k] == ParseMigration(paths[k]);
      assert rs[k] == Ok(ms[k]);
      IdInGroup(ms, k);
    }
  }

  lemma IdInGroup(ms: seq<Migration>, k: nat)
    requires k < |ms|
    ensures ms[k].id in Group(ms)
  {
    GroupKeys(ms);
  }

  /** The children of group id are the non-fallback migrations with that ID, each classified
      from one of the names. */
  lemma ClassifiedChildren(paths: seq<string>, id: string)
    requires Collect(Classify(paths)).Ok?
    requires id in Group(Collect(Classify(paths)).value)
    ensures var ms := Collect(Classify(paths)).value;
      && Group(ms)[id].children == ChildrenOf(ms, id)
      && forall c :: c in Group(ms)[id].children ==>
           c.id == id && c.dialect != GenericDialect && c.path in paths && IsDirection(c.direction)
  {
    var ms := Collect(Classify(paths)).value;
    CollectOk(Classify(paths));
    GroupChildren(ms, id);
    forall c | c in ChildrenOf(ms, id)
      ensures c.id == id && c.dialect != GenericDialect && c.path in paths && IsDirection(c.direction)
    {
      var k := ChildrenOfMember(ms, id, c);
      assert Classify(paths)[k] == ParseMigration(paths[k]);
      ParseMigrationRoundTrip(paths[k]);
    }
  }

  /** Every child comes from one of the migrations, with the given ID and not a fallback. */
  lemma {:induction false} ChildrenOfMember(ms: seq<Migration>, id: string, c: Migration) returns (k: nat)
    requires c in ChildrenOf(ms, id)
    ensures k < |ms| && ms[k] == c && c.id == id && !IsFallback(c)
  {
    if ms[0].id == id && !IsFallback(ms[0]) && c == ms[0] {
      k := 0;
    } else {
      var k' := ChildrenOfMember(ms[1..], id, c);
      k := k' + 1;
    }
  }

  /** The shape of every group a successful walk builds: its ID and name come from the
      grammar, its children are non-generic and carry well-formed dialects and directions,
      and its fallbacks are generic migrations of its ID in their own direction. */
  predicate WellFormedGroup(g: MigrationGroup) {
    && |g.id| == 14 && AllDigits(g.id) && g.name != "" && DotFree(g.name)
    && (forall c :: c in g.children ==>
          c.id == g.id && c.dialect != GenericDialect && DotFree(c.dialect) && IsDirection(c.direction))
    && (g.fallbackUp.Some? ==> g.fallbackUp.value.id == g.id && IsGenericUp(g.fallbackUp.value))
    && (g.fallbackDown.Some? ==> g.fallbackDown.value.id == g.id && IsGenericDown(g.fallbackDown.value))
  }

  lemma DialectCharsDotFree(s: string)
    requires AllDialectChars(s)
    ensures DotFree(s)
  {
    forall i | 0 <= i < |s| ensures s[i] != '.' {
      assert IsDialectChar(s[i]);
    }
  }

  /** Every group of a successful walk is well formed. */
  lemma ScanWellFormed(entries: seq<WalkEntry>)
    requires Scan(entries).Ok?
    ensures forall id :: id in Scan(entries).value ==> WellFormedGroup(Scan(entries).value[id])
  {
    var paths := Accepted(entries);
    var ms := Collect(Classify(paths)).value;
    CollectOk(Classify(paths));
    assert forall k :: 0 <= k < |paths| ==> Classify(paths)[k] == ParseMigration(paths[k]);
    ScanGroupsAccepted(entries);
    GroupKeys(ms);
    forall id | id in Group(ms) ensures WellFormedGroup(Group(ms)[id]) {
      var g := Group(ms)[id];
      GroupName(ms, id);
      var k :| 0 <= k < |ms| && ms[k].id == id && g.name == ms[k].name && forall j :: 0 <= j < k ==> ms[j].id != id;
      ParseMigrationRoundTrip(paths[k]);
      forall c | c in g.children ensures DotFree(c.dialect) {
        var k' := ChildrenOfMember(ms, id, c);
        ParseMigrationRoundTrip(paths[k']);
        DialectCharsDotFree(c.dialect);
      }
      GroupFallbackUp(ms, id);
      GroupFallbackDown(ms, id);
    }
  }
}
