/** The opt-in dialect validation that ends readMigrations: every child of every group must
    use an expected dialect, and every expected dialect must be covered in both directions,
    by a child of its own or by the group's generic fallback. */
module Validator {
  import opened Errors
  import opened Classifier
  import opened Scanner

  /** The expected dialects as a set (the `eds` lookup table). */
  function DialectSet(expected: seq<string>): set<string> {
    set d | d in expected
  }

  /** The first child, in order, whose dialect is not in eds. */
  function FirstUnexpected(children: seq<Migration>, eds: set<string>): Option<Migration> {
    if children == [] then None
    else
      match FirstUnexpected(children[..|children| - 1], eds)
      case Some(c) => Some(c)
      case None =>
        var c := children[|children| - 1];
        if c.dialect in eds then None else Some(c)
  }

  /** The dialect-and-direction keys the children cover (the `expect` table). */
  function CoverageKeys(children: seq<Migration>): set<string> {
    set c | c in children :: c.dialect + "." + c.direction
  }

  /** The first coverage gap: the expected dialects are checked in order, up before down;
      a generic fallback covers its direction for every dialect. */
  function FirstMissing(g: MigrationGroup, expected: seq<string>, keys: set<string>): Option<MigrationError> {
    if expected == [] then None
    else
      match FirstMissing(g, expected[..|expected| - 1], keys)
      case Some(e) => Some(e)
      case None =>
        var d := expected[|expected| - 1];
        if d + ".up" !in keys && g.fallbackUp.None? then Some(MissingDialect(d, g.id, "up"))
        else if d + ".down" !in keys && g.fallbackDown.None? then Some(MissingDialect(d, g.id, "down"))
        else None
  }

  /** The error validation reports for one group, if any: an unexpected dialect among the
      children comes first, then the first coverage gap. */
  function GroupCheck(g: MigrationGroup, expected: seq<string>): Option<MigrationError> {
    match FirstUnexpected(g.children, DialectSet(expected))
    case Some(c) => Some(UnexpectedDialect(c.dialect, c.path))
    case None => FirstMissing(g, expected, CoverageKeys(g.children))
  }

  /** Every child uses an expected dialect, and every expected dialect is covered in both
      directions, by a child or by the fallback. */
  predicate GroupValid(g: MigrationGroup, expected: seq<string>) {
    && (forall c :: c in g.children ==> c.dialect in expected)
    && (forall d :: d in expected ==>
          && (g.fallbackUp.Some? || exists c :: c in g.children && c.dialect == d && c.direction == "up")
          && (g.fallbackDown.Some? || exists c :: c in g.children && c.dialect == d && c.direction == "down"))
  }

  // ---------------------------------------------------------------------------
  // The validation loops.

  /** The check of one group: the first loop fails on an unexpected child and records the
      keys it covers, the second fails on the first expected dialect left uncovered. */
  method CheckGroup(g: MigrationGroup, expected: seq<string>, eds: set<string>) returns (err: Option<MigrationError>)
    requires eds == DialectSet(expected)
    ensures err == GroupCheck(g, expected)
  {
    var covered: set<string> := {};
    for i := 0 to |g.children|
      invariant FirstUnexpected(g.children[..i], eds) == None
      invariant covered == CoverageKeys(g.children[..i])
    {
      var m := g.children[i];
      assert g.children[..i + 1][..i] == g.children[..i];
      if m.dialect !in eds {
        FirstUnexpectedSticks(g.children[..i + 1], g.children[i + 1..], eds);
        CutRejoins(g.children, i + 1);
        return Some(UnexpectedDialect(m.dialect, m.path));
      }
      CoverageKeysNext(g.children, i);
      covered := covered + {m.dialect + "." + m.direction};
    }
    assert g.children[..|g.children|] == g.children;
    for j := 0 to |expected|
      invariant FirstMissing(g, expected[..j], covered) == None
    {
      var d := expected[j];
      assert expected[..j + 1][..j] == expected[..j];
      if d + ".up" !in covered && g.fallbackUp.None? {
        FirstMissingSticks(g, expected[..j + 1], expected[j + 1..], covered);
        CutRejoins(expected, j + 1);
        return Some(MissingDialect(d, g.id, "up"));
      }
      if d + ".down" !in covered && g.fallbackDown.None? {
        FirstMissingSticks(g, expected[..j + 1], expected[j + 1..], covered);
        CutRejoins(expected, j + 1);
        return Some(MissingDialect(d, g.id, "down"));
      }
    }
    assert expected[..|expected|] == expected;
    return None;
  }

  /** The validation of all groups, visited in an unspecified order: it passes exactly when
      every group passes, and otherwise reports the error of some group. */
  method ValidateDialects(mgs: map<string, MigrationGroup>, expected: seq<string>)
    returns (r: Result<map<string, MigrationGroup>>)
    ensures r.Ok? <==> forall id :: id in mgs ==> GroupCheck(mgs[id], expected) == None
    ensures r.Ok? ==> r.value == mgs
    ensures r.Err? ==> exists id :: id in mgs && GroupCheck(mgs[id], expected) == Some(r.error)
  {
    var eds: set<string> := {};
    for i := 0 to |expected|
      invariant eds == DialectSet(expected[..i])
    {
      assert expected[..i + 1] == expected[..i] + [expected[i]];
      eds := eds + {expected[i]};
    }
    assert expected[..|expected|] == expected;
    var remaining := mgs.Keys;
    while remaining != {}
      invariant remaining <= mgs.Keys
      invariant forall id :: id in mgs && id !in remaining ==> GroupCheck(mgs[id], expected) == None
      decreases remaining
    {
      var id :| id in remaining;
      var err := CheckGroup(mgs[id], expected, eds);
      if err.Some? {
        return Err(err.value);
      }
      remaining := remaining - {id};
    }
    return Ok(mgs);
  }

  /** What reading the sources may return: the walk's error, the groups unchecked when no
      dialect is expected, or the outcome of validating them. */
  predicate ReadOutcome(entries: seq<WalkEntry>, expected: seq<string>, r: Result<map<string, MigrationGroup>>) {
    && (Scan(entries).Err? || expected == [] ==> r == Scan(entries))
    && (Scan(entries).Ok? && expected != [] ==>
          && (r.Ok? <==> forall id :: id in Scan(entries).value ==> GroupCheck(Scan(entries).value[id], expected) == None)
          && (r.Ok? ==> r == Scan(entries))
          && (r.Err? ==> exists id :: id in Scan(entries).value && GroupCheck(Scan(entries).value[id], expected) == Some(r.error)))
  }

  /** readMigrations: the walk, then, when some dialects are expected, their validation. */
  method ReadMigrations(entries: seq<WalkEntry>, expected: seq<string>) returns (r: Result<map<string, MigrationGroup>>)
    ensures ReadOutcome(entries, expected, r)
  {
    r := ScanMigrations(entries);
    if r.Err? {
      return r;
    }
    if |expected| == 0 {
      return r;
    }
    r := ValidateDialects(r.value, expected);
  }

  // ---------------------------------------------------------------------------
  // Lemmas for the loops.

  lemma {:induction false} FirstUnexpectedSticks(a: seq<Migration>, b: seq<Migration>, eds: set<string>)
    requires FirstUnexpected(a, eds).Some?
    ensures FirstUnexpected(a + b, eds) == FirstUnexpected(a, eds)
    decreases |b|
  {
    if b == [] {
      assert a + b == a;
    } else {
      assert (a + b)[..|a + b| - 1] == a + b[..|b| - 1];
      FirstUnexpectedSticks(a, b[..|b| - 1], eds);
    }
  }

  lemma {:induction false} FirstMissingSticks(g: MigrationGroup, a: seq<string>, b: seq<string>, keys: set<string>)
    requires FirstMissing(g, a, keys).Some?
    ensures FirstMissing(g, a + b, keys) == FirstMissing(g, a, keys)
    decreases |b|
  {
    if b == [] {
      assert a + b == a;
    } else {
      assert (a + b)[..|a + b| - 1] == a + b[..|b| - 1];
      FirstMissingSticks(g, a, b[..|b| - 1], keys);
    }
  }

  lemma CoverageKeysNext(children: seq<Migration>, i: nat)
    requires i < |children|
    ensures CoverageKeys(children[..i + 1])
      == CoverageKeys(children[..i]) + {children[i].dialect + "." + children[i].direction}
  {
    assert children[..i + 1] == children[..i] + [children[i]];
  }

  // ---------------------------------------------------------------------------
  // What the check means.

  /** No child is unexpected exactly when every child's dialect is expected; otherwise the
      reported child is the first unexpected one. */
  lemma FirstUnexpectedMeaning(children: seq<Migration>, eds: set<string>)
    ensures FirstUnexpected(children, eds).None? <==> forall c :: c in children ==> c.dialect in eds
    ensures FirstUnexpected(children, eds).Some? ==>
      exists k :: (0 <= k < |children| && children[k] == FirstUnexpected(children, eds).value
        && children[k].dialect !in eds && forall j :: 0 <= j < k ==> children[j].dialect in eds)
  {
    FirstUnexpectedNone(children, eds);
    if FirstUnexpected(children, eds).Some? {
      var k := FirstUnexpectedAt(children, eds);
    }
  }

  lemma {:induction false} FirstUnexpectedNone(children: seq<Migration>, eds: set<string>)
    ensures FirstUnexpected(children, eds).None? <==> forall j :: 0 <= j < |children| ==> children[j].dialect in eds
  {
    if children != [] {
      var init := children[..|children| - 1];
      FirstUnexpectedNone(init, eds);
      assert forall j :: 0 <= j < |init| ==> children[j] == init[j];
    }
  }

  lemma {:induction false} FirstUnexpectedAt(children: seq<Migration>, eds: set<string>) returns (k: nat)
    requires FirstUnexpected(children, eds).Some?
    ensures k < |children| && children[k] == FirstUnexpected(children, eds).value
    ensures children[k].dialect !in eds && forall j :: 0 <= j < k ==> children[j].dialect in eds
  {
    var init := children[..|children| - 1];
    if FirstUnexpected(init, eds).Some? {
      k := FirstUnexpectedAt(init, eds);
      assert children[k] == init[k];
      assert forall j :: 0 <= j < k ==> children[j] == init[j];
    } else {
      FirstUnexpectedNone(init, eds);
      k := |children| - 1;
      assert forall j :: 0 <= j < k ==> children[j] == init[j];
    }
  }

  /** No gap is reported exactly when every expected dialect is covered in both directions. */
  lemma {:induction false} FirstMissingMeaning(g: MigrationGroup, expected: seq<string>, keys: set<string>)
    ensures FirstMissing(g, expected, keys).None? <==>
      forall d :: d in expected ==>
        (d + ".up" in keys || g.fallbackUp.Some?) && (d + ".down" in keys || g.fallbackDown.Some?)
  {
    if expected != [] {
      var init := expected[..|expected| - 1];
      FirstMissingMeaning(g, init, keys);
      assert expected == init + [expected[|expected| - 1]];
      if FirstMissing(g, init, keys).Some? {
        var d :| d in init && !((d + ".up" in keys || g.fallbackUp.Some?) && (d + ".down" in keys || g.fallbackDown.Some?));
        assert d in expected;
      }
    }
  }

  /** A key names one dialect and one direction: the direction is the part after the last dot. */
  lemma KeyParts(x: string, dir: string, d: string, dir2: string)
    requires IsDirection(dir) && IsDirection(dir2)
    requires x + "." + dir == d + "." + dir2
    ensures x == d && dir == dir2
  {
    var s := x + "." + dir;
    assert s[|s| - 1] == dir[|dir| - 1];
    assert s[|s| - 1] == dir2[|dir2| - 1];
    assert dir == dir2;
    assert x == s[..|s| - |dir| - 1] == d;
  }

  /** The key d.dir is covered exactly when some child has dialect d and direction dir. */
  lemma CoverageKeysMeaning(children: seq<Migration>, d: string, dir: string)
    requires forall c :: c in children ==> IsDirection(c.direction)
    requires IsDirection(dir)
    ensures d + "." + dir in CoverageKeys(children) <==>
      exists c :: c in children && c.dialect == d && c.direction == dir
  {
    if d + "." + dir in CoverageKeys(children) {
      var c :| c in children && c.dialect + "." + c.direction == d + "." + dir;
      KeyParts(c.dialect, c.direction, d, dir);
    }
  }

  /** For a group whose children have well-formed directions, the check passes exactly when
      the group is valid. */
  lemma GroupCheckMeaning(g: MigrationGroup, expected: seq<string>)
    requires forall c :: c in g.children ==> IsDirection(c.direction)
    ensures GroupCheck(g, expected).None? <==> GroupValid(g, expected)
  {
    FirstUnexpectedMeaning(g.children, DialectSet(expected));
    FirstMissingMeaning(g, expected, CoverageKeys(g.children));
    forall d | d in expected
      ensures (d + ".up" in CoverageKeys(g.children) <==>
                exists c :: c in g.children && c.dialect == d && c.direction == "up")
      ensures (d + ".down" in CoverageKeys(g.children) <==>
                exists c :: c in g.children && c.dialect == d && c.direction == "down")
    {
      CoverageKeysMeaning(g.children, d, "up");
      CoverageKeysMeaning(g.children, d, "down");
      assert d + ".up" == d + "." + "up";
      assert d + ".down" == d + "." + "down";
    }
  }

  /** After a successful walk every child has its direction from the grammar, so a run of
      readMigrations with expected dialects succeeds exactly when every group is valid. */
  lemma ReadMigrationsMeaning(entries: seq<WalkEntry>, expected: seq<string>)
    requires Scan(entries).Ok?
    ensures (forall id :: id in Scan(entries).value ==> GroupCheck(Scan(entries).value[id], expected) == None)
      <==> (forall id :: id in Scan(entries).value ==> GroupValid(Scan(entries).value[id], expected))
  {
    var mgs := Scan(entries).value;
    ScanGroupsAccepted(entries);
    forall id | id in mgs
      ensures GroupCheck(mgs[id], expected).None? <==> GroupValid(mgs[id], expected)
    {
      GroupCheckMeaning(mgs[id], expected);
    }
  }

  // ---------------------------------------------------------------------------
  // The order of the reports.

  /** A group holding only a postgres up migration, without fallbacks. */
  function PostgresUpOnly(): MigrationGroup {
    MigrationGroup("20230101000000", "init",
      [Migration("20230101000000000000_init.postgres.up.sql", "20230101000000", "init", "postgres", "up")],
      None, None)
  }

  /** Expected dialects are checked in the order given, up before down: with postgres listed
      first the missing postgres down migration is reported, not the absent mysql. */
  lemma MissingReportedInOrder()
    ensures GroupCheck(PostgresUpOnly(), ["postgres", "mysql"])
      == Some(MissingDialect("postgres", "20230101000000", "down"))
    ensures GroupCheck(PostgresUpOnly(), ["mysql", "postgres"])
      == Some(MissingDialect("mysql", "20230101000000", "up"))
  {
    var g := PostgresUpOnly();
    var c := g.children[0];
    assert g.children[..0] == [];
    assert c.dialect + "." + c.direction == "postgres.up";
    assert forall x :: x in g.children <==> x == c;
    assert CoverageKeys(g.children) == {"postgres.up"};
    var e1 := ["postgres", "mysql"];
    assert e1[..1] == ["postgres"] && e1[..1][..0] == [];
    assert FirstUnexpected(g.children, DialectSet(e1)) == None;
    assert "postgres" + ".up" == "postgres.up" && "postgres" + ".down" != "postgres.up";
    assert FirstMissing(g, e1[..1], {"postgres.up"}) == Some(MissingDialect("postgres", g.id, "down"));
    var e2 := ["mysql", "postgres"];
    assert e2[..1] == ["mysql"] && e2[..1][..0] == [];
    assert FirstUnexpected(g.children, DialectSet(e2)) == None;
    assert "mysql" + ".up" != "postgres.up";
    assert FirstMissing(g, e2[..1], {"postgres.up"}) == Some(MissingDialect("mysql", g.id, "up"));
  }
}
