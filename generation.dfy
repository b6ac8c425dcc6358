/** The whole run of MigrateGen: the sources are read, then every group is generated in
    turn. Fragment names carry their group's ID, so the groups write to disjoint names and
    each ends as its own generateSQL leaves it. */
module Generation {
  import opened Errors
  import opened Classifier
  import opened Splitter
  import opened Scanner
  import opened FragmentNames
  import opened Validator
  import opened Writer
  import opened Balance

  // ---------------------------------------------------------------------------
  // Groups write to disjoint names.

  /** Fragment names of two groups with different 14-character IDs never coincide. */
  lemma GroupsDisjoint(g1: MigrationGroup, m1: Migration, i: nat, g2: MigrationGroup, m2: Migration, j: nat)
    requires |g1.id| == 14 && |g2.id| == 14 && g1.id != g2.id
    ensures FragmentName(g1, m1, i) != FragmentName(g2, m2, j)
  {
    FragmentNameParts(g1, m1, i);
    FragmentNameParts(g2, m2, j);
    assert FragmentName(g1, m1, i)[..14] == g1.id;
    assert FragmentName(g2, m2, j)[..14] == g2.id;
  }

  /** No fragment name of g is an output name of a group with another ID. */
  lemma OtherGroupName(g: MigrationGroup, m: Migration, i: nat, h: MigrationGroup, sources: map<string, string>)
    requires |g.id| == 14 && |h.id| == 14 && g.id != h.id
    ensures FragmentName(g, m, i) !in OutputNames(h, Members(h), MaxCount(Members(h), sources))
  {
    var ms := Members(h);
    var mx := MaxCount(ms, sources);
    forall k: nat, j: nat | k < |ms| && j < mx ensures FragmentName(h, ms[k], j) != FragmentName(g, m, i) {
      GroupsDisjoint(g, m, i, h, ms[k], j);
    }
  }

  // ---------------------------------------------------------------------------
  // The plans of several groups.

  /** A group generateSQL completes: its members differ in dialect or direction, all its
      sources can be read and none of its output names is refused. */
  predicate Fits(g: MigrationGroup, sources: map<string, string>, denied: set<string>) {
    && DistinctKeys(Members(g)) && Readable(Members(g), sources)
    && OutputNames(g, Members(g), MaxCount(Members(g), sources)) !! denied
  }

  /** Groups as a successful walk builds them: well formed and keyed by their own IDs. */
  predicate Keyed(mgs: map<string, MigrationGroup>) {
    forall id :: id in mgs ==> WellFormedGroup(mgs[id]) && mgs[id].id == id
  }

  /** What fragment i of member k of g holds after generateSQL on g, run on files alone. */
  function GroupExpected(files: map<string, string>, g: MigrationGroup, sources: map<string, string>, cmdline: string, k: nat, i: nat): Option<string>
    requires k < |Members(g)|
  {
    var ms := Members(g);
    Expected(files, g, ms, sources, Counts(ms, sources), MaxCount(ms, sources), cmdline, k, i)
  }

  /** Every group is generated as on its own: each member's fragments hold what GroupExpected
      gives for the files before the run, and a name outside every group's output names is
      left as it was. */
  ghost predicate Generated(before: map<string, string>, after: map<string, string>, mgs: map<string, MigrationGroup>,
                            sources: map<string, string>, cmdline: string) {
    && (forall id, k: nat, i: nat :: id in mgs && k < |Members(mgs[id])| ==>
          Lookup(after, FragmentName(mgs[id], Members(mgs[id])[k], i)) == GroupExpected(before, mgs[id], sources, cmdline, k, i))
    && (forall n :: (forall id :: id in mgs ==> n !in OutputNames(mgs[id], Members(mgs[id]), MaxCount(Members(mgs[id]), sources))) ==>
          Lookup(after, n) == Lookup(before, n))
  }

  /** Plans of groups that fit all succeed. */
  lemma {:induction false} PlansSucceed(files: map<string, string>, denied: set<string>, mgs: map<string, MigrationGroup>,
                                        order: seq<string>, sources: map<string, string>, cmdline: string)
    requires Keyed(mgs)
    requires forall k :: 0 <= k < |order| ==> order[k] in mgs && Fits(mgs[order[k]], sources, denied)
    ensures Execute(files, denied, AllPlans(mgs, order, sources, cmdline)).1 == None
    decreases |order|
  {
    if order != [] {
      var q := order[..|order| - 1];
      var g := mgs[order[|order| - 1]];
      PlansSucceed(files, denied, mgs, q, sources, cmdline);
      var f1 := Execute(files, denied, AllPlans(mgs, q, sources, cmdline)).0;
      PlanOutcome(f1, denied, g, sources, cmdline);
      ExecuteAppend(files, denied, AllPlans(mgs, q, sources, cmdline), Plan(g, sources, cmdline));
    }
  }

  /** Plans of groups that fit leave alone every name outside their output names. */
  lemma {:induction false} PlansElsewhere(files: map<string, string>, denied: set<string>, mgs: map<string, MigrationGroup>,
                                          order: seq<string>, sources: map<string, string>, cmdline: string, n: string)
    requires Keyed(mgs)
    requires forall k :: 0 <= k < |order| ==> order[k] in mgs && Fits(mgs[order[k]], sources, denied)
    requires forall k :: 0 <= k < |order| ==>
      n !in OutputNames(mgs[order[k]], Members(mgs[order[k]]), MaxCount(Members(mgs[order[k]]), sources))
    ensures Lookup(Execute(files, denied, AllPlans(mgs, order, sources, cmdline)).0, n) == Lookup(files, n)
    decreases |order|
  {
    if order != [] {
      var q := order[..|order| - 1];
      var g := mgs[order[|order| - 1]];
      PlansElsewhere(files, denied, mgs, q, sources, cmdline, n);
      PlansSucceed(files, denied, mgs, q, sources, cmdline);
      var f1 := Execute(files, denied, AllPlans(mgs, q, sources, cmdline)).0;
      PlanOutcome(f1, denied, g, sources, cmdline);
      ExecuteAppend(files, denied, AllPlans(mgs, q, sources, cmdline), Plan(g, sources, cmdline));
    }
  }

  /** Expected depends on the files before the run only through the file it names. */
  lemma ExpectedFrom(f1: map<string, string>, files: map<string, string>, g: MigrationGroup, sources: map<string, string>,
                     cmdline: string, k: nat, i: nat)
    requires k < |Members(g)|
    requires Lookup(f1, FragmentName(g, Members(g)[k], i)) == Lookup(files, FragmentName(g, Members(g)[k], i))
    ensures GroupExpected(f1, g, sources, cmdline, k, i) == GroupExpected(files, g, sources, cmdline, k, i)
  {
  }

  /** A name of group id is outside the output names of every other group in order. */
  lemma OthersMiss(mgs: map<string, MigrationGroup>, order: seq<string>, id: string, m: Migration, i: nat, sources: map<string, string>)
    requires Keyed(mgs) && id in mgs
    requires forall k :: 0 <= k < |order| ==> order[k] in mgs && order[k] != id
    ensures forall k :: 0 <= k < |order| ==>
      FragmentName(mgs[id], m, i) !in OutputNames(mgs[order[k]], Members(mgs[order[k]]), MaxCount(Members(mgs[order[k]]), sources))
  {
    forall k | 0 <= k < |order|
      ensures FragmentName(mgs[id], m, i) !in OutputNames(mgs[order[k]], Members(mgs[order[k]]), MaxCount(Members(mgs[order[k]]), sources))
    {
      OtherGroupName(mgs[id], m, i, mgs[order[k]], sources);
    }
  }

  /** Fragment i of member k of group id, after the plans of an order that visits id once. */
  lemma {:induction false} GroupAt(files: map<string, string>, denied: set<string>, mgs: map<string, MigrationGroup>, order: seq<string>,
                                   sources: map<string, string>, cmdline: string, id: string, k: nat, i: nat)
    requires Keyed(mgs)
    requires forall j :: 0 <= j < |order| ==> order[j] in mgs && Fits(mgs[order[j]], sources, denied)
    requires forall j1, j2 :: 0 <= j1 < j2 < |order| ==> order[j1] != order[j2]
    requires id in order && id in mgs && k < |Members(mgs[id])|
    ensures var g := mgs[id];
      Lookup(Execute(files, denied, AllPlans(mgs, order, sources, cmdline)).0, FragmentName(g, Members(g)[k], i))
        == GroupExpected(files, g, sources, cmdline, k, i)
    decreases |order|
  {
    var g := mgs[id];
    var n := FragmentName(g, Members(g)[k], i);
    var q := order[..|order| - 1];
    var last := order[|order| - 1];
    var h := mgs[last];
    assert forall j :: 0 <= j < |q| ==> q[j] == order[j];
    PlansSucceed(files, denied, mgs, q, sources, cmdline);
    var f1 := Execute(files, denied, AllPlans(mgs, q, sources, cmdline)).0;
    PlanOutcome(f1, denied, h, sources, cmdline);
    ExecuteAppend(files, denied, AllPlans(mgs, q, sources, cmdline), Plan(h, sources, cmdline));
    if last == id {
      OthersMiss(mgs, q, id, Members(g)[k], i, sources);
      PlansElsewhere(files, denied, mgs, q, sources, cmdline, n);
      ExpectedFrom(f1, files, g, sources, cmdline, k, i);
    } else {
      assert id in q by { var p :| 0 <= p < |order| && order[p] == id; assert p < |q|; assert q[p] == id; }
      GroupAt(files, denied, mgs, q, sources, cmdline, id, k, i);
      OtherGroupName(g, Members(g)[k], i, h, sources);
    }
  }

  /** Generating every group that fits, in any order that visits each once, succeeds and
      leaves every group as if it had been generated alone. */
  lemma AllGroupsOutcome(files: map<string, string>, denied: set<string>, mgs: map<string, MigrationGroup>, order: seq<string>,
                         sources: map<string, string>, cmdline: string)
    requires Keyed(mgs)
    requires forall id :: id in mgs ==> Fits(mgs[id], sources, denied)
    requires forall j :: 0 <= j < |order| ==> order[j] in mgs
    requires forall j1, j2 :: 0 <= j1 < j2 < |order| ==> order[j1] != order[j2]
    requires forall id :: id in mgs ==> id in order
    ensures var out := Execute(files, denied, AllPlans(mgs, order, sources, cmdline));
      out.1 == None && Generated(files, out.0, mgs, sources, cmdline)
  {
    var out := Execute(files, denied, AllPlans(mgs, order, sources, cmdline));
    PlansSucceed(files, denied, mgs, order, sources, cmdline);
    forall id, k: nat, i: nat | id in mgs && k < |Members(mgs[id])|
      ensures Lookup(out.0, FragmentName(mgs[id], Members(mgs[id])[k], i)) == GroupExpected(files, mgs[id], sources, cmdline, k, i)
    {
      GroupAt(files, denied, mgs, order, sources, cmdline, id, k, i);
    }
    forall n | forall id :: id in mgs ==> n !in OutputNames(mgs[id], Members(mgs[id]), MaxCount(Members(mgs[id]), sources))
      ensures Lookup(out.0, n) == Lookup(files, n)
    {
      PlansElsewhere(files, denied, mgs, order, sources, cmdline, n);
    }
  }

  /** The balancing guarantee for the whole run: when, in every group, the migrations of a
      dialect split into the same number of fragments, every member of every group ends with
      fragments 0 to the group's largest count - 1, real ones first and blank ones after. */
  lemma AllGroupsBalanced(files: map<string, string>, denied: set<string>, mgs: map<string, MigrationGroup>, order: seq<string>,
                          sources: map<string, string>, cmdline: string)
    requires Keyed(mgs)
    requires forall id :: id in mgs ==> Fits(mgs[id], sources, denied)
    requires forall id, k1, k2 :: (id in mgs && 0 <= k1 < |Members(mgs[id])| && 0 <= k2 < |Members(mgs[id])|
      && Members(mgs[id])[k1].dialect == Members(mgs[id])[k2].dialect) ==>
        FragmentCount(Members(mgs[id])[k1], sources) == FragmentCount(Members(mgs[id])[k2], sources)
    requires forall j :: 0 <= j < |order| ==> order[j] in mgs
    requires forall j1, j2 :: 0 <= j1 < j2 < |order| ==> order[j1] != order[j2]
    requires forall id :: id in mgs ==> id in order
    ensures var out := Execute(files, denied, AllPlans(mgs, order, sources, cmdline));
      && out.1 == None
      && forall id, k: nat, i: nat :: id in mgs && k < |Members(mgs[id])| && i < MaxCount(Members(mgs[id]), sources) ==>
           var m := Members(mgs[id])[k];
           Lookup(out.0, FragmentName(mgs[id], m, i))
             == if i < FragmentCount(m, sources) then Some(Fragments(sources[m.path], cmdline)[i]) else Some(BlankFragment(cmdline))
  {
    var out := Execute(files, denied, AllPlans(mgs, order, sources, cmdline));
    AllGroupsOutcome(files, denied, mgs, order, sources, cmdline);
    forall id, k: nat, i: nat | id in mgs && k < |Members(mgs[id])| && i < MaxCount(Members(mgs[id]), sources)
      ensures var m := Members(mgs[id])[k];
        Lookup(out.0, FragmentName(mgs[id], m, i))
          == if i < FragmentCount(m, sources) then Some(Fragments(sources[m.path], cmdline)[i]) else Some(BlankFragment(cmdline))
    {
      UniformExpected(files, mgs[id], sources, cmdline, k, i);
    }
  }

  /** In a group whose dialects split uniformly, padding starts at each member's own count. */
  lemma UniformExpected(files: map<string, string>, g: MigrationGroup, sources: map<string, string>, cmdline: string, k: nat, i: nat)
    requires k < |Members(g)| && i < MaxCount(Members(g), sources)
    requires Readable(Members(g), sources)
    requires forall k1, k2 :: 0 <= k1 < |Members(g)| && 0 <= k2 < |Members(g)| && Members(g)[k1].dialect == Members(g)[k2].dialect ==>
      FragmentCount(Members(g)[k1], sources) == FragmentCount(Members(g)[k2], sources)
    ensures var m := Members(g)[k];
      GroupExpected(files, g, sources, cmdline, k, i)
        == if i < FragmentCount(m, sources) then Some(Fragments(sources[m.path], cmdline)[i]) else Some(BlankFragment(cmdline))
  {
    var ms := Members(g);
    CountsUniform(ms, sources);
    assert PadFrom(ms[k], Counts(ms, sources)) == FragmentCount(ms[k], sources);
  }

  // ---------------------------------------------------------------------------
  // MigrateGen.

  /** MigrateGen without the process around it: reads the sources, stops on a read error
      without writing, then generates the groups one at a time in an unspecified order,
      stopping at the first group that fails. When every group fits, the run succeeds and
      every group ends as if generated alone. */
  method MigrateGen(entries: seq<WalkEntry>, expected: seq<string>, sources: map<string, string>, cmdline: string, target: TargetDir)
    returns (err: Option<MigrationError>, ghost groups: Result<map<string, MigrationGroup>>, ghost order: seq<string>)
    modifies target
    ensures ReadOutcome(entries, expected, groups)
    ensures groups.Err? ==> err == Some(groups.error) && target.files == old(target.files)
    ensures groups.Ok? ==>
      && (forall k :: 0 <= k < |order| ==> order[k] in groups.value)
      && (forall j, k :: 0 <= j < k < |order| ==> order[j] != order[k])
      && (target.files, err) == Execute(old(target.files), target.denied, AllPlans(groups.value, order, sources, cmdline))
      && (err.None? ==> forall id :: id in groups.value ==> id in order)
    ensures groups.Ok? && (forall id :: id in groups.value ==> Fits(groups.value[id], sources, target.denied)) ==>
      err.None? && Generated(old(target.files), target.files, groups.value, sources, cmdline)
  {
    ghost var f0 := target.files;
    var r := ReadMigrations(entries, expected);
    groups := r;
    order := [];
    if r.Err? {
      return Some(r.error), groups, order;
    }
    err, order := GenerateGroups(r.value, sources, cmdline, target);
    ReadKeyed(entries, expected, r);
    RunOutcome(f0, target.denied, r.value, order, sources, cmdline);
  }

  /** The group loop over an order of distinct groups that covers them all unless it fails:
      when every group fits, it does not fail and every group ends as if generated alone. */
  lemma RunOutcome(files: map<string, string>, denied: set<string>, mgs: map<string, MigrationGroup>, order: seq<string>,
                   sources: map<string, string>, cmdline: string)
    requires Keyed(mgs)
    requires forall j :: 0 <= j < |order| ==> order[j] in mgs
    requires forall j1, j2 :: 0 <= j1 < j2 < |order| ==> order[j1] != order[j2]
    requires Execute(files, denied, AllPlans(mgs, order, sources, cmdline)).1.None? ==> forall id :: id in mgs ==> id in order
    ensures (forall id :: id in mgs ==> Fits(mgs[id], sources, denied)) ==>
      var out := Execute(files, denied, AllPlans(mgs, order, sources, cmdline));
      out.1 == None && Generated(files, out.0, mgs, sources, cmdline)
  {
    if forall id :: id in mgs ==> Fits(mgs[id], sources, denied) {
      PlansSucceed(files, denied, mgs, order, sources, cmdline);
      AllGroupsOutcome(files, denied, mgs, order, sources, cmdline);
    }
  }

  /** The groups reading returns are those of the walk, so they are well formed and keyed
      by their IDs. */
  lemma ReadKeyed(entries: seq<WalkEntry>, expected: seq<string>, r: Result<map<string, MigrationGroup>>)
    requires ReadOutcome(entries, expected, r) && r.Ok?
    ensures Keyed(r.value)
  {
    assert r == Scan(entries);
    ScanWellFormed(entries);
    ScanGroupsAccepted(entries);
  }
}
