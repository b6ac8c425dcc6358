/** The writer: generateSQL turns one group into fragment files in the target directory,
    and the group loop of MigrateGen runs it for every group. The writes are specified as a
    plan of actions performed in order until the first failure. */
module Writer {
  import opened Errors
  import opened Classifier
  import opened Splitter
  import opened Scanner
  import opened FragmentNames

  /** The target directory: the content of every file by name. Writing a name in `denied`
      fails and changes nothing. */
  class TargetDir {
    var files: map<string, string>
    const denied: set<string>

    constructor (files0: map<string, string>, denied0: set<string>)
      ensures files == files0 && denied == denied0
    {
      files := files0;
      denied := denied0;
    }

    /** os.WriteFile: replaces or creates the file, unless writing it is denied. */
    method WriteFile(name: string, data: string) returns (ok: bool)
      modifies this
      ensures ok == (name !in denied)
      ensures files == if ok then old(files)[name := data] else old(files)
    {
      if name in denied {
        return false;
      }
      files := files[name := data];
      return true;
    }
  }

  /** One step of the writer: a file write, or a failure that ends the run. */
  datatype Action = Write(name: string, data: string) | Fail(error: MigrationError)

  /** One action performed after a run that ended in `before`: nothing once the run has
      failed, else the failure, or the write unless the name is denied. */
  function Step(before: (map<string, string>, Option<MigrationError>), denied: set<string>, act: Action): (map<string, string>, Option<MigrationError>) {
    if before.1.Some? then before
    else
      match act
      case Fail(e) => (before.0, Some(e))
      case Write(n, d) => if n in denied then (before.0, Some(WriteError(n))) else (before.0[n := d], None)
  }

  /** The outcome of performing the actions in order: the files, and the error of the first
      action that fails; nothing after that action happens. */
  function Execute(files: map<string, string>, denied: set<string>, acts: seq<Action>): (map<string, string>, Option<MigrationError>) {
    if acts == [] then (files, None)
    else Step(Execute(files, denied, acts[..|acts| - 1]), denied, acts[|acts| - 1])
  }

  /** The migrations of a group in the order generateSQL processes them: the children, then
      the down fallback, then the up fallback. */
  function Members(g: MigrationGroup): seq<Migration> {
    g.children
      + (if g.fallbackDown.Some? then [g.fallbackDown.value] else [])
      + (if g.fallbackUp.Some? then [g.fallbackUp.value] else [])
  }

  /** Writes of datas to the fragments of m numbered from lo on. */
  function Writes(g: MigrationGroup, m: Migration, lo: nat, datas: seq<string>): seq<Action> {
    seq(|datas|, t requires 0 <= t < |datas| => Write(FragmentName(g, m, lo + t), datas[t]))
  }

  /** How many fragments the source of m splits into; zero when it cannot be read. */
  function FragmentCount(m: Migration, sources: map<string, string>): nat {
    if m.path in sources then |Split(sources[m.path], SplitMarker)| else 0
  }

  /** What the first pass does for m: write its fragments, or fail to read its source. */
  function MigrationActions(g: MigrationGroup, m: Migration, sources: map<string, string>, cmdline: string): seq<Action> {
    if m.path in sources then Writes(g, m, 0, Fragments(sources[m.path], cmdline))
    else [Fail(ReadError(m.path))]
  }

  /** The first pass over ms. */
  function RealActions(g: MigrationGroup, ms: seq<Migration>, sources: map<string, string>, cmdline: string): seq<Action> {
    if ms == [] then []
    else RealActions(g, ms[..|ms| - 1], sources, cmdline) + MigrationActions(g, ms[|ms| - 1], sources, cmdline)
  }

  /** dialectFragmentCounts after the first pass over ms: one entry per dialect, set by the
      last migration of that dialect. */
  function Counts(ms: seq<Migration>, sources: map<string, string>): map<string, nat> {
    if ms == [] then map[]
    else Counts(ms[..|ms| - 1], sources)[ms[|ms| - 1].dialect := FragmentCount(ms[|ms| - 1], sources)]
  }

  /** maxFragmentCount after the first pass over ms: -1 for no migration, else the largest count. */
  function MaxCount(ms: seq<Migration>, sources: map<string, string>): int {
    if ms == [] then -1
    else
      var mx := MaxCount(ms[..|ms| - 1], sources);
      var c := FragmentCount(ms[|ms| - 1], sources);
      if mx < c then c else mx
  }

  /** Where padding of m starts: the count recorded for its dialect (zero when there is none). */
  function PadFrom(m: Migration, counts: map<string, nat>): nat {
    if m.dialect in counts then counts[m.dialect] else 0
  }

  /** n blank fragments. */
  function Blanks(n: nat, cmdline: string): seq<string> {
    seq(n, _ => BlankFragment(cmdline))
  }

  /** What the second pass does for m: blank fragments from PadFrom up to the maximum. */
  function PadActions(g: MigrationGroup, m: Migration, counts: map<string, nat>, mx: int, cmdline: string): seq<Action> {
    var lo := PadFrom(m, counts);
    if lo < mx then Writes(g, m, lo, Blanks(mx - lo, cmdline)) else []
  }

  /** The second pass over ms. */
  function PaddingActions(g: MigrationGroup, ms: seq<Migration>, counts: map<string, nat>, mx: int, cmdline: string): seq<Action> {
    if ms == [] then []
    else PaddingActions(g, ms[..|ms| - 1], counts, mx, cmdline) + PadActions(g, ms[|ms| - 1], counts, mx, cmdline)
  }

  /** Everything generateSQL attempts for g, in order. */
  function Plan(g: MigrationGroup, sources: map<string, string>, cmdline: string): seq<Action> {
    var ms := Members(g);
    RealActions(g, ms, sources, cmdline) + PaddingActions(g, ms, Counts(ms, sources), MaxCount(ms, sources), cmdline)
  }

  // ---------------------------------------------------------------------------
  // generateSQL.

  /** generateSQL: writes every fragment of every member, recording the fragment count of
      the member's dialect and the largest count seen; then pads every member with blank
      fragments from its dialect's count up to that largest count. The first failing read
      or write ends it with that error, keeping the writes made before. */
  method GenerateSql(g: MigrationGroup, sources: map<string, string>, cmdline: string, target: TargetDir)
    returns (err: Option<MigrationError>)
    modifies target
    ensures (target.files, err) == Execute(old(target.files), target.denied, Plan(g, sources, cmdline))
  {
    ghost var f0 := target.files;
    var ms := g.children;
    if g.fallbackDown.Some? {
      ms := ms + [g.fallbackDown.value];
    }
    if g.fallbackUp.Some? {
      ms := ms + [g.fallbackUp.value];
    }
    assert ms == Members(g);
    ghost var first := RealActions(g, ms, sources, cmdline);
    var counts, mx;
    err, counts, mx := WriteAllFragments(g, ms, sources, cmdline, target);
    ghost var pad := PaddingActions(g, ms, Counts(ms, sources), MaxCount(ms, sources), cmdline);
    assert Plan(g, sources, cmdline) == first + pad;
    ExecuteAppend(f0, target.denied, first, pad);
    if err.Some? {
      return err;
    }
    err := PadAll(g, ms, counts, mx, cmdline, target);
  }

  /** The first loop of generateSQL: the fragments of every member in turn, with the count
      of each member's dialect recorded before the error check, and the largest count. */
  method WriteAllFragments(g: MigrationGroup, ms: seq<Migration>, sources: map<string, string>, cmdline: string, target: TargetDir)
    returns (err: Option<MigrationError>, counts: map<string, nat>, mx: int)
    modifies target
    ensures (target.files, err) == Execute(old(target.files), target.denied, RealActions(g, ms, sources, cmdline))
    ensures err.None? ==> counts == Counts(ms, sources) && mx == MaxCount(ms, sources)
  {
    ghost var f0 := target.files;
    counts := map[];
    mx := -1;
    for k := 0 to |ms|
      invariant Execute(f0, target.denied, RealActions(g, ms[..k], sources, cmdline)) == (target.files, None)
      invariant counts == Counts(ms[..k], sources) && mx == MaxCount(ms[..k], sources)
    {
      var m := ms[k];
      RealNext(g, ms, k, sources, cmdline);
      RealAround(g, ms, k, sources, cmdline);
      ghost var done := RealActions(g, ms[..k], sources, cmdline);
      ghost var acts := MigrationActions(g, m, sources, cmdline);
      ghost var rest := RealActions(g, ms[k + 1..], sources, cmdline);
      ExecuteAppend(f0, target.denied, done, acts);
      if m.path !in sources {
        ExecuteSnoc(target.files, target.denied, [], Fail(ReadError(m.path)));
        assert [] + [Fail(ReadError(m.path))] == acts;
        ExecuteStops(f0, target.denied, done + acts, rest);
        return Some(ReadError(m.path)), counts, mx;
      }
      var fr := GenerateMigrationFragments(m.path, sources[m.path], cmdline);
      var frags := if fr.Ok? then fr.value else [];
      counts := counts[m.dialect := |frags|];
      if mx < |frags| {
        mx := |frags|;
      }
      match fr {
        case Err(e) => return Some(e), counts, mx;
        case Ok(_) =>
      }
      err := WriteFragments(g, m, frags, target);
      if err.Some? {
        ExecuteStops(f0, target.denied, done + acts, rest);
        return err, counts, mx;
      }
    }
    assert ms[..|ms|] == ms;
    err := None;
  }

  /** The second loop of generateSQL: every member padded in turn. */
  method PadAll(g: MigrationGroup, ms: seq<Migration>, counts: map<string, nat>, mx: int, cmdline: string, target: TargetDir)
    returns (err: Option<MigrationError>)
    modifies target
    ensures (target.files, err) == Execute(old(target.files), target.denied, PaddingActions(g, ms, counts, mx, cmdline))
  {
    ghost var f0 := target.files;
    for k := 0 to |ms|
      invariant Execute(f0, target.denied, PaddingActions(g, ms[..k], counts, mx, cmdline)) == (target.files, None)
    {
      var m := ms[k];
      PaddingNext(g, ms, k, counts, mx, cmdline);
      PaddingAround(g, ms, k, counts, mx, cmdline);
      ghost var done := PaddingActions(g, ms[..k], counts, mx, cmdline);
      ghost var acts := PadActions(g, m, counts, mx, cmdline);
      ghost var rest := PaddingActions(g, ms[k + 1..], counts, mx, cmdline);
      ExecuteAppend(f0, target.denied, done, acts);
      err := WriteBlanks(g, m, counts, mx, cmdline, target);
      if err.Some? {
        ExecuteStops(f0, target.denied, done + acts, rest);
        return err;
      }
    }
    assert ms[..|ms|] == ms;
    return None;
  }

  /** The loop of generateSQL writing the fragments of one member, numbered from zero. */
  method WriteFragments(g: MigrationGroup, m: Migration, frags: seq<string>, target: TargetDir)
    returns (err: Option<MigrationError>)
    modifies target
    ensures (target.files, err) == Execute(old(target.files), target.denied, Writes(g, m, 0, frags))
  {
    ghost var f0 := target.files;
    ghost var acts := Writes(g, m, 0, frags);
    for i := 0 to |frags|
      invariant Execute(f0, target.denied, acts[..i]) == (target.files, None)
    {
      var name := FragmentName(g, m, i);
      ghost var before := target.files;
      var ok := target.WriteFile(name, frags[i]);
      if !ok {
        ExecuteFailsAt(f0, target.denied, acts, i, before);
        return Some(WriteError(name));
      }
      ExecuteWritesAt(f0, target.denied, acts, i, before);
    }
    assert acts[..|frags|] == acts;
    return None;
  }

  /** The loop of generateSQL padding one member with blank fragments, from the count of
      its dialect (zero when there is none) up to the largest count. */
  method WriteBlanks(g: MigrationGroup, m: Migration, counts: map<string, nat>, mx: int, cmdline: string, target: TargetDir)
    returns (err: Option<MigrationError>)
    modifies target
    ensures (target.files, err) == Execute(old(target.files), target.denied, PadActions(g, m, counts, mx, cmdline))
  {
    ghost var f0 := target.files;
    ghost var acts := PadActions(g, m, counts, mx, cmdline);
    var lo := PadFrom(m, counts);
    PadActionsLength(g, m, counts, mx, cmdline);
    var i := lo;
    while i < mx
      invariant lo <= i <= if lo < mx then mx else lo
      invariant Execute(f0, target.denied, acts[..i - lo]) == (target.files, None)
    {
      var name := FragmentName(g, m, i);
      ghost var before := target.files;
      PadActionAt(g, m, counts, mx, cmdline, i);
      var ok := target.WriteFile(name, BlankFragment(cmdline));
      if !ok {
        ExecuteFailsAt(f0, target.denied, acts, i - lo, before);
        return Some(WriteError(name));
      }
      ExecuteWritesAt(f0, target.denied, acts, i - lo, before);
      i := i + 1;
    }
    assert acts[..i - lo] == acts;
    return None;
  }

  // ---------------------------------------------------------------------------
  // The group loop of MigrateGen.

  /** The plans of the groups with the given IDs, one after the other. */
  function AllPlans(mgs: map<string, MigrationGroup>, order: seq<string>, sources: map<string, string>, cmdline: string): seq<Action>
    requires forall k :: 0 <= k < |order| ==> order[k] in mgs
  {
    if order == [] then []
    else AllPlans(mgs, order[..|order| - 1], sources, cmdline) + Plan(mgs[order[|order| - 1]], sources, cmdline)
  }

  /** The loop over the groups: each is generated in turn, in an unspecified order of IDs,
      until one fails or all are done. */
  method GenerateGroups(mgs: map<string, MigrationGroup>, sources: map<string, string>, cmdline: string, target: TargetDir)
    returns (err: Option<MigrationError>, ghost order: seq<string>)
    modifies target
    ensures forall k :: 0 <= k < |order| ==> order[k] in mgs
    ensures forall j, k :: 0 <= j < k < |order| ==> order[j] != order[k]
    ensures (target.files, err) == Execute(old(target.files), target.denied, AllPlans(mgs, order, sources, cmdline))
    ensures err.None? ==> forall id :: id in mgs ==> id in order
  {
    order := [];
    ghost var f0 := target.files;
    var remaining := mgs.Keys;
    while remaining != {}
      invariant remaining <= mgs.Keys
      invariant forall k :: 0 <= k < |order| ==> order[k] in mgs && order[k] !in remaining
      invariant forall j, k :: 0 <= j < k < |order| ==> order[j] != order[k]
      invariant forall id :: id in mgs && id !in remaining ==> id in order
      invariant Execute(f0, target.denied, AllPlans(mgs, order, sources, cmdline)) == (target.files, None)
      decreases remaining
    {
      var id :| id in remaining;
      err := GenerateNext(mgs, order, id, sources, cmdline, target, f0);
      order := order + [id];
      if err.Some? {
        return err, order;
      }
      remaining := remaining - {id};
    }
    return None, order;
  }

  /** One turn of the group loop: group id is generated after the groups in order. */
  method GenerateNext(mgs: map<string, MigrationGroup>, ghost order: seq<string>, id: string, sources: map<string, string>,
                      cmdline: string, target: TargetDir, ghost f0: map<string, string>)
    returns (err: Option<MigrationError>)
    requires id in mgs && forall k :: 0 <= k < |order| ==> order[k] in mgs
    requires Execute(f0, target.denied, AllPlans(mgs, order, sources, cmdline)) == (target.files, None)
    modifies target
    ensures Execute(f0, target.denied, AllPlans(mgs, order + [id], sources, cmdline)) == (target.files, err)
  {
    ghost var done := AllPlans(mgs, order, sources, cmdline);
    err := GenerateSql(mgs[id], sources, cmdline, target);
    ExecuteAppend(f0, target.denied, done, Plan(mgs[id], sources, cmdline));
    AllPlansNext(mgs, order, id, sources, cmdline);
  }

  // ---------------------------------------------------------------------------
  // Lemmas for the loops.

  lemma RealNext(g: MigrationGroup, ms: seq<Migration>, k: nat, sources: map<string, string>, cmdline: string)
    requires k < |ms|
    ensures RealActions(g, ms[..k + 1], sources, cmdline)
      == RealActions(g, ms[..k], sources, cmdline) + MigrationActions(g, ms[k], sources, cmdline)
    ensures Counts(ms[..k + 1], sources) == Counts(ms[..k], sources)[ms[k].dialect := FragmentCount(ms[k], sources)]
    ensures MaxCount(ms[..k + 1], sources)
      == if MaxCount(ms[..k], sources) < FragmentCount(ms[k], sources) then FragmentCount(ms[k], sources) else MaxCount(ms[..k], sources)
  {
    assert ms[..k + 1][..k] == ms[..k];
  }

  lemma PaddingNext(g: MigrationGroup, ms: seq<Migration>, k: nat, counts: map<string, nat>, mx: int, cmdline: string)
    requires k < |ms|
    ensures PaddingActions(g, ms[..k + 1], counts, mx, cmdline)
      == PaddingActions(g, ms[..k], counts, mx, cmdline) + PadActions(g, ms[k], counts, mx, cmdline)
  {
    assert ms[..k + 1][..k] == ms[..k];
  }

  lemma AllPlansNext(mgs: map<string, MigrationGroup>, order: seq<string>, id: string, sources: map<string, string>, cmdline: string)
    requires forall k :: 0 <= k < |order| ==> order[k] in mgs
    requires id in mgs
    ensures AllPlans(mgs, order + [id], sources, cmdline) == AllPlans(mgs, order, sources, cmdline) + Plan(mgs[id], sources, cmdline)
  {
    assert (order + [id])[..|order|] == order;
  }

  /** A successful write of action i of acts. */
  lemma ExecuteWritesAt(files: map<string, string>, denied: set<string>, acts: seq<Action>, i: nat, before: map<string, string>)
    requires i < |acts| && acts[i].Write? && acts[i].name !in denied
    requires Execute(files, denied, acts[..i]) == (before, None)
    ensures Execute(files, denied, acts[..i + 1]) == (before[acts[i].name := acts[i].data], None)
  {
    assert acts[..i + 1][..i] == acts[..i];
  }

  /** Action i of acts fails: the run stops there with its error, whatever follows. */
  lemma ExecuteFailsAt(files: map<string, string>, denied: set<string>, acts: seq<Action>, i: nat, before: map<string, string>)
    requires i < |acts| && (acts[i].Fail? || acts[i].name in denied)
    requires Execute(files, denied, acts[..i]) == (before, None)
    ensures Execute(files, denied, acts)
      == (before, Some(if acts[i].Fail? then acts[i].error else WriteError(acts[i].name)))
  {
    assert acts[..i + 1][..i] == acts[..i];
    ExecuteStops(files, denied, acts[..i + 1], acts[i + 1..]);
    CutRejoins(acts, i + 1);
  }

  /** The padding of one member writes one blank fragment for every number from its
      dialect's count up to the largest count. */
  lemma PadActionsLength(g: MigrationGroup, m: Migration, counts: map<string, nat>, mx: int, cmdline: string)
    ensures var lo := PadFrom(m, counts);
      |PadActions(g, m, counts, mx, cmdline)| == if lo < mx then mx - lo else 0
  {
  }

  /** The padding write for fragment number i. */
  lemma PadActionAt(g: MigrationGroup, m: Migration, counts: map<string, nat>, mx: int, cmdline: string, i: nat)
    requires PadFrom(m, counts) <= i < mx
    ensures i - PadFrom(m, counts) < |PadActions(g, m, counts, mx, cmdline)|
    ensures PadActions(g, m, counts, mx, cmdline)[i - PadFrom(m, counts)] == Write(FragmentName(g, m, i), BlankFragment(cmdline))
  {
  }

  /** Performing a + [x] is performing a, then x. */
  lemma ExecuteSnoc(files: map<string, string>, denied: set<string>, a: seq<Action>, x: Action)
    ensures Execute(files, denied, a + [x]) == Step(Execute(files, denied, a), denied, x)
  {
    assert (a + [x])[..|a|] == a;
  }

  /** Once a run has failed, further actions change nothing. */
  lemma {:induction false} ExecuteStops(files: map<string, string>, denied: set<string>, a: seq<Action>, b: seq<Action>)
    requires Execute(files, denied, a).1.Some?
    ensures Execute(files, denied, a + b) == Execute(files, denied, a)
    decreases |b|
  {
    if b == [] {
      assert a + b == a;
    } else {
      var c := b[..|b| - 1];
      assert a + b == (a + c) + [b[|b| - 1]];
      ExecuteStops(files, denied, a, c);
      ExecuteSnoc(files, denied, a + c, b[|b| - 1]);
    }
  }

  /** Running a + b is running a, then, if it succeeded, running b on its files. */
  lemma {:induction false} ExecuteAppend(files: map<string, string>, denied: set<string>, a: seq<Action>, b: seq<Action>)
    ensures Execute(files, denied, a + b)
      == if Execute(files, denied, a).1.Some? then Execute(files, denied, a) else Execute(Execute(files, denied, a).0, denied, b)
    decreases |b|
  {
    if b == [] {
      assert a + b == a;
    } else if Execute(files, denied, a).1.Some? {
      ExecuteStops(files, denied, a, b);
    } else {
      var c := b[..|b| - 1];
      var x := b[|b| - 1];
      assert a + b == (a + c) + [x];
      assert b == c + [x];
      ExecuteAppend(files, denied, a, c);
      ExecuteSnoc(files, denied, a + c, x);
      ExecuteSnoc(Execute(files, denied, a).0, denied, c, x);
    }
  }

  lemma {:induction false} RealActionsAppend(g: MigrationGroup, a: seq<Migration>, b: seq<Migration>, sources: map<string, string>, cmdline: string)
    ensures RealActions(g, a + b, sources, cmdline) == RealActions(g, a, sources, cmdline) + RealActions(g, b, sources, cmdline)
    decreases |b|
  {
    if b == [] {
      assert a + b == a;
    } else {
      assert (a + b)[..|a + b| - 1] == a + b[..|b| - 1];
      RealActionsAppend(g, a, b[..|b| - 1], sources, cmdline);
    }
  }

  lemma {:induction false} PaddingActionsAppend(g: MigrationGroup, a: seq<Migration>, b: seq<Migration>, counts: map<string, nat>, mx: int, cmdline: string)
    ensures PaddingActions(g, a + b, counts, mx, cmdline) == PaddingActions(g, a, counts, mx, cmdline) + PaddingActions(g, b, counts, mx, cmdline)
    decreases |b|
  {
    if b == [] {
      assert a + b == a;
    } else {
      assert (a + b)[..|a + b| - 1] == a + b[..|b| - 1];
      PaddingActionsAppend(g, a, b[..|b| - 1], counts, mx, cmdline);
    }
  }

  /** The first pass over ms, around member k. */
  lemma RealAround(g: MigrationGroup, ms: seq<Migration>, k: nat, sources: map<string, string>, cmdline: string)
    requires k < |ms|
    ensures RealActions(g, ms, sources, cmdline)
      == RealActions(g, ms[..k], sources, cmdline) + MigrationActions(g, ms[k], sources, cmdline) + RealActions(g, ms[k + 1..], sources, cmdline)
  {
    RealActionsAppend(g, ms[..k + 1], ms[k + 1..], sources, cmdline);
    CutRejoins(ms, k + 1);
    RealNext(g, ms, k, sources, cmdline);
  }

  /** The second pass over ms, around member k. */
  lemma PaddingAround(g: MigrationGroup, ms: seq<Migration>, k: nat, counts: map<string, nat>, mx: int, cmdline: string)
    requires k < |ms|
    ensures PaddingActions(g, ms, counts, mx, cmdline)
      == PaddingActions(g, ms[..k], counts, mx, cmdline) + PadActions(g, ms[k], counts, mx, cmdline) + PaddingActions(g, ms[k + 1..], counts, mx, cmdline)
  {
    PaddingActionsAppend(g, ms[..k + 1], ms[k + 1..], counts, mx, cmdline);
    CutRejoins(ms, k + 1);
    PaddingNext(g, ms, k, counts, mx, cmdline);
  }

}
