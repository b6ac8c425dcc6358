/** The outcome of generateSQL on the target directory when every source is readable and
    no write is refused: which file holds what after the real and the padding writes. */
module Balance {
  import opened Errors
  import opened Classifier
  import opened Splitter
  import opened Scanner
  import opened FragmentNames
  import opened Writer

  // ---------------------------------------------------------------------------
  // Writes that all succeed.

  /** The files after the writes of acts, in order; failures are skipped. */
  function Apply(files: map<string, string>, acts: seq<Action>): map<string, string> {
    if acts == [] then files
    else
      var before := Apply(files, acts[..|acts| - 1]);
      match acts[|acts| - 1]
      case Write(n, d) => before[n := d]
      case Fail(_) => before
  }

  /** The content of file n, if there is one. */
  function Lookup(files: map<string, string>, n: string): Option<string> {
    if n in files then Some(files[n]) else None
  }

  lemma {:induction false} ApplyAppend(files: map<string, string>, a: seq<Action>, b: seq<Action>)
    ensures Apply(files, a + b) == Apply(Apply(files, a), b)
    decreases |b|
  {
    if b == [] {
      assert a + b == a;
    } else {
      assert (a + b)[..|a + b| - 1] == a + b[..|b| - 1];
      ApplyAppend(files, a, b[..|b| - 1]);
    }
  }

  /** The names of the fragments of m numbered lo to lo + n - 1. */
  function Span(g: MigrationGroup, m: Migration, lo: nat, n: nat): set<string> {
    set i: nat | lo <= i < lo + n :: FragmentName(g, m, i)
  }

  /** The fragments of m can be told apart by their names. */
  predicate Nameable(g: MigrationGroup, m: Migration) {
    DotFree(g.name) && DotFree(m.dialect) && IsDirection(m.direction)
  }

  lemma WritesPrefix(g: MigrationGroup, m: Migration, lo: nat, datas: seq<string>, n: nat)
    requires n <= |datas|
    ensures Writes(g, m, lo, datas)[..n] == Writes(g, m, lo, datas[..n])
  {
  }

  /** The names acts writes. */
  function NamesOf(acts: seq<Action>): set<string> {
    set j | 0 <= j < |acts| && acts[j].Write? :: acts[j].name
  }

  /** Every action writes, and no two write the same name. */
  predicate DistinctWrites(acts: seq<Action>) {
    && (forall j :: 0 <= j < |acts| ==> acts[j].Write?)
    && (forall j1, j2 :: 0 <= j1 < j2 < |acts| ==> acts[j1].name != acts[j2].name)
  }

  /** Writes leave every file they do not name as it was. */
  lemma {:induction false} ApplyElsewhere(files: map<string, string>, acts: seq<Action>)
    ensures forall n :: n !in NamesOf(acts) ==> Lookup(Apply(files, acts), n) == Lookup(files, n)
    decreases |acts|
  {
    if acts != [] {
      var k := |acts| - 1;
      var p := acts[..k];
      ApplyElsewhere(files, p);
      forall n | n in NamesOf(p) ensures n in NamesOf(acts) {
        var j :| 0 <= j < |p| && p[j].Write? && p[j].name == n;
        assert acts[j] == p[j];
      }
      assert acts[k].Write? ==> acts[k].name in NamesOf(acts);
    }
  }

  /** Writes to distinct names leave each written file with its data. */
  lemma {:induction false} ApplyDistinct(files: map<string, string>, acts: seq<Action>)
    requires DistinctWrites(acts)
    ensures forall j :: 0 <= j < |acts| ==> Lookup(Apply(files, acts), acts[j].name) == Some(acts[j].data)
    decreases |acts|
  {
    if acts != [] {
      var k := |acts| - 1;
      var p := acts[..k];
      ApplyDistinct(files, p);
    }
  }

  /** The writes of one member's fragments go to distinct names. */
  lemma WritesDistinct(g: MigrationGroup, m: Migration, lo: nat, datas: seq<string>)
    requires Nameable(g, m)
    ensures DistinctWrites(Writes(g, m, lo, datas))
  {
    var acts := Writes(g, m, lo, datas);
    forall j1, j2 | 0 <= j1 < j2 < |acts| ensures acts[j1].name != acts[j2].name {
      WriteNamesDiffer(g, m, lo, datas, j1, j2);
    }
  }

  lemma WriteNamesDiffer(g: MigrationGroup, m: Migration, lo: nat, datas: seq<string>, j1: nat, j2: nat)
    requires Nameable(g, m)
    requires j1 < j2 < |datas|
    ensures Writes(g, m, lo, datas)[j1].name != Writes(g, m, lo, datas)[j2].name
  {
    var n1 := FragmentName(g, m, lo + j1);
    var n2 := FragmentName(g, m, lo + j2);
    assert Writes(g, m, lo, datas)[j1].name == n1;
    assert Writes(g, m, lo, datas)[j2].name == n2;
    if n1 == n2 {
      FragmentNameInjective(g, m, lo + j1, m, lo + j2);
    }
  }

  /** The writes of one member's fragments stay within its span. */
  lemma WritesInSpan(g: MigrationGroup, m: Migration, lo: nat, datas: seq<string>)
    ensures NamesOf(Writes(g, m, lo, datas)) <= Span(g, m, lo, |datas|)
  {
    var acts := Writes(g, m, lo, datas);
    forall n | n in NamesOf(acts) ensures n in Span(g, m, lo, |datas|) {
      var j :| 0 <= j < |acts| && acts[j].Write? && acts[j].name == n;
      InSpan(g, m, lo, |datas|, j);
    }
  }

  lemma InSpan(g: MigrationGroup, m: Migration, lo: nat, n: nat, j: nat)
    requires j < n
    ensures FragmentName(g, m, lo + j) in Span(g, m, lo, n)
  {
  }

  /** Writing datas to the fragments of m from lo on puts datas[t] in fragment lo + t. */
  lemma WritesApply(files: map<string, string>, g: MigrationGroup, m: Migration, lo: nat, datas: seq<string>)
    requires Nameable(g, m)
    ensures forall t :: 0 <= t < |datas| ==>
      Lookup(Apply(files, Writes(g, m, lo, datas)), FragmentName(g, m, lo + t)) == Some(datas[t])
  {
    var acts := Writes(g, m, lo, datas);
    WritesDistinct(g, m, lo, datas);
    ApplyDistinct(files, acts);
    forall t | 0 <= t < |datas|
      ensures Lookup(Apply(files, acts), FragmentName(g, m, lo + t)) == Some(datas[t])
    {
      assert acts[t].name == FragmentName(g, m, lo + t);
    }
  }

  /** Writing the fragments of m from lo on leaves every file outside their span as it was. */
  lemma WritesElsewhere(files: map<string, string>, g: MigrationGroup, m: Migration, lo: nat, datas: seq<string>)
    ensures forall n :: n !in Span(g, m, lo, |datas|) ==>
      Lookup(Apply(files, Writes(g, m, lo, datas)), n) == Lookup(files, n)
  {
    WritesInSpan(g, m, lo, datas);
    ApplyElsewhere(files, Writes(g, m, lo, datas));
  }

  /** Writes to names that are not refused all succeed. */
  lemma {:induction false} ExecuteWrites(files: map<string, string>, denied: set<string>, g: MigrationGroup, m: Migration, lo: nat, datas: seq<string>)
    requires forall i :: lo <= i < lo + |datas| ==> FragmentName(g, m, i) !in denied
    ensures Execute(files, denied, Writes(g, m, lo, datas)) == (Apply(files, Writes(g, m, lo, datas)), None)
    decreases |datas|
  {
    if datas != [] {
      var k := |datas| - 1;
      var acts := Writes(g, m, lo, datas);
      WritesPrefix(g, m, lo, datas, k);
      ExecuteWrites(files, denied, g, m, lo, datas[..k]);
      assert acts[k] == Write(FragmentName(g, m, lo + k), datas[k]);
    }
  }

  // ---------------------------------------------------------------------------
  // Blocks of writes, one per member.

  /** The writes of datas to the fragments of m numbered from lo on. */
  datatype Block = Block(m: Migration, lo: nat, datas: seq<string>)

  /** The writes of the blocks, one block after the other. */
  function Flatten(g: MigrationGroup, bs: seq<Block>): seq<Action> {
    if bs == [] then []
    else
      var b := bs[|bs| - 1];
      Flatten(g, bs[..|bs| - 1]) + Writes(g, b.m, b.lo, b.datas)
  }

  /** The names the blocks write. */
  function BlockNames(g: MigrationGroup, bs: seq<Block>): set<string> {
    if bs == [] then {}
    else
      var b := bs[|bs| - 1];
      BlockNames(g, bs[..|bs| - 1]) + Span(g, b.m, b.lo, |b.datas|)
  }

  /** Every name the blocks write is in the span of one of them. */
  lemma {:induction false} BlockNamesCover(g: MigrationGroup, bs: seq<Block>, n: string)
    requires n in BlockNames(g, bs)
    ensures exists k :: 0 <= k < |bs| && n in Span(g, bs[k].m, bs[k].lo, |bs[k].datas|)
    decreases |bs|
  {
    var k := |bs| - 1;
    var b := bs[k];
    if n !in Span(g, b.m, b.lo, |b.datas|) {
      BlockNamesCover(g, bs[..k], n);
      var k' :| 0 <= k' < k && n in Span(g, bs[..k][k'].m, bs[..k][k'].lo, |bs[..k][k'].datas|);
      assert bs[..k][k'] == bs[k'];
    }
  }

  /** Every block's names are told apart, and no two blocks are for the same dialect and
      direction. */
  predicate Separate(g: MigrationGroup, bs: seq<Block>) {
    && (forall k :: 0 <= k < |bs| ==> Nameable(g, bs[k].m))
    && (forall k1, k2 :: 0 <= k1 < k2 < |bs| ==>
          bs[k1].m.dialect != bs[k2].m.dialect || bs[k1].m.direction != bs[k2].m.direction)
  }

  /** A fragment of one member is in no span of a member of another dialect or direction. */
  lemma SpanMiss(g: MigrationGroup, m1: Migration, i: nat, m2: Migration, lo: nat, n: nat)
    requires Nameable(g, m1) && Nameable(g, m2)
    requires m1.dialect != m2.dialect || m1.direction != m2.direction
    ensures FragmentName(g, m1, i) !in Span(g, m2, lo, n)
  {
    if FragmentName(g, m1, i) in Span(g, m2, lo, n) {
      var j: nat :| lo <= j < lo + n && FragmentName(g, m1, i) == FragmentName(g, m2, j);
      FragmentNameInjective(g, m1, i, m2, j);
    }
  }

  /** Writing the blocks leaves every file that no block names as it was. */
  lemma {:induction false} FlattenElsewhere(files: map<string, string>, g: MigrationGroup, bs: seq<Block>)
    ensures forall n :: n !in BlockNames(g, bs) ==> Lookup(Apply(files, Flatten(g, bs)), n) == Lookup(files, n)
    decreases |bs|
  {
    if bs != [] {
      var k := |bs| - 1;
      var p := bs[..k];
      var b := bs[k];
      FlattenElsewhere(files, g, p);
      ApplyAppend(files, Flatten(g, p), Writes(g, b.m, b.lo, b.datas));
      WritesElsewhere(Apply(files, Flatten(g, p)), g, b.m, b.lo, b.datas);
    }
  }

  /** Writing the blocks in order puts every block's data in its fragments. */
  lemma FlattenApply(files: map<string, string>, g: MigrationGroup, bs: seq<Block>)
    requires Separate(g, bs)
    ensures forall k, t :: 0 <= k < |bs| && 0 <= t < |bs[k].datas| ==>
      Lookup(Apply(files, Flatten(g, bs)), FragmentName(g, bs[k].m, bs[k].lo + t)) == Some(bs[k].datas[t])
  {
    forall k, t | 0 <= k < |bs| && 0 <= t < |bs[k].datas|
      ensures Lookup(Apply(files, Flatten(g, bs)), FragmentName(g, bs[k].m, bs[k].lo + t)) == Some(bs[k].datas[t])
    {
      FlattenApplyAt(files, g, bs, k, t);
    }
  }

  /** Datum t of block k ends in its fragment: no later block writes there. */
  lemma FlattenApplyAt(files: map<string, string>, g: MigrationGroup, bs: seq<Block>, k: nat, t: nat)
    requires Separate(g, bs)
    requires k < |bs| && t < |bs[k].datas|
    ensures Lookup(Apply(files, Flatten(g, bs)), FragmentName(g, bs[k].m, bs[k].lo + t)) == Some(bs[k].datas[t])
  {
    var n := FragmentName(g, bs[k].m, bs[k].lo + t);
    LaterSpansMiss(g, bs, k, bs[k].lo + t);
    FlattenKeepsBeyond(files, g, bs, k + 1, n);
    var q := bs[..k + 1];
    assert q[|q| - 1] == bs[k];
    FlattenLastBlock(files, g, q, t);
  }

  /** A fragment of block k is in the span of no later block. */
  lemma LaterSpansMiss(g: MigrationGroup, bs: seq<Block>, k: nat, i: nat)
    requires Separate(g, bs) && k < |bs|
    ensures forall l :: k + 1 <= l < |bs| ==> FragmentName(g, bs[k].m, i) !in Span(g, bs[l].m, bs[l].lo, |bs[l].datas|)
  {
    forall l | k + 1 <= l < |bs| ensures FragmentName(g, bs[k].m, i) !in Span(g, bs[l].m, bs[l].lo, |bs[l].datas|) {
      SpanMiss(g, bs[k].m, i, bs[l].m, bs[l].lo, |bs[l].datas|);
    }
  }

  /** Writing the blocks is writing all but the last, then the last. */
  lemma ApplyFlattenSnoc(files: map<string, string>, g: MigrationGroup, bs: seq<Block>)
    requires bs != []
    ensures var b := bs[|bs| - 1];
      Apply(files, Flatten(g, bs)) == Apply(Apply(files, Flatten(g, bs[..|bs| - 1])), Writes(g, b.m, b.lo, b.datas))
  {
    var b := bs[|bs| - 1];
    ApplyAppend(files, Flatten(g, bs[..|bs| - 1]), Writes(g, b.m, b.lo, b.datas));
  }

  /** Blocks from j on leave every name outside their spans as the blocks before j left it. */
  lemma {:induction false} FlattenKeepsBeyond(files: map<string, string>, g: MigrationGroup, bs: seq<Block>, j: nat, n: string)
    requires j <= |bs|
    requires forall l :: j <= l < |bs| ==> n !in Span(g, bs[l].m, bs[l].lo, |bs[l].datas|)
    ensures Lookup(Apply(files, Flatten(g, bs)), n) == Lookup(Apply(files, Flatten(g, bs[..j])), n)
    decreases |bs|
  {
    if j == |bs| {
      assert bs[..j] == bs;
    } else {
      var last := |bs| - 1;
      var p := bs[..last];
      var b := bs[last];
      var w := Writes(g, b.m, b.lo, b.datas);
      var fp := Apply(files, Flatten(g, p));
      assert forall l :: j <= l < |p| ==> p[l] == bs[l];
      FlattenKeepsBeyond(files, g, p, j, n);
      assert p[..j] == bs[..j];
      ApplyFlattenSnoc(files, g, bs);
      assert n !in Span(g, b.m, b.lo, |b.datas|);
      WritesElsewhere(fp, g, b.m, b.lo, b.datas);
      assert Lookup(Apply(fp, w), n) == Lookup(fp, n);
    }
  }

  /** The data of the last block ends in its fragments. */
  lemma FlattenLastBlock(files: map<string, string>, g: MigrationGroup, bs: seq<Block>, t: nat)
    requires bs != [] && Nameable(g, bs[|bs| - 1].m) && t < |bs[|bs| - 1].datas|
    ensures var b := bs[|bs| - 1];
      Lookup(Apply(files, Flatten(g, bs)), FragmentName(g, b.m, b.lo + t)) == Some(b.datas[t])
  {
    var p := bs[..|bs| - 1];
    var b := bs[|bs| - 1];
    ApplyFlattenSnoc(files, g, bs);
    WritesApply(Apply(files, Flatten(g, p)), g, b.m, b.lo, b.datas);
  }

  /** Writing blocks whose names are all allowed succeeds. */
  lemma {:induction false} ExecuteFlatten(files: map<string, string>, denied: set<string>, g: MigrationGroup, bs: seq<Block>)
    requires BlockNames(g, bs) !! denied
    ensures Execute(files, denied, Flatten(g, bs)) == (Apply(files, Flatten(g, bs)), None)
    decreases |bs|
  {
    if bs != [] {
      var k := |bs| - 1;
      var p := bs[..k];
      var b := bs[k];
      ExecuteFlatten(files, denied, g, p);
      var fp := Apply(files, Flatten(g, p));
      forall i | b.lo <= i < b.lo + |b.datas| ensures FragmentName(g, b.m, i) !in denied {
        assert FragmentName(g, b.m, i) in Span(g, b.m, b.lo, |b.datas|);
      }
      ExecuteWrites(fp, denied, g, b.m, b.lo, b.datas);
      ExecuteAppend(files, denied, Flatten(g, p), Writes(g, b.m, b.lo, b.datas));
      ApplyAppend(files, Flatten(g, p), Writes(g, b.m, b.lo, b.datas));
    }
  }

  /** A fragment of a block's member is written by the blocks only inside that block's span. */
  lemma BlockNamesHit(g: MigrationGroup, bs: seq<Block>, k: nat, i: nat)
    requires Separate(g, bs) && k < |bs|
    requires FragmentName(g, bs[k].m, i) in BlockNames(g, bs)
    ensures bs[k].lo <= i < bs[k].lo + |bs[k].datas|
  {
    var n := FragmentName(g, bs[k].m, i);
    BlockNamesCover(g, bs, n);
    var k' :| 0 <= k' < |bs| && n in Span(g, bs[k'].m, bs[k'].lo, |bs[k'].datas|);
    var j: nat :| bs[k'].lo <= j < bs[k'].lo + |bs[k'].datas| && n == FragmentName(g, bs[k'].m, j);
    FragmentNameInjective(g, bs[k].m, i, bs[k'].m, j);
  }

  /** Fragment i of block k's member after the blocks: the block's data inside its span. */
  lemma FlattenAt(files: map<string, string>, g: MigrationGroup, bs: seq<Block>, k: nat, i: nat)
    requires Separate(g, bs) && k < |bs| && bs[k].lo <= i < bs[k].lo + |bs[k].datas|
    ensures Lookup(Apply(files, Flatten(g, bs)), FragmentName(g, bs[k].m, i)) == Some(bs[k].datas[i - bs[k].lo])
  {
    FlattenApply(files, g, bs);
    assert bs[k].lo + (i - bs[k].lo) == i;
  }

  /** Fragment i of block k's member after the blocks: as it was outside the block's span. */
  lemma FlattenMissAt(files: map<string, string>, g: MigrationGroup, bs: seq<Block>, k: nat, i: nat)
    requires Separate(g, bs) && k < |bs| && !(bs[k].lo <= i < bs[k].lo + |bs[k].datas|)
    ensures Lookup(Apply(files, Flatten(g, bs)), FragmentName(g, bs[k].m, i)) == Lookup(files, FragmentName(g, bs[k].m, i))
  {
    FlattenElsewhere(files, g, bs);
    if FragmentName(g, bs[k].m, i) in BlockNames(g, bs) {
      BlockNamesHit(g, bs, k, i);
    }
  }

  // ---------------------------------------------------------------------------
  // The two passes of generateSQL as blocks.

  /** What the first pass writes for m: its fragments from zero on. */
  function RealBlock(m: Migration, sources: map<string, string>, cmdline: string): Block {
    Block(m, 0, if m.path in sources then Fragments(sources[m.path], cmdline) else [])
  }

  function RealBlocks(ms: seq<Migration>, sources: map<string, string>, cmdline: string): seq<Block> {
    seq(|ms|, k requires 0 <= k < |ms| => RealBlock(ms[k], sources, cmdline))
  }

  /** What the second pass writes for m: blank fragments from its dialect's count up to mx. */
  function PadBlock(m: Migration, counts: map<string, nat>, mx: int, cmdline: string): Block {
    var lo := PadFrom(m, counts);
    Block(m, lo, Blanks(if lo < mx then mx - lo else 0, cmdline))
  }

  function PadBlocks(ms: seq<Migration>, counts: map<string, nat>, mx: int, cmdline: string): seq<Block> {
    seq(|ms|, k requires 0 <= k < |ms| => PadBlock(ms[k], counts, mx, cmdline))
  }

  /** Every source can be read. */
  predicate Readable(ms: seq<Migration>, sources: map<string, string>) {
    forall k :: 0 <= k < |ms| ==> ms[k].path in sources
  }

  /** No two migrations share a dialect and a direction. */
  predicate DistinctKeys(ms: seq<Migration>) {
    forall k1, k2 :: 0 <= k1 < k2 < |ms| ==> ms[k1].dialect != ms[k2].dialect || ms[k1].direction != ms[k2].direction
  }

  lemma {:induction false} RealIsFlatten(g: MigrationGroup, ms: seq<Migration>, sources: map<string, string>, cmdline: string)
    requires Readable(ms, sources)
    ensures RealActions(g, ms, sources, cmdline) == Flatten(g, RealBlocks(ms, sources, cmdline))
    decreases |ms|
  {
    if ms != [] {
      var k := |ms| - 1;
      RealIsFlatten(g, ms[..k], sources, cmdline);
      assert RealBlocks(ms, sources, cmdline)[..k] == RealBlocks(ms[..k], sources, cmdline);
    }
  }

  lemma {:induction false} PaddingIsFlatten(g: MigrationGroup, ms: seq<Migration>, counts: map<string, nat>, mx: int, cmdline: string)
    ensures PaddingActions(g, ms, counts, mx, cmdline) == Flatten(g, PadBlocks(ms, counts, mx, cmdline))
    decreases |ms|
  {
    if ms != [] {
      var k := |ms| - 1;
      PaddingIsFlatten(g, ms[..k], counts, mx, cmdline);
      assert PadBlocks(ms, counts, mx, cmdline)[..k] == PadBlocks(ms[..k], counts, mx, cmdline);
      var b := PadBlock(ms[k], counts, mx, cmdline);
      assert PadActions(g, ms[k], counts, mx, cmdline) == Writes(g, b.m, b.lo, b.datas);
    }
  }

  // ---------------------------------------------------------------------------
  // The counts.

  /** maxFragmentCount is -1 for no migration and otherwise the largest fragment count. */
  lemma {:induction false} MaxCountMeaning(ms: seq<Migration>, sources: map<string, string>)
    ensures forall k :: 0 <= k < |ms| ==> FragmentCount(ms[k], sources) <= MaxCount(ms, sources)
    ensures ms == [] ==> MaxCount(ms, sources) == -1
    ensures ms != [] ==> exists k :: 0 <= k < |ms| && MaxCount(ms, sources) == FragmentCount(ms[k], sources)
    decreases |ms|
  {
    if ms != [] {
      var k := |ms| - 1;
      MaxCountMeaning(ms[..k], sources);
      forall j | 0 <= j < k ensures ms[..k][j] == ms[j] { }
      if k > 0 && FragmentCount(ms[k], sources) <= MaxCount(ms[..k], sources) {
        var j :| 0 <= j < k && MaxCount(ms[..k], sources) == FragmentCount(ms[..k][j], sources);
        assert ms[..k][j] == ms[j];
      }
    }
  }

  /** dialectFragmentCounts has an entry exactly for the dialects of ms. */
  lemma {:induction false} CountsDomain(ms: seq<Migration>, sources: map<string, string>)
    ensures forall d :: d in Counts(ms, sources) <==> exists k :: 0 <= k < |ms| && ms[k].dialect == d
    decreases |ms|
  {
    if ms != [] {
      var n := |ms| - 1;
      var p := ms[..n];
      CountsDomain(p, sources);
      forall j | 0 <= j < n ensures p[j] == ms[j] { }
    }
  }

  /** The entry of a dialect is the count of the last migration of that dialect: a later
      migration of the same dialect overwrites what an earlier one recorded. */
  lemma {:induction false} CountsLastWins(ms: seq<Migration>, sources: map<string, string>, k: nat)
    requires k < |ms|
    requires forall j :: k < j < |ms| ==> ms[j].dialect != ms[k].dialect
    ensures ms[k].dialect in Counts(ms, sources) && Counts(ms, sources)[ms[k].dialect] == FragmentCount(ms[k], sources)
    decreases |ms|
  {
    var n := |ms| - 1;
    if k < n {
      var p := ms[..n];
      assert p[k] == ms[k];
      forall j | k < j < n ensures p[j].dialect != p[k].dialect {
        assert p[j] == ms[j];
      }
      CountsLastWins(p, sources, k);
    }
  }

  /** When every migration of a dialect has the same fragment count, padding of a migration
      starts at its own count. */
  lemma {:induction false} CountsUniform(ms: seq<Migration>, sources: map<string, string>)
    requires forall k1, k2 :: 0 <= k1 < |ms| && 0 <= k2 < |ms| && ms[k1].dialect == ms[k2].dialect ==>
      FragmentCount(ms[k1], sources) == FragmentCount(ms[k2], sources)
    ensures forall k :: 0 <= k < |ms| ==> PadFrom(ms[k], Counts(ms, sources)) == FragmentCount(ms[k], sources)
    decreases |ms|
  {
    if ms != [] {
      var n := |ms| - 1;
      var p := ms[..n];
      forall j | 0 <= j < n ensures p[j] == ms[j] { }
      CountsUniform(p, sources);
    }
  }

  // ---------------------------------------------------------------------------
  // The outcome of generateSQL.

  /** Every fragment name of every member numbered below mx. */
  function OutputNames(g: MigrationGroup, ms: seq<Migration>, mx: int): set<string> {
    set k: nat, i: nat | k < |ms| && i < mx :: FragmentName(g, ms[k], i)
  }

  lemma MembersNameable(g: MigrationGroup)
    requires WellFormedGroup(g)
    ensures forall k :: 0 <= k < |Members(g)| ==> Nameable(g, Members(g)[k])
  {
    forall k | 0 <= k < |Members(g)| ensures Nameable(g, Members(g)[k]) {
      assert Members(g)[k] in Members(g);
    }
  }

  lemma SeparateBlocks(g: MigrationGroup, ms: seq<Migration>, bs: seq<Block>)
    requires |bs| == |ms| && forall k :: 0 <= k < |bs| ==> bs[k].m == ms[k]
    requires forall k :: 0 <= k < |ms| ==> Nameable(g, ms[k])
    requires DistinctKeys(ms)
    ensures Separate(g, bs)
  {
  }

  /** Blocks that stay below mx write only output names. */
  lemma BlocksWithin(g: MigrationGroup, ms: seq<Migration>, bs: seq<Block>, mx: int)
    requires |bs| == |ms| && forall k :: 0 <= k < |bs| ==> bs[k].m == ms[k]
    requires forall k :: 0 <= k < |bs| ==> bs[k].datas == [] || bs[k].lo + |bs[k].datas| <= mx
    ensures BlockNames(g, bs) <= OutputNames(g, ms, mx)
  {
    forall n | n in BlockNames(g, bs) ensures n in OutputNames(g, ms, mx) {
      BlockNamesCover(g, bs, n);
      var k :| 0 <= k < |bs| && n in Span(g, bs[k].m, bs[k].lo, |bs[k].datas|);
      var i: nat :| bs[k].lo <= i < bs[k].lo + |bs[k].datas| && n == FragmentName(g, bs[k].m, i);
      assert n == FragmentName(g, ms[k], i);
    }
  }

  /** The files after the first pass over ms. */
  function AfterReal(files: map<string, string>, g: MigrationGroup, ms: seq<Migration>, sources: map<string, string>, cmdline: string): map<string, string> {
    Apply(files, Flatten(g, RealBlocks(ms, sources, cmdline)))
  }

  /** The files after both passes over ms, with counts and mx as the first pass left them. */
  function AfterPadding(files: map<string, string>, g: MigrationGroup, ms: seq<Migration>, sources: map<string, string>,
                        counts: map<string, nat>, mx: int, cmdline: string): map<string, string> {
    Apply(AfterReal(files, g, ms, sources, cmdline), Flatten(g, PadBlocks(ms, counts, mx, cmdline)))
  }

  /** What generateSQL leaves in fragment i of member k: a blank fragment if padding reaches
      it, else the member's real fragment i if it has one, else what was there before. */
  function Expected(files: map<string, string>, g: MigrationGroup, ms: seq<Migration>, sources: map<string, string>,
                    counts: map<string, nat>, mx: int, cmdline: string, k: nat, i: nat): Option<string>
    requires k < |ms|
  {
    var m := ms[k];
    if PadFrom(m, counts) <= i < mx then Some(BlankFragment(cmdline))
    else if i < FragmentCount(m, sources) then Some(Fragments(sources[m.path], cmdline)[i])
    else Lookup(files, FragmentName(g, m, i))
  }

  /** Members whose fragments can be told apart and that differ in dialect or direction. */
  predicate Distinguishable(g: MigrationGroup, ms: seq<Migration>) {
    (forall k :: 0 <= k < |ms| ==> Nameable(g, ms[k])) && DistinctKeys(ms)
  }

  /** Fragment i of member k after both passes. */
  lemma FileAt(files: map<string, string>, g: MigrationGroup, ms: seq<Migration>, sources: map<string, string>,
               counts: map<string, nat>, mx: int, cmdline: string, k: nat, i: nat)
    requires Distinguishable(g, ms) && k < |ms|
    ensures Lookup(AfterPadding(files, g, ms, sources, counts, mx, cmdline), FragmentName(g, ms[k], i))
      == Expected(files, g, ms, sources, counts, mx, cmdline, k, i)
  {
    PadPassAt(files, g, ms, sources, counts, mx, cmdline, k, i);
    RealPassAt(files, g, ms, sources, cmdline, k, i);
  }

  /** Fragment i of member k after the second pass: blank inside its padding range, else as
      the first pass left it. */
  lemma PadPassAt(files: map<string, string>, g: MigrationGroup, ms: seq<Migration>, sources: map<string, string>,
                  counts: map<string, nat>, mx: int, cmdline: string, k: nat, i: nat)
    requires Distinguishable(g, ms) && k < |ms|
    ensures var n := FragmentName(g, ms[k], i);
      Lookup(AfterPadding(files, g, ms, sources, counts, mx, cmdline), n)
        == if PadFrom(ms[k], counts) <= i < mx then Some(BlankFragment(cmdline))
           else Lookup(AfterReal(files, g, ms, sources, cmdline), n)
  {
    var pb := PadBlocks(ms, counts, mx, cmdline);
    var f1 := AfterReal(files, g, ms, sources, cmdline);
    SeparateBlocks(g, ms, pb);
    assert pb[k] == PadBlock(ms[k], counts, mx, cmdline);
    if PadFrom(ms[k], counts) <= i < mx {
      FlattenAt(f1, g, pb, k, i);
    } else {
      FlattenMissAt(f1, g, pb, k, i);
    }
  }

  /** Fragment i of member k after the first pass: its real fragment i when there is one,
      else as it was. */
  lemma RealPassAt(files: map<string, string>, g: MigrationGroup, ms: seq<Migration>, sources: map<string, string>,
                   cmdline: string, k: nat, i: nat)
    requires Distinguishable(g, ms) && k < |ms|
    ensures var n := FragmentName(g, ms[k], i);
      Lookup(AfterReal(files, g, ms, sources, cmdline), n)
        == if i < FragmentCount(ms[k], sources) then Some(Fragments(sources[ms[k].path], cmdline)[i])
           else Lookup(files, n)
  {
    var rb := RealBlocks(ms, sources, cmdline);
    SeparateBlocks(g, ms, rb);
    assert rb[k] == RealBlock(ms[k], sources, cmdline);
    if i < FragmentCount(ms[k], sources) {
      FlattenAt(files, g, rb, k, i);
    } else {
      FlattenMissAt(files, g, rb, k, i);
    }
  }

  /** Every file outside the output names is left as it was, when no member has more than
      mx fragments. */
  lemma FileElsewhere(files: map<string, string>, g: MigrationGroup, ms: seq<Migration>, sources: map<string, string>,
                      counts: map<string, nat>, mx: int, cmdline: string, n: string)
    requires forall k :: 0 <= k < |ms| ==> FragmentCount(ms[k], sources) <= mx
    requires n !in OutputNames(g, ms, mx)
    ensures Lookup(AfterPadding(files, g, ms, sources, counts, mx, cmdline), n) == Lookup(files, n)
  {
    var rb := RealBlocks(ms, sources, cmdline);
    var pb := PadBlocks(ms, counts, mx, cmdline);
    BlocksWithin(g, ms, rb, mx);
    BlocksWithin(g, ms, pb, mx);
    FlattenElsewhere(files, g, rb);
    FlattenElsewhere(AfterReal(files, g, ms, sources, cmdline), g, pb);
  }

  /** The first pass writes only output names. */
  lemma RealWithin(g: MigrationGroup, ms: seq<Migration>, sources: map<string, string>, cmdline: string)
    ensures BlockNames(g, RealBlocks(ms, sources, cmdline)) <= OutputNames(g, ms, MaxCount(ms, sources))
  {
    var mx := MaxCount(ms, sources);
    var rb := RealBlocks(ms, sources, cmdline);
    MaxCountMeaning(ms, sources);
    forall k | 0 <= k < |rb| ensures rb[k].datas == [] || rb[k].lo + |rb[k].datas| <= mx {
      assert rb[k] == RealBlock(ms[k], sources, cmdline);
      assert |rb[k].datas| == FragmentCount(ms[k], sources);
    }
    BlocksWithin(g, ms, rb, mx);
  }

  /** The second pass writes only output names. */
  lemma PadWithin(g: MigrationGroup, ms: seq<Migration>, counts: map<string, nat>, mx: int, cmdline: string)
    ensures BlockNames(g, PadBlocks(ms, counts, mx, cmdline)) <= OutputNames(g, ms, mx)
  {
    var pb := PadBlocks(ms, counts, mx, cmdline);
    forall k | 0 <= k < |pb| ensures pb[k].datas == [] || pb[k].lo + |pb[k].datas| <= mx {
      assert pb[k] == PadBlock(ms[k], counts, mx, cmdline);
    }
    BlocksWithin(g, ms, pb, mx);
  }

  /** The plan succeeds, with the files of the two passes, when every source can be read and
      no output name is refused. */
  lemma PlanExecutes(files: map<string, string>, denied: set<string>, g: MigrationGroup, sources: map<string, string>, cmdline: string)
    requires Readable(Members(g), sources)
    requires OutputNames(g, Members(g), MaxCount(Members(g), sources)) !! denied
    ensures var ms := Members(g);
      Execute(files, denied, Plan(g, sources, cmdline))
        == (AfterPadding(files, g, ms, sources, Counts(ms, sources), MaxCount(ms, sources), cmdline), None)
  {
    var ms := Members(g);
    var counts := Counts(ms, sources);
    var mx := MaxCount(ms, sources);
    var rb := RealBlocks(ms, sources, cmdline);
    var pb := PadBlocks(ms, counts, mx, cmdline);
    RealIsFlatten(g, ms, sources, cmdline);
    PaddingIsFlatten(g, ms, counts, mx, cmdline);
    RealWithin(g, ms, sources, cmdline);
    PadWithin(g, ms, counts, mx, cmdline);
    var f1 := AfterReal(files, g, ms, sources, cmdline);
    ExecuteFlatten(files, denied, g, rb);
    ExecuteFlatten(f1, denied, g, pb);
    ExecuteAppend(files, denied, Flatten(g, rb), Flatten(g, pb));
  }

  /** generateSQL on a well-formed group whose sources can all be read, whose members differ
      in dialect or direction, and whose output names may all be written: it succeeds;
      fragment i of member k ends as Expected says (blank from the count recorded for the
      member's dialect up to the largest count, else the real fragment, else untouched); and
      no file outside the output names changes. */
  lemma PlanOutcome(files: map<string, string>, denied: set<string>, g: MigrationGroup, sources: map<string, string>, cmdline: string)
    requires WellFormedGroup(g) && DistinctKeys(Members(g)) && Readable(Members(g), sources)
    requires OutputNames(g, Members(g), MaxCount(Members(g), sources)) !! denied
    ensures var ms := Members(g);
      var counts := Counts(ms, sources);
      var mx := MaxCount(ms, sources);
      var out := Execute(files, denied, Plan(g, sources, cmdline));
      && out.1 == None
      && (forall k: nat, i: nat :: k < |ms| ==>
            Lookup(out.0, FragmentName(g, ms[k], i)) == Expected(files, g, ms, sources, counts, mx, cmdline, k, i))
      && (forall n :: n !in OutputNames(g, ms, mx) ==> Lookup(out.0, n) == Lookup(files, n))
  {
    var ms := Members(g);
    var counts := Counts(ms, sources);
    var mx := MaxCount(ms, sources);
    PlanExecutes(files, denied, g, sources, cmdline);
    MembersNameable(g);
    MaxCountMeaning(ms, sources);
    forall k: nat, i: nat | k < |ms|
      ensures Lookup(AfterPadding(files, g, ms, sources, counts, mx, cmdline), FragmentName(g, ms[k], i))
        == Expected(files, g, ms, sources, counts, mx, cmdline, k, i)
    {
      FileAt(files, g, ms, sources, counts, mx, cmdline, k, i);
    }
    forall n | n !in OutputNames(g, ms, mx)
      ensures Lookup(AfterPadding(files, g, ms, sources, counts, mx, cmdline), n) == Lookup(files, n)
    {
      FileElsewhere(files, g, ms, sources, counts, mx, cmdline, n);
    }
  }

  /** The balancing guarantee: when all migrations of a dialect split into the same number
      of fragments, every member ends with exactly the fragments numbered below the largest
      count, its own real ones first and blank ones after, and nothing else changes. */
  lemma Balanced(files: map<string, string>, denied: set<string>, g: MigrationGroup, sources: map<string, string>, cmdline: string)
    requires WellFormedGroup(g) && DistinctKeys(Members(g)) && Readable(Members(g), sources)
    requires OutputNames(g, Members(g), MaxCount(Members(g), sources)) !! denied
    requires var ms := Members(g);
      forall k1, k2 :: 0 <= k1 < |ms| && 0 <= k2 < |ms| && ms[k1].dialect == ms[k2].dialect ==>
        FragmentCount(ms[k1], sources) == FragmentCount(ms[k2], sources)
    ensures var ms := Members(g);
      var mx := MaxCount(ms, sources);
      var out := Execute(files, denied, Plan(g, sources, cmdline));
      && out.1 == None
      && (forall k: nat, i: nat :: k < |ms| && i < mx ==>
            Lookup(out.0, FragmentName(g, ms[k], i))
              == if i < FragmentCount(ms[k], sources) then Some(Fragments(sources[ms[k].path], cmdline)[i])
                 else Some(BlankFragment(cmdline)))
      && (forall k: nat, i: nat :: k < |ms| && mx <= i ==>
            Lookup(out.0, FragmentName(g, ms[k], i)) == Lookup(files, FragmentName(g, ms[k], i)))
      && (forall n :: n !in OutputNames(g, ms, mx) ==> Lookup(out.0, n) == Lookup(files, n))
  {
    var ms := Members(g);
    var counts := Counts(ms, sources);
    var mx := MaxCount(ms, sources);
    PlanOutcome(files, denied, g, sources, cmdline);
    CountsUniform(ms, sources);
    MaxCountMeaning(ms, sources);
  }
}
